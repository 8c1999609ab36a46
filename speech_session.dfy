/**
 * The speech session of the keypad controller: what `speakFrom` keeps in
 * session storage ("currentText", "lastCharIndex", "currentUtterance"), the
 * speech engine's state, and the boundary and end callbacks of every
 * utterance it created. Each step is a function from the old session to the
 * new one.
 */
module SpeechSession {
  import opened Wrappers
  import opened KeyPadRules

  /**
   * What session storage holds under "currentUtterance". It stores strings:
   * after `speakFrom` the utterance object's string form (`Live`), after the
   * end callback or `init` the string "null" (`NullText`), which is truthy;
   * only a key never written reads back as `null` (`Unset`).
   */
  datatype UtteranceMark = Unset | Live | NullText

  datatype Speech = Speech(
    speaking: bool,         // the engine is speaking
    current: Option<nat>,   // the utterance the engine is speaking, as a position in `starts`
    starts: seq<int>,       // the `startIndex` each created utterance's callbacks captured
    text: Option<string>,   // "currentText"
    offset: Option<int>,    // "lastCharIndex"
    mark: UtteranceMark,    // "currentUtterance"
    spoken: seq<string>)    // every string handed to the engine, in order

  ghost predicate Consistent(s: Speech) {
    && (s.speaking <==> s.current.Some?)
    && (s.current.Some? ==> s.current.value < |s.starts|)
    && (s.speaking ==> s.text.Some? && s.offset.Some?)
  }

  /** `speechSynthesis.cancel()`. */
  function Cancel(s: Speech): (r: Speech)
    ensures !r.speaking && r.current.None?
    ensures r.starts == s.starts
    ensures r.text == s.text && r.offset == s.offset && r.mark == s.mark && r.spoken == s.spoken
  {
    s.(speaking := false, current := None)
  }

  /**
   * `speakFrom(text, startIndex)`: nothing without an engine or a connected
   * headphone; otherwise cancel, and for a non-empty text persist the text
   * and offset and speak `text.slice(startIndex)` as a new utterance, whose
   * callbacks keep `startIndex`.
   */
  function SpeakFrom(s: Speech, supported: bool, connected: bool, text: string, start: int): (r: Speech)
    ensures !supported || !connected ==> r == s
    ensures supported && connected && text == "" ==> r == Cancel(s)
    ensures supported && connected && text != "" ==>
      && r.speaking && r.current == Some(|s.starts|) && r.starts == s.starts + [start]
      && r.text == Some(text) && r.offset == Some(start) && r.mark == Live
      && r.spoken == s.spoken + [JsSlice(text, start)]
    ensures Consistent(s) ==> Consistent(r)
  {
    if !supported || !connected then s
    else if text == "" then Cancel(s)
    else Speech(true, Some(|s.starts|), s.starts + [start], Some(text), Some(start), Live,
                s.spoken + [JsSlice(text, start)])
  }

  /**
   * `onboundary` of utterance `u`: for a word or sentence boundary, or any
   * event carrying a character index, the stored offset becomes `u`'s own
   * start plus that index (0 when absent). Nothing disables the callback when
   * a later `speakFrom` cancels `u`, so a late event of a cancelled utterance
   * writes too; the engine's state is not touched.
   */
  function Boundary(s: Speech, u: nat, name: string, charIndex: Option<int>): (r: Speech)
    requires u < |s.starts|
    ensures (name == "word" || name == "sentence" || charIndex.Some?) ==>
      r == s.(offset := Some(s.starts[u] + (if charIndex.Some? then charIndex.value else 0)))
    ensures !(name == "word" || name == "sentence" || charIndex.Some?) ==> r == s
    ensures r.speaking == s.speaking && r.current == s.current
    ensures Consistent(s) ==> Consistent(r)
  {
    if name == "word" || name == "sentence" || charIndex.Some? then
      s.(offset := Some(s.starts[u] + (if charIndex.Some? then charIndex.value else 0)))
    else s
  }

  /**
   * `onend` of utterance `u`: the offset goes back to 0 and the utterance
   * marker to "null", whichever utterance `u` is. The engine stops only when
   * `u` is the one it is speaking.
   */
  function End(s: Speech, u: nat): (r: Speech)
    requires u < |s.starts|
    ensures r.offset == Some(0) && r.mark == NullText
    ensures r.text == s.text && r.starts == s.starts && r.spoken == s.spoken
    ensures s.current == Some(u) ==> !r.speaking && r.current.None?
    ensures s.current != Some(u) ==> r.speaking == s.speaking && r.current == s.current
    ensures Consistent(s) ==> Consistent(r)
  {
    if s.current == Some(u) then s.(speaking := false, current := None, offset := Some(0), mark := NullText)
    else s.(offset := Some(0), mark := NullText)
  }

  /** `currentUtterance && speechSynthesis.speaking`: the volume keys restart speech only then. */
  predicate Resumable(s: Speech) {
    s.mark != Unset && s.speaking
  }

  /** Restarting from the persisted point, as the volume keys do. */
  function Resume(s: Speech, supported: bool, connected: bool): (r: Speech)
    requires Consistent(s) && s.speaking
    ensures supported && connected && s.text.value != "" ==>
      r.spoken == s.spoken + [JsSlice(s.text.value, s.offset.value)]
  {
    SpeakFrom(s, supported, connected, s.text.value, s.offset.value)
  }

  /**
   * Speaking a text, reaching a boundary at character `c`, and speaking the
   * same text again from the stored offset reads only the rest of the text.
   */
  lemma ResumeReadsRest(s: Speech, t: string, c: nat)
    requires t != "" && c <= |t|
    ensures var s1 := SpeakFrom(s, true, true, t, 0);
      var s2 := Boundary(s1, |s.starts|, "word", Some(c));
      && s2.text == Some(t) && s2.offset == Some(c)
      && SpeakFrom(s2, true, true, s2.text.value, s2.offset.value).spoken
         == s.spoken + [t, t[c..]]
  {
    var s1 := SpeakFrom(s, true, true, t, 0);
    assert JsSlice(t, 0) == t;
  }

  /** After the end callback the marker still reads as truthy; only the engine's state stops a restart. */
  lemma EndedStaysMarked(s: Speech)
    requires Consistent(s) && s.current.Some?
    ensures End(s, s.current.value).mark != Unset && !Resumable(End(s, s.current.value))
  {
  }

  /**
   * A late boundary of an utterance cancelled by a restart from `b` stores
   * the cancelled utterance's start `a` plus its index, so a later restart
   * reads from there rather than from where the new utterance has got to.
   */
  lemma StaleBoundaryWritesOwnStart(s: Speech, t: string, a: int, b: int, c: nat)
    requires t != ""
    ensures var s1 := SpeakFrom(s, true, true, t, a);
      var s2 := SpeakFrom(s1, true, true, t, b);
      var s3 := Boundary(s2, |s.starts|, "word", Some(c));
      && s3.speaking && s3.current == Some(|s.starts| + 1)
      && s3.offset == Some(a + c)
  {
  }

  /**
   * A late end of an utterance cancelled by a restart resets the offset to 0
   * and the marker to "null" while the new utterance goes on speaking, so
   * the next restart reads the whole text from the start.
   */
  lemma StaleEndRestartsFromTop(s: Speech, t: string, a: int, b: int)
    requires t != ""
    ensures var s1 := SpeakFrom(s, true, true, t, a);
      var s2 := SpeakFrom(s1, true, true, t, b);
      var s3 := End(s2, |s.starts|);
      && Consistent(s3) && Resumable(s3)
      && Resume(s3, true, true).spoken == s2.spoken + [t]
  {
    var s1 := SpeakFrom(s, true, true, t, a);
    var s2 := SpeakFrom(s1, true, true, t, b);
    assert JsSlice(t, 0) == t;
  }
}
