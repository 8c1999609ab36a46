/**
 * The keypad controller: one object holding the controller's `state` record,
 * the session-storage keys it reads and writes, and the page it navigates.
 * Each handler of the remote's keys is a method; the speech engine's boundary
 * and end callbacks, the Home key's timer and a modal shown by other code are
 * methods the environment calls.
 */
module KeyPadController {
  import opened Wrappers
  import opened Dom
  import opened KeyPadRules
  import opened SpeechSession

  /** A page navigation the controller started (`location.reload()` or `location.href`). */
  datatype Navigation = Stay | Reload | HomePage

  /** `detectActiveModal`: the first modal, in document order, that is shown. */
  function FirstShown(modals: seq<nat>, shown: set<nat>): (r: Option<nat>)
    ensures r.Some? ==> r.value in modals && r.value in shown
    ensures r.Some? ==> exists i :: 0 <= i < |modals| && modals[i] == r.value &&
                                    forall k :: 0 <= k < i ==> modals[k] !in shown
    ensures r.None? ==> forall m :: m in modals ==> m !in shown
  {
    if modals == [] then None
    else if modals[0] in shown then Some(modals[0])
    else FirstShown(modals[1..], shown)
  }

  /** The registry `resetFocusElems` builds: over the active modal, or over the page. */
  function ScopeRegistry(dom: seq<Elem>, modalActive: bool, modal: Option<nat>): seq<Elem>
    requires modalActive ==> modal.Some?
  {
    if modalActive then ModalRegistry(dom, modal.value) else PageRegistry(dom)
  }

  class Controller {
    // The page.
    const dom: seq<Elem>            // elements in document order
    const modals: seq<nat>          // modal elements (`[role="dialog"], .modal`) in document order
    const speechSupported: bool     // `'speechSynthesis' in window`
    var shownModals: set<nat>       // modals that are visible or have aria-hidden="false"
    var focused: set<nat>           // elements carrying the `focused` class
    var overlayShown: bool          // `#overlay, .overlay`
    var activations: seq<(nat, Activation)>  // clicks and pickers Enter triggered
    var navigation: Navigation

    // The `state` record.
    var isModalActive: bool
    var currentModal: Option<nat>
    var focusElems: seq<Elem>
    var focusIdx: int
    var prevFocus: seq<Elem>
    var homeTimerArmed: bool
    var homeKeyCount: int
    var volume: int
    var volumeIsText: bool          // `state.volume` holds the string read back from storage
    var connected: bool             // `state.isHeadphoneConnected`

    // Session storage (other than the speech keys, which live in `speech`).
    var storedTestMode: bool        // "test_mode" === 'true'
    var storedEarphone: Option<bool> // "g_earphone": 'Y' / 'N' / never written
    var storedVolume: Option<int>   // "volume"
    var speech: Speech

    ghost predicate Valid()
      reads this
    {
      && DistinctNodes(dom)
      && focusIdx >= -1
      && (isModalActive ==> currentModal.Some?)
      && (homeKeyCount == 0 || homeKeyCount == 1)
      && (homeTimerArmed <==> homeKeyCount == 1)
      && 0 <= volume <= MaxVolume
      && (storedVolume.Some? ==> 0 <= storedVolume.value <= MaxVolume)
      && Consistent(speech)
    }

    /**
     * The module is loaded: `state` takes its initial values and session
     * storage holds whatever this tab stored before. Only this controller
     * writes "volume", so a stored volume is in range.
     */
    constructor (dom: seq<Elem>, modals: seq<nat>, shownModals: set<nat>, overlayShown: bool,
                 speechSupported: bool, storedTestMode: bool, storedEarphone: Option<bool>,
                 storedVolume: Option<int>, storedText: Option<string>, storedOffset: Option<int>,
                 storedMark: UtteranceMark)
      requires DistinctNodes(dom)
      requires storedVolume.Some? ==> 0 <= storedVolume.value <= MaxVolume
      ensures Valid()
      ensures this.dom == dom && this.modals == modals && this.shownModals == shownModals
      ensures this.overlayShown == overlayShown && this.speechSupported == speechSupported
      ensures focused == {} && activations == [] && navigation == Stay
      ensures !isModalActive && currentModal.None? && focusElems == [] && focusIdx == -1
      ensures prevFocus == [] && !homeTimerArmed && homeKeyCount == 0
      ensures volume == 50 && !volumeIsText && !connected
      ensures this.storedTestMode == storedTestMode && this.storedEarphone == storedEarphone
      ensures this.storedVolume == storedVolume
      ensures speech == Speech(false, None, [], storedText, storedOffset, storedMark, [])
    {
      this.dom, this.modals, this.shownModals := dom, modals, shownModals;
      this.overlayShown, this.speechSupported := overlayShown, speechSupported;
      focused, activations, navigation := {}, [], Stay;
      isModalActive, currentModal, focusElems, focusIdx := false, None, [], -1;
      prevFocus, homeTimerArmed, homeKeyCount := [], false, 0;
      volume, volumeIsText, connected := 50, false, false;
      this.storedTestMode, this.storedEarphone, this.storedVolume := storedTestMode, storedEarphone, storedVolume;
      speech := Speech(false, None, [], storedText, storedOffset, storedMark, []);
    }

    /** `isHeadphoneConnected`: test mode forces true, otherwise the stored flag decides. */
    method IsHeadphoneConnected() returns (r: bool)
      requires Valid()
      modifies this`connected
      ensures Valid()
      ensures connected == (storedTestMode || storedEarphone == Some(true))
      ensures r == connected
    {
      if storedTestMode {
        connected := true;
      } else {
        connected := storedEarphone == Some(true);
      }
      r := connected;
    }

    /** `resetFocusElems`: rebuild the registry over the active modal or the page. */
    method ResetFocusElems()
      requires Valid()
      modifies this`focusElems
      ensures Valid()
      ensures focusElems == ScopeRegistry(dom, isModalActive, currentModal)
    {
      if isModalActive {
        var cands := ModalCandidates(dom, currentModal.value);
        var sorted := SortByTabIndex(NonNegativePart(cands));
        focusElems := MergeByPosition(cands, sorted);
      } else {
        focusElems := PageRegistry(dom);
      }
    }

    /** `speakFrom`. */
    method SpeakFrom(text: string, start: int)
      requires Valid()
      modifies this`speech
      ensures Valid()
      ensures speech == SpeechSession.SpeakFrom(old(speech), speechSupported, connected, text, start)
    {
      speech := SpeechSession.SpeakFrom(speech, speechSupported, connected, text, start);
    }

    /** The read-aloud tail of `setFocus` and `setFocusById`. */
    method ReadAloud(e: Elem, readTTS: bool)
      requires Valid()
      modifies this`speech
      ensures Valid()
      ensures speech == (if readTTS && storedEarphone == Some(true) && speechSupported && "container" !in e.classes
                         then SpeechSession.SpeakFrom(old(speech), speechSupported, connected, SpokenText(e), 0)
                         else old(speech))
    {
      if readTTS {
        if storedEarphone == Some(true) && speechSupported {
          if "container" !in e.classes {
            SpeakFrom(SpokenText(e), 0);
          }
        }
      }
    }

    /**
     * The marker and cursor part of `setFocus(idx, readTTS)`; on its own it
     * is `setFocus(idx, false)`.
     */
    method MoveFocus(idx: int)
      requires Valid()
      modifies this`focusIdx, this`focused
      ensures Valid()
      ensures !connected || idx < 0 || idx >= |focusElems| ==> focusIdx == old(focusIdx) && focused == old(focused)
      ensures connected && 0 <= idx < |focusElems| ==> focusIdx == idx && focused == {focusElems[idx].node}
    {
      if !connected {
        return;
      }
      if idx < 0 || idx >= |focusElems| {
        return;
      }
      focused := {};
      focusIdx := idx;
      focused := {focusElems[idx].node};
    }

    /** `setFocus(idx, readTTS)`. */
    method SetFocus(idx: int, readTTS: bool)
      requires Valid()
      modifies this`focusIdx, this`focused, this`speech
      ensures Valid()
      ensures !connected || idx < 0 || idx >= |focusElems| ==> unchanged(this)
      ensures connected && 0 <= idx < |focusElems| ==>
        && focusIdx == idx
        && focused == {focusElems[idx].node}
        && speech == (if readTTS && storedEarphone == Some(true) && speechSupported
                         && "container" !in focusElems[idx].classes
                      then SpeechSession.SpeakFrom(old(speech), speechSupported, connected,
                                                   SpokenText(focusElems[idx]), 0)
                      else old(speech))
    {
      if !connected || idx < 0 || idx >= |focusElems| {
        return;
      }
      MoveFocus(idx);
      ReadAloud(focusElems[idx], readTTS);
    }

    /**
     * `setFocusById(id, readTTS)`: the cursor follows the element, or becomes
     * -1 if it is not registered. An id that is not a plain name is handed to
     * jQuery's selector parser, which either throws or looks for a compound
     * selector; the model lets it match nothing.
     */
    method SetFocusById(id: string, readTTS: bool)
      requires Valid()
      modifies this`focusIdx, this`focused, this`speech
      ensures Valid()
      ensures !connected || !PlainId(id) || FindById(dom, id).None? ==> unchanged(this)
      ensures connected && PlainId(id) && FindById(dom, id).Some? ==>
        var e := FindById(dom, id).value;
        && focused == {e.node}
        && focusIdx == NodeIndex(focusElems, e.node)
        && (focusIdx >= 0 ==> focusElems[focusIdx].node == e.node)
        && (focusIdx == -1 ==> forall k :: 0 <= k < |focusElems| ==> focusElems[k].node != e.node)
        && speech == (if readTTS && storedEarphone == Some(true) && speechSupported && "container" !in e.classes
                      then SpeechSession.SpeakFrom(old(speech), speechSupported, connected, SpokenText(e), 0)
                      else old(speech))
    {
      if !connected {
        return;
      }
      if !PlainId(id) {
        return;
      }
      var found := FindById(dom, id);
      if found.None? {
        return;
      }
      var e := found.value;
      focused := {e.node};
      focusIdx := NodeIndex(focusElems, e.node);
      ReadAloud(e, readTTS);
    }

    /** Utterance `u`, live or cancelled, reports a boundary. */
    method OnBoundary(u: nat, name: string, charIndex: Option<int>)
      requires Valid() && u < |speech.starts|
      modifies this`speech
      ensures Valid()
      ensures speech == Boundary(old(speech), u, name, charIndex)
    {
      speech := Boundary(speech, u, name, charIndex);
    }

    /** Utterance `u`, live or cancelled, finishes. */
    method OnEnd(u: nat)
      requires Valid() && u < |speech.starts|
      modifies this`speech
      ensures Valid()
      ensures speech == End(old(speech), u)
    {
      speech := End(speech, u);
    }

    /** `openModal($modal)`. */
    method OpenModal(m: nat)
      requires Valid()
      modifies this`prevFocus, this`currentModal, this`isModalActive, this`focusElems,
               this`focusIdx, this`focused, this`shownModals, this`speech
      ensures Valid()
      ensures prevFocus == FocusedOutside(dom, old(focused), m)
      ensures forall e :: e in prevFocus ==> e.node in old(focused) && m !in e.ancestors
      ensures isModalActive && currentModal == Some(m)
      ensures focusElems == ModalRegistry(dom, m)
      ensures connected && |focusElems| > 0 ==> focusIdx == 0 && focused == {focusElems[0].node}
      ensures !(connected && |focusElems| > 0) ==> focusIdx == old(focusIdx) && focused == old(focused)
      ensures shownModals == old(shownModals) + {m}
      ensures speech == old(speech)
    {
      prevFocus := FocusedOutside(dom, focused, m);
      currentModal := Some(m);
      isModalActive := true;
      ResetFocusElems();
      MoveFocus(0);
      shownModals := shownModals + {m};
    }

    /**
     * `closeModal()`: back to page scope; the remembered element gets the
     * `focused` class again (the markers already there stay) and the cursor
     * moves to its position in the page registry, or -1.
     */
    method CloseModal()
      requires Valid()
      modifies this`isModalActive, this`focusElems, this`focused, this`focusIdx, this`currentModal
      ensures Valid()
      ensures !isModalActive && currentModal.None?
      ensures focusElems == PageRegistry(dom)
      ensures |prevFocus| == 0 ==> focusIdx == -1 && focused == old(focused)
      ensures |prevFocus| > 0 ==>
        && focused == old(focused) + NodesOf(prevFocus)
        && focusIdx == NodeIndex(focusElems, prevFocus[0].node)
    {
      isModalActive := false;
      ResetFocusElems();
      RestorePrevFocus();
      currentModal := None;
    }

    /** `closeModal`'s restore step: mark the saved elements again and find the first in the registry. */
    method RestorePrevFocus()
      requires Valid()
      modifies this`focused, this`focusIdx
      ensures Valid()
      ensures |prevFocus| == 0 ==> focusIdx == -1 && focused == old(focused)
      ensures |prevFocus| > 0 ==>
        && focused == old(focused) + NodesOf(prevFocus)
        && focusIdx == NodeIndex(focusElems, prevFocus[0].node)
    {
      if |prevFocus| > 0 {
        focused := focused + NodesOf(prevFocus);
        focusIdx := NodeIndex(focusElems, prevFocus[0].node);
      } else {
        focusIdx := -1;
      }
    }

    /** `handleTab(direction)`. */
    method HandleTab(dir: int)
      requires Valid() && IsDirection(dir)
      modifies this`focusIdx, this`focused, this`speech
      ensures Valid()
      ensures |focusElems| == 0 || !connected ==> unchanged(this)
      ensures |focusElems| > 0 && connected ==>
        var next := NextIndex(old(focusIdx), dir, |focusElems|);
        && focusIdx == next
        && focused == {focusElems[next].node}
        && speech == (if storedEarphone == Some(true) && speechSupported
                         && "container" !in focusElems[next].classes
                      then SpeechSession.SpeakFrom(old(speech), speechSupported, connected,
                                                   SpokenText(focusElems[next]), 0)
                      else old(speech))
    {
      if |focusElems| == 0 {
        return;
      }
      var next := NextIndex(focusIdx, dir, |focusElems|);
      SetFocus(next, true);
    }

    /** `handleEnter()`: jQuery's `.eq(focusIdx)` picks the element, so -1 means the last one. */
    method HandleEnter()
      requires Valid()
      modifies this`activations
      ensures Valid()
      ensures !connected || EqIndex(focusIdx, |focusElems|).None? ==> unchanged(this)
      ensures connected && EqIndex(focusIdx, |focusElems|).Some? ==>
        var e := focusElems[EqIndex(focusIdx, |focusElems|).value];
        activations == old(activations) +
          (if EnterAction(e) == NoActivation then [] else [(e.node, EnterAction(e))])
    {
      if !connected {
        return;
      }
      var k := EqIndex(focusIdx, |focusElems|);
      if k.None? {
        return;
      }
      var e := focusElems[k.value];
      var action := EnterAction(e);
      if action != NoActivation {
        activations := activations + [(e.node, action)];
      }
    }

    /** `handleUpKey()`. */
    method HandleUpKey()
      requires Valid()
      modifies this`volume, this`volumeIsText, this`storedVolume, this`speech
      ensures Valid()
      ensures var newVolume := RaisedVolume(old(volume), old(volumeIsText));
        if VolumeChanged(old(volume), old(volumeIsText), newVolume) then
          && volume == newVolume && !volumeIsText && storedVolume == Some(newVolume)
          && speech == (if Resumable(old(speech)) then Resume(old(speech), speechSupported, connected)
                        else old(speech))
        else unchanged(this)
    {
      var newVolume := RaisedVolume(volume, volumeIsText);
      if VolumeChanged(volume, volumeIsText, newVolume) {
        volume, volumeIsText := newVolume, false;
        storedVolume := Some(newVolume);
        if Resumable(speech) {
          SpeakFrom(speech.text.value, speech.offset.value);
        }
      }
    }

    /** `handleDownKey()`. */
    method HandleDownKey()
      requires Valid()
      modifies this`volume, this`volumeIsText, this`storedVolume, this`speech
      ensures Valid()
      ensures var newVolume := LoweredVolume(old(volume));
        if VolumeChanged(old(volume), old(volumeIsText), newVolume) then
          && volume == newVolume && !volumeIsText && storedVolume == Some(newVolume)
          && speech == (if Resumable(old(speech)) then Resume(old(speech), speechSupported, connected)
                        else old(speech))
        else unchanged(this)
    {
      var newVolume := LoweredVolume(volume);
      if VolumeChanged(volume, volumeIsText, newVolume) {
        volume, volumeIsText := newVolume, false;
        storedVolume := Some(newVolume);
        if Resumable(speech) {
          SpeakFrom(speech.text.value, speech.offset.value);
        }
      }
    }

    /**
     * `handleHomeKey()`: the first press arms the one-second timer; a second
     * press before it fires goes home and resets the count.
     */
    method HandleHomeKey()
      requires Valid()
      modifies this`homeTimerArmed, this`homeKeyCount, this`navigation
      ensures Valid()
      ensures old(homeKeyCount) == 0 ==>
        homeKeyCount == 1 && homeTimerArmed && navigation == old(navigation)
      ensures old(homeKeyCount) == 1 ==>
        homeKeyCount == 0 && !homeTimerArmed && navigation == HomePage
    {
      homeTimerArmed := false;
      homeKeyCount := homeKeyCount + 1;
      if homeKeyCount == 1 {
        homeTimerArmed := true;
      } else if homeKeyCount == 2 {
        homeTimerArmed := false;
        navigation := HomePage;
        homeKeyCount := 0;
      }
    }

    /** The Home key's timer fires. */
    method HomeTimerFires()
      requires Valid()
      modifies this`homeTimerArmed, this`homeKeyCount
      ensures Valid()
      ensures !old(homeTimerArmed) ==> unchanged(this)
      ensures old(homeTimerArmed) ==> homeKeyCount == 0 && !homeTimerArmed
    {
      if homeTimerArmed {
        homeKeyCount := 0;
        homeTimerArmed := false;
      }
    }

    /**
     * `handleHeadphoneIn()`: connect and mark the first element without
     * speech. The welcome popup it opens first is not modelled.
     */
    method HandleHeadphoneIn()
      requires Valid()
      modifies this`connected, this`storedEarphone, this`focusIdx, this`focused, this`speech
      ensures Valid()
      ensures connected && storedEarphone == Some(true)
      ensures |focusElems| > 0 ==> focusIdx == 0 && focused == {focusElems[0].node}
      ensures |focusElems| == 0 ==> focusIdx == old(focusIdx) && focused == old(focused)
      ensures speech == old(speech)
    {
      connected := true;
      storedEarphone := Some(true);
      MoveFocus(0);
    }

    /** `handleHeadphoneOut()`: disconnect, leave any modal, drop every marker, reload. */
    method HandleHeadphoneOut()
      requires Valid()
      modifies this`connected, this`storedEarphone, this`isModalActive, this`currentModal,
               this`focusElems, this`focused, this`focusIdx, this`overlayShown, this`navigation
      ensures Valid()
      ensures !connected && storedEarphone == Some(false)
      ensures !isModalActive
      ensures focusElems == PageRegistry(dom)
      ensures old(isModalActive) ==> !overlayShown && currentModal.None?
      ensures !old(isModalActive) ==> overlayShown == old(overlayShown) && currentModal == old(currentModal)
      ensures focused == {} && focusIdx == -1 && navigation == Reload
    {
      connected := false;
      storedEarphone := Some(false);
      LeaveScope();
      focused := {};
      focusIdx := -1;
      navigation := Reload;
    }

    /** The unplug reset's scope step: close an open modal and its overlay, or rebuild the page registry. */
    method LeaveScope()
      requires Valid()
      modifies this`isModalActive, this`currentModal, this`focusElems, this`focused, this`focusIdx, this`overlayShown
      ensures Valid()
      ensures !isModalActive
      ensures focusElems == PageRegistry(dom)
      ensures old(isModalActive) ==> !overlayShown && currentModal.None?
      ensures !old(isModalActive) ==> overlayShown == old(overlayShown) && currentModal == old(currentModal)
    {
      if isModalActive {
        CloseModal();
        overlayShown := false;
      } else {
        ResetFocusElems();
      }
    }

    /** Runs a handler of `keyHandlers`; `shift` is the event's Shift state, `None` when there is no event. */
    method Dispatch(h: Handler, shift: Option<bool>)
      requires Valid()
      modifies this
      ensures Valid()
      ensures h == TabKey && shift.None? ==> unchanged(this)
    {
      match h
      case TabKey =>
        if shift.Some? {
          HandleTab(if shift.value then -1 else 1);
        }
        // Without an event, `e.shiftKey` throws a TypeError before anything changes.
      case Previous => HandleTab(-1);
      case Next => HandleTab(1);
      case Activate => HandleEnter();
      case VolumeUp => HandleUpKey();
      case VolumeDown => HandleDownKey();
      case Home => HandleHomeKey();
      case HeadphoneIn => HandleHeadphoneIn();
      case HeadphoneOut => HandleHeadphoneOut();
    }

    /** `handleKeyEvent(e)`: returns whether the browser's default action was suppressed. */
    method HandleKeyEvent(key: string, shift: bool) returns (prevented: bool)
      requires Valid()
      modifies this
      ensures Valid()
      ensures RouteKey(key, old(storedTestMode), old(connected)).Stop? ==>
        unchanged(this) && prevented == RouteKey(key, old(storedTestMode), old(connected)).preventDefault
      ensures RouteKey(key, old(storedTestMode), old(connected)).Dispatch? ==> prevented
    {
      var route := RouteKey(key, storedTestMode, connected);
      match route
      case Stop(p) =>
        prevented := p;
      case Dispatch(h) =>
        prevented := true;
        Dispatch(h, Some(shift));
    }

    /** `handleKeyInput(key)`: the same gate for keys injected without an event. */
    method HandleKeyInput(key: string)
      requires Valid()
      modifies this
      ensures Valid()
      ensures RouteKey(key, old(storedTestMode), old(connected)).Stop? ==> unchanged(this)
      ensures key == KeyTab ==> unchanged(this)
    {
      var route := RouteKey(key, storedTestMode, connected);
      if route.Dispatch? {
        Dispatch(route.handler, None);
      }
    }

    /** Other code shows or hides a modal (seen by the next `update`). */
    method SetModalShown(m: nat, shown: bool)
      requires Valid()
      modifies this`shownModals
      ensures Valid()
      ensures shownModals == if shown then old(shownModals) + {m} else old(shownModals) - {m}
    {
      shownModals := if shown then shownModals + {m} else shownModals - {m};
    }

    /**
     * `update()`: adopt the first shown modal (or the page) as scope, rebuild,
     * move silently to the first element, then resynchronise the headphone flag.
     */
    method Update()
      requires Valid()
      modifies this`focusIdx, this`isModalActive, this`currentModal, this`focusElems,
               this`focused, this`speech, this`connected
      ensures Valid()
      ensures currentModal == FirstShown(modals, shownModals)
      ensures isModalActive == currentModal.Some?
      ensures focusElems == ScopeRegistry(dom, isModalActive, currentModal)
      ensures old(connected) && |focusElems| > 0 ==> focusIdx == 0 && focused == {focusElems[0].node}
      ensures !(old(connected) && |focusElems| > 0) ==> focusIdx == -1 && focused == old(focused)
      ensures speech == old(speech)
      ensures connected == (storedTestMode || storedEarphone == Some(true))
    {
      focusIdx := -1;
      var active := FirstShown(modals, shownModals);
      isModalActive, currentModal := active.Some?, active;
      ResetFocusElems();
      assert focusElems == ScopeRegistry(dom, isModalActive, currentModal);
      MoveFocus(0);
      var _ := IsHeadphoneConnected();
    }

    /**
     * `init($, options)`: without the DOM library nothing happens. Test mode
     * stores the flags and connects. Otherwise the speech keys are reset (the
     * offset's key is written with a trailing space, so the real
     * "lastCharIndex" keeps its value), a stored volume is adopted as a
     * string, and the headphone flag is read from storage.
     */
    method Init(hasLibrary: bool, testMode: bool)
      requires Valid()
      modifies this`storedTestMode, this`storedEarphone, this`connected, this`speech,
               this`storedVolume, this`volume, this`volumeIsText
      ensures Valid()
      ensures !hasLibrary ==> unchanged(this)
      ensures hasLibrary && testMode ==>
        storedTestMode && storedEarphone == Some(true) && connected
        && speech == old(speech) && storedVolume == old(storedVolume)
        && volume == old(volume) && volumeIsText == old(volumeIsText)
      ensures hasLibrary && !testMode ==>
        && !storedTestMode
        && speech == old(speech).(mark := NullText, text := Some("null"))
        && (old(storedVolume).None? ==>
              storedVolume == Some(50) && volume == old(volume) && volumeIsText == old(volumeIsText))
        && (old(storedVolume).Some? ==>
              storedVolume == old(storedVolume) && volume == old(storedVolume).value && volumeIsText)
        && storedEarphone == (if old(storedEarphone).None? then Some(false) else old(storedEarphone))
        && connected == (storedEarphone == Some(true))
    {
      if !hasLibrary {
        return;
      }
      if testMode {
        storedTestMode := true;
        storedEarphone := Some(true);
        connected := true;
      } else {
        storedTestMode := false;
        speech := speech.(mark := NullText, text := Some("null"));
        AdoptStoredVolume();
        SyncEarphone();
      }
    }

    /** `init`'s volume step: store the default, or adopt the stored string. */
    method AdoptStoredVolume()
      requires Valid()
      modifies this`storedVolume, this`volume, this`volumeIsText
      ensures Valid()
      ensures old(storedVolume).None? ==>
        storedVolume == Some(50) && volume == old(volume) && volumeIsText == old(volumeIsText)
      ensures old(storedVolume).Some? ==>
        storedVolume == old(storedVolume) && volume == old(storedVolume).value && volumeIsText
    {
      if storedVolume.None? {
        storedVolume := Some(50);
      } else {
        volume, volumeIsText := storedVolume.value, true;
      }
    }

    /** `init`'s headphone step: default the stored flag to 'N', then read it. */
    method SyncEarphone()
      requires Valid() && !storedTestMode
      modifies this`storedEarphone, this`connected
      ensures Valid()
      ensures storedEarphone == (if old(storedEarphone).None? then Some(false) else old(storedEarphone))
      ensures connected == (storedEarphone == Some(true))
    {
      if storedEarphone.None? {
        storedEarphone := Some(false);
      }
      var _ := IsHeadphoneConnected();
    }

    /** Right then Left (Tab then Shift+Tab) puts the cursor back on the element it left. */
    method TabRoundTrip()
      requires Valid() && connected && 0 <= focusIdx < |focusElems|
      modifies this`focusIdx, this`focused, this`speech
      ensures Valid()
      ensures focusIdx == old(focusIdx) && focused == {focusElems[focusIdx].node}
    {
      ghost var start := focusIdx;
      HandleTab(1);
      HandleTab(-1);
      TabForwardBack(start, |focusElems|);
    }

    /**
     * Opening a modal (any container the element does not lie in) from a
     * page element and closing it again brings the cursor back to that
     * element in the page registry, which carries the `focused` marker again.
     */
    method ModalRoundTrip(m: nat, x: Elem)
      requires Valid() && !isModalActive
      requires x in dom && OnPage(x) && m !in x.ancestors && focused == {x.node}
      modifies this`prevFocus, this`currentModal, this`isModalActive, this`focusElems,
               this`focusIdx, this`focused, this`shownModals, this`speech
      ensures Valid()
      ensures !isModalActive && focusElems == PageRegistry(dom)
      ensures 0 <= focusIdx < |focusElems| && focusElems[focusIdx] == x
      ensures x.node in focused
    {
      OpenModal(m);
      assert x in prevFocus;
      assert prevFocus[0] in prevFocus;
      SameNodeSameElem(dom, prevFocus[0], x);
      assert prevFocus[0] == x;
      CloseModal();
      PageRegistryArrangement(dom);
      assert x in focusElems;
      var k :| 0 <= k < |focusElems| && focusElems[k] == x;
      assert focusElems[k].node == x.node;
      assert focusIdx >= 0;
      var y := focusElems[focusIdx];
      assert y in focusElems;
      assert y in dom;
      SameNodeSameElem(dom, y, x);
    }
  }
}
