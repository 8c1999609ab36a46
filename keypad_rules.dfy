/**
 * The parts of the keypad controller that are plain expressions: the cursor
 * arithmetic of Tab, the volume steps, the key gate, what Enter does with an
 * element, and the JavaScript/jQuery primitives they rest on.
 */
module KeyPadRules {
  import opened Wrappers
  import opened Dom

  // ---------------------------------------------------------------------
  // JavaScript and jQuery primitives.

  /** `Math.trunc(a / n)`: the quotient rounded toward zero. */
  function TruncDiv(a: int, n: int): int
    requires n > 0
  {
    if a >= 0 then a / n else -((-a) / n)
  }

  /**
   * JavaScript `a % n`: what is left of `a` after the truncated quotient, so
   * the remainder takes the sign of `a`.
   */
  function JsRem(a: int, n: int): (r: int)
    requires n > 0
    ensures a >= 0 ==> 0 <= r < n
    ensures a < 0 ==> -n < r <= 0
    ensures a == n * TruncDiv(a, n) + r
  {
    if a >= 0 then a % n else -((-a) % n)
  }

  /**
   * jQuery `.eq(i)` on a collection of `n` elements: a negative index counts
   * from the end; an index out of range selects nothing.
   */
  function EqIndex(i: int, n: nat): (r: Option<nat>)
    ensures r.Some? ==> r.value < n
    ensures 0 <= i < n ==> r == Some(i)
    ensures i < 0 && n + i >= 0 ==> r == Some(n + i)
    ensures (i >= n || n + i < 0) ==> r.None?
  {
    if 0 <= i < n then Some(i)
    else if i < 0 && n + i >= 0 then Some(n + i)
    else None
  }

  /** JavaScript `s.slice(k)`: a negative start counts from the end, a start past the end gives "". */
  function JsSlice(s: string, k: int): (r: string)
    ensures |r| <= |s|
    ensures r == s[|s| - |r|..]
    ensures 0 <= k <= |s| ==> |r| == |s| - k
    ensures k >= |s| ==> r == ""
    ensures k < 0 ==> |r| == (if |s| + k >= 0 then -k else |s|)
  {
    if k >= |s| then ""
    else if k >= 0 then s[k..]
    else if |s| + k >= 0 then s[|s| + k..]
    else s
  }

  // ---------------------------------------------------------------------
  // Tab: `(focusIdx + direction + n) % n`.

  predicate IsDirection(d: int) {
    d == 1 || d == -1
  }

  function NextIndex(idx: int, dir: int, n: nat): (r: int)
    requires n > 0 && idx >= -1 && IsDirection(dir)
    ensures 0 <= r < n
  {
    JsRem(idx + dir + n, n)
  }

  /** `a % n` for `a` in `0..2n` takes off at most two `n`s. */
  lemma {:induction false} ModSmall(a: int, n: int)
    requires 0 < n && 0 <= a <= 2 * n
    ensures a % n == (if a < n then a else if a < 2 * n then a - n else 0)
  {
    if a == 2 * n {
      assert a == 2 * n + 0;
    } else if a >= n {
      assert a == (a - n) + n;
      assert (a - n) % n == a - n;
    }
  }

  /** From a valid position, Tab steps to the neighbour and wraps around at either end. */
  lemma {:induction false} NextIndexSteps(idx: int, dir: int, n: nat)
    requires n > 0 && 0 <= idx < n && IsDirection(dir)
    ensures dir == 1 ==> NextIndex(idx, dir, n) == (if idx == n - 1 then 0 else idx + 1)
    ensures dir == -1 ==> NextIndex(idx, dir, n) == (if idx == 0 then n - 1 else idx - 1)
  {
    ModSmall(idx + dir + n, n);
  }

  /** Shift+Tab (or Left) from the unset cursor lands on `n - 2`, not on the last element. */
  lemma {:induction false} BackFromUnset(n: nat)
    requires n >= 2
    ensures NextIndex(-1, -1, n) == n - 2
  {
    ModSmall(n - 2, n);
  }

  /** Forward then back returns to any valid start index. */
  lemma {:induction false} TabForwardBack(i: int, n: nat)
    requires 0 <= i < n
    ensures NextIndex(NextIndex(i, 1, n), -1, n) == i
    ensures NextIndex(NextIndex(i, -1, n), 1, n) == i
  {
    NextIndexSteps(i, 1, n);
    NextIndexSteps(i, -1, n);
    NextIndexSteps(NextIndex(i, 1, n), -1, n);
    NextIndexSteps(NextIndex(i, -1, n), 1, n);
  }

  /** The cursor after `k` forward presses from `i`. */
  function Forward(i: int, k: nat, n: nat): (r: int)
    requires n > 0 && 0 <= i < n
    ensures 0 <= r < n
  {
    if k == 0 then i else NextIndex(Forward(i, k - 1, n), 1, n)
  }

  lemma {:induction false} ForwardCompose(i: int, a: nat, b: nat, n: nat)
    requires n > 0 && 0 <= i < n
    ensures Forward(i, a + b, n) == Forward(Forward(i, a, n), b, n)
  {
    if b > 0 {
      ForwardCompose(i, a, b - 1, n);
    }
  }

  lemma {:induction false} ForwardUpToEnd(i: int, k: nat, n: nat)
    requires n > 0 && 0 <= i && i + k < n
    ensures Forward(i, k, n) == i + k
  {
    if k > 0 {
      ForwardUpToEnd(i, k - 1, n);
      NextIndexSteps(i + k - 1, 1, n);
    }
  }

  /** `n` forward presses on an `n`-element registry come back to the start. */
  lemma {:induction false} ForwardCycles(i: int, n: nat)
    requires n > 0 && 0 <= i < n
    ensures Forward(i, n, n) == i
  {
    ForwardUpToEnd(i, n - 1 - i, n);
    NextIndexSteps(n - 1, 1, n);
    assert Forward(i, n - i, n) == 0;
    ForwardCompose(i, n - i, i, n);
    ForwardUpToEnd(0, i, n);
  }

  // ---------------------------------------------------------------------
  // Volume. `state.volume` is a number, except after `init` copied it from
  // session storage, where it is the decimal string of a number; `isText`
  // says which. For a string "v", `"v" + 5` concatenates to "v5" (the number
  // 10*v + 5 once `Math.min` converts it), `"v" - 5` subtracts, and `!==`
  // between the new number and the old string is always true.

  const VolumeStep := 5
  const MaxVolume := 100

  function Min(a: int, b: int): int { if a <= b then a else b }
  function Max(a: int, b: int): int { if a >= b then a else b }

  function RaisedVolume(v: int, isText: bool): (r: int)
    requires 0 <= v <= MaxVolume
    ensures 0 <= r <= MaxVolume
    ensures r >= v
    ensures !isText ==> (r == MaxVolume || r == v + VolumeStep)
    ensures !isText && v + VolumeStep <= MaxVolume ==> r == v + VolumeStep
    ensures isText && v >= 10 ==> r == MaxVolume
    ensures isText && v < 10 ==> r == 10 * v + VolumeStep
  {
    if isText then Min(v * 10 + VolumeStep, MaxVolume) else Min(v + VolumeStep, MaxVolume)
  }

  function LoweredVolume(v: int): (r: int)
    requires 0 <= v <= MaxVolume
    ensures 0 <= r <= v
    ensures r == 0 || r == v - VolumeStep
    ensures v >= VolumeStep ==> r == v - VolumeStep
  {
    Max(v - VolumeStep, 0)
  }

  /** `newVolume !== state.volume`. */
  predicate VolumeChanged(v: int, isText: bool, newVolume: int) {
    isText || newVolume != v
  }

  /** The numeric volume after `k` Up presses. */
  function RaisedTimes(v: int, k: nat): (r: int)
    requires 0 <= v <= MaxVolume
    ensures 0 <= r <= MaxVolume
  {
    if k == 0 then v else RaisedVolume(RaisedTimes(v, k - 1), false)
  }

  function LoweredTimes(v: int, k: nat): (r: int)
    requires 0 <= v <= MaxVolume
    ensures 0 <= r <= MaxVolume
  {
    if k == 0 then v else LoweredVolume(LoweredTimes(v, k - 1))
  }

  /** Repeated Up presses climb by the step and stop at the maximum. */
  lemma {:induction false} RaisedTimesClamps(v: int, k: nat)
    requires 0 <= v <= MaxVolume
    ensures RaisedTimes(v, k) == Min(v + VolumeStep * k, MaxVolume)
  {
    if k > 0 {
      RaisedTimesClamps(v, k - 1);
    }
  }

  /** Repeated Down presses fall by the step and stop at zero. */
  lemma {:induction false} LoweredTimesClamps(v: int, k: nat)
    requires 0 <= v <= MaxVolume
    ensures LoweredTimes(v, k) == Max(v - VolumeStep * k, 0)
  {
    if k > 0 {
      LoweredTimesClamps(v, k - 1);
    }
  }

  lemma ElevenUpsFromFifty()
    ensures RaisedTimes(50, 11) == MaxVolume
  {
    RaisedTimesClamps(50, 11);
  }

  // ---------------------------------------------------------------------
  // Keys. The remote's buttons arrive under these names.

  const KeyTab := "Tab"
  const KeyLeft := "ArrowUp"
  const KeyRight := "ArrowDown"
  const KeyEnter := "Enter"
  const KeyUp := "ArrowRight"
  const KeyDown := "ArrowLeft"
  const KeyHome := "F17"
  const KeyHeadphoneIn := "F15"
  const KeyHeadphoneOut := "F16"

  datatype Handler = TabKey | Previous | Next | Activate | VolumeUp | VolumeDown
                   | Home | HeadphoneIn | HeadphoneOut

  /** The `keyHandlers` table. */
  function HandlerOf(key: string): (r: Option<Handler>)
    ensures r == Some(HeadphoneIn) <==> key == KeyHeadphoneIn
    ensures r == Some(HeadphoneOut) <==> key == KeyHeadphoneOut
    ensures r == Some(Activate) <==> key == KeyEnter
  {
    if key == KeyTab then Some(TabKey)
    else if key == KeyLeft then Some(Previous)
    else if key == KeyRight then Some(Next)
    else if key == KeyEnter then Some(Activate)
    else if key == KeyUp then Some(VolumeUp)
    else if key == KeyDown then Some(VolumeDown)
    else if key == KeyHome then Some(Home)
    else if key == KeyHeadphoneIn then Some(HeadphoneIn)
    else if key == KeyHeadphoneOut then Some(HeadphoneOut)
    else None
  }

  /** What the gate does with a key: run a handler, or stop (possibly suppressing the browser default). */
  datatype Route = Dispatch(handler: Handler) | Stop(preventDefault: bool)

  /**
   * `handleKeyEvent`'s decision. Disconnected outside test mode, only the
   * headphone keys reach a handler; Enter is dropped silently and the other
   * controller keys lose their browser default.
   */
  function RouteKey(key: string, testMode: bool, connected: bool): (r: Route)
    ensures key == "" ==> r == Stop(false)
    ensures r.Dispatch? ==> HandlerOf(key) == Some(r.handler)
    ensures (testMode || connected) && key != "" ==>
              (r.Dispatch? <==> HandlerOf(key).Some?)
    ensures !testMode && !connected ==>
              (r.Dispatch? <==> key == KeyHeadphoneIn || key == KeyHeadphoneOut)
    ensures !testMode && !connected && r.Stop? ==>
              (r.preventDefault <==> HandlerOf(key).Some? && key != KeyEnter)
    ensures (testMode || connected) && r.Stop? ==> !r.preventDefault
  {
    if key == "" then Stop(false)
    else if !testMode && !connected then
      if key == KeyHeadphoneIn || key == KeyHeadphoneOut then Dispatch(HandlerOf(key).value)
      else if key == KeyEnter then Stop(false)
      else Stop(HandlerOf(key).Some?)
    else
      match HandlerOf(key)
      case Some(h) => Dispatch(h)
      case None => Stop(false)
  }

  // ---------------------------------------------------------------------
  // Enter.

  datatype Activation = Click | OpenPicker | NoActivation

  predicate ClickableTag(t: Tag) {
    match t
    case Button | Anchor | Span | Label | InputButton | InputSubmit | InputCheckbox => true
    case InputDate | OtherTag => false
  }

  /** What `handleEnter` does with the focused element. */
  function EnterAction(e: Elem): (r: Activation)
    ensures r == Click <==> "key" in e.classes || (e.tag != InputDate && ClickableTag(e.tag))
    ensures r == OpenPicker <==> "key" !in e.classes && e.tag == InputDate
    ensures r == NoActivation <==> "key" !in e.classes && e.tag == OtherTag
  {
    if "key" in e.classes then Click
    else if e.tag == InputDate then OpenPicker
    else if ClickableTag(e.tag) then Click
    else NoActivation
  }

  /** What `setFocus` reads aloud: the aria-label when it is non-empty, else the text. */
  function SpokenText(e: Elem): (r: string)
    ensures e.ariaLabel != "" ==> r == e.ariaLabel
    ensures e.ariaLabel == "" ==> r == e.text
  {
    if e.ariaLabel != "" then e.ariaLabel else e.text
  }
}
