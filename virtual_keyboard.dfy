/**
 * The on-screen PIN keypad: a shuffled 4x3 table of digits, a back cell and
 * an empty cell, typing into a row of password slots. The active slot is a
 * closure variable reassigned by the cell handlers; the slots' values and
 * the page's `actualPassword` table are written in place.
 */
module VirtualKeyboard {
  import opened Wrappers

  /**
   * Fisher-Yates from the last cell down: cell `i` swaps with a cell `j`
   * chosen in `0..i` (`Math.floor(Math.random() * (i + 1))`, any such `j`).
   * The same array comes back, rearranged.
   */
  method Shuffle(arr: array<int>) returns (r: array<int>)
    modifies arr
    ensures r == arr
    ensures multiset(arr[..]) == multiset(old(arr[..]))
  {
    var i := arr.Length - 1;
    while i > 0
      invariant -1 <= i < arr.Length
      invariant multiset(arr[..]) == multiset(old(arr[..]))
      decreases i
    {
      var j :| 0 <= j <= i;
      arr[i], arr[j] := arr[j], arr[i];
      i := i - 1;
    }
    r := arr;
  }

  /** `[...Array(k).keys()]` holds each of 0..k-1 exactly once. */
  lemma {:induction false} KeysCount(s: seq<int>, d: int)
    requires forall i :: 0 <= i < |s| ==> s[i] == i
    ensures multiset(s)[d] == (if 0 <= d < |s| then 1 else 0)
  {
    if s != [] {
      var init := s[..|s| - 1];
      KeysCount(init, d);
      assert s == init + [|s| - 1];
    }
  }

  /** `shuffle([...Array(10).keys()])`: the digits 0..9 in some order. */
  method ShuffledKeys() returns (numbers: seq<int>)
    ensures |numbers| == 10 && EachDigitOnce(numbers)
  {
    var keys := new int[10](i => i);
    ghost var before := keys[..];
    var shuffled := Shuffle(keys);
    numbers := shuffled[..];
    forall d
      ensures multiset(numbers)[d] == (if 0 <= d < 10 then 1 else 0)
    {
      KeysCount(before, d);
    }
  }

  /** The digits 0..9, each exactly once, and nothing else. */
  ghost predicate EachDigitOnce(ns: seq<int>) {
    forall d :: multiset(ns)[d] == (if 0 <= d < 10 then 1 else 0)
  }

  /** A cell of the keypad table. */
  datatype Cell = Digit(d: int) | Blank | Back

  /** The table `showKeypad` lays out from the shuffled numbers. */
  function Layout(numbers: seq<int>): (r: seq<seq<Cell>>)
    requires |numbers| == 10
    ensures |r| == 4 && forall row :: 0 <= row < 4 ==> |r[row]| == 3
    ensures forall row, col :: 0 <= row < 3 && 0 <= col < 3 ==> r[row][col] == Digit(numbers[3 * row + col])
    ensures r[3][0] == Blank && r[3][1] == Digit(numbers[9]) && r[3][2] == Back
  {
    [[Digit(numbers[0]), Digit(numbers[1]), Digit(numbers[2])],
     [Digit(numbers[3]), Digit(numbers[4]), Digit(numbers[5])],
     [Digit(numbers[6]), Digit(numbers[7]), Digit(numbers[8])],
     [Blank, Digit(numbers[9]), Back]]
  }

  /** The cells of a table, row by row. */
  function Flatten(rows: seq<seq<Cell>>): (r: seq<Cell>)
  {
    if rows == [] then [] else rows[0] + Flatten(rows[1..])
  }

  function DigitCells(ns: seq<int>): (r: seq<Cell>)
    ensures |r| == |ns|
    ensures forall i :: 0 <= i < |ns| ==> r[i] == Digit(ns[i])
  {
    if ns == [] then [] else [Digit(ns[0])] + DigitCells(ns[1..])
  }

  /** A digit occurs among the digit cells as often as among the numbers. */
  lemma {:induction false} DigitCellsCount(ns: seq<int>, d: int)
    ensures multiset(DigitCells(ns))[Digit(d)] == multiset(ns)[d]
  {
    if ns != [] {
      DigitCellsCount(ns[1..], d);
      assert ns == [ns[0]] + ns[1..];
    }
  }

  lemma {:induction false} LayoutCells(numbers: seq<int>)
    requires |numbers| == 10
    ensures Flatten(Layout(numbers)) == DigitCells(numbers[..9]) + [Blank, Digit(numbers[9]), Back]
  {
    var l := Layout(numbers);
    assert l[3..][1..] == [];
    assert Flatten(l[3..]) == l[3];
    assert l[2..][1..] == l[3..];
    assert Flatten(l[2..]) == l[2] + l[3];
    assert l[1..][1..] == l[2..];
    assert Flatten(l[1..]) == l[1] + (l[2] + l[3]);
    assert Flatten(l) == l[0] + (l[1] + (l[2] + l[3]));
    assert l[0] + l[1] + l[2] == DigitCells(numbers[..9]);
  }

  /** How often each digit occurs in the table: as often as among the numbers. */
  lemma {:induction false} LayoutCounts(numbers: seq<int>, d: int)
    requires |numbers| == 10
    ensures multiset(Flatten(Layout(numbers)))[Digit(d)] == multiset(numbers)[d]
    ensures multiset(Flatten(Layout(numbers)))[Blank] == 1 && multiset(Flatten(Layout(numbers)))[Back] == 1
  {
    LayoutMultiset(numbers);
    DigitCellsCount(numbers[..9], d);
    DigitCellsHaveDigits(numbers[..9]);
    LastNumberCount(numbers, d);
    LastRowCount(numbers[9], d);
  }

  lemma {:induction false} LastRowCount(x: int, d: int)
    ensures multiset([Blank, Digit(x), Back])[Digit(d)] == (if x == d then 1 else 0)
    ensures multiset([Blank, Digit(x), Back])[Blank] == 1 && multiset([Blank, Digit(x), Back])[Back] == 1
  {
    assert [Blank, Digit(x), Back] == [Blank] + [Digit(x)] + [Back];
  }

  lemma {:induction false} LayoutMultiset(numbers: seq<int>)
    requires |numbers| == 10
    ensures multiset(Flatten(Layout(numbers)))
      == multiset(DigitCells(numbers[..9])) + multiset([Blank, Digit(numbers[9]), Back])
  {
    LayoutCells(numbers);
  }

  lemma {:induction false} LastNumberCount(numbers: seq<int>, d: int)
    requires |numbers| == 10
    ensures multiset(numbers)[d] == multiset(numbers[..9])[d] + (if numbers[9] == d then 1 else 0)
  {
    assert numbers == numbers[..9] + [numbers[9]];
  }

  /** Every digit 0..9 occurs exactly once in the table, no other digit does, and there is one blank and one back cell. */
  ghost predicate ShowsEachDigitOnce(t: seq<seq<Cell>>) {
    && (forall d :: multiset(Flatten(t))[Digit(d)] == (if 0 <= d < 10 then 1 else 0))
    && multiset(Flatten(t))[Blank] == 1 && multiset(Flatten(t))[Back] == 1
  }

  /** Built from a permutation of 0..9, the table shows every digit exactly once, no other digit, one blank and one back cell. */
  lemma {:induction false} LayoutDigitsOnce(numbers: seq<int>)
    requires |numbers| == 10 && EachDigitOnce(numbers)
    ensures ShowsEachDigitOnce(Layout(numbers))
  {
    forall d
      ensures multiset(Flatten(Layout(numbers)))[Digit(d)] == (if 0 <= d < 10 then 1 else 0)
    {
      LayoutCounts(numbers, d);
    }
    LayoutCounts(numbers, 0);
  }

  lemma {:induction false} DigitCellsHaveDigits(ns: seq<int>)
    ensures multiset(DigitCells(ns))[Blank] == 0 && multiset(DigitCells(ns))[Back] == 0
  {
    if ns != [] {
      DigitCellsHaveDigits(ns[1..]);
    }
  }

  /** The table of a fresh `showKeypad`: a shuffle of the digits laid out. */
  method ShuffledLayout() returns (t: seq<seq<Cell>>)
    ensures |t| == 4 && forall row :: 0 <= row < 4 ==> |t[row]| == 3
    ensures t[3][0] == Blank && t[3][2] == Back
    ensures ShowsEachDigitOnce(t)
  {
    var numbers := ShuffledKeys();
    LayoutDigitsOnce(numbers);
    t := Layout(numbers);
  }

  /** A sibling element of the slot row; `isPassword` for the `password-input` class. */
  datatype Slot = Slot(isPassword: bool, dataIndex: Option<int>, value: string)

  /** Every password slot holds `'*'`. */
  predicate AllFilled(s: seq<Slot>) {
    forall i :: 0 <= i < |s| && s[i].isPassword ==> s[i].value == "*"
  }

  /** `String(cell)` for a digit cell. */
  function DigitText(d: int): (r: string)
    requires 0 <= d < 10
    ensures |r| == 1 && '0' <= r[0] <= '9'
    ensures r[0] as int - '0' as int == d
  {
    ['0' + d as char]
  }

  class Keypad {
    const slots: array<Slot>           // the siblings of the slot row, in order
    const hasActualPassword: bool      // `window.actualPassword` is set
    var actualPassword: map<int, string>
    var active: Option<nat>            // `activeInput`
    var docFocus: Option<nat>          // `document.activeElement`, when it is a slot
    var modalShown: bool
    var overlayShown: bool
    var layout: seq<seq<Cell>>         // the table on display
    var pendingRefocus: nat            // 10 ms timers scheduled and not yet fired

    ghost predicate Valid()
      reads this
    {
      && (active.Some? ==> active.value < slots.Length)
      && (docFocus.Some? ==> docFocus.value < slots.Length)
    }

    constructor (slots: array<Slot>, hasActualPassword: bool, actualPassword: map<int, string>)
      ensures Valid()
      ensures this.slots == slots && this.hasActualPassword == hasActualPassword
      ensures this.actualPassword == actualPassword
      ensures active.None? && docFocus.None? && !modalShown && !overlayShown
      ensures layout == [] && pendingRefocus == 0
    {
      this.slots, this.hasActualPassword, this.actualPassword := slots, hasActualPassword, actualPassword;
      active, docFocus := None, None;
      modalShown, overlayShown := false, false;
      layout, pendingRefocus := [], 0;
    }

    /**
     * A click on a password slot focuses it and runs `showKeypad(target)`:
     * a freshly shuffled table, both layers visible.
     */
    method Show(target: Option<nat>)
      requires Valid() && (target.Some? ==> target.value < slots.Length)
      modifies this`active, this`docFocus, this`layout, this`modalShown, this`overlayShown
      ensures Valid()
      ensures active == target && docFocus == target && modalShown && overlayShown
      ensures |layout| == 4 && forall row :: 0 <= row < 4 ==> |layout[row]| == 3
      ensures layout[3][0] == Blank && layout[3][2] == Back
      ensures ShowsEachDigitOnce(layout)
    {
      active, docFocus := target, target;
      layout := ShuffledLayout();
      modalShown, overlayShown := true, true;
    }

    /** `hideKeypad()`. */
    method Hide()
      modifies this`modalShown, this`overlayShown
      ensures !modalShown && !overlayShown
    {
      modalShown, overlayShown := false, false;
    }

    /**
     * A digit cell is clicked. `masked` is whether the page's `input`
     * listener replaces the typed digit by `'*'`. The click on the cell takes
     * the focus off the slot; only `next.focus()` puts it on a slot again.
     */
    method PressDigit(d: int, masked: bool)
      requires Valid() && 0 <= d < 10
      modifies slots, this`docFocus, this`modalShown, this`overlayShown, this`pendingRefocus
      ensures Valid()
      ensures old(active).None? ==> unchanged(this) && unchanged(slots)
      ensures old(active).Some? ==>
        var a := old(active).value;
        && slots[..] == old(slots[..])[a := old(slots[a]).(value := if masked then "*" else DigitText(d))]
        && docFocus == (if a + 1 < slots.Length && slots[a + 1].isPassword then Some(a + 1) else None)
        && (AllFilled(slots[..]) ==>
              !modalShown && !overlayShown && pendingRefocus == old(pendingRefocus))
        && (!AllFilled(slots[..]) ==>
              modalShown == old(modalShown) && overlayShown == old(overlayShown)
              && pendingRefocus == old(pendingRefocus) + 1)
    {
      if active.None? {
        return;
      }
      var a := active.value;
      slots[a] := slots[a].(value := if masked then "*" else DigitText(d));
      docFocus := if a + 1 < slots.Length && slots[a + 1].isPassword then Some(a + 1) else None;
      if AllFilled(slots[..]) {
        Hide();
      } else {
        pendingRefocus := pendingRefocus + 1;
      }
    }

    /** A pending 10 ms timer fires: the focused password slot becomes the active one. */
    method RefocusTimerFires()
      requires Valid() && pendingRefocus > 0
      modifies this`active, this`pendingRefocus
      ensures Valid()
      ensures pendingRefocus == old(pendingRefocus) - 1
      ensures active == (if docFocus.Some? && slots[docFocus.value].isPassword then docFocus else old(active))
    {
      pendingRefocus := pendingRefocus - 1;
      if docFocus.Some? && slots[docFocus.value].isPassword {
        active := docFocus;
      }
    }

    /** The back cell is clicked. */
    method Backspace()
      requires Valid()
      modifies slots, this`actualPassword, this`docFocus, this`active
      ensures Valid()
      ensures old(active).None? || old(slots[active.value]).dataIndex.None? ==>
        unchanged(this) && unchanged(slots)
      ensures old(active).Some? && old(slots[active.value]).dataIndex.Some? ==>
        var a := old(active).value;
        var index := old(slots[a]).dataIndex.value;
        var cleared := old(slots[..])[a := old(slots[a]).(value := "")];
        var pw1 := if hasActualPassword then old(actualPassword)[index := ""] else old(actualPassword);
        if a > 0 && old(slots[a - 1]).isPassword then
          var prev := old(slots[a - 1]);
          && slots[..] == cleared[a - 1 := prev.(value := "")]
          && actualPassword == (if prev.dataIndex.Some? && hasActualPassword
                                then pw1[prev.dataIndex.value := ""] else pw1)
          && docFocus == Some(a - 1) && active == Some(a - 1)
        else
          && slots[..] == cleared
          && actualPassword == pw1
          && docFocus == Some(a) && active == Some(a)
    {
      if active.None? {
        return;
      }
      var a := active.value;
      var index := slots[a].dataIndex;
      if index.None? {
        return;
      }
      slots[a] := slots[a].(value := "");
      if hasActualPassword {
        actualPassword := actualPassword[index.value := ""];
      }
      if a > 0 && slots[a - 1].isPassword {
        slots[a - 1] := slots[a - 1].(value := "");
        var prevIndex := slots[a - 1].dataIndex;
        if prevIndex.Some? && hasActualPassword {
          actualPassword := actualPassword[prevIndex.value := ""];
        }
        docFocus := Some(a - 1);
        active := Some(a - 1);
      } else {
        docFocus := Some(a);
      }
    }

    /** A cell of the table on display is clicked. */
    method PressCell(row: nat, col: nat, masked: bool)
      requires Valid() && row < |layout| && col < |layout[row]|
      requires layout[row][col].Digit? ==> 0 <= layout[row][col].d < 10
      modifies slots, this`actualPassword, this`docFocus, this`active, this`modalShown,
               this`overlayShown, this`pendingRefocus
      ensures Valid()
      ensures layout[row][col] == Blank ==> unchanged(this) && unchanged(slots)
    {
      match layout[row][col]
      case Blank =>
      case Back => Backspace();
      case Digit(d) => PressDigit(d, masked);
    }

    /**
     * Typing a digit into the last password slot of the row, and letting the
     * refocus timer fire if one was scheduled, leaves the cursor on that slot.
     */
    method LastDigitStays(d: int, masked: bool)
      requires Valid() && 0 <= d < 10 && pendingRefocus == 0 && active.Some?
      requires active.value + 1 >= slots.Length || !slots[active.value + 1].isPassword
      modifies slots, this`docFocus, this`modalShown, this`overlayShown, this`pendingRefocus, this`active
      ensures Valid()
      ensures active == old(active) && pendingRefocus == 0
    {
      PressDigit(d, masked);
      if pendingRefocus > 0 {
        RefocusTimerFires();
      }
    }

    /**
     * Typing a digit into password slot `a`, letting the refocus timer fire,
     * and pressing back: the cursor is on slot `a` again and both `a` and the
     * slot after it are empty; no other slot changes.
     */
    method DigitThenBack(d: int, masked: bool)
      requires Valid() && 0 <= d < 10 && pendingRefocus == 0
      requires active.Some? && active.value + 1 < slots.Length
      requires slots[active.value].isPassword && slots[active.value + 1].isPassword
      requires slots[active.value + 1].dataIndex.Some? && slots[active.value + 1].value != "*"
      modifies slots, this`actualPassword, this`docFocus, this`active, this`modalShown,
               this`overlayShown, this`pendingRefocus
      ensures Valid()
      ensures active == old(active) && pendingRefocus == 0
      ensures slots[old(active).value].value == "" && slots[old(active).value + 1].value == ""
      ensures forall i :: 0 <= i < slots.Length && i != old(active).value && i != old(active).value + 1 ==>
        slots[i] == old(slots[i])
    {
      var a := active.value;
      PressDigit(d, masked);
      assert !AllFilled(slots[..]) by {
        assert slots[..][a + 1].isPassword && slots[..][a + 1].value != "*";
      }
      RefocusTimerFires();
      Backspace();
    }
  }
}
