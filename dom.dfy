/**
 * The page as the keypad controller sees it: the elements that carry a
 * `tabindex` attribute (and the ones a caller may focus by id), in document
 * order, and the two ways `resetFocusElems` turns them into a focus registry.
 */
module Dom {
  import opened Wrappers

  /** Element kinds that Enter tells apart. */
  datatype Tag = Button | Anchor | Span | Label | InputButton | InputSubmit
               | InputCheckbox | InputDate | OtherTag

  /**
   * One DOM element. `node` is the element's identity (two records with the
   * same node are the same element); `ancestors` are the nodes of the
   * elements it lies inside (`body` among them); `inAnyModal` says whether
   * one of those is a modal (`[role="dialog"], .modal`); `ariaLabel` and
   * `htmlId` are "" when the attribute is absent.
   */
  datatype Elem = Elem(
    node: nat,
    htmlId: string,
    tag: Tag,
    hasTabIndex: bool,
    tabIndex: int,
    ancestors: set<nat>,
    inAnyModal: bool,
    classes: set<string>,
    ariaLabel: string,
    text: string)

  ghost predicate DistinctNodes(s: seq<Elem>) {
    forall i, j :: 0 <= i < j < |s| ==> s[i].node != s[j].node
  }

  /** In a sequence of distinct nodes, an element is determined by its node. */
  lemma {:induction false} SameNodeSameElem(s: seq<Elem>, a: Elem, b: Elem)
    requires DistinctNodes(s) && a in s && b in s && a.node == b.node
    ensures a == b
  {
    var i :| 0 <= i < |s| && s[i] == a;
    var j :| 0 <= j < |s| && s[j] == b;
    assert s[i].node == s[j].node;
  }

  /** The elements of `s` that satisfy `f`, in their order in `s`. */
  function Keep(s: seq<Elem>, f: Elem -> bool): (r: seq<Elem>)
    ensures |r| <= |s|
  {
    if s == [] then []
    else Keep(s[..|s| - 1], f) + (if f(s[|s| - 1]) then [s[|s| - 1]] else [])
  }

  lemma {:induction false} KeepMembers(s: seq<Elem>, f: Elem -> bool)
    ensures forall e :: e in Keep(s, f) <==> e in s && f(e)
    decreases |s|
  {
    if s != [] {
      var s' := s[..|s| - 1];
      KeepMembers(s', f);
      assert s == s' + [s[|s| - 1]];
    }
  }

  /** A filter that no element passes keeps nothing. */
  lemma {:induction false} KeepNone(s: seq<Elem>, f: Elem -> bool)
    requires forall e :: e in s ==> !f(e)
    ensures Keep(s, f) == []
    decreases |s|
  {
    if s != [] {
      KeepNone(s[..|s| - 1], f);
    }
  }

  // ---------------------------------------------------------------------
  // Ordering by tabindex: the comparator `a.tabIndex - b.tabIndex` handed to
  // the browser's (stable) sort, written as an insertion sort.

  ghost predicate SortedByTabIndex(s: seq<Elem>) {
    forall i, j :: 0 <= i < j < |s| ==> s[i].tabIndex <= s[j].tabIndex
  }

  /** Inserts `x` in front of the first element whose tabindex is not smaller. */
  function InsertByTabIndex(x: Elem, s: seq<Elem>): (r: seq<Elem>)
    ensures |r| == |s| + 1
  {
    if s == [] || x.tabIndex <= s[0].tabIndex then [x] + s
    else [s[0]] + InsertByTabIndex(x, s[1..])
  }

  lemma {:induction false} InsertMultiset(x: Elem, s: seq<Elem>)
    ensures multiset(InsertByTabIndex(x, s)) == multiset(s) + multiset{x}
  {
    if s != [] && x.tabIndex > s[0].tabIndex {
      InsertMultiset(x, s[1..]);
      assert s == [s[0]] + s[1..];
    }
  }

  lemma {:induction false} InsertKeepsSorted(x: Elem, s: seq<Elem>)
    requires SortedByTabIndex(s)
    ensures SortedByTabIndex(InsertByTabIndex(x, s))
    ensures InsertByTabIndex(x, s)[0] == x || InsertByTabIndex(x, s)[0] == s[0]
  {
    if s != [] && x.tabIndex > s[0].tabIndex {
      InsertKeepsSorted(x, s[1..]);
      var rest := InsertByTabIndex(x, s[1..]);
      var r := InsertByTabIndex(x, s);
      assert r == [s[0]] + rest;
      forall i, j | 0 <= i < j < |r| ensures r[i].tabIndex <= r[j].tabIndex {
        if i > 0 {
          assert r[i] == rest[i - 1] && r[j] == rest[j - 1];
        } else {
          assert rest[0] == x || rest[0] == s[1];
          assert rest[0].tabIndex >= s[0].tabIndex;
          if j > 1 { assert rest[0].tabIndex <= rest[j - 1].tabIndex; }
        }
      }
    }
  }

  function SortByTabIndex(s: seq<Elem>): (r: seq<Elem>)
    ensures |r| == |s|
  {
    if s == [] then [] else InsertByTabIndex(s[0], SortByTabIndex(s[1..]))
  }

  /** The sort rearranges its input into ascending tabindex order. */
  lemma {:induction false} SortByTabIndexSpec(s: seq<Elem>)
    ensures multiset(SortByTabIndex(s)) == multiset(s)
    ensures SortedByTabIndex(SortByTabIndex(s))
  {
    if s != [] {
      var rest := SortByTabIndex(s[1..]);
      SortByTabIndexSpec(s[1..]);
      InsertKeepsSorted(s[0], rest);
      InsertMultiset(s[0], rest);
      assert s == [s[0]] + s[1..];
    }
  }

  /**
   * The elements of `s` whose tabindex is `t`, in their order in `s`. This is
   * `Keep` with a fixed predicate, but unfolded from the front, the way
   * `InsertByTabIndex` walks the sequence, so the stability proof needs no
   * lemma relating the two ends of `Keep`.
   */
  function WithTabIndex(s: seq<Elem>, t: int): (r: seq<Elem>)
    ensures forall e :: e in r ==> e in s && e.tabIndex == t
  {
    if s == [] then []
    else (if s[0].tabIndex == t then [s[0]] else []) + WithTabIndex(s[1..], t)
  }

  /**
   * Inserting `x` puts it in front of every element with the same tabindex
   * and leaves the order of those elements alone.
   */
  lemma {:induction false} InsertWithTabIndex(x: Elem, s: seq<Elem>, t: int)
    ensures WithTabIndex(InsertByTabIndex(x, s), t)
         == (if x.tabIndex == t then [x] else []) + WithTabIndex(s, t)
  {
    if s == [] || x.tabIndex <= s[0].tabIndex {
      assert ([x] + s)[1..] == s;
    } else {
      var rest := InsertByTabIndex(x, s[1..]);
      InsertWithTabIndex(x, s[1..], t);
      var r := [s[0]] + rest;
      assert r[0] == s[0] && r[1..] == rest;
      assert WithTabIndex(r, t) == (if s[0].tabIndex == t then [s[0]] else []) + WithTabIndex(rest, t);
      if x.tabIndex == t {
        assert s[0].tabIndex != t;
      }
    }
  }

  /**
   * The sort is stable, as the browser's `Array.prototype.sort` is: elements
   * with equal tabindex keep their relative order.
   */
  lemma {:induction false} SortByTabIndexStable(s: seq<Elem>, t: int)
    ensures WithTabIndex(SortByTabIndex(s), t) == WithTabIndex(s, t)
  {
    if s != [] {
      SortByTabIndexStable(s[1..], t);
      InsertWithTabIndex(s[0], SortByTabIndex(s[1..]), t);
    }
  }

  /** A filter keeps every copy of an element that passes it and none of one that does not. */
  lemma {:induction false} KeepCount(s: seq<Elem>, f: Elem -> bool, e: Elem)
    ensures multiset(Keep(s, f))[e] == if f(e) then multiset(s)[e] else 0
    decreases |s|
  {
    if s != [] {
      var s' := s[..|s| - 1];
      KeepCount(s', f, e);
      assert s == s' + [s[|s| - 1]];
    }
  }

  // ---------------------------------------------------------------------
  // Page scope: every `[tabindex]` element except `tabindex="-1"` and except
  // anything inside a modal, sorted by tabindex.

  predicate OnPage(e: Elem) {
    e.hasTabIndex && e.tabIndex != -1 && !e.inAnyModal
  }

  function PageRegistry(dom: seq<Elem>): seq<Elem>
  {
    SortByTabIndex(Keep(dom, OnPage))
  }

  /**
   * The page registry holds exactly the page's focusable elements outside
   * every modal, each as often as in the document, in tab-index order, and
   * elements with equal tabindex in document order.
   */
  lemma PageRegistryArrangement(dom: seq<Elem>)
    ensures var r := PageRegistry(dom);
      && (forall e :: e in r <==> e in dom && OnPage(e))
      && (forall e :: multiset(r)[e] == if OnPage(e) then multiset(dom)[e] else 0)
      && SortedByTabIndex(r)
      && (forall t :: WithTabIndex(r, t) == WithTabIndex(Keep(dom, OnPage), t))
  {
    var r := PageRegistry(dom);
    SortByTabIndexSpec(Keep(dom, OnPage));
    KeepMembers(dom, OnPage);
    assert forall e :: e in r <==> e in multiset(Keep(dom, OnPage));
    forall e ensures multiset(r)[e] == if OnPage(e) then multiset(dom)[e] else 0 {
      KeepCount(dom, OnPage, e);
    }
    forall t ensures WithTabIndex(r, t) == WithTabIndex(Keep(dom, OnPage), t) {
      SortByTabIndexStable(Keep(dom, OnPage), t);
    }
  }

  // ---------------------------------------------------------------------
  // Modal scope: every `[tabindex]` element of the modal; the ones with a
  // negative tabindex stay where they are, the slots of the others are
  // refilled, left to right, with those others in ascending tabindex order.

  predicate NonNegative(e: Elem) {
    e.tabIndex >= 0
  }

  /**
   * The elements with a non-negative tabindex, in their order. Like
   * `WithTabIndex` and `NegativePart`, this is `Keep` unfolded from the front,
   * the way `Interleave` and `MergeByPosition` walk the modal list.
   */
  function NonNegativePart(s: seq<Elem>): (r: seq<Elem>)
    ensures |r| <= |s|
  {
    if s == [] then []
    else (if NonNegative(s[0]) then [s[0]] else []) + NonNegativePart(s[1..])
  }

  lemma {:induction false} NonNegativePartMembers(s: seq<Elem>)
    ensures forall e :: e in NonNegativePart(s) ==> NonNegative(e)
    decreases |s|
  {
    if s != [] {
      NonNegativePartMembers(s[1..]);
    }
  }

  /** `e` is a `[tabindex]` element inside element `m`, the container `openModal` was given. */
  predicate InModal(e: Elem, m: nat) {
    e.hasTabIndex && m in e.ancestors
  }

  /** `$currentModal.find('[tabindex]')`, in document order. */
  function ModalCandidates(dom: seq<Elem>, m: nat): seq<Elem>
  {
    Keep(dom, e => InModal(e, m))
  }

  /**
   * `arr.map(el => el.tabIndex >= 0 ? sorted[p++] : el)`: the elements with a
   * negative tabindex stay, each other slot takes the next element of `sorted`.
   */
  function Interleave(arr: seq<Elem>, sorted: seq<Elem>): (r: seq<Elem>)
    requires |sorted| == |NonNegativePart(arr)|
  {
    if arr == [] then []
    else if NonNegative(arr[0]) then [sorted[0]] + Interleave(arr[1..], sorted[1..])
    else [arr[0]] + Interleave(arr[1..], sorted)
  }

  lemma {:induction false} InterleaveShape(arr: seq<Elem>, sorted: seq<Elem>)
    requires |sorted| == |NonNegativePart(arr)|
    ensures |Interleave(arr, sorted)| == |arr|
    ensures forall i :: 0 <= i < |arr| && !NonNegative(arr[i]) ==>
              Interleave(arr, sorted)[i] == arr[i]
    decreases |arr|
  {
    if arr != [] {
      var sorted' := if NonNegative(arr[0]) then sorted[1..] else sorted;
      InterleaveShape(arr[1..], sorted');
      var r := Interleave(arr, sorted);
      assert r[1..] == Interleave(arr[1..], sorted');
      forall i | 0 < i < |arr| && !NonNegative(arr[i]) ensures r[i] == arr[i] {
        assert r[i] == r[1..][i - 1];
        assert arr[i] == arr[1..][i - 1];
      }
    }
  }

  lemma {:induction false} InterleaveKeepsSorted(arr: seq<Elem>, sorted: seq<Elem>)
    requires |sorted| == |NonNegativePart(arr)|
    requires forall e :: e in sorted ==> NonNegative(e)
    ensures NonNegativePart(Interleave(arr, sorted)) == sorted
    decreases |arr|
  {
    if arr != [] {
      var r := Interleave(arr, sorted);
      if NonNegative(arr[0]) {
        assert sorted[0] in sorted;
        InterleaveKeepsSorted(arr[1..], sorted[1..]);
        assert r[1..] == Interleave(arr[1..], sorted[1..]);
        assert sorted == [sorted[0]] + sorted[1..];
      } else {
        InterleaveKeepsSorted(arr[1..], sorted);
        assert r[1..] == Interleave(arr[1..], sorted);
      }
    }
  }

  /** The elements with a negative tabindex, in their order. */
  function NegativePart(s: seq<Elem>): (r: seq<Elem>)
  {
    if s == [] then []
    else (if NonNegative(s[0]) then [] else [s[0]]) + NegativePart(s[1..])
  }

  lemma {:induction false} PartsMultiset(s: seq<Elem>)
    ensures multiset(NonNegativePart(s)) + multiset(NegativePart(s)) == multiset(s)
    decreases |s|
  {
    if s != [] {
      PartsMultiset(s[1..]);
      assert s == [s[0]] + s[1..];
    }
  }

  lemma {:induction false} InterleaveMultiset(arr: seq<Elem>, sorted: seq<Elem>)
    requires |sorted| == |NonNegativePart(arr)|
    ensures multiset(Interleave(arr, sorted)) == multiset(NegativePart(arr)) + multiset(sorted)
    decreases |arr|
  {
    if arr != [] {
      if NonNegative(arr[0]) {
        InterleaveMultiset(arr[1..], sorted[1..]);
        TakeSortedStep(arr, sorted);
      } else {
        InterleaveMultiset(arr[1..], sorted);
        KeepNegativeStep(arr, sorted);
      }
    }
  }

  /** One step of `InterleaveMultiset` where the first element takes the next sorted one. */
  lemma {:induction false} TakeSortedStep(arr: seq<Elem>, sorted: seq<Elem>)
    requires arr != [] && NonNegative(arr[0]) && |sorted| == |NonNegativePart(arr)|
    requires multiset(Interleave(arr[1..], sorted[1..])) == multiset(NegativePart(arr[1..])) + multiset(sorted[1..])
    ensures multiset(Interleave(arr, sorted)) == multiset(NegativePart(arr)) + multiset(sorted)
  {
    var rest := Interleave(arr[1..], sorted[1..]);
    assert Interleave(arr, sorted) == [sorted[0]] + rest;
    assert sorted == [sorted[0]] + sorted[1..];
  }

  /** One step of `InterleaveMultiset` where the first element stays in place. */
  lemma {:induction false} KeepNegativeStep(arr: seq<Elem>, sorted: seq<Elem>)
    requires arr != [] && !NonNegative(arr[0]) && |sorted| == |NonNegativePart(arr)|
    requires multiset(Interleave(arr[1..], sorted)) == multiset(NegativePart(arr[1..])) + multiset(sorted)
    ensures multiset(Interleave(arr, sorted)) == multiset(NegativePart(arr)) + multiset(sorted)
  {
    var rest := Interleave(arr[1..], sorted);
    assert Interleave(arr, sorted) == [arr[0]] + rest;
    assert NegativePart(arr) == [arr[0]] + NegativePart(arr[1..]);
  }

  /** The `map` with the mutable counter `p` of `resetFocusElems`, as a loop. */
  method MergeByPosition(arr: seq<Elem>, sorted: seq<Elem>) returns (r: seq<Elem>)
    requires |sorted| == |NonNegativePart(arr)|
    ensures r == Interleave(arr, sorted)
  {
    r := [];
    var i, p := 0, 0;
    while i < |arr|
      invariant 0 <= i <= |arr| && 0 <= p <= |sorted|
      invariant |sorted[p..]| == |NonNegativePart(arr[i..])|
      invariant r + Interleave(arr[i..], sorted[p..]) == Interleave(arr, sorted)
    {
      assert arr[i..][1..] == arr[i + 1..];
      if arr[i].tabIndex >= 0 {
        assert sorted[p..][1..] == sorted[p + 1..];
        r := r + [sorted[p]];
        p := p + 1;
      } else {
        r := r + [arr[i]];
      }
      i := i + 1;
    }
  }

  function ModalRegistry(dom: seq<Elem>, m: nat): (r: seq<Elem>)
  {
    var cands := ModalCandidates(dom, m);
    Interleave(cands, SortByTabIndex(NonNegativePart(cands)))
  }

  /**
   * The modal-scope registry is a rearrangement of the modal's `[tabindex]`
   * elements: negative ones keep their positions, and read left to right the
   * other positions hold the others in ascending tabindex order.
   */
  lemma ModalRegistryArrangement(dom: seq<Elem>, m: nat)
    ensures |ModalRegistry(dom, m)| == |ModalCandidates(dom, m)|
    ensures forall i :: 0 <= i < |ModalCandidates(dom, m)| && !NonNegative(ModalCandidates(dom, m)[i]) ==>
              ModalRegistry(dom, m)[i] == ModalCandidates(dom, m)[i]
    ensures NonNegativePart(ModalRegistry(dom, m)) == SortByTabIndex(NonNegativePart(ModalCandidates(dom, m)))
    ensures SortedByTabIndex(NonNegativePart(ModalRegistry(dom, m)))
    ensures forall t :: WithTabIndex(NonNegativePart(ModalRegistry(dom, m)), t)
                     == WithTabIndex(NonNegativePart(ModalCandidates(dom, m)), t)
    ensures multiset(ModalRegistry(dom, m)) == multiset(ModalCandidates(dom, m))
  {
    var cands := ModalCandidates(dom, m);
    var sorted := SortByTabIndex(NonNegativePart(cands));
    SortByTabIndexSpec(NonNegativePart(cands));
    SortedStaysNonNegative(cands);
    InterleaveShape(cands, sorted);
    InterleaveKeepsSorted(cands, sorted);
    InterleaveMultiset(cands, sorted);
    PartsMultiset(cands);
    forall t ensures WithTabIndex(sorted, t) == WithTabIndex(NonNegativePart(cands), t) {
      SortByTabIndexStable(NonNegativePart(cands), t);
    }
  }

  /** The modal-scope registry holds exactly the modal's `[tabindex]` elements, each as often as in the document. */
  lemma ModalRegistryMembers(dom: seq<Elem>, m: nat)
    ensures forall e :: e in ModalRegistry(dom, m) <==> e in dom && InModal(e, m)
    ensures forall e :: multiset(ModalRegistry(dom, m))[e] == if InModal(e, m) then multiset(dom)[e] else 0
  {
    ModalRegistryArrangement(dom, m);
    KeepMembers(dom, e => InModal(e, m));
    var r := ModalRegistry(dom, m);
    forall e ensures e in r <==> e in multiset(ModalCandidates(dom, m)) {
      assert e in r <==> e in multiset(r);
    }
    forall e ensures multiset(r)[e] == if InModal(e, m) then multiset(dom)[e] else 0 {
      KeepCount(dom, e => InModal(e, m), e);
    }
  }

  /**
   * A container holding the whole page (`openModal($("body"))`): its registry
   * holds every `[tabindex]` element of the page, and no marked element lies
   * outside it.
   */
  lemma WholePageContainer(dom: seq<Elem>, b: nat, focused: set<nat>)
    requires forall e :: e in dom ==> b in e.ancestors
    ensures forall e :: e in ModalRegistry(dom, b) <==> e in dom && e.hasTabIndex
    ensures FocusedOutside(dom, focused, b) == []
  {
    ModalRegistryMembers(dom, b);
    KeepNone(dom, (e: Elem) => e.node in focused && b !in e.ancestors);
  }

  lemma SortedStaysNonNegative(s: seq<Elem>)
    ensures forall e :: e in SortByTabIndex(NonNegativePart(s)) ==> NonNegative(e)
  {
    NonNegativePartMembers(s);
    SortByTabIndexSpec(NonNegativePart(s));
    var sorted := SortByTabIndex(NonNegativePart(s));
    forall e | e in sorted ensures NonNegative(e) {
      assert e in multiset(sorted);
    }
  }

  // ---------------------------------------------------------------------
  // Lookups.

  /** jQuery's `.index(elem)`: the first position of the element, or -1. */
  function NodeIndex(s: seq<Elem>, node: nat): (r: int)
    ensures -1 <= r < |s|
    ensures r >= 0 ==> s[r].node == node && forall k :: 0 <= k < r ==> s[k].node != node
    ensures r == -1 ==> forall k :: 0 <= k < |s| ==> s[k].node != node
  {
    if s == [] then -1
    else if s[0].node == node then 0
    else
      var k := NodeIndex(s[1..], node);
      if k == -1 then -1 else k + 1
  }

  /**
   * jQuery looks `'#' + id` up as an id only when `id` is a plain name of
   * ASCII letters, digits, `_` and `-`; anything else is parsed as a CSS
   * selector.
   */
  predicate PlainId(id: string) {
    && |id| > 0
    && forall i :: 0 <= i < |id| ==>
         ('a' <= id[i] <= 'z') || ('A' <= id[i] <= 'Z') || ('0' <= id[i] <= '9') || id[i] == '_' || id[i] == '-'
  }

  /** `document.getElementById(id)`: the first element, in document order, with that id attribute. */
  function FindById(dom: seq<Elem>, id: string): (r: Option<Elem>)
    ensures r.Some? ==> r.value in dom && r.value.htmlId == id
    ensures r.Some? ==> exists i :: 0 <= i < |dom| && dom[i] == r.value &&
                                    forall k :: 0 <= k < i ==> dom[k].htmlId != id
    ensures r.None? ==> forall e :: e in dom ==> e.htmlId != id
  {
    if dom == [] then None
    else if dom[0].htmlId == id then Some(dom[0])
    else FindById(dom[1..], id)
  }

  /** `$('.focused').not($modal.find('*'))`: the marked elements that do not lie inside modal `m`. */
  function FocusedOutside(dom: seq<Elem>, focused: set<nat>, m: nat): (r: seq<Elem>)
    ensures forall e :: e in r <==> e in dom && e.node in focused && m !in e.ancestors
  {
    KeepMembers(dom, (e: Elem) => e.node in focused && m !in e.ancestors);
    Keep(dom, (e: Elem) => e.node in focused && m !in e.ancestors)
  }

  function NodesOf(s: seq<Elem>): (r: set<nat>)
    ensures forall e :: e in s ==> e.node in r
    ensures forall n :: n in r ==> exists e :: e in s && e.node == n
  {
    set e | e in s :: e.node
  }
}
