/**
 * Hops between job-entry copies and the indexed predecessor and successor
 * queries of JobMeta: only enabled hops count, in hop-list order.
 */
module Hops {
  import opened Wrappers
  import opened Text
  import opened Seqs
  import opened JobEntries

  /** A JobHopMeta: a directed edge between two copies; an end may be unset. */
  datatype Hop = Hop(hid: nat, from: Option<EntryRef>, to: Option<EntryRef>, enabled: bool, changed: bool)

  /** `end.equals(x)` for a hop end: both are set and they are the same object. */
  predicate Same(e: Option<EntryRef>, x: Option<EntryRef>) {
    e.Some? && x.Some? && e.value.id == x.value.id
  }

  /** A hop end naming object id, under the name n; any other end as it is. */
  function RenamedEnd(e: Option<EntryRef>, id: nat, n: string): Option<EntryRef> {
    if e.Some? && e.value.id == id then Some(e.value.(name := n)) else e
  }

  /**
   * A hop holds the copy objects themselves, so renaming object id renames it at every
   * hop end that refers to it; each hop still joins the same copies.
   */
  function RenameEnds(hops: seq<Hop>, id: nat, n: string): (r: seq<Hop>)
    ensures |r| == |hops|
    ensures forall i :: 0 <= i < |hops| ==>
      r[i] == hops[i].(from := RenamedEnd(hops[i].from, id, n), to := RenamedEnd(hops[i].to, id, n))
  {
    seq(|hops|, i requires 0 <= i < |hops| =>
      hops[i].(from := RenamedEnd(hops[i].from, id, n), to := RenamedEnd(hops[i].to, id, n)))
  }

  /** An enabled hop into `to`, as findNrPrevJobEntries counts them. */
  predicate IsInto(to: Option<EntryRef>, h: Hop) {
    h.enabled && Same(h.to, to)
  }

  /** An enabled hop out of `from`, as findNrNextJobEntries counts them. */
  predicate IsOutOf(from: Option<EntryRef>, h: Hop) {
    h.enabled && Same(h.from, from)
  }

  function IntoTest(to: Option<EntryRef>): Hop -> bool {
    (h: Hop) => IsInto(to, h)
  }

  function OutOfTest(from: Option<EntryRef>): Hop -> bool {
    (h: Hop) => IsOutOf(from, h)
  }

  /** The enabled hops into `to`, in hop-list order. */
  function Into(hops: seq<Hop>, to: Option<EntryRef>): seq<Hop> {
    Filter(IntoTest(to), hops)
  }

  lemma RenameEndsAppend(a: seq<Hop>, b: seq<Hop>, id: nat, n: string)
    ensures RenameEnds(a + b, id, n) == RenameEnds(a, id, n) + RenameEnds(b, id, n)
  {
  }

  /**
   * Renaming an object leaves the predecessor lists unchanged up to that renaming:
   * the same hops arrive at each copy, in the same order.
   */
  lemma {:induction false} RenameCommutesWithInto(hops: seq<Hop>, id: nat, n: string, to: Option<EntryRef>)
    ensures Into(RenameEnds(hops, id, n), to) == RenameEnds(Into(hops, to), id, n)
    decreases |hops|
  {
    if |hops| > 0 {
      var front := hops[..|hops| - 1];
      var last := hops[|hops| - 1];
      var r := RenameEnds(hops, id, n);
      RenameCommutesWithInto(front, id, n, to);
      assert r[..|r| - 1] == RenameEnds(front, id, n);
      assert IsInto(to, r[|r| - 1]) == IsInto(to, last);
      RenameEndsAppend(Into(front, to), if IsInto(to, last) then [last] else [], id, n);
    }
  }

  /** The enabled hops out of `from`, in hop-list order. */
  function OutOf(hops: seq<Hop>, from: Option<EntryRef>): seq<Hop> {
    Filter(OutOfTest(from), hops)
  }

  /** findPrevJobEntry(to, n): the from-end of the n-th enabled hop into `to`, or null. */
  function PrevAt(hops: seq<Hop>, to: Option<EntryRef>, n: int): Option<EntryRef> {
    var into := Into(hops, to);
    if 0 <= n < |into| then into[n].from else None
  }

  /** findNextJobEntry(from, n): the to-end of the n-th enabled hop out of `from`, or null. */
  function NextAt(hops: seq<Hop>, from: Option<EntryRef>, n: int): Option<EntryRef> {
    var out := OutOf(hops, from);
    if 0 <= n < |out| then out[n].to else None
  }

  /**
   * The predecessor queries read the to-end of every enabled hop without a null
   * check; they are only defined when every enabled hop has one.
   */
  predicate ToEndsPresent(hops: seq<Hop>) {
    forall i :: 0 <= i < |hops| && hops[i].enabled ==> hops[i].to.Some?
  }

  /** Every enabled hop has both ends. */
  predicate BothEnds(hops: seq<Hop>) {
    forall i :: 0 <= i < |hops| && hops[i].enabled ==> hops[i].from.Some? && hops[i].to.Some?
  }

  /** On hops with both ends a predecessor exists exactly for the positions below the count. */
  lemma PrevIffInRange(hops: seq<Hop>, to: Option<EntryRef>, n: int)
    requires BothEnds(hops)
    ensures PrevAt(hops, to, n).Some? <==> 0 <= n < |Into(hops, to)|
  {
    var into := Into(hops, to);
    if 0 <= n < |into| {
      FilterMembers(IntoTest(to), hops);
      FilterSatisfies(IntoTest(to), hops);
      var i :| 0 <= i < |hops| && hops[i] == into[n];
    }
  }

  /** On hops with both ends a successor exists exactly for the positions below the count. */
  lemma NextIffInRange(hops: seq<Hop>, from: Option<EntryRef>, n: int)
    requires BothEnds(hops)
    ensures NextAt(hops, from, n).Some? <==> 0 <= n < |OutOf(hops, from)|
  {
    var out := OutOf(hops, from);
    if 0 <= n < |out| {
      FilterMembers(OutOfTest(from), hops);
      FilterSatisfies(OutOfTest(from), hops);
      var i :| 0 <= i < |hops| && hops[i] == out[n];
    }
  }

  /**
   * The n-th hop into `to` is an enabled hop into `to` of the list with exactly n such
   * hops in front of it.
   */
  lemma {:induction false} NthInto(hops: seq<Hop>, to: Option<EntryRef>, n: nat)
    requires n < |Into(hops, to)|
    ensures exists i ::
      0 <= i < |hops| && hops[i] == Into(hops, to)[n] && IsInto(to, hops[i]) && |Into(hops[..i], to)| == n
    decreases |hops|
  {
    var last := |hops| - 1;
    var front := hops[..last];
    assert Into(hops, to) == Into(front, to) + (if IsInto(to, hops[last]) then [hops[last]] else []);
    if n < |Into(front, to)| {
      NthInto(front, to, n);
      var i :| 0 <= i < |front| && front[i] == Into(front, to)[n] && IsInto(to, front[i]) &&
        |Into(front[..i], to)| == n;
      assert front[..i] == hops[..i];
      assert hops[i] == Into(hops, to)[n];
    } else {
      assert hops[..last] == front;
      assert hops[last] == Into(hops, to)[n];
    }
  }

  /** A disabled hop, wherever it is inserted, changes no predecessor or successor query. */
  lemma DisabledHopIgnored(hops: seq<Hop>, h: Hop, p: nat, e: Option<EntryRef>)
    requires !h.enabled && p <= |hops|
    ensures Into(hops[..p] + [h] + hops[p..], e) == Into(hops, e)
    ensures OutOf(hops[..p] + [h] + hops[p..], e) == OutOf(hops, e)
  {
    FilterSkip(IntoTest(e), hops, h, p);
    FilterSkip(OutOfTest(e), hops, h, p);
  }

  /**
   * Two enabled hops A->T and B->T in that order: A is predecessor 0 and B predecessor 1.
   * With A->T disabled, T has one predecessor, B.
   */
  lemma PredecessorOrder()
    ensures var a := Some(EntryRef(1, "A"));
      var b := Some(EntryRef(2, "B"));
      var t := Some(EntryRef(3, "T"));
      var hops := [Hop(10, a, t, true, false), Hop(11, b, t, true, false)];
      var off := [Hop(10, a, t, false, false), Hop(11, b, t, true, false)];
      PrevAt(hops, t, 0) == a && PrevAt(hops, t, 1) == b && |Into(hops, t)| == 2 &&
      |Into(off, t)| == 1 && PrevAt(off, t, 0) == b
  {
    var a := Some(EntryRef(1, "A"));
    var b := Some(EntryRef(2, "B"));
    var t := Some(EntryRef(3, "T"));
    var h1 := Hop(10, a, t, true, false);
    var h2 := Hop(11, b, t, true, false);
    var h1off := Hop(10, a, t, false, false);
    assert [h1, h2][..1] == [h1];
    assert [h1][..0] == [];
    assert Into([h1], t) == [h1];
    assert Into([h1, h2], t) == [h1, h2];
    assert [h1off, h2][..1] == [h1off];
    assert [h1off][..0] == [];
    assert Into([h1off], t) == [];
    assert Into([h1off, h2], t) == [h2];
  }
}
