/**
 * The backward loop search of JobMeta.hasLoop: a depth-first walk over the
 * predecessors along enabled hops, with a per-call visited set and a memo of
 * results keyed by entry name and lookup name.
 */
module LoopDetector {
  import opened Wrappers
  import opened Seqs
  import opened JobEntries
  import opened Hops

  /** The memo key: the entry's name, " - ", and the lookup's name or nothing. */
  function LoopKey(entry: EntryRef, lookup: Option<EntryRef>): string {
    entry.name + " - " + (if lookup.Some? then lookup.value.name else "")
  }

  /** The answer of a walk, the memo after it and the visited set after it. */
  datatype Walk = Walk(found: bool, cache: map<string, bool>, checked: set<nat>)

  /** The objects at the from-end of some hop: the only ones the walk can step to. */
  function FromIds(hops: seq<Hop>): set<nat> {
    set i | 0 <= i < |hops| && hops[i].from.Some? :: hops[i].from.value.id
  }

  /** Every memo entry of c is still there, unchanged, in d. */
  predicate Kept(c: map<string, bool>, d: map<string, bool>) {
    forall k :: k in c ==> k in d && d[k] == c[k]
  }

  lemma SubsetSmaller(a: set<nat>, b: set<nat>)
    requires a <= b
    ensures |a| <= |b|
  {
    assert b == a + (b - a);
  }

  lemma RemoveOneSmaller(a: set<nat>, e: nat)
    requires e in a
    ensures |a - {e}| < |a|
  {
    assert a == (a - {e}) + {e};
  }

  lemma FromEndListed(hops: seq<Hop>, to: Option<EntryRef>, i: nat)
    requires i < |Into(hops, to)| && Into(hops, to)[i].from.Some?
    ensures Into(hops, to)[i].from.value.id in FromIds(hops)
  {
    FilterMembers(IntoTest(to), hops);
    var j :| 0 <= j < |hops| && hops[j] == Into(hops, to)[i];
  }

  /**
   * hasLoop(entry, lookup, checked): a memo hit answers at once; otherwise the entry
   * is marked visited, its predecessors are scanned, and the answer is memoised.
   */
  function LoopWalk(hops: seq<Hop>, cache: map<string, bool>, entry: EntryRef, lookup: Option<EntryRef>,
                    checked: set<nat>): (w: Walk)
    requires entry.id !in checked
    ensures checked <= w.checked
    ensures Kept(cache, w.cache)
    ensures LoopKey(entry, lookup) in w.cache && w.cache[LoopKey(entry, lookup)] == w.found
    decreases |(FromIds(hops) + {entry.id}) - checked|, 0, 0
  {
    var key := LoopKey(entry, lookup);
    if key in cache then Walk(cache[key], cache, checked)
    else
      assert FromIds(hops) - (checked + {entry.id}) == ((FromIds(hops) + {entry.id}) - checked) - {entry.id};
      RemoveOneSmaller((FromIds(hops) + {entry.id}) - checked, entry.id);
      var s := Scan(hops, cache, entry, lookup, checked + {entry.id}, 0);
      Walk(s.found, s.cache[key := s.found], s.checked)
  }

  /**
   * The loop over the predecessors of entry from the i-th on: a predecessor that is the
   * lookup is a loop; an unvisited one is searched with the lookup defaulted to entry.
   */
  function Scan(hops: seq<Hop>, cache: map<string, bool>, entry: EntryRef, lookup: Option<EntryRef>,
                checked: set<nat>, i: nat): (w: Walk)
    requires entry.id in checked
    requires i <= |Into(hops, Some(entry))|
    ensures checked <= w.checked
    ensures Kept(cache, w.cache)
    decreases |FromIds(hops) - checked|, 1, |Into(hops, Some(entry))| - i
  {
    var preds := Into(hops, Some(entry));
    if i == |preds| then Walk(false, cache, checked)
    else
      var prev := preds[i].from;
      if prev.None? then Scan(hops, cache, entry, lookup, checked, i + 1)
      else if lookup.Some? && prev.value.id == lookup.value.id then Walk(true, cache, checked)
      else if prev.value.id in checked then Scan(hops, cache, entry, lookup, checked, i + 1)
      else
        FromEndListed(hops, Some(entry), i);
        assert FromIds(hops) + {prev.value.id} == FromIds(hops);
        var w := LoopWalk(hops, cache, prev.value, if lookup.None? then Some(entry) else lookup, checked);
        if w.found then Walk(true, w.cache, w.checked)
        else
          SubsetSmaller(FromIds(hops) - w.checked, FromIds(hops) - checked);
          Scan(hops, w.cache, entry, lookup, w.checked, i + 1)
  }

  /** hasLoop(entry): the memo is emptied and the walk starts with nothing visited. */
  function HasLoop(hops: seq<Hop>, entry: EntryRef): Walk {
    LoopWalk(hops, map[], entry, None, {})
  }

  // ------------------------------------------------------------ what a positive answer means

  /** Object b is a direct predecessor of object a: some enabled hop runs from b into a. */
  ghost predicate Feeds(hops: seq<Hop>, b: nat, a: nat) {
    exists j :: 0 <= j < |hops| && hops[j].enabled && hops[j].from.Some? && hops[j].to.Some? &&
      hops[j].from.value.id == b && hops[j].to.value.id == a
  }

  /** A backward chain over one hop or more: each object is a direct predecessor of the one before. */
  ghost predicate BackChain(hops: seq<Hop>, p: seq<nat>) {
    |p| >= 2 && forall i :: 0 <= i < |p| - 1 ==> Feeds(hops, p[i + 1], p[i])
  }

  /** Walking backward from object a along enabled hops reaches object b. */
  ghost predicate ReachesBack(hops: seq<Hop>, a: nat, b: nat) {
    exists p :: BackChain(hops, p) && p[0] == a && p[|p| - 1] == b
  }

  /** The object a walk looks for: the lookup, or without one the entry itself. */
  function Target(entry: EntryRef, lookup: Option<EntryRef>): nat {
    if lookup.Some? then lookup.value.id else entry.id
  }

  predicate Among(lookup: Option<EntryRef>, refs: set<EntryRef>) {
    lookup.None? || lookup.value in refs
  }

  /** Every from-end of a hop is one of refs. */
  ghost predicate FromEndsIn(hops: seq<Hop>, refs: set<EntryRef>) {
    forall j :: 0 <= j < |hops| && hops[j].from.Some? ==> hops[j].from.value in refs
  }

  /** On refs, equal memo keys stand for the same entry and the same object looked for. */
  ghost predicate KeysFaithful(refs: set<EntryRef>) {
    forall e1, l1, e2, l2 {:trigger LoopKey(e1, l1), LoopKey(e2, l2)} ::
      (e1 in refs && e2 in refs && Among(l1, refs) && Among(l2, refs) && LoopKey(e1, l1) == LoopKey(e2, l2)) ==>
      e1.id == e2.id && Target(e1, l1) == Target(e2, l2)
  }

  /** Every positive memo entry about refs is backed by a backward chain. */
  ghost predicate MemoSound(hops: seq<Hop>, cache: map<string, bool>, refs: set<EntryRef>) {
    forall e, l :: e in refs && Among(l, refs) && LoopKey(e, l) in cache && cache[LoopKey(e, l)] ==>
      ReachesBack(hops, e.id, Target(e, l))
  }

  lemma OneHopBack(hops: seq<Hop>, a: nat, b: nat)
    requires Feeds(hops, b, a)
    ensures ReachesBack(hops, a, b)
  {
    assert BackChain(hops, [a, b]);
  }

  lemma ChainPrepend(hops: seq<Hop>, a: nat, b: nat, c: nat)
    requires Feeds(hops, b, a) && ReachesBack(hops, b, c)
    ensures ReachesBack(hops, a, c)
  {
    var p :| BackChain(hops, p) && p[0] == b && p[|p| - 1] == c;
    var q := [a] + p;
    forall i | 0 <= i < |q| - 1
      ensures Feeds(hops, q[i + 1], q[i])
    {
      if i > 0 {
        assert q[i] == p[i - 1] && q[i + 1] == p[i];
      }
    }
    assert BackChain(hops, q);
  }

  /** The i-th predecessor the scan looks at is one of refs and feeds entry. */
  lemma PredecessorFeeds(hops: seq<Hop>, entry: EntryRef, i: nat, refs: set<EntryRef>)
    requires i < |Into(hops, Some(entry))| && Into(hops, Some(entry))[i].from.Some?
    requires FromEndsIn(hops, refs)
    ensures Into(hops, Some(entry))[i].from.value in refs
    ensures Feeds(hops, Into(hops, Some(entry))[i].from.value.id, entry.id)
  {
    var h := Into(hops, Some(entry))[i];
    FilterMembers(IntoTest(Some(entry)), hops);
    FilterSatisfies(IntoTest(Some(entry)), hops);
    var j :| 0 <= j < |hops| && hops[j] == h;
    assert IsInto(Some(entry), h);
  }

  lemma MemoWrite(hops: seq<Hop>, cache: map<string, bool>, refs: set<EntryRef>, entry: EntryRef,
                  lookup: Option<EntryRef>, found: bool)
    requires MemoSound(hops, cache, refs) && KeysFaithful(refs)
    requires entry in refs && Among(lookup, refs)
    requires found ==> ReachesBack(hops, entry.id, Target(entry, lookup))
    ensures MemoSound(hops, cache[LoopKey(entry, lookup) := found], refs)
  {
  }

  /**
   * A walk that starts from a sound memo keeps it sound, and a positive answer is backed by
   * a backward chain from entry to what it looks for.
   */
  lemma {:induction false} LoopWalkSound(hops: seq<Hop>, cache: map<string, bool>, entry: EntryRef,
                                         lookup: Option<EntryRef>, checked: set<nat>, refs: set<EntryRef>)
    requires entry.id !in checked && entry in refs && Among(lookup, refs)
    requires FromEndsIn(hops, refs) && KeysFaithful(refs) && MemoSound(hops, cache, refs)
    ensures MemoSound(hops, LoopWalk(hops, cache, entry, lookup, checked).cache, refs)
    ensures LoopWalk(hops, cache, entry, lookup, checked).found ==> ReachesBack(hops, entry.id, Target(entry, lookup))
    decreases |(FromIds(hops) + {entry.id}) - checked|, 0, 0, 0
  {
    var key := LoopKey(entry, lookup);
    if key !in cache {
      assert FromIds(hops) - (checked + {entry.id}) == ((FromIds(hops) + {entry.id}) - checked) - {entry.id};
      RemoveOneSmaller((FromIds(hops) + {entry.id}) - checked, entry.id);
      ScanSound(hops, cache, entry, lookup, checked + {entry.id}, 0, refs);
      var s := Scan(hops, cache, entry, lookup, checked + {entry.id}, 0);
      MemoWrite(hops, s.cache, refs, entry, lookup, s.found);
    }
  }

  lemma {:induction false} ScanSound(hops: seq<Hop>, cache: map<string, bool>, entry: EntryRef,
                                     lookup: Option<EntryRef>, checked: set<nat>, i: nat, refs: set<EntryRef>)
    requires entry.id in checked && i <= |Into(hops, Some(entry))|
    requires entry in refs && Among(lookup, refs)
    requires FromEndsIn(hops, refs) && KeysFaithful(refs) && MemoSound(hops, cache, refs)
    ensures MemoSound(hops, Scan(hops, cache, entry, lookup, checked, i).cache, refs)
    ensures Scan(hops, cache, entry, lookup, checked, i).found ==> ReachesBack(hops, entry.id, Target(entry, lookup))
    decreases |FromIds(hops) - checked|, 1, |Into(hops, Some(entry))| - i, 1
  {
    var preds := Into(hops, Some(entry));
    if i < |preds| {
      var prev := preds[i].from;
      if prev.Some? && lookup.Some? && prev.value.id == lookup.value.id {
        PredecessorFeeds(hops, entry, i, refs);
        OneHopBack(hops, entry.id, prev.value.id);
      } else if prev.Some? && prev.value.id !in checked {
        ScanDeeperSound(hops, cache, entry, lookup, checked, i, refs);
      } else {
        ScanSkipSound(hops, cache, entry, lookup, checked, i, refs);
      }
    }
  }

  /** The case of the scan that passes over an unset or visited predecessor. */
  lemma {:induction false} ScanSkipSound(hops: seq<Hop>, cache: map<string, bool>, entry: EntryRef,
                                         lookup: Option<EntryRef>, checked: set<nat>, i: nat, refs: set<EntryRef>)
    requires entry.id in checked && i < |Into(hops, Some(entry))|
    requires Into(hops, Some(entry))[i].from.None? ||
      (!(lookup.Some? && Into(hops, Some(entry))[i].from.value.id == lookup.value.id) &&
       Into(hops, Some(entry))[i].from.value.id in checked)
    requires entry in refs && Among(lookup, refs)
    requires FromEndsIn(hops, refs) && KeysFaithful(refs) && MemoSound(hops, cache, refs)
    ensures MemoSound(hops, Scan(hops, cache, entry, lookup, checked, i).cache, refs)
    ensures Scan(hops, cache, entry, lookup, checked, i).found ==> ReachesBack(hops, entry.id, Target(entry, lookup))
    decreases |FromIds(hops) - checked|, 1, |Into(hops, Some(entry))| - i, 0
  {
    ScanSound(hops, cache, entry, lookup, checked, i + 1, refs);
  }

  /** The case of the scan that searches from an unvisited predecessor. */
  lemma {:induction false} ScanDeeperSound(hops: seq<Hop>, cache: map<string, bool>, entry: EntryRef,
                                           lookup: Option<EntryRef>, checked: set<nat>, i: nat, refs: set<EntryRef>)
    requires entry.id in checked && i < |Into(hops, Some(entry))|
    requires Into(hops, Some(entry))[i].from.Some?
    requires !(lookup.Some? && Into(hops, Some(entry))[i].from.value.id == lookup.value.id)
    requires Into(hops, Some(entry))[i].from.value.id !in checked
    requires entry in refs && Among(lookup, refs)
    requires FromEndsIn(hops, refs) && KeysFaithful(refs) && MemoSound(hops, cache, refs)
    ensures MemoSound(hops, Scan(hops, cache, entry, lookup, checked, i).cache, refs)
    ensures Scan(hops, cache, entry, lookup, checked, i).found ==> ReachesBack(hops, entry.id, Target(entry, lookup))
    decreases |FromIds(hops) - checked|, 1, |Into(hops, Some(entry))| - i, 0
  {
    var prev := Into(hops, Some(entry))[i].from.value;
    PredecessorFeeds(hops, entry, i, refs);
    FromEndListed(hops, Some(entry), i);
    assert FromIds(hops) + {prev.id} == FromIds(hops);
    var next := if lookup.None? then Some(entry) else lookup;
    LoopWalkSound(hops, cache, prev, next, checked, refs);
    var w := LoopWalk(hops, cache, prev, next, checked);
    if w.found {
      ChainPrepend(hops, entry.id, prev.id, Target(entry, lookup));
    } else {
      SubsetSmaller(FromIds(hops) - w.checked, FromIds(hops) - checked);
      ScanSound(hops, w.cache, entry, lookup, w.checked, i + 1, refs);
    }
  }

  /**
   * hasLoop(entry) is sound: when the memo keys are unambiguous on the copies, a reported
   * loop is a cycle of enabled hops that leads backward from entry to entry.
   */
  lemma HasLoopSound(hops: seq<Hop>, entry: EntryRef, refs: set<EntryRef>)
    requires entry in refs && FromEndsIn(hops, refs) && KeysFaithful(refs)
    ensures HasLoop(hops, entry).found ==> ReachesBack(hops, entry.id, entry.id)
  {
    LoopWalkSound(hops, map[], entry, None, {}, refs);
  }

  predicate NoDash(n: string) {
    forall k :: 0 <= k < |n| ==> n[k] != '-'
  }

  /** With no dash in either name, the memo key splits back into the two names. */
  lemma KeySplits(n1: string, m1: string, n2: string, m2: string)
    requires NoDash(n1) && NoDash(n2)
    requires n1 + " - " + m1 == n2 + " - " + m2
    ensures n1 == n2 && m1 == m2
  {
    var key := n1 + " - " + m1;
    assert key[|n1| + 1] == '-' && key[|n2| + 1] == '-';
    assert |n1| == |n2|;
    assert n1 == key[..|n1|] && n2 == key[..|n2|];
    assert m1 == key[|n1| + 3..] && m2 == key[|n2| + 3..];
  }

  /** One pair of memo keys over copies with usable names: equal keys, same pair. */
  lemma SameKeySamePair(refs: set<EntryRef>, e1: EntryRef, l1: Option<EntryRef>, e2: EntryRef, l2: Option<EntryRef>)
    requires forall a :: a in refs ==> a.name != "" && NoDash(a.name)
    requires forall a, b :: a in refs && b in refs && a.name == b.name ==> a.id == b.id
    requires e1 in refs && e2 in refs && Among(l1, refs) && Among(l2, refs)
    requires LoopKey(e1, l1) == LoopKey(e2, l2)
    ensures e1.id == e2.id && Target(e1, l1) == Target(e2, l2)
  {
    var n1 := if l1.Some? then l1.value.name else "";
    var n2 := if l2.Some? then l2.value.name else "";
    KeySplits(e1.name, n1, e2.name, n2);
  }

  /**
   * Copies with non-empty names, no dash in a name and no name shared by two objects
   * have unambiguous memo keys.
   */
  lemma DistinctNamesFaithful(refs: set<EntryRef>)
    requires forall a :: a in refs ==> a.name != "" && NoDash(a.name)
    requires forall a, b :: a in refs && b in refs && a.name == b.name ==> a.id == b.id
    ensures KeysFaithful(refs)
  {
    forall e1, l1, e2, l2 {:trigger LoopKey(e1, l1), LoopKey(e2, l2)}
      | e1 in refs && e2 in refs && Among(l1, refs) && Among(l2, refs) && LoopKey(e1, l1) == LoopKey(e2, l2)
      ensures e1.id == e2.id && Target(e1, l1) == Target(e2, l2)
    {
      SameKeySamePair(refs, e1, l1, e2, l2);
    }
  }

  /**
   * The converse fails: for the lone hop E -> E the walk skips E as already visited, so
   * hasLoop(E) is false although E feeds itself.
   */
  lemma SelfHopMissed()
    ensures ReachesBack([Hop(20, Some(EntryRef(5, "E")), Some(EntryRef(5, "E")), true, false)], 5, 5)
    ensures !HasLoop([Hop(20, Some(EntryRef(5, "E")), Some(EntryRef(5, "E")), true, false)], EntryRef(5, "E")).found
  {
    var e := EntryRef(5, "E");
    var hops := [Hop(20, Some(e), Some(e), true, false)];
    assert Feeds(hops, 5, 5) by {
      assert hops[0].enabled;
    }
    OneHopBack(hops, 5, 5);
    assert hops[..0] == [];
    assert Into(hops, Some(e)) == hops;
    assert {} + {e.id} == {5};
    assert Scan(hops, map[], e, None, {5}, 1) == Walk(false, map[], {5});
    assert Scan(hops, map[], e, None, {5}, 0) == Walk(false, map[], {5});
  }

  /** A memoised key answers without looking at the hops at all, stale or not. */
  lemma CachedShortCircuit(hops: seq<Hop>, hops': seq<Hop>, cache: map<string, bool>, entry: EntryRef,
                           lookup: Option<EntryRef>, checked: set<nat>)
    requires entry.id !in checked && LoopKey(entry, lookup) in cache
    ensures LoopWalk(hops, cache, entry, lookup, checked) == LoopWalk(hops', cache, entry, lookup, checked)
    ensures LoopWalk(hops, cache, entry, lookup, checked).found == cache[LoopKey(entry, lookup)]
  {
  }

  /** The memo key is ambiguous: entry "a - b" with lookup "c" and entry "a" with lookup "b - c" share it. */
  lemma KeyCollision()
    ensures LoopKey(EntryRef(1, "a - b"), Some(EntryRef(2, "c"))) == LoopKey(EntryRef(3, "a"), Some(EntryRef(4, "b - c")))
  {
  }

  // The chain A -> B -> C and the cycle A -> B -> C -> A.
  function A(): EntryRef { EntryRef(1, "A") }
  function B(): EntryRef { EntryRef(2, "B") }
  function C(): EntryRef { EntryRef(3, "C") }
  function AB(): Hop { Hop(10, Some(A()), Some(B()), true, false) }
  function BC(): Hop { Hop(11, Some(B()), Some(C()), true, false) }
  function CA(): Hop { Hop(12, Some(C()), Some(A()), true, false) }

  lemma ChainInto()
    ensures Into([AB(), BC()], Some(C())) == [BC()]
    ensures Into([AB(), BC()], Some(B())) == [AB()]
    ensures Into([AB(), BC()], Some(A())) == []
  {
    assert [AB(), BC()][..1] == [AB()];
    assert [AB()][..0] == [];
  }

  lemma CycleInto()
    ensures Into([AB(), BC(), CA()], Some(C())) == [BC()]
    ensures Into([AB(), BC(), CA()], Some(B())) == [AB()]
    ensures Into([AB(), BC(), CA()], Some(A())) == [CA()]
  {
    assert [AB(), BC(), CA()][..2] == [AB(), BC()];
    assert [AB(), BC()][..1] == [AB()];
    assert [AB()][..0] == [];
  }

  /** For the chain A -> B -> C there is no loop through C. */
  lemma ChainHasNoLoop()
    ensures !HasLoop([AB(), BC()], C()).found
  {
    var hops := [AB(), BC()];
    ChainInto();
    var sa := Scan(hops, map[], A(), Some(C()), {3, 2, 1}, 0);
    assert !sa.found;
    var wa := LoopWalk(hops, map[], A(), Some(C()), {3, 2});
    assert {3, 2} + {A().id} == {3, 2, 1};
    assert !wa.found;
    var sb := Scan(hops, map[], B(), Some(C()), {3, 2}, 0);
    assert sb == Scan(hops, wa.cache, B(), Some(C()), wa.checked, 1);
    assert !sb.found;
    var wb := LoopWalk(hops, map[], B(), Some(C()), {3});
    assert {3} + {B().id} == {3, 2};
    assert !wb.found;
    var sc := Scan(hops, map[], C(), None, {3}, 0);
    assert sc == Scan(hops, wb.cache, C(), None, wb.checked, 1);
    assert !sc.found;
    assert {} + {C().id} == {3};
  }

  /** With the hop C -> A added the walk from C comes back to C. */
  lemma CycleHasLoop()
    ensures HasLoop([AB(), BC(), CA()], C()).found
  {
    var hops := [AB(), BC(), CA()];
    CycleInto();
    var sa := Scan(hops, map[], A(), Some(C()), {3, 2, 1}, 0);
    assert sa.found;
    assert {3, 2} + {A().id} == {3, 2, 1};
    assert LoopWalk(hops, map[], A(), Some(C()), {3, 2}).found;
    var sb := Scan(hops, map[], B(), Some(C()), {3, 2}, 0);
    assert sb.found;
    assert {3} + {B().id} == {3, 2};
    assert LoopWalk(hops, map[], B(), Some(C()), {3}).found;
    var sc := Scan(hops, map[], C(), None, {3}, 0);
    assert sc.found;
    assert {} + {C().id} == {3};
  }

  /**
   * hasLoop(B, A) holds on the plain chain A -> B -> C already: A is a direct
   * predecessor of B, so clearing the memo does not bring that answer back to false.
   */
  lemma ChainLoopFromBToA()
    ensures LoopWalk([AB(), BC()], map[], B(), Some(A()), {}).found
    ensures LoopWalk([AB(), BC(), CA()], map[], B(), Some(A()), {}).found
  {
    ChainInto();
    CycleInto();
  }

  /**
   * The memo is not invalidated by a hop edit: after the walk on the chain, the same
   * memo still answers "no loop" for C once C -> A is added, while a fresh walk says yes.
   */
  lemma StaleMemo()
    ensures var first := HasLoop([AB(), BC()], C());
      !LoopWalk([AB(), BC(), CA()], first.cache, C(), None, {}).found &&
      HasLoop([AB(), BC(), CA()], C()).found
  {
    ChainHasNoLoop();
    CycleHasLoop();
    var first := HasLoop([AB(), BC()], C());
    CachedShortCircuit([AB(), BC(), CA()], [AB(), BC()], first.cache, C(), None, {});
  }
}
