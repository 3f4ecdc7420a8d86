/**
 * JobMeta.isPathExist: a forward search along hops that compares entry names,
 * ignoring case, rather than copies. It has no visited set; the model bounds
 * its recursion depth by a fuel argument and answers None when the fuel (the
 * stack) runs out.
 */
module PathAnalyzer {
  import opened Wrappers
  import opened Text
  import opened JobEntries
  import opened Hops

  /** A hop with both ends whose from-name is `from`, ignoring case. */
  predicate StepsFrom(h: Hop, from: string) {
    h.from.Some? && h.to.Some? && EqualsIgnoreCase(h.from.value.name, from)
  }

  /**
   * The loop of isPathExist(from, to) from the i-th hop on, with `fuel` nested calls
   * left: Some(true) when a path is found, Some(false) when there is none, None when
   * the recursion would go deeper than the fuel allows.
   */
  function PathScan(hops: seq<Hop>, from: string, to: string, fuel: nat, i: nat): Option<bool>
    requires i <= |hops|
    decreases fuel, |hops| - i
  {
    if i == |hops| then Some(false)
    else if StepsFrom(hops[i], from) then
      if EqualsIgnoreCase(hops[i].to.value.name, to) then Some(true)
      else if fuel == 0 then None
      else
        match PathScan(hops, hops[i].to.value.name, to, fuel - 1, 0)
        case None => None
        case Some(true) => Some(true)
        case Some(false) => PathScan(hops, from, to, fuel, i + 1)
    else PathScan(hops, from, to, fuel, i + 1)
  }

  /**
   * A chain of hops, given by their positions, that starts at the name `from`, where each
   * hop starts at the name the previous one ends at, and whose last hop ends at `to`.
   */
  ghost predicate NamePath(hops: seq<Hop>, p: seq<nat>, from: string, to: string) {
    |p| >= 1 &&
    (forall j :: 0 <= j < |p| ==> p[j] < |hops| && hops[p[j]].to.Some?) &&
    StepsFrom(hops[p[0]], from) &&
    (forall j :: 0 <= j < |p| - 1 ==> StepsFrom(hops[p[j + 1]], hops[p[j]].to.value.name)) &&
    EqualsIgnoreCase(hops[p[|p| - 1]].to.value.name, to)
  }

  /** Soundness: a found path is a real chain of hops by name. */
  lemma {:induction false} PathScanSound(hops: seq<Hop>, from: string, to: string, fuel: nat, i: nat)
    requires i <= |hops| && PathScan(hops, from, to, fuel, i) == Some(true)
    ensures exists p :: NamePath(hops, p, from, to)
    decreases fuel, |hops| - i
  {
    if StepsFrom(hops[i], from) {
      if EqualsIgnoreCase(hops[i].to.value.name, to) {
        assert NamePath(hops, [i], from, to);
      } else {
        var mid := hops[i].to.value.name;
        var sub := PathScan(hops, mid, to, fuel - 1, 0);
        if sub == Some(true) {
          PathScanSound(hops, mid, to, fuel - 1, 0);
          var q :| NamePath(hops, q, mid, to);
          var p := [i] + q;
          assert forall j :: 0 <= j < |p| - 1 ==> p[j + 1] == q[j];
          assert NamePath(hops, p, from, to);
        } else {
          PathScanSound(hops, from, to, fuel, i + 1);
        }
      }
    } else {
      PathScanSound(hops, from, to, fuel, i + 1);
    }
  }

  /**
   * Completeness: when the search answers "no path", no chain of hops by name starts
   * at a hop it still had to look at.
   */
  lemma {:induction false} PathScanComplete(hops: seq<Hop>, from: string, to: string, fuel: nat, i: nat,
                                            p: seq<nat>)
    requires i <= |hops| && PathScan(hops, from, to, fuel, i) == Some(false)
    requires NamePath(hops, p, from, to)
    ensures p[0] < i
    decreases fuel, |hops| - i
  {
    if i < |hops| && p[0] >= i {
      if StepsFrom(hops[i], from) {
        var mid := hops[i].to.value.name;
        if p[0] == i {
          if |p| > 1 {
            var q := p[1..];
            assert forall k :: 0 <= k < |q| ==> q[k] == p[k + 1];
            assert NamePath(hops, q, mid, to);
            PathScanComplete(hops, mid, to, fuel - 1, 0, q);
          }
        } else {
          PathScanComplete(hops, from, to, fuel, i + 1, p);
        }
      } else {
        PathScanComplete(hops, from, to, fuel, i + 1, p);
      }
    }
  }

  /** No path from `from` at all when isPathExist answers false. */
  lemma NoPathWhenFalse(hops: seq<Hop>, from: string, to: string, fuel: nat)
    requires PathScan(hops, from, to, fuel, 0) == Some(false)
    ensures forall p :: !NamePath(hops, p, from, to)
  {
    forall p | NamePath(hops, p, from, to)
      ensures false
    {
      PathScanComplete(hops, from, to, fuel, 0, p);
    }
  }

  /** More fuel never changes an answer the search already gave. */
  lemma {:induction false} FuelMonotone(hops: seq<Hop>, from: string, to: string, fuel: nat, i: nat)
    requires i <= |hops| && PathScan(hops, from, to, fuel, i).Some?
    ensures PathScan(hops, from, to, fuel + 1, i) == PathScan(hops, from, to, fuel, i)
    decreases fuel, |hops| - i
  {
    if i < |hops| {
      if StepsFrom(hops[i], from) {
        if !EqualsIgnoreCase(hops[i].to.value.name, to) {
          var mid := hops[i].to.value.name;
          FuelMonotone(hops, mid, to, fuel - 1, 0);
          if PathScan(hops, mid, to, fuel - 1, 0) == Some(false) {
            FuelMonotone(hops, from, to, fuel, i + 1);
          }
        }
      } else {
        FuelMonotone(hops, from, to, fuel, i + 1);
      }
    }
  }

  /**
   * Matching by name mixes up copies: with hops A#0 -> X#0 and X#1 -> B, a path from A
   * to B is reported although no hop leaves the copy A leads to.
   */
  lemma NameMatchFalsePositive()
    ensures var a := Some(EntryRef(1, "A"));
      var x0 := Some(EntryRef(2, "X"));
      var x1 := Some(EntryRef(3, "X"));
      var b := Some(EntryRef(4, "B"));
      var hops := [Hop(10, a, x0, true, false), Hop(11, x1, b, true, false)];
      PathScan(hops, "A", "B", 1, 0) == Some(true) && OutOf(hops, x0) == []
  {
    var a := Some(EntryRef(1, "A"));
    var x0 := Some(EntryRef(2, "X"));
    var x1 := Some(EntryRef(3, "X"));
    var b := Some(EntryRef(4, "B"));
    var h1 := Hop(10, a, x0, true, false);
    var h2 := Hop(11, x1, b, true, false);
    var hops := [h1, h2];
    assert !EqualsIgnoreCase("X", "B") by {
      assert Lower("X")[0] != Lower("B")[0];
    }
    assert !EqualsIgnoreCase("X", "A") by {
      assert Lower("X")[0] != Lower("A")[0];
    }
    assert PathScan(hops, "X", "B", 0, 0) == Some(true);
    assert [h1, h2][..1] == [h1];
    assert [h1][..0] == [];
  }
}
