/** Order-preserving selection, duplicate removal and positional removal on sequences. */
module Seqs {

  /** The elements of s that satisfy p, in the order they appear in s. */
  function Filter<T>(p: T -> bool, s: seq<T>): (r: seq<T>)
    ensures |r| <= |s|
  {
    if |s| == 0 then [] else Filter(p, s[..|s| - 1]) + (if p(s[|s| - 1]) then [s[|s| - 1]] else [])
  }

  /** Every selected element satisfies the test. */
  lemma {:induction false} FilterSatisfies<T>(p: T -> bool, s: seq<T>)
    ensures forall i :: 0 <= i < |Filter(p, s)| ==> p(Filter(p, s)[i])
    decreases |s|
  {
    if |s| > 0 {
      FilterSatisfies(p, s[..|s| - 1]);
    }
  }

  /** The selection holds exactly the elements of s that satisfy p. */
  lemma {:induction false} FilterMembers<T>(p: T -> bool, s: seq<T>)
    ensures forall i :: 0 <= i < |Filter(p, s)| ==> Filter(p, s)[i] in s
    ensures forall i :: 0 <= i < |s| && p(s[i]) ==> s[i] in Filter(p, s)
    decreases |s|
  {
    if |s| > 0 {
      var t := s[..|s| - 1];
      FilterMembers(p, t);
      forall i | 0 <= i < |s| && p(s[i])
        ensures s[i] in Filter(p, s)
      {
        if i < |t| {
          assert s[i] == t[i];
        }
      }
      forall i | 0 <= i < |Filter(p, s)|
        ensures Filter(p, s)[i] in s
      {
        if i < |Filter(p, t)| {
          assert Filter(p, s)[i] == Filter(p, t)[i];
          assert Filter(p, t)[i] in t;
        }
      }
    }
  }

  /** Extending the scanned prefix by one element extends the selection by at most that element. */
  lemma FilterStep<T>(p: T -> bool, s: seq<T>, i: nat)
    requires i < |s|
    ensures Filter(p, s[..i + 1]) == Filter(p, s[..i]) + (if p(s[i]) then [s[i]] else [])
  {
    assert s[..i + 1][..i] == s[..i];
  }

  /** The selection from a prefix is a prefix of the selection from the whole sequence. */
  lemma {:induction false} FilterPrefix<T>(p: T -> bool, s: seq<T>, i: nat)
    requires i <= |s|
    ensures |Filter(p, s[..i])| <= |Filter(p, s)|
    ensures Filter(p, s)[..|Filter(p, s[..i])|] == Filter(p, s[..i])
    decreases |s|
  {
    if i == |s| {
      assert s[..i] == s;
    } else {
      var t := s[..|s| - 1];
      assert t[..i] == s[..i];
      FilterPrefix(p, t, i);
    }
  }

  /** Selection distributes over concatenation. */
  lemma {:induction false} FilterConcat<T>(p: T -> bool, a: seq<T>, b: seq<T>)
    ensures Filter(p, a + b) == Filter(p, a) + Filter(p, b)
    decreases |b|
  {
    if |b| == 0 {
      assert a + b == a;
    } else {
      var b' := b[..|b| - 1];
      assert (a + b)[..|a + b| - 1] == a + b';
      FilterConcat(p, a, b');
    }
  }

  /** An element the predicate rejects, inserted anywhere, changes no selection. */
  lemma {:induction false} FilterSkip<T>(p: T -> bool, s: seq<T>, x: T, k: nat)
    requires !p(x) && k <= |s|
    ensures Filter(p, s[..k] + [x] + s[k..]) == Filter(p, s)
    decreases |s|
  {
    var t := s[..k] + [x] + s[k..];
    if k == |s| {
      assert t[..|t| - 1] == s;
    } else {
      var s' := s[..|s| - 1];
      assert t[..|t| - 1] == s'[..k] + [x] + s'[k..];
      assert t[|t| - 1] == s[|s| - 1];
      FilterSkip(p, s', x, k);
    }
  }

  /** The elements of s without repetitions, each kept at its first occurrence. */
  function Dedup<T(==)>(s: seq<T>): (r: seq<T>)
    ensures forall i :: 0 <= i < |r| ==> r[i] in s
    ensures forall i :: 0 <= i < |s| ==> s[i] in r
    ensures forall i, j :: 0 <= i < j < |r| ==> r[i] != r[j]
  {
    if |s| == 0 then []
    else
      var d := Dedup(s[..|s| - 1]);
      if s[|s| - 1] in d then d else d + [s[|s| - 1]]
  }

  /** The sequence without its element at position i; the others keep their order. */
  function RemoveAt<T>(s: seq<T>, i: nat): (r: seq<T>)
    requires i < |s|
    ensures |r| == |s| - 1
    ensures forall j :: 0 <= j < i ==> r[j] == s[j]
    ensures forall j :: i <= j < |r| ==> r[j] == s[j + 1]
  {
    s[..i] + s[i + 1..]
  }

  /** List.remove(Object): drops the first occurrence of x, if there is one. */
  function RemoveFirst<T(==)>(s: seq<T>, x: T): (r: seq<T>)
    ensures x in s ==> multiset(r) == multiset(s) - multiset{x}
    ensures x !in s ==> r == s
  {
    if |s| == 0 then []
    else
      assert s == [s[0]] + s[1..];
      if s[0] == x then s[1..] else [s[0]] + RemoveFirst(s[1..], x)
  }

  /** The position of the first element satisfying p, or -1 when there is none. */
  function IndexWhere<T>(p: T -> bool, s: seq<T>): (k: int)
    ensures -1 <= k < |s|
    ensures k >= 0 ==> p(s[k]) && forall j :: 0 <= j < k ==> !p(s[j])
    ensures k == -1 ==> forall j :: 0 <= j < |s| ==> !p(s[j])
  {
    if |s| == 0 then -1
    else if p(s[0]) then 0
    else
      var k := IndexWhere(p, s[1..]);
      if k == -1 then -1 else k + 1
  }

  /** The position of the last element satisfying p, or -1 when there is none. */
  function LastIndexWhere<T>(p: T -> bool, s: seq<T>): (k: int)
    ensures -1 <= k < |s|
    ensures k >= 0 ==> p(s[k]) && forall j :: k < j < |s| ==> !p(s[j])
    ensures k == -1 ==> forall j :: 0 <= j < |s| ==> !p(s[j])
  {
    if |s| == 0 then -1
    else if p(s[|s| - 1]) then |s| - 1
    else LastIndexWhere(p, s[..|s| - 1])
  }
}
