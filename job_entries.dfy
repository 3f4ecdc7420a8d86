/**
 * Job-entry copies as a job holds them, and the rules JobMeta applies to their
 * names and copy numbers: lookup by name and number, copy-number allocation,
 * collision renaming, the missing-entry registry and the merge of the copies
 * read from a job file.
 *
 * A copy is a value with an identity `id`; two copies are the same object
 * exactly when their ids agree (JobEntryCopy.equals is taken as identity).
 */
module JobEntries {
  import opened Wrappers
  import opened Text
  import opened Seqs
  import opened Canvas

  /** What the job entry behind a copy is, as far as JobMeta asks. */
  datatype PayloadKind = Plain | Start | Dummy | Missing

  /** The job entry (JobEntryInterface) a copy places on the canvas; `pid` is its identity. */
  datatype Payload = Payload(pid: nat, kind: PayloadKind)

  /** A JobEntryCopy: a positioned, numbered placement of a job entry. */
  datatype EntryCopy = EntryCopy(
    id: nat,
    name: string,
    nr: int,
    drawn: bool,
    selected: bool,
    payload: Option<Payload>,
    location: Point,
    hasParent: bool,
    changed: bool)

  /** What a hop keeps of an endpoint: the copy's identity and the name it carries. */
  datatype EntryRef = EntryRef(id: nat, name: string)

  function RefOf(c: EntryCopy): EntryRef {
    EntryRef(c.id, c.name)
  }

  predicate IsStart(c: EntryCopy) {
    c.payload.Some? && c.payload.value.kind == Start
  }

  predicate IsDummy(c: EntryCopy) {
    c.payload.Some? && c.payload.value.kind == Dummy
  }

  /** The payload is a MissingEntry placeholder for a plugin that could not be found. */
  predicate IsMissingPayload(p: Option<Payload>) {
    p.Some? && p.value.kind == Missing
  }

  // ---------------------------------------------------------------- lookup

  /** findJobEntry's test: same name ignoring case, same copy number, and drawn unless hidden ones count. */
  predicate Matches(c: EntryCopy, name: string, nr: int, hidden: bool) {
    EqualsIgnoreCase(c.name, name) && c.nr == nr && (hidden || c.drawn)
  }

  /** The position findJobEntry(name, nr, hidden) returns the copy of, or -1. */
  function FindIndex(copies: seq<EntryCopy>, name: string, nr: int, hidden: bool): int {
    IndexWhere((c: EntryCopy) => Matches(c, name, nr, hidden), copies)
  }

  /** indexOfJobEntry: the first position holding the same object, or -1. */
  function IndexOfId(copies: seq<EntryCopy>, id: nat): int {
    IndexWhere((c: EntryCopy) => c.id == id, copies)
  }

  /** The copy at position k, or None for -1. */
  function EntryAt(copies: seq<EntryCopy>, k: int): Option<EntryCopy>
    requires -1 <= k < |copies|
  {
    if k == -1 then None else Some(copies[k])
  }

  /** Every object occurs at most once in the list. */
  predicate DistinctIds(copies: seq<EntryCopy>) {
    forall i, j :: 0 <= i < j < |copies| ==> copies[i].id != copies[j].id
  }

  /** In a list without repeated objects, the first position of an object is its only one. */
  lemma IndexOfDistinct(copies: seq<EntryCopy>, k: nat)
    requires DistinctIds(copies) && k < |copies|
    ensures IndexOfId(copies, copies[k].id) == k
  {
  }

  // ---------------------------------------------------------------- copy numbers

  predicate Named(c: EntryCopy, name: string) {
    EqualsIgnoreCase(c.name, name)
  }

  /** The copies carrying the given name, ignoring case, in list order. */
  function NamedTest(name: string): EntryCopy -> bool {
    (c: EntryCopy) => Named(c, name)
  }

  function NamedCopies(copies: seq<EntryCopy>, name: string): seq<EntryCopy> {
    Filter(NamedTest(name), copies)
  }

  /** Some copy, hidden ones included, already has this name and number. */
  predicate NrTaken(copies: seq<EntryCopy>, name: string, k: int) {
    exists i :: 0 <= i < |copies| && Matches(copies[i], name, k, true)
  }

  /** findMaxNr: the largest copy number among the copies named `name`, and at least 0. */
  function MaxNr(copies: seq<EntryCopy>, name: string): (m: int)
    ensures m >= 0
    ensures forall i :: 0 <= i < |copies| && Named(copies[i], name) ==> copies[i].nr <= m
    ensures m == 0 || exists i :: 0 <= i < |copies| && Named(copies[i], name) && copies[i].nr == m
  {
    if |copies| == 0 then 0
    else
      var m := MaxNr(copies[..|copies| - 1], name);
      var c := copies[|copies| - 1];
      if Named(c, name) && c.nr > m then c.nr else m
  }

  /** No copy of that name is numbered above the maximum, so findUnusedNr stops by then. */
  lemma AboveMaxIsFree(copies: seq<EntryCopy>, name: string, k: int)
    requires k > MaxNr(copies, name)
    ensures !NrTaken(copies, name, k)
  {
    forall i | 0 <= i < |copies|
      ensures !Matches(copies[i], name, k, true)
    {
      assert Named(copies[i], name) ==> copies[i].nr <= MaxNr(copies, name);
    }
  }

  /** The smallest free number findUnusedNr finds is at most one above findMaxNr. */
  lemma {:induction false} UnusedAtMostMaxPlusOne(copies: seq<EntryCopy>, name: string, k: int)
    requires k >= 1 && !NrTaken(copies, name, k)
    requires forall j :: 1 <= j < k ==> NrTaken(copies, name, j)
    ensures k <= MaxNr(copies, name) + 1
  {
    if k > 1 {
      assert NrTaken(copies, name, k - 1);
      var i :| 0 <= i < |copies| && Matches(copies[i], name, k - 1, true);
      assert Named(copies[i], name);
    }
  }

  // ---------------------------------------------------------------- renaming

  /** Another object than `id` already sits at copy number 0 under the name n. */
  predicate RootTaken(copies: seq<EntryCopy>, id: nat, n: string) {
    exists i :: 0 <= i < |copies| && copies[i].id != id && EqualsIgnoreCase(copies[i].name, n) && copies[i].nr == 0
  }

  /** The k-th name renameJobEntryIfNameCollides tries: the name itself, then "name (2)", "name (3)", ... */
  function Candidate(base: string, k: nat): string {
    if k <= 1 then base else base + " (" + NatToDecimal(k) + ")"
  }

  /** The length of the longest name in the list. */
  function MaxNameLength(copies: seq<EntryCopy>): (m: nat)
    ensures forall i :: 0 <= i < |copies| ==> |copies[i].name| <= m
  {
    if |copies| == 0 then 0
    else
      var m := MaxNameLength(copies[..|copies| - 1]);
      var l := |copies[|copies| - 1].name|;
      if l > m then l else m
  }

  /**
   * Every taken candidate number is at most 10^l for the longest name length l: a
   * longer candidate cannot equal any name in the list. So the renaming loop ends.
   */
  lemma TakenBelowBound(copies: seq<EntryCopy>, id: nat, base: string, k: nat)
    requires k >= 1 && RootTaken(copies, id, Candidate(base, k))
    ensures k <= Pow10(MaxNameLength(copies))
  {
    if k >= 2 {
      var n := Candidate(base, k);
      var i :| 0 <= i < |copies| && copies[i].id != id && EqualsIgnoreCase(copies[i].name, n) && copies[i].nr == 0;
      assert |Lower(copies[i].name)| == |Lower(n)|;
      var d := |NatToDecimal(k)|;
      assert d <= MaxNameLength(copies);
      DecimalBound(k);
      Pow10Monotone(d, MaxNameLength(copies));
    }
  }

  /** The first candidate number from k on whose name no other root holds. */
  function FirstFreeFrom(copies: seq<EntryCopy>, id: nat, base: string, k: nat): (r: nat)
    requires k >= 1
    ensures r >= k && !RootTaken(copies, id, Candidate(base, r))
    ensures forall j :: k <= j < r ==> RootTaken(copies, id, Candidate(base, j))
    decreases Pow10(MaxNameLength(copies)) + 1 - k
  {
    if !RootTaken(copies, id, Candidate(base, k)) then k
    else
      TakenBelowBound(copies, id, base, k);
      FirstFreeFrom(copies, id, base, k + 1)
  }

  /** Any number from k on that is free, with every number between k and it taken, is the one the search stops at. */
  lemma {:induction false} FirstFreeIsFirst(copies: seq<EntryCopy>, id: nat, base: string, k: nat, r: nat)
    requires 1 <= k <= r && !RootTaken(copies, id, Candidate(base, r))
    requires forall j :: k <= j < r ==> RootTaken(copies, id, Candidate(base, j))
    ensures FirstFreeFrom(copies, id, base, k) == r
    decreases r - k
  {
    if k < r {
      FirstFreeIsFirst(copies, id, base, k + 1, r);
    }
  }

  /** The number of the name renameJobEntryIfNameCollides settles on: the first free candidate. */
  function RenameNumber(copies: seq<EntryCopy>, id: nat, base: string): nat {
    FirstFreeFrom(copies, id, base, 1)
  }

  /** Every copy of object id gets the name n; the others are untouched. */
  function RenameObject(copies: seq<EntryCopy>, id: nat, n: string): (r: seq<EntryCopy>)
    ensures |r| == |copies|
    ensures forall i :: 0 <= i < |copies| ==> r[i] == (if copies[i].id == id then copies[i].(name := n) else copies[i])
  {
    seq(|copies|, i requires 0 <= i < |copies| => if copies[i].id == id then copies[i].(name := n) else copies[i])
  }

  /**
   * After the renaming no other object holds copy number 0 under the new name, and
   * every earlier candidate was held by one.
   */
  lemma RenameResolvesCollision(copies: seq<EntryCopy>, id: nat, base: string)
    ensures var k := RenameNumber(copies, id, base);
      var r := RenameObject(copies, id, Candidate(base, k));
      !RootTaken(r, id, Candidate(base, k)) &&
      forall j :: 1 <= j < k ==> RootTaken(copies, id, Candidate(base, j))
  {
    var k := RenameNumber(copies, id, base);
    var n := Candidate(base, k);
    var r := RenameObject(copies, id, n);
    forall i | 0 <= i < |r|
      ensures !(r[i].id != id && EqualsIgnoreCase(r[i].name, n) && r[i].nr == 0)
    {
      if r[i].id != id {
        assert r[i] == copies[i];
      }
    }
  }

  /** A name nobody else uses at number 0 is kept as it is. */
  lemma FreeNameKept(copies: seq<EntryCopy>, id: nat, base: string)
    requires !RootTaken(copies, id, base)
    ensures Candidate(base, RenameNumber(copies, id, base)) == base
  {
  }

  // ---------------------------------------------------------------- missing-entry registry

  /** The registered placeholders; the registry list is only created on first use. */
  function Registered(m: Option<seq<Payload>>): seq<Payload> {
    if m.Some? then m.value else []
  }

  /** addMissingEntry: create the list if needed and append the placeholder. */
  function WithMissing(m: Option<seq<Payload>>, p: Payload): (r: Option<seq<Payload>>)
    ensures r.Some? && |r.value| >= 1 && r.value[|r.value| - 1] == p
    ensures multiset(Registered(r)) == multiset(Registered(m)) + multiset{p}
  {
    Some(Registered(m) + [p])
  }

  /** removeMissingEntry: drop the first occurrence when the list exists and holds it; otherwise no change. */
  function WithoutMissing(m: Option<seq<Payload>>, p: Option<Payload>): (r: Option<seq<Payload>>)
    ensures r.Some? == m.Some?
    ensures p.Some? && p.value in Registered(m) ==> multiset(Registered(r)) == multiset(Registered(m)) - multiset{p.value}
    ensures !(p.Some? && p.value in Registered(m)) ==> r == m
  {
    if m.Some? && p.Some? && p.value in m.value then Some(RemoveFirst(m.value, p.value)) else m
  }

  /** hasMissingPlugins: the list exists and is not empty. */
  predicate HasMissing(m: Option<seq<Payload>>) {
    m.Some? && |m.value| > 0
  }

  /** Registering and then removing a placeholder leaves the registered placeholders as they were. */
  lemma AddThenRemoveMissing(m: Option<seq<Payload>>, p: Payload)
    ensures var r := WithoutMissing(WithMissing(m, p), Some(p));
      HasMissing(WithMissing(m, p)) && multiset(Registered(r)) == multiset(Registered(m))
  {
    var a := WithMissing(m, p);
    assert p in Registered(a) by {
      assert Registered(a)[|Registered(a)| - 1] == p;
    }
  }

  // ---------------------------------------------------------------- load reconciliation

  /** The part of a job the entry-reading loop of loadXML builds: the copies and the registry. */
  datatype Loaded = Loaded(copies: seq<EntryCopy>, missing: Option<seq<Payload>>)

  /** The position of the copy an incoming copy replaces while loading, or -1 when it is only appended. */
  function Replaced(copies: seq<EntryCopy>, je: EntryCopy): (k: int)
    ensures -1 <= k < |copies|
  {
    var root := FindIndex(copies, je.name, 0, true);
    if root == -1 then -1
    else if je.nr == 0 then IndexOfId(copies, copies[root].id)
    else if je.nr > 0 then
      var same := FindIndex(copies, je.name, je.nr, true);
      if same == -1 then -1 else IndexOfId(copies, copies[same].id)
    else -1
  }

  /** The incoming copy as it is appended: a numbered copy takes over its root's job entry. */
  function Incoming(copies: seq<EntryCopy>, je: EntryCopy): EntryCopy {
    var root := FindIndex(copies, je.name, 0, true);
    var c := if root != -1 && je.nr > 0 then je.(payload := copies[root].payload) else je;
    c.(hasParent := true)
  }

  /** removeJobEntry on the loading state: the copy goes, and its placeholder with it. */
  function Detach(s: Loaded, k: nat): Loaded
    requires k < |s.copies|
  {
    var p := s.copies[k].payload;
    Loaded(RemoveAt(s.copies, k), if IsMissingPayload(p) then WithoutMissing(s.missing, p) else s.missing)
  }

  /** One turn of the entry-reading loop of loadXML for the parsed copy je. */
  function Reconcile(s: Loaded, je: EntryCopy): (r: Loaded)
    ensures |r.copies| >= 1 && r.copies[|r.copies| - 1] == Incoming(s.copies, je)
  {
    var reg := if IsMissingPayload(je.payload) then WithMissing(s.missing, je.payload.value) else s.missing;
    var k := Replaced(s.copies, je);
    var s1 := if k == -1 then Loaded(s.copies, reg) else Detach(Loaded(s.copies, reg), k);
    Loaded(s1.copies + [Incoming(s.copies, je)], s1.missing)
  }

  /** The whole entry-reading loop: the parsed copies are merged in file order. */
  function LoadAll(s: Loaded, parsed: seq<EntryCopy>): Loaded
    decreases |parsed|
  {
    if |parsed| == 0 then s else Reconcile(LoadAll(s, parsed[..|parsed| - 1]), parsed[|parsed| - 1])
  }

  /** An incoming root replaces the first copy, hidden or not, with the same name and number 0. */
  lemma RootReplacesRoot(s: Loaded, je: EntryCopy)
    requires je.nr == 0 && DistinctIds(s.copies)
    ensures var k := FindIndex(s.copies, je.name, 0, true);
      Replaced(s.copies, je) == k &&
      (k >= 0 ==> Reconcile(s, je).copies == RemoveAt(s.copies, k) + [je.(hasParent := true)]) &&
      (k == -1 ==> Reconcile(s, je).copies == s.copies + [je.(hasParent := true)])
  {
    var k := FindIndex(s.copies, je.name, 0, true);
    if k >= 0 {
      IndexOfDistinct(s.copies, k);
    }
  }

  /**
   * A numbered incoming copy whose root exists takes the root's job entry and replaces
   * the first copy with the same name and number, if there is one.
   */
  lemma NumberedAdoptsRoot(s: Loaded, je: EntryCopy)
    requires je.nr > 0 && DistinctIds(s.copies)
    requires FindIndex(s.copies, je.name, 0, true) >= 0
    ensures var root := FindIndex(s.copies, je.name, 0, true);
      var same := FindIndex(s.copies, je.name, je.nr, true);
      var c := je.(payload := s.copies[root].payload).(hasParent := true);
      Replaced(s.copies, je) == same &&
      (same >= 0 ==> Reconcile(s, je).copies == RemoveAt(s.copies, same) + [c]) &&
      (same == -1 ==> Reconcile(s, je).copies == s.copies + [c])
  {
    var same := FindIndex(s.copies, je.name, je.nr, true);
    if same >= 0 {
      IndexOfDistinct(s.copies, same);
    }
  }

  /** Without a root of its name a copy is appended as it is, whatever copies it duplicates. */
  lemma NoRootAppends(s: Loaded, je: EntryCopy)
    requires FindIndex(s.copies, je.name, 0, true) == -1
    ensures Reconcile(s, je).copies == s.copies + [je.(hasParent := true)]
  {
  }

  /** The registry after loading a copy: the incoming placeholder added, then the replaced one removed. */
  lemma ReconcileRegistry(s: Loaded, je: EntryCopy)
    ensures var reg := if IsMissingPayload(je.payload) then WithMissing(s.missing, je.payload.value) else s.missing;
      var k := Replaced(s.copies, je);
      Reconcile(s, je).missing ==
        if k >= 0 && IsMissingPayload(s.copies[k].payload) then WithoutMissing(reg, s.copies[k].payload) else reg
  {
  }

  /**
   * The registry arithmetic of one loading step: appending the incoming placeholder and
   * then dropping the first occurrence of the replaced copy's placeholder adds the one
   * and takes away the other, and takes away nothing when that placeholder is not there.
   */
  lemma RegistryBookkeeping(m: Option<seq<Payload>>, add: Option<Payload>, drop: Option<Payload>)
    ensures var reg := if IsMissingPayload(add) then WithMissing(m, add.value) else m;
      var after := if IsMissingPayload(drop) then WithoutMissing(reg, drop) else reg;
      var added := if IsMissingPayload(add) then multiset{add.value} else multiset{};
      var removed := if IsMissingPayload(drop) then multiset{drop.value} else multiset{};
      multiset(Registered(after)) == multiset(Registered(m)) + added - removed
  {
    var reg := if IsMissingPayload(add) then WithMissing(m, add.value) else m;
    var before := multiset(Registered(reg));
    if IsMissingPayload(drop) && drop.value !in Registered(reg) {
      assert WithoutMissing(reg, drop) == reg;
      assert before[drop.value] == 0;
      assert before - multiset{drop.value} == before;
    }
  }

  /**
   * The registry gains the incoming copy's placeholder before the replaced copy's
   * placeholder, if any, is dropped.
   */
  lemma RegistryAccount(s: Loaded, je: EntryCopy)
    ensures var k := Replaced(s.copies, je);
      var added := if IsMissingPayload(je.payload) then multiset{je.payload.value} else multiset{};
      var removed := if k >= 0 && IsMissingPayload(s.copies[k].payload) then multiset{s.copies[k].payload.value} else multiset{};
      multiset(Registered(Reconcile(s, je).missing)) == multiset(Registered(s.missing)) + added - removed
  {
    var k := Replaced(s.copies, je);
    RegistryBookkeeping(s.missing, je.payload, if k >= 0 then s.copies[k].payload else None);
    ReconcileRegistry(s, je);
  }

  /** At most one copy per (name ignoring case, copy number). */
  predicate Unique(copies: seq<EntryCopy>) {
    forall i, j :: 0 <= i < j < |copies| ==>
      !(EqualsIgnoreCase(copies[i].name, copies[j].name) && copies[i].nr == copies[j].nr)
  }

  /** The incoming copy is a new object. */
  predicate FreshId(copies: seq<EntryCopy>, je: EntryCopy) {
    forall i :: 0 <= i < |copies| ==> copies[i].id != je.id
  }

  /** Removing one copy keeps both the identity rule and distinct objects. */
  lemma RemoveAtKeeps(copies: seq<EntryCopy>, k: nat)
    requires k < |copies| && Unique(copies) && DistinctIds(copies)
    ensures Unique(RemoveAt(copies, k)) && DistinctIds(RemoveAt(copies, k))
  {
    var r := RemoveAt(copies, k);
    forall i, j | 0 <= i < j < |r|
      ensures !(EqualsIgnoreCase(r[i].name, r[j].name) && r[i].nr == r[j].nr) && r[i].id != r[j].id
    {
      var i' := if i < k then i else i + 1;
      var j' := if j < k then j else j + 1;
      assert r[i] == copies[i'] && r[j] == copies[j'] && i' < j';
    }
  }

  /** Appending a copy that collides with none of the list keeps both rules. */
  lemma AppendKeepsUnique(rest: seq<EntryCopy>, c: EntryCopy)
    requires Unique(rest) && DistinctIds(rest)
    requires forall i :: 0 <= i < |rest| ==>
      !(EqualsIgnoreCase(rest[i].name, c.name) && rest[i].nr == c.nr) && rest[i].id != c.id
    ensures Unique(rest + [c]) && DistinctIds(rest + [c])
  {
    var r := rest + [c];
    forall i, j | 0 <= i < j < |r|
      ensures !(EqualsIgnoreCase(r[i].name, r[j].name) && r[i].nr == r[j].nr) && r[i].id != r[j].id
    {
      if j < |rest| {
        assert r[i] == rest[i] && r[j] == rest[j];
      } else {
        assert r[i] == rest[i] && r[j] == c;
      }
    }
  }

  /** The list without the replaced copy, as loading one copy leaves it before the append. */
  function Remaining(copies: seq<EntryCopy>, je: EntryCopy): seq<EntryCopy> {
    var k := Replaced(copies, je);
    if k == -1 then copies else RemoveAt(copies, k)
  }

  /**
   * After the replaced copy is gone, no copy left has the incoming copy's name and
   * number, and none is the same object.
   */
  lemma RemainingAvoidsIncoming(s: Loaded, je: EntryCopy)
    requires Unique(s.copies) && DistinctIds(s.copies) && FreshId(s.copies, je)
    requires je.nr == 0 || (je.nr > 0 && FindIndex(s.copies, je.name, 0, true) >= 0)
    ensures var rest := Remaining(s.copies, je); var c := Incoming(s.copies, je);
      forall i :: 0 <= i < |rest| ==>
        !(EqualsIgnoreCase(rest[i].name, c.name) && rest[i].nr == c.nr) && rest[i].id != c.id
  {
    var copies := s.copies;
    var k := Replaced(copies, je);
    var c := Incoming(copies, je);
    var rest := Remaining(copies, je);
    // The copy in the list that shares the incoming copy's identity, if any, is the replaced one.
    var m := FindIndex(copies, je.name, je.nr, true);
    if m >= 0 {
      if je.nr == 0 {
        RootReplacesRoot(s, je);
      } else {
        NumberedAdoptsRoot(s, je);
      }
      assert k == m;
    }
    assert c.name == je.name && c.nr == je.nr;
    forall i | 0 <= i < |rest|
      ensures !(EqualsIgnoreCase(rest[i].name, c.name) && rest[i].nr == c.nr) && rest[i].id != c.id
    {
      var i' := if k == -1 || i < k then i else i + 1;
      assert rest[i] == copies[i'];
      if m >= 0 {
        assert m != i';
        assert Matches(copies[m], je.name, je.nr, true);
      }
    }
  }

  /**
   * Identity uniqueness: merging a new root, or a numbered copy whose root is already
   * there, keeps at most one copy per (name, number).
   */
  lemma ReconcileKeepsUnique(s: Loaded, je: EntryCopy)
    requires Unique(s.copies) && DistinctIds(s.copies) && FreshId(s.copies, je)
    requires je.nr == 0 || (je.nr > 0 && FindIndex(s.copies, je.name, 0, true) >= 0)
    ensures Unique(Reconcile(s, je).copies) && DistinctIds(Reconcile(s, je).copies)
  {
    var k := Replaced(s.copies, je);
    if k >= 0 {
      RemoveAtKeeps(s.copies, k);
    }
    RemainingAvoidsIncoming(s, je);
    AppendKeepsUnique(Remaining(s.copies, je), Incoming(s.copies, je));
    assert Reconcile(s, je).copies == Remaining(s.copies, je) + [Incoming(s.copies, je)];
  }

  /**
   * The merge does not deduplicate numbered copies without a root: two parsed copies
   * "X" number 1 end up side by side.
   */
  lemma NumberedWithoutRootDuplicates()
    ensures var a := EntryCopy(1, "X", 1, true, false, None, Point(0, 0), false, false);
      var b := EntryCopy(2, "X", 1, true, false, None, Point(0, 0), false, false);
      var r := LoadAll(Loaded([], None), [a, b]);
      |r.copies| == 2 && !Unique(r.copies)
  {
    var a := EntryCopy(1, "X", 1, true, false, None, Point(0, 0), false, false);
    var b := EntryCopy(2, "X", 1, true, false, None, Point(0, 0), false, false);
    assert [a, b][..1] == [a];
    assert [a][..0] == [];
    assert FindIndex([], "X", 1, true) == -1;
    assert Replaced([], a) == -1;
    assert Incoming([], a) == a.(hasParent := true);
    var s0 := Loaded([], None);
    assert LoadAll(s0, [a]) == Reconcile(LoadAll(s0, []), a);
    var s1 := Reconcile(s0, a);
    assert s1.copies == [] + [a.(hasParent := true)];
    assert !Matches(a.(hasParent := true), "X", 0, true);
    assert FindIndex(s1.copies, "X", 0, true) == -1;
    var r := Reconcile(s1, b);
    assert r.copies == [a.(hasParent := true), b.(hasParent := true)];
    assert LoadAll(s0, [a, b]) == Reconcile(LoadAll(s0, [a]), b);
    assert EqualsIgnoreCase(r.copies[0].name, r.copies[1].name) && r.copies[0].nr == r.copies[1].nr;
  }
}
