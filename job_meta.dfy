/**
 * JobMeta: the object that holds a job's entry copies, hops and notes and
 * answers the graph questions the editor and the engine ask about them.
 * Fields the source changes in place are fields of the class here; every
 * query is the source's own loop, proved against the functions of the
 * JobEntries, Hops, LoopDetector, PathAnalyzer, Validation and Canvas modules.
 */
module Jobs {
  import opened Wrappers
  import opened Text
  import opened Seqs
  import opened Canvas
  import opened JobEntries
  import opened Hops
  import opened LoopDetector
  import opened PathAnalyzer
  import opened Validation

  /** The name Object.toString falls back to: the class name. */
  const CLASS_NAME: string := "org.apache.hop.job.JobMeta"

  /** Utils.isEmpty on a string: null or of length 0. */
  predicate IsEmpty(s: Option<string>) {
    s.None? || |s.value| == 0
  }

  predicate Uses(h: Hop, name: string) {
    h.from.Some? && h.to.Some? && (EqualsIgnoreCase(h.from.value.name, name) || EqualsIgnoreCase(h.to.value.name, name))
  }

  function UsesTest(name: string): Hop -> bool {
    (h: Hop) => Uses(h, name)
  }

  function SelectedTest(): EntryCopy -> bool {
    (c: EntryCopy) => c.selected
  }

  /** The job entries behind the copies, in list order (null where a copy has none). */
  function Payloads(copies: seq<EntryCopy>): (r: seq<Option<Payload>>)
    ensures |r| == |copies| && forall i :: 0 <= i < |copies| ==> r[i] == copies[i].payload
  {
    seq(|copies|, i requires 0 <= i < |copies| => copies[i].payload)
  }

  function EntryXs(copies: seq<EntryCopy>): (r: seq<int32>)
    ensures |r| == |copies| && forall i :: 0 <= i < |copies| ==> r[i] == copies[i].location.x
  {
    seq(|copies|, i requires 0 <= i < |copies| => copies[i].location.x)
  }

  function EntryYs(copies: seq<EntryCopy>): (r: seq<int32>)
    ensures |r| == |copies| && forall i :: 0 <= i < |copies| ==> r[i] == copies[i].location.y
  {
    seq(|copies|, i requires 0 <= i < |copies| => copies[i].location.y)
  }

  // Copies and notes are different records with no common supertype here, so each list
  // has its own coordinate projection; the Note ones mirror EntryXs and EntryYs.
  function NoteXs(notes: seq<Note>): (r: seq<int32>)
    ensures |r| == |notes| && forall i :: 0 <= i < |notes| ==> r[i] == notes[i].location.x
  {
    seq(|notes|, i requires 0 <= i < |notes| => notes[i].location.x)
  }

  function NoteYs(notes: seq<Note>): (r: seq<int32>)
    ensures |r| == |notes| && forall i :: 0 <= i < |notes| ==> r[i] == notes[i].location.y
  {
    seq(|notes|, i requires 0 <= i < |notes| => notes[i].location.y)
  }

  /** The right edge of a note, x + width in int arithmetic. */
  function RightEdge(n: Note): int32 {
    Wrap(n.location.x as int + n.width as int)
  }

  /** The bottom edge of a note, y + height in int arithmetic. */
  function BottomEdge(n: Note): int32 {
    Wrap(n.location.y as int + n.height as int)
  }

  /** The right edges of the notes, with int addition. */
  function NoteRights(notes: seq<Note>): (r: seq<int32>)
    ensures |r| == |notes| && forall i :: 0 <= i < |notes| ==> r[i] == RightEdge(notes[i])
  {
    seq(|notes|, i requires 0 <= i < |notes| => RightEdge(notes[i]))
  }

  /** The bottom edges of the notes, with int addition. */
  function NoteBottoms(notes: seq<Note>): (r: seq<int32>)
    ensures |r| == |notes| && forall i :: 0 <= i < |notes| ==> r[i] == BottomEdge(notes[i])
  {
    seq(|notes|, i requires 0 <= i < |notes| => BottomEdge(notes[i]))
  }

  function HitTest(x: int32, y: int32, iconsize: int32): EntryCopy -> bool {
    (c: EntryCopy) => Hit(c.location, x, y, iconsize)
  }

  function StartTest(): EntryCopy -> bool {
    (c: EntryCopy) => IsStart(c)
  }

  function DummyTest(): EntryCopy -> bool {
    (c: EntryCopy) => IsDummy(c)
  }

  /** Every copy with its changed flag cleared. */
  function Unmarked(copies: seq<EntryCopy>): (r: seq<EntryCopy>)
    ensures |r| == |copies| && forall i :: 0 <= i < |copies| ==> r[i] == copies[i].(changed := false)
  {
    seq(|copies|, i requires 0 <= i < |copies| => copies[i].(changed := false))
  }

  /** Every hop with its changed flag cleared: the Hop counterpart of Unmarked. */
  function UnmarkedHops(hops: seq<Hop>): (r: seq<Hop>)
    ensures |r| == |hops| && forall i :: 0 <= i < |hops| ==> r[i] == hops[i].(changed := false)
  {
    seq(|hops|, i requires 0 <= i < |hops| => hops[i].(changed := false))
  }

  /** The position of the hop that is the same object as h, or -1. */
  function HopIndex(hops: seq<Hop>, h: Hop): int {
    IndexWhere((x: Hop) => x.hid == h.hid, hops)
  }

  class JobMeta {
    var copies: seq<EntryCopy>
    var hops: seq<Hop>
    var notes: seq<Note>
    var loopCache: map<string, bool>
    var missingEntries: Option<seq<Payload>>
    var changedEntries: bool
    var changedHops: bool
    /** The changed flag of the rest of the job, kept by AbstractMeta. */
    var changed: bool
    var name: Option<string>
    var filename: Option<string>

    /** A new, empty job: what clear() leaves of the parts modelled here. */
    constructor ()
      ensures copies == [] && hops == [] && notes == [] && loopCache == map[]
      ensures missingEntries == None && !changedEntries && !changedHops && !changed
      ensures name == None && filename == None
    {
      copies := [];
      hops := [];
      notes := [];
      loopCache := map[];
      missingEntries := None;
      changedEntries := false;
      changedHops := false;
      changed := false;
      name := None;
      filename := None;
    }

    // ------------------------------------------------------------ list edits

    /** addJobEntry(je): append, attach to this job, mark the job changed. */
    method AddJobEntry(je: EntryCopy)
      modifies this`copies, this`changed
      ensures copies == old(copies) + [je.(hasParent := true)]
      ensures changed
    {
      copies := copies + [je.(hasParent := true)];
      changed := true;
    }

    /** addJobHop(hi): append and mark the job changed. */
    method AddJobHop(hi: Hop)
      modifies this`hops, this`changed
      ensures hops == old(hops) + [hi]
      ensures changed
    {
      hops := hops + [hi];
      changed := true;
    }

    /** addJobEntry(p, si): insert at p (List.add throws outside 0..size) and mark the entries changed. */
    method AddJobEntryAt(p: nat, si: EntryCopy)
      requires p <= |copies|
      modifies this`copies, this`changedEntries
      ensures copies == old(copies)[..p] + [si] + old(copies)[p..]
      ensures changedEntries
    {
      copies := copies[..p] + [si] + copies[p..];
      changedEntries := true;
    }

    /** addJobHop(p, hi): insert at p when p is a valid position, append otherwise; mark the hops changed. */
    method AddJobHopAt(p: int, hi: Hop)
      modifies this`hops, this`changedHops
      ensures 0 <= p <= |old(hops)| ==> hops == old(hops)[..p] + [hi] + old(hops)[p..]
      ensures !(0 <= p <= |old(hops)|) ==> hops == old(hops) + [hi]
      ensures changedHops
    {
      if 0 <= p <= |hops| {
        hops := hops[..p] + [hi] + hops[p..];
      } else {
        hops := hops + [hi];
      }
      changedHops := true;
    }

    /**
     * removeJobEntry(i): the copy at i leaves the list, which keeps the order of the
     * rest; `deleted` is that copy with its parent cleared; a MissingEntry job entry
     * leaves the registry; the hops are not touched.
     */
    method RemoveJobEntry(i: nat) returns (deleted: EntryCopy)
      requires i < |copies|
      modifies this`copies, this`missingEntries, this`changed
      ensures copies == RemoveAt(old(copies), i)
      ensures deleted == old(copies)[i].(hasParent := false)
      ensures missingEntries == (if IsMissingPayload(old(copies)[i].payload)
        then WithoutMissing(old(missingEntries), old(copies)[i].payload)
        else old(missingEntries))
      ensures changed
    {
      deleted := copies[i];
      copies := copies[..i] + copies[i + 1..];
      deleted := deleted.(hasParent := false);
      if IsMissingPayload(deleted.payload) {
        RemoveMissingEntry(deleted.payload);
      }
      changed := true;
    }

    /** removeJobHop(i): the hop at i leaves the list. */
    method RemoveJobHopAt(i: nat)
      requires i < |hops|
      modifies this`hops, this`changed
      ensures hops == RemoveAt(old(hops), i)
      ensures changed
    {
      hops := hops[..i] + hops[i + 1..];
      changed := true;
    }

    /** removeJobHop(hop): the first occurrence of the hop leaves the list, if there is one. */
    method RemoveJobHop(hop: Hop)
      modifies this`hops, this`changed
      ensures var k := HopIndex(old(hops), hop);
        hops == (if k == -1 then old(hops) else RemoveAt(old(hops), k))
      ensures changed
    {
      var k := IndexOfJobHop(hop);
      if k != -1 {
        hops := hops[..k] + hops[k + 1..];
      }
      changed := true;
    }

    /** indexOfJobHop: the first position of the same hop, or -1. */
    function IndexOfJobHop(he: Hop): (k: int)
      reads this
      ensures -1 <= k < |hops|
      ensures k >= 0 ==> hops[k].hid == he.hid && forall j :: 0 <= j < k ==> hops[j].hid != he.hid
      ensures k == -1 ==> forall j :: 0 <= j < |hops| ==> hops[j].hid != he.hid
    {
      HopIndex(hops, he)
    }

    /** indexOfJobEntry: the first position of the same copy, or -1. */
    function IndexOfJobEntry(ge: EntryCopy): (k: int)
      reads this
      ensures -1 <= k < |copies|
      ensures k >= 0 ==> copies[k].id == ge.id && forall j :: 0 <= j < k ==> copies[j].id != ge.id
      ensures k == -1 ==> forall j :: 0 <= j < |copies| ==> copies[j].id != ge.id
    {
      IndexOfId(copies, ge.id)
    }

    /** setJobEntry(idx, jec): replace the copy at idx; no flag changes. */
    method SetJobEntry(idx: nat, jec: EntryCopy)
      requires idx < |copies|
      modifies this`copies
      ensures copies == old(copies)[idx := jec]
    {
      copies := copies[idx := jec];
    }

    // ------------------------------------------------------------ lookups

    /**
     * findJobEntry(name, nr, searchHiddenToo): the first copy in list order with that
     * name ignoring case and that number, skipping undrawn copies unless hidden ones
     * count; null when none qualifies.
     */
    method FindJobEntry(name: string, nr: int, hidden: bool) returns (r: Option<EntryCopy>)
      ensures r == EntryAt(copies, FindIndex(copies, name, nr, hidden))
      ensures r.None? <==> forall j :: 0 <= j < |copies| ==> !Matches(copies[j], name, nr, hidden)
      ensures r.Some? ==> Matches(r.value, name, nr, hidden) && r.value in copies
    {
      var i := 0;
      while i < |copies|
        invariant 0 <= i <= |copies|
        invariant forall j :: 0 <= j < i ==> !Matches(copies[j], name, nr, hidden)
      {
        var jec := copies[i];
        if EqualsIgnoreCase(jec.name, name) && jec.nr == nr {
          if hidden || jec.drawn {
            return Some(jec);
          }
        }
        i := i + 1;
      }
      return None;
    }

    /**
     * findJobHop(name): the first hop whose text equals name ignoring case; the hop's
     * text (JobHopMeta.toString) is a parameter.
     */
    method FindJobHopByName(name: string, hopText: Hop -> string) returns (r: Option<Hop>)
      ensures r.None? <==> forall j :: 0 <= j < |hops| ==> !EqualsIgnoreCase(hopText(hops[j]), name)
      ensures r.Some? ==> EqualsIgnoreCase(hopText(r.value), name) && r.value in hops
      ensures r.Some? ==> exists k :: 0 <= k < |hops| && hops[k] == r.value && forall j :: 0 <= j < k ==> !EqualsIgnoreCase(hopText(hops[j]), name)
    {
      var i := 0;
      while i < |hops|
        invariant 0 <= i <= |hops|
        invariant forall j :: 0 <= j < i ==> !EqualsIgnoreCase(hopText(hops[j]), name)
      {
        if EqualsIgnoreCase(hopText(hops[i]), name) {
          return Some(hops[i]);
        }
        i := i + 1;
      }
      return None;
    }

    /** findJobHopFrom(jge): the first hop leaving jge, enabled or not; null for a null jge. */
    method FindJobHopFrom(jge: Option<EntryRef>) returns (r: Option<Hop>)
      ensures r.None? <==> forall j :: 0 <= j < |hops| ==> !Same(hops[j].from, jge)
      ensures r.Some? ==> Same(r.value.from, jge) && r.value in hops
      ensures r.Some? ==> exists k :: 0 <= k < |hops| && hops[k] == r.value && forall j :: 0 <= j < k ==> !Same(hops[j].from, jge)
    {
      if jge.Some? {
        var i := 0;
        while i < |hops|
          invariant 0 <= i <= |hops|
          invariant forall j :: 0 <= j < i ==> !Same(hops[j].from, jge)
        {
          var hi := hops[i];
          if hi.from.Some? && hi.from.value.id == jge.value.id {
            return Some(hi);
          }
          i := i + 1;
        }
      }
      return None;
    }

    /**
     * findJobHop(from, to, includeDisabled): the first hop from `from` to `to`, among the
     * enabled ones unless disabled ones count. findJobHop(from, to) is includeDisabled = false.
     */
    method FindJobHop(from: Option<EntryRef>, to: Option<EntryRef>, includeDisabled: bool) returns (r: Option<Hop>)
      ensures r.None? <==> (forall j :: 0 <= j < |hops| ==>
        !((hops[j].enabled || includeDisabled) && Same(hops[j].from, from) && Same(hops[j].to, to)))
      ensures r.Some? ==> ((r.value.enabled || includeDisabled) && Same(r.value.from, from) &&
        Same(r.value.to, to) && r.value in hops)
      ensures r.Some? ==> exists k :: 0 <= k < |hops| && hops[k] == r.value && forall j :: 0 <= j < k ==>
        !((hops[j].enabled || includeDisabled) && Same(hops[j].from, from) && Same(hops[j].to, to))
    {
      var i := 0;
      while i < |hops|
        invariant 0 <= i <= |hops|
        invariant forall j :: 0 <= j < i ==>
            !((hops[j].enabled || includeDisabled) && Same(hops[j].from, from) && Same(hops[j].to, to))
      {
        var hi := hops[i];
        if hi.enabled || includeDisabled {
          if hi.from.Some? && hi.to.Some? && from.Some? && to.Some? &&
             hi.from.value.id == from.value.id && hi.to.value.id == to.value.id {
            return Some(hi);
          }
        }
        i := i + 1;
      }
      return None;
    }

    /** findJobHopTo(jge): the first hop arriving at jge, enabled or not. */
    method FindJobHopTo(jge: Option<EntryRef>) returns (r: Option<Hop>)
      ensures r.None? <==> forall j :: 0 <= j < |hops| ==> !Same(hops[j].to, jge)
      ensures r.Some? ==> Same(r.value.to, jge) && r.value in hops
      ensures r.Some? ==> exists k :: 0 <= k < |hops| && hops[k] == r.value && forall j :: 0 <= j < k ==> !Same(hops[j].to, jge)
    {
      var i := 0;
      while i < |hops|
        invariant 0 <= i <= |hops|
        invariant forall j :: 0 <= j < i ==> !Same(hops[j].to, jge)
      {
        var hi := hops[i];
        if hi.to.Some? && jge.Some? && hi.to.value.id == jge.value.id {
          return Some(hi);
        }
        i := i + 1;
      }
      return None;
    }

    /** findNrPrevJobEntries(to): how many enabled hops arrive at `to`. */
    method FindNrPrevJobEntries(to: Option<EntryRef>) returns (count: nat)
      requires ToEndsPresent(hops)
      ensures count == |Into(hops, to)|
    {
      count := 0;
      var i := 0;
      while i < |hops|
        invariant 0 <= i <= |hops|
        invariant count == |Into(hops[..i], to)|
      {
        FilterStep(IntoTest(to), hops, i);
        var hi := hops[i];
        if hi.enabled && to.Some? && hi.to.value.id == to.value.id {
          count := count + 1;
        }
        i := i + 1;
      }
      assert hops[..i] == hops;
    }

    /** findPrevJobEntry(to, nr): the from-end of the nr-th enabled hop into `to`, or null. */
    method FindPrevJobEntry(to: Option<EntryRef>, nr: int) returns (r: Option<EntryRef>)
      requires ToEndsPresent(hops)
      ensures r == PrevAt(hops, to, nr)
    {
      var count := 0;
      var i := 0;
      while i < |hops|
        invariant 0 <= i <= |hops|
        invariant count == |Into(hops[..i], to)|
        invariant 0 <= nr ==> count <= nr
      {
        FilterStep(IntoTest(to), hops, i);
        var hi := hops[i];
        if hi.enabled && to.Some? && hi.to.value.id == to.value.id {
          if count == nr {
            assert Into(hops, to)[count] == hi by {
              FilterPrefix(IntoTest(to), hops, i + 1);
              assert Into(hops[..i + 1], to) == Into(hops[..i], to) + [hi];
            }
            return hi.from;
          }
          count := count + 1;
        }
        i := i + 1;
      }
      assert hops[..i] == hops;
      return None;
    }

    /** findNrNextJobEntries(from): how many enabled hops leave `from`. */
    method FindNrNextJobEntries(from: Option<EntryRef>) returns (count: nat)
      ensures count == |OutOf(hops, from)|
    {
      count := 0;
      var i := 0;
      while i < |hops|
        invariant 0 <= i <= |hops|
        invariant count == |OutOf(hops[..i], from)|
      {
        FilterStep(OutOfTest(from), hops, i);
        var hi := hops[i];
        if hi.enabled && hi.from.Some? && from.Some? && hi.from.value.id == from.value.id {
          count := count + 1;
        }
        i := i + 1;
      }
      assert hops[..i] == hops;
    }

    /** findNextJobEntry(from, cnt): the to-end of the cnt-th enabled hop out of `from`, or null. */
    method FindNextJobEntry(from: Option<EntryRef>, cnt: int) returns (r: Option<EntryRef>)
      ensures r == NextAt(hops, from, cnt)
    {
      var count := 0;
      var i := 0;
      while i < |hops|
        invariant 0 <= i <= |hops|
        invariant count == |OutOf(hops[..i], from)|
        invariant 0 <= cnt ==> count <= cnt
      {
        FilterStep(OutOfTest(from), hops, i);
        var hi := hops[i];
        if hi.enabled && hi.from.Some? && from.Some? && hi.from.value.id == from.value.id {
          if count == cnt {
            FilterPrefix(OutOfTest(from), hops, i + 1);
            assert OutOf(hops[..i + 1], from) == OutOf(hops[..i], from) + [hi];
            assert OutOf(hops, from)[count] == OutOf(hops[..i + 1], from)[count] == hi;
            return hi.to;
          }
          count := count + 1;
        }
        i := i + 1;
      }
      assert hops[..i] == hops;
      return None;
    }

    /** isEntryUsedInHops(jge): some hop leaves or enters jge. */
    method IsEntryUsedInHops(jge: Option<EntryRef>) returns (used: bool)
      ensures used <==> exists j :: 0 <= j < |hops| && (Same(hops[j].from, jge) || Same(hops[j].to, jge))
    {
      var fr := FindJobHopFrom(jge);
      var to := FindJobHopTo(jge);
      used := fr.Some? || to.Some?;
    }

    // ------------------------------------------------------------ loops and paths

    /** hasLoop(entry): clear the memo, then search for a loop back to entry itself. */
    method HasLoop(entry: EntryRef) returns (found: bool)
      requires ToEndsPresent(hops)
      modifies this`loopCache
      ensures found == LoopDetector.HasLoop(hops, entry).found
      ensures loopCache == LoopDetector.HasLoop(hops, entry).cache
    {
      loopCache := map[];
      found := HasLoopWith(entry, None);
    }

    /** hasLoop(entry, lookup): a fresh visited set, the memo as it is. */
    method HasLoopWith(entry: EntryRef, lookup: Option<EntryRef>) returns (found: bool)
      requires ToEndsPresent(hops)
      modifies this`loopCache
      ensures found == LoopWalk(hops, old(loopCache), entry, lookup, {}).found
      ensures loopCache == LoopWalk(hops, old(loopCache), entry, lookup, {}).cache
    {
      var checked;
      found, checked := HasLoopFrom(entry, lookup, {});
    }

    /**
     * hasLoop(entry, lookup, checkedEntries): the visited set is handed in and out; the
     * memo is read first and written last.
     */
    method HasLoopFrom(entry: EntryRef, lookup: Option<EntryRef>, checked: set<nat>)
      returns (found: bool, checkedOut: set<nat>)
      requires ToEndsPresent(hops) && entry.id !in checked
      modifies this`loopCache
      ensures var w := LoopWalk(hops, old(loopCache), entry, lookup, checked);
        found == w.found && loopCache == w.cache && checkedOut == w.checked
      decreases |(FromIds(hops) + {entry.id}) - checked|, 0
    {
      var cacheKey := entry.name + " - " + (if lookup.Some? then lookup.value.name else "");
      assert cacheKey == LoopKey(entry, lookup);
      if cacheKey in loopCache {
        return loopCache[cacheKey], checked;
      }
      checkedOut := checked + {entry.id};
      assert FromIds(hops) - checkedOut == ((FromIds(hops) + {entry.id}) - checked) - {entry.id};
      RemoveOneSmaller((FromIds(hops) + {entry.id}) - checked, entry.id);
      found, checkedOut := ScanPredecessors(entry, lookup, checkedOut);
      loopCache := loopCache[cacheKey := found];
    }

    /** The loop of hasLoop(entry, lookup, checkedEntries) over the predecessors of entry. */
    method ScanPredecessors(entry: EntryRef, lookup: Option<EntryRef>, checked: set<nat>)
      returns (found: bool, checkedOut: set<nat>)
      requires ToEndsPresent(hops) && entry.id in checked
      modifies this`loopCache
      ensures Scan(hops, old(loopCache), entry, lookup, checked, 0) == Walk(found, loopCache, checkedOut)
      decreases |FromIds(hops) - checked|, 2
    {
      ghost var s := Scan(hops, loopCache, entry, lookup, checked, 0);
      found := false;
      checkedOut := checked;
      var nr := FindNrPrevJobEntries(Some(entry));
      var i := 0;
      while i < nr && !found
        invariant 0 <= i <= nr && nr == |Into(hops, Some(entry))|
        invariant entry.id in checkedOut && |FromIds(hops) - checkedOut| <= |FromIds(hops) - checked|
        invariant !found ==> s == Scan(hops, loopCache, entry, lookup, checkedOut, i)
        invariant found ==> s == Walk(true, loopCache, checkedOut)
      {
        var hit, out := ScanPrevious(entry, lookup, checkedOut, i);
        checkedOut := out;
        found := hit;
        i := i + 1;
      }
    }

    /**
     * One pass of the loop of hasLoop(entry, lookup, checkedEntries): the i-th predecessor
     * is a loop when it is the lookup, or when it is unvisited and a loop is found from it.
     */
    method ScanPrevious(entry: EntryRef, lookup: Option<EntryRef>, checked: set<nat>, i: nat)
      returns (hit: bool, checkedOut: set<nat>)
      requires ToEndsPresent(hops) && entry.id in checked && i < |Into(hops, Some(entry))|
      modifies this`loopCache
      ensures checked <= checkedOut && entry.id in checkedOut
      ensures |FromIds(hops) - checkedOut| <= |FromIds(hops) - checked|
      ensures var here := Scan(hops, old(loopCache), entry, lookup, checked, i);
        here == if hit then Walk(true, loopCache, checkedOut) else Scan(hops, loopCache, entry, lookup, checkedOut, i + 1)
      decreases |FromIds(hops) - checked|, 1
    {
      checkedOut := checked;
      hit := false;
      var prevJobMeta := FindPrevJobEntry(Some(entry), i);
      if prevJobMeta.Some? {
        if lookup.Some? && prevJobMeta.value.id == lookup.value.id {
          hit := true;
        } else if prevJobMeta.value.id !in checked {
          FromEndListed(hops, Some(entry), i);
          assert FromIds(hops) + {prevJobMeta.value.id} == FromIds(hops);
          hit, checkedOut := HasLoopFrom(prevJobMeta.value, if lookup.None? then Some(entry) else lookup, checked);
          SubsetSmaller(FromIds(hops) - checkedOut, FromIds(hops) - checked);
        }
      }
    }

    /**
     * isPathExist(from, to) by name, with at most `fuel` nested calls: None when the
     * recursion would have to go deeper.
     */
    method IsPathExist(from: string, to: string, fuel: nat) returns (r: Option<bool>)
      ensures r == PathScan(hops, from, to, fuel, 0)
      decreases fuel
    {
      var i := 0;
      while i < |hops|
        invariant 0 <= i <= |hops|
        invariant PathScan(hops, from, to, fuel, 0) == PathScan(hops, from, to, fuel, i)
      {
        var hi := hops[i];
        if hi.from.Some? && hi.to.Some? {
          if EqualsIgnoreCase(hi.from.value.name, from) {
            if EqualsIgnoreCase(hi.to.value.name, to) {
              return Some(true);
            }
            if fuel == 0 {
              return None;
            }
            var sub := IsPathExist(hi.to.value.name, to, fuel - 1);
            if sub != Some(false) {
              return sub;
            }
          }
        }
        i := i + 1;
      }
      return Some(false);
    }
    // ------------------------------------------------------------ missing-plugin registry

    /** addMissingEntry: the list is created on first use, then the entry is appended. */
    method AddMissingEntry(missingEntry: Payload)
      modifies this`missingEntries
      ensures missingEntries == WithMissing(old(missingEntries), missingEntry)
    {
      if missingEntries.None? {
        missingEntries := Some([]);
      }
      missingEntries := Some(missingEntries.value + [missingEntry]);
    }

    /** removeMissingEntry: the first occurrence leaves the list, when there is a list and it holds the entry. */
    method RemoveMissingEntry(missingEntry: Option<Payload>)
      modifies this`missingEntries
      ensures missingEntries == WithoutMissing(old(missingEntries), missingEntry)
    {
      if missingEntries.Some? && missingEntry.Some? && missingEntry.value in missingEntries.value {
        missingEntries := Some(RemoveFirst(missingEntries.value, missingEntry.value));
      }
    }

    /** hasMissingPlugins: some job entry stands in for a plugin that could not be loaded. */
    function HasMissingPlugins(): (r: bool)
      reads this
      ensures r <==> |Registered(missingEntries)| > 0
    {
      HasMissing(missingEntries)
    }

    // ------------------------------------------------------------ loading

    /**
     * One parsed copy of loadXML: a MissingEntry job entry is registered, the copy it
     * replaces leaves the list, and then it is added.
     */
    method ReconcileEntry(je0: EntryCopy)
      modifies this`copies, this`missingEntries, this`changed
      ensures Loaded(copies, missingEntries) == Reconcile(old(Loaded(copies, missingEntries)), je0)
      ensures changed
    {
      if IsMissingPayload(je0.payload) {
        AddMissingEntry(je0.payload.value);
      }
      var je := DetachReplaced(je0);
      AddJobEntry(je);
    }

    /**
     * The replacing step of loadXML: a root copy (nr 0) replaces the copy of that name
     * already there; a numbered copy takes the root's job entry and replaces the copy
     * with its name and number; without a root nothing is replaced.
     */
    method DetachReplaced(je0: EntryCopy) returns (je: EntryCopy)
      modifies this`copies, this`missingEntries, this`changed
      ensures var k := Replaced(old(copies), je0);
        Loaded(copies, missingEntries) ==
          (if k == -1 then old(Loaded(copies, missingEntries)) else Detach(old(Loaded(copies, missingEntries)), k))
      ensures je.(hasParent := true) == Incoming(old(copies), je0)
    {
      ghost var k := Replaced(copies, je0);
      je := je0;
      var prev := FindJobEntry(je.name, 0, true);
      if prev.Some? {
        if je.nr == 0 {
          var idx := IndexOfJobEntry(prev.value);
          assert idx == k;
          var deleted := RemoveJobEntry(idx);
        } else if je.nr > 0 {
          je := je.(payload := prev.value.payload);
          prev := FindJobEntry(je.name, je.nr, true);
          if prev.Some? {
            var idx := IndexOfJobEntry(prev.value);
            assert idx == k;
            var deleted := RemoveJobEntry(idx);
          }
        }
      }
    }

    /** The entries part of loadXML: every parsed copy in document order. */
    method LoadEntries(parsed: seq<EntryCopy>)
      modifies this`copies, this`missingEntries, this`changed
      ensures Loaded(copies, missingEntries) == LoadAll(old(Loaded(copies, missingEntries)), parsed)
      ensures |parsed| > 0 ==> changed
    {
      var i := 0;
      while i < |parsed|
        invariant 0 <= i <= |parsed|
        invariant Loaded(copies, missingEntries) == LoadAll(old(Loaded(copies, missingEntries)), parsed[..i])
        invariant i > 0 ==> changed
      {
        assert parsed[..i + 1][..i] == parsed[..i];
        ReconcileEntry(parsed[i]);
        i := i + 1;
      }
      assert parsed[..i] == parsed;
    }

    // ------------------------------------------------------------ copy numbers and names

    /** countEntries(name): how many copies carry the name, ignoring case. */
    method CountEntries(name: string) returns (count: nat)
      ensures count == |NamedCopies(copies, name)|
    {
      count := 0;
      var i := 0;
      while i < |copies|
        invariant 0 <= i <= |copies|
        invariant count == |Filter(NamedTest(name), copies[..i])|
      {
        FilterStep(NamedTest(name), copies, i);
        if EqualsIgnoreCase(copies[i].name, name) {
          count := count + 1;
        }
        i := i + 1;
      }
      assert copies[..i] == copies;
    }

    /** findUnusedNr(name): the smallest copy number from 1 on that no copy of the name, drawn or not, has. */
    method FindUnusedNr(name: string) returns (nr: int)
      ensures nr >= 1 && !NrTaken(copies, name, nr)
      ensures forall k :: 1 <= k < nr ==> NrTaken(copies, name, k)
    {
      nr := 1;
      var je := FindJobEntry(name, nr, true);
      while je.Some?
        invariant nr >= 1
        invariant forall k :: 1 <= k < nr ==> NrTaken(copies, name, k)
        invariant je.Some? <==> NrTaken(copies, name, nr)
        decreases MaxNr(copies, name) + 1 - nr
      {
        ghost var w :| 0 <= w < |copies| && Matches(copies[w], name, nr, true);
        assert Named(copies[w], name);
        nr := nr + 1;
        je := FindJobEntry(name, nr, true);
      }
    }

    /** findMaxNr(name): the largest copy number among the copies of the name, 0 when there is none above it. */
    method FindMaxNr(name: string) returns (max: int)
      ensures max == MaxNr(copies, name)
    {
      max := 0;
      var i := 0;
      while i < |copies|
        invariant 0 <= i <= |copies|
        invariant max == MaxNr(copies[..i], name)
      {
        assert copies[..i + 1][..i] == copies[..i];
        var je := copies[i];
        if EqualsIgnoreCase(je.name, name) {
          if je.nr > max {
            max := je.nr;
          }
        }
        i := i + 1;
      }
      assert copies[..i] == copies;
    }

    /** getAllJobGraphEntries(name): the copies of the name, in list order, counted first and then collected. */
    method GetAllJobGraphEntries(name: string) returns (retval: array<EntryCopy>)
      ensures fresh(retval)
      ensures retval[..] == NamedCopies(copies, name)
    {
      var count := CountEntries(name);
      var c0 := EntryCopy(0, "", 0, false, false, None, Point(0, 0), false, false);
      retval := new EntryCopy[count](_ => c0);
      CollectNamed(copies, name, retval);
    }

    /** The second pass of getAllJobGraphEntries: the copies of the name stored in list order. */
    static method CollectNamed(cs: seq<EntryCopy>, name: string, retval: array<EntryCopy>)
      requires retval.Length == |Filter(NamedTest(name), cs)|
      modifies retval
      ensures retval[..] == Filter(NamedTest(name), cs)
    {
      var count := 0;
      var i := 0;
      while i < |cs|
        invariant 0 <= i <= |cs| && count <= retval.Length
        invariant retval[..count] == Filter(NamedTest(name), cs[..i])
      {
        ghost var sel := Filter(NamedTest(name), cs[..i]);
        FilterStep(NamedTest(name), cs, i);
        var je := cs[i];
        if EqualsIgnoreCase(je.name, name) {
          assert Filter(NamedTest(name), cs[..i + 1]) == sel + [je] by {
            assert NamedTest(name)(je);
          }
          assert count < retval.Length by {
            FilterPrefix(NamedTest(name), cs, i + 1);
          }
          Place(retval, count, je);
          count := count + 1;
        } else {
          assert Filter(NamedTest(name), cs[..i + 1]) == sel by {
            assert !NamedTest(name)(je);
          }
        }
        i := i + 1;
      }
      assert cs[..i] == cs;
      assert retval[..] == retval[..count];
    }

    /** retval[count] = je: the filled part grows by one and no other slot changes. */
    static method Place(a: array<EntryCopy>, k: nat, x: EntryCopy)
      requires k < a.Length
      modifies a
      ensures a[..k + 1] == old(a[..k]) + [x]
      ensures a[..] == old(a[..])[k := x]
    {
      a[k] := x;
    }

    /** getAllJobHopsUsing(name): the hops with both ends where either end has the name, ignoring case. */
    method GetAllJobHopsUsing(name: string) returns (r: seq<Hop>)
      ensures r == Filter(UsesTest(name), hops)
    {
      r := [];
      var i := 0;
      while i < |hops|
        invariant 0 <= i <= |hops|
        invariant r == Filter(UsesTest(name), hops[..i])
      {
        FilterStep(UsesTest(name), hops, i);
        var hi := hops[i];
        if hi.from.Some? && hi.to.Some? {
          if EqualsIgnoreCase(hi.from.value.name, name) || EqualsIgnoreCase(hi.to.value.name, name) {
            r := r + [hi];
          }
        }
        i := i + 1;
      }
      assert hops[..i] == hops;
    }

    /** Whether a copy other than the one with this id is a root copy named n, ignoring case. */
    static method RootCollision(cs: seq<EntryCopy>, id: nat, n: string) returns (found: bool)
      ensures found == RootTaken(cs, id, n)
    {
      found := false;
      var i := 0;
      while i < |cs|
        invariant 0 <= i <= |cs|
        invariant found <==> exists j :: 0 <= j < i && cs[j].id != id && EqualsIgnoreCase(cs[j].name, n) && cs[j].nr == 0
      {
        var copy := cs[i];
        if copy.id != id && EqualsIgnoreCase(copy.name, n) && copy.nr == 0 {
          found := true;
        }
        i := i + 1;
      }
    }

    /**
     * renameJobEntryIfNameCollides(je): while another root copy has the candidate name,
     * try the next number, "name (2)", "name (3)", ...; then give je the name found. The
     * object is renamed wherever it is held: in the copy list and at the hop ends.
     */
    method RenameJobEntryIfNameCollides(je: EntryCopy) returns (renamed: EntryCopy)
      modifies this`copies, this`hops
      ensures var n := Candidate(je.name, RenameNumber(old(copies), je.id, je.name));
        renamed == je.(name := n) && copies == RenameObject(old(copies), je.id, n) &&
        hops == RenameEnds(old(hops), je.id, n)
    {
      var newname := FreeName(copies, je.id, je.name);
      renamed := je.(name := newname);
      copies := RenameObject(copies, je.id, newname);
      hops := RenameEnds(hops, je.id, newname);
    }

    /** The loop of renameJobEntryIfNameCollides: the first candidate name no other root copy has. */
    static method FreeName(cs: seq<EntryCopy>, id: nat, name: string) returns (newname: string)
      ensures newname == Candidate(name, RenameNumber(cs, id, name))
    {
      newname := name;
      var nr := 1;
      var found := RootCollision(cs, id, newname);
      while found
        invariant nr >= 1 && newname == Candidate(name, nr)
        invariant forall j :: 1 <= j < nr ==> RootTaken(cs, id, Candidate(name, j))
        invariant found == RootTaken(cs, id, newname)
        decreases Pow10(MaxNameLength(cs)) + 1 - nr
      {
        TakenBelowBound(cs, id, name, nr);
        nr := nr + 1;
        newname := name + " (" + NatToDecimal(nr) + ")";
        found := RootCollision(cs, id, newname);
      }
      FirstFreeIsFirst(cs, id, name, 1, nr);
    }

    // ------------------------------------------------------------ change tracking

    predicate EntriesChanged()
      reads this
    {
      changedEntries || exists i :: 0 <= i < |copies| && copies[i].changed
    }

    predicate HopsChanged()
      reads this
    {
      changedHops || exists i :: 0 <= i < |hops| && hops[i].changed
    }

    /** Something in the job differs from what was last saved. */
    predicate Dirty()
      reads this
    {
      changed || EntriesChanged() || HopsChanged()
    }

    /** clearChanged: the job's flags and the flag of every copy and every hop are reset. */
    method ClearChanged()
      modifies this`changedEntries, this`changedHops, this`copies, this`hops, this`changed
      ensures copies == Unmarked(old(copies)) && hops == UnmarkedHops(old(hops))
      ensures !changedEntries && !changedHops && !changed
      ensures !Dirty()
    {
      changedEntries := false;
      changedHops := false;
      var i := 0;
      while i < |copies|
        invariant 0 <= i <= |copies| == |old(copies)|
        invariant forall j :: 0 <= j < i ==> copies[j] == old(copies)[j].(changed := false)
        invariant forall j :: i <= j < |copies| ==> copies[j] == old(copies)[j]
        invariant hops == old(hops) && !changedEntries && !changedHops
      {
        copies := copies[i := copies[i].(changed := false)];
        i := i + 1;
      }
      i := 0;
      while i < |hops|
        invariant 0 <= i <= |hops| == |old(hops)|
        invariant forall j :: 0 <= j < i ==> hops[j] == old(hops)[j].(changed := false)
        invariant forall j :: i <= j < |hops| ==> hops[j] == old(hops)[j]
        invariant |copies| == |old(copies)| && forall j :: 0 <= j < |copies| ==> copies[j] == old(copies)[j].(changed := false)
        invariant !changedEntries && !changedHops
      {
        hops := hops[i := hops[i].(changed := false)];
        i := i + 1;
      }
      changed := false;
    }

    /** haveJobEntriesChanged: the entries flag, or the flag of some copy. */
    method HaveJobEntriesChanged() returns (r: bool)
      ensures r == EntriesChanged()
    {
      if changedEntries {
        return true;
      }
      var i := 0;
      while i < |copies|
        invariant 0 <= i <= |copies|
        invariant forall j :: 0 <= j < i ==> !copies[j].changed
      {
        if copies[i].changed {
          return true;
        }
        i := i + 1;
      }
      return false;
    }

    /** haveJobHopsChanged: the hops flag, or the flag of some hop. */
    method HaveJobHopsChanged() returns (r: bool)
      ensures r == HopsChanged()
    {
      if changedHops {
        return true;
      }
      var i := 0;
      while i < |hops|
        invariant 0 <= i <= |hops|
        invariant forall j :: 0 <= j < i ==> !hops[j].changed
      {
        if hops[i].changed {
          return true;
        }
        i := i + 1;
      }
      return false;
    }

    /** hasChanged: the job's own flag, then the entries, then the hops. */
    method HasChanged() returns (r: bool)
      ensures r == Dirty()
    {
      if changed {
        return true;
      }
      r := HaveJobEntriesChanged();
      if r {
        return true;
      }
      r := HaveJobHopsChanged();
    }

    // ------------------------------------------------------------ validation

    /**
     * checkJobEntries(remarks, onlySelected, monitor): the remarks list is emptied, then
     * every copy with a job entry (only the selected ones, if asked) is checked in list
     * order; with a monitor, the checking stops after the check at which it reports a cancel.
     */
    method CheckJobEntries(onlySelected: bool, monitor: ProgressMonitor?, check: Payload -> seq<Remark>)
      returns (remarks: seq<Remark>)
      modifies monitor
      ensures monitor == null ==> remarks == RemarksOf(check, EligibleEntries(copies, onlySelected))
      ensures monitor != null ==> (var es := EligibleEntries(copies, onlySelected);
        var k := ChecksBeforeCancel(monitor.answers, old(monitor.asked), |es|);
        remarks == RemarksOf(check, es[..k]) && monitor.asked == old(monitor.asked) + k)
      ensures monitor != null ==> (|monitor.log| >= |old(monitor.log)| + 2 && old(monitor.log) <= monitor.log &&
        monitor.log[|old(monitor.log)|] == BeginTask(|copies| + 2) && monitor.log[|monitor.log| - 1] == Done)
    {
      if monitor != null {
        monitor.BeginTask(|copies| + 2);
      }
      remarks := CheckEntries(copies, onlySelected, monitor, check);
      if monitor != null {
        monitor.Done();
      }
    }

    /**
     * The loop of checkJobEntries over the copies, in list order, until the monitor, if
     * there is one, reports a cancel; it only adds to the monitor's log.
     */
    static method CheckEntries(cs: seq<EntryCopy>, onlySelected: bool, monitor: ProgressMonitor?,
                               check: Payload -> seq<Remark>)
      returns (remarks: seq<Remark>)
      modifies monitor
      ensures monitor == null ==> remarks == RemarksOf(check, EligibleEntries(cs, onlySelected))
      ensures monitor != null ==> (var es := EligibleEntries(cs, onlySelected);
        var k := ChecksBeforeCancel(monitor.answers, old(monitor.asked), |es|);
        remarks == RemarksOf(check, es[..k]) && monitor.asked == old(monitor.asked) + k)
      ensures monitor != null ==> old(monitor.log) <= monitor.log
    {
      remarks := [];
      ghost var a0 := if monitor != null then monitor.asked else 0;
      ghost var answers := if monitor != null then monitor.answers else [];
      var stopChecking := false;
      ghost var done: seq<EntryCopy> := [];
      var i := 0;
      while i < |cs| && !stopChecking
        invariant CheckedUpTo(check, cs, onlySelected, i, remarks, done, monitor != null, a0,
                              if monitor != null then monitor.asked else a0, answers, stopChecking)
        invariant monitor != null ==> old(monitor.log) <= monitor.log
      {
        ghost var q := if monitor != null then monitor.asked else a0;
        var found, canceled := CheckCopy(cs[i], onlySelected, monitor, check);
        CheckedStep(check, cs, onlySelected, i, remarks, done, monitor != null, a0, q, answers, found, canceled,
                    if monitor != null then monitor.asked else a0);
        done := done + (if Eligible(onlySelected, cs[i]) then [cs[i]] else []);
        remarks := remarks + found;
        stopChecking := canceled;
        i := i + 1;
      }
      CheckedAll(check, cs, onlySelected, i, remarks, done, monitor != null, a0,
                 if monitor != null then monitor.asked else a0, answers, stopChecking);
    }

    /**
     * One pass of the loop of checkJobEntries: an eligible copy is announced, checked and
     * counted, and the monitor is asked whether to cancel; every copy counts one unit of work.
     */
    static method CheckCopy(copy: EntryCopy, onlySelected: bool, monitor: ProgressMonitor?, check: Payload -> seq<Remark>)
      returns (found: seq<Remark>, canceled: bool)
      modifies monitor
      ensures found == (if Eligible(onlySelected, copy) then RemarksOfCopy(check, copy) else [])
      ensures monitor != null ==> monitor.asked == old(monitor.asked) + (if Eligible(onlySelected, copy) then 1 else 0)
      ensures canceled <==> monitor != null && Eligible(onlySelected, copy) && Answer(monitor.answers, old(monitor.asked))
      ensures monitor != null ==> old(monitor.log) <= monitor.log
    {
      found := [];
      canceled := false;
      if !onlySelected || (onlySelected && copy.selected) {
        var entry := copy.payload;
        if entry.Some? {
          if monitor != null {
            monitor.SubTask(copy.name);
          }
          found := check(entry.value);
          if monitor != null {
            monitor.Worked(1);
            canceled := monitor.IsCanceled();
          }
        }
      }
      if monitor != null {
        monitor.Worked(1);
      }
    }

    // ------------------------------------------------------------ start, dummy and selection

    /** getStart: the first copy whose job entry is the Start entry, or null. findStart is the same loop. */
    method GetStart() returns (r: Option<EntryCopy>)
      ensures r == EntryAt(copies, IndexWhere(StartTest(), copies))
      ensures r.None? <==> forall j :: 0 <= j < |copies| ==> !IsStart(copies[j])
      ensures r.Some? ==> IsStart(r.value) && r.value in copies
    {
      var i := 0;
      while i < |copies|
        invariant 0 <= i <= |copies|
        invariant forall j :: 0 <= j < i ==> !IsStart(copies[j])
      {
        var cge := copies[i];
        if cge.payload.Some? && cge.payload.value.kind == Start {
          return Some(cge);
        }
        i := i + 1;
      }
      return None;
    }

    /** getDummy: the first copy whose job entry is a Dummy entry, or null. */
    method GetDummy() returns (r: Option<EntryCopy>)
      ensures r == EntryAt(copies, IndexWhere(DummyTest(), copies))
      ensures r.None? <==> forall j :: 0 <= j < |copies| ==> !IsDummy(copies[j])
      ensures r.Some? ==> IsDummy(r.value) && r.value in copies
    {
      var i := 0;
      while i < |copies|
        invariant 0 <= i <= |copies|
        invariant forall j :: 0 <= j < i ==> !IsDummy(copies[j])
      {
        var cge := copies[i];
        if cge.payload.Some? && cge.payload.value.kind == Dummy {
          return Some(cge);
        }
        i := i + 1;
      }
      return None;
    }

    /** selectAll: every copy and every note is selected, and the job is marked changed. */
    method SelectAll()
      modifies this`copies, this`notes, this`changed
      ensures |copies| == |old(copies)| && forall j :: 0 <= j < |copies| ==> copies[j] == old(copies)[j].(selected := true)
      ensures |notes| == |old(notes)| && forall j :: 0 <= j < |notes| ==> notes[j] == old(notes)[j].(selected := true)
      ensures changed
    {
      var i := 0;
      while i < |copies|
        invariant 0 <= i <= |copies| == |old(copies)|
        invariant forall j :: 0 <= j < i ==> copies[j] == old(copies)[j].(selected := true)
        invariant forall j :: i <= j < |copies| ==> copies[j] == old(copies)[j]
        invariant notes == old(notes)
      {
        copies := copies[i := copies[i].(selected := true)];
        i := i + 1;
      }
      i := 0;
      while i < |notes|
        invariant 0 <= i <= |notes| == |old(notes)|
        invariant forall j :: 0 <= j < i ==> notes[j] == old(notes)[j].(selected := true)
        invariant forall j :: i <= j < |notes| ==> notes[j] == old(notes)[j]
        invariant |copies| == |old(copies)| && forall j :: 0 <= j < |copies| ==> copies[j] == old(copies)[j].(selected := true)
      {
        notes := notes[i := notes[i].(selected := true)];
        i := i + 1;
      }
      changed := true;
    }

    /** unselectAll: every copy and every note is deselected; no flag changes. */
    method UnselectAll()
      modifies this`copies, this`notes
      ensures |copies| == |old(copies)| && forall j :: 0 <= j < |copies| ==> copies[j] == old(copies)[j].(selected := false)
      ensures |notes| == |old(notes)| && forall j :: 0 <= j < |notes| ==> notes[j] == old(notes)[j].(selected := false)
    {
      var i := 0;
      while i < |copies|
        invariant 0 <= i <= |copies| == |old(copies)|
        invariant forall j :: 0 <= j < i ==> copies[j] == old(copies)[j].(selected := false)
        invariant forall j :: i <= j < |copies| ==> copies[j] == old(copies)[j]
        invariant notes == old(notes)
      {
        copies := copies[i := copies[i].(selected := false)];
        i := i + 1;
      }
      i := 0;
      while i < |notes|
        invariant 0 <= i <= |notes| == |old(notes)|
        invariant forall j :: 0 <= j < i ==> notes[j] == old(notes)[j].(selected := false)
        invariant forall j :: i <= j < |notes| ==> notes[j] == old(notes)[j]
        invariant |copies| == |old(copies)| && forall j :: 0 <= j < |copies| ==> copies[j] == old(copies)[j].(selected := false)
      {
        notes := notes[i := notes[i].(selected := false)];
        i := i + 1;
      }
    }

    /** getSelectedEntries: the selected copies, in list order. */
    method GetSelectedEntries() returns (selection: seq<EntryCopy>)
      ensures selection == Filter(SelectedTest(), copies)
    {
      selection := [];
      var i := 0;
      while i < |copies|
        invariant 0 <= i <= |copies|
        invariant selection == Filter(SelectedTest(), copies[..i])
      {
        FilterStep(SelectedTest(), copies, i);
        if copies[i].selected {
          selection := selection + [copies[i]];
        }
        i := i + 1;
      }
      assert copies[..i] == copies;
    }

    /** getEntryIndexes(entries): the position of each given copy in the job, -1 for one not in it. */
    method GetEntryIndexes(entries: seq<EntryCopy>) returns (retval: array<int>)
      ensures fresh(retval) && retval.Length == |entries|
      ensures forall i :: 0 <= i < |entries| ==> retval[i] == IndexOfId(copies, entries[i].id)
    {
      retval := new int[|entries|];
      var i := 0;
      while i < |entries|
        invariant 0 <= i <= |entries|
        invariant forall j :: 0 <= j < i ==> retval[j] == IndexOfId(copies, entries[j].id)
      {
        retval[i] := IndexOfJobEntry(entries[i]);
        i := i + 1;
      }
    }

    /** composeJobEntryInterfaceList: the job entries of the copies, each once, in first-use order. */
    method ComposeJobEntryInterfaceList() returns (list: seq<Option<Payload>>)
      ensures list == Dedup(Payloads(copies))
    {
      list := [];
      var i := 0;
      while i < |copies|
        invariant 0 <= i <= |copies|
        invariant list == Dedup(Payloads(copies)[..i])
      {
        assert Payloads(copies)[..i + 1][..i] == Payloads(copies)[..i];
        if copies[i].payload !in list {
          list := list + [copies[i].payload];
        }
        i := i + 1;
      }
      assert Payloads(copies)[..i] == Payloads(copies);
    }

    /**
     * toString: the file name, followed by " : " and the name when there is one; without
     * a file name the name, or the class name when the name is null.
     */
    function ToString(): (r: string)
      reads this
      ensures !IsEmpty(filename) ==> filename.value <= r
      ensures !IsEmpty(filename) && !IsEmpty(name) ==> r == filename.value + " : " + name.value
      ensures !IsEmpty(filename) && IsEmpty(name) ==> r == filename.value
      ensures IsEmpty(filename) ==> r == (if name.Some? then name.value else CLASS_NAME)
    {
      if !IsEmpty(filename) then
        if IsEmpty(name) then filename.value else filename.value + " : " + name.value
      else if name.Some? then name.value
      else CLASS_NAME
    }

    // ------------------------------------------------------------ canvas

    /**
     * getMaximum: the largest entry coordinate and note edge, from 0 up, plus a margin of
     * 100, all in int arithmetic.
     */
    method GetMaximum() returns (r: Point)
      ensures r == Point(Wrap(MaxOf(NoteRights(notes), MaxOf(EntryXs(copies), 0)) as int + MAX_MARGIN as int),
                         Wrap(MaxOf(NoteBottoms(notes), MaxOf(EntryYs(copies), 0)) as int + MAX_MARGIN as int))
    {
      var maxx, maxy := EntriesMax(copies, 0, 0);
      maxx, maxy := NotesMax(notes, maxx, maxy);
      r := Point(Wrap(maxx as int + MAX_MARGIN as int), Wrap(maxy as int + MAX_MARGIN as int));
    }

    /** The loop of getMaximum over the copies: the largest x and y of their locations. */
    static method EntriesMax(cs: seq<EntryCopy>, x0: int32, y0: int32) returns (maxx: int32, maxy: int32)
      ensures maxx == MaxOf(EntryXs(cs), x0) && maxy == MaxOf(EntryYs(cs), y0)
    {
      maxx, maxy := x0, y0;
      var i := 0;
      while i < |cs|
        invariant 0 <= i <= |cs|
        invariant maxx == MaxOf(EntryXs(cs)[..i], x0) && maxy == MaxOf(EntryYs(cs)[..i], y0)
      {
        MaxOfStep(EntryXs(cs), x0, i);
        MaxOfStep(EntryYs(cs), y0, i);
        var loc := cs[i].location;
        if loc.x > maxx {
          maxx := loc.x;
        }
        if loc.y > maxy {
          maxy := loc.y;
        }
        i := i + 1;
      }
      assert EntryXs(cs)[..i] == EntryXs(cs) && EntryYs(cs)[..i] == EntryYs(cs);
    }

    /** The loop of getMaximum over the notes: the largest right and bottom edge, with int addition. */
    static method NotesMax(ns: seq<Note>, x0: int32, y0: int32) returns (maxx: int32, maxy: int32)
      ensures maxx == MaxOf(NoteRights(ns), x0) && maxy == MaxOf(NoteBottoms(ns), y0)
    {
      maxx, maxy := x0, y0;
      var i := 0;
      while i < |ns|
        invariant 0 <= i <= |ns|
        invariant maxx == MaxOf(NoteRights(ns)[..i], x0) && maxy == MaxOf(NoteBottoms(ns)[..i], y0)
      {
        MaxOfStep(NoteRights(ns), x0, i);
        MaxOfStep(NoteBottoms(ns), y0, i);
        var right := RightEdge(ns[i]);
        var bottom := BottomEdge(ns[i]);
        if right > maxx {
          maxx := right;
        }
        if bottom > maxy {
          maxy := bottom;
        }
        i := i + 1;
      }
      assert NoteRights(ns)[..i] == NoteRights(ns) && NoteBottoms(ns)[..i] == NoteBottoms(ns);
    }

    /**
     * getMinimum: the smallest coordinate of the entries and the notes, from
     * Integer.MAX_VALUE down, less a border of 20, and 0 when that leaves no border.
     */
    method GetMinimum() returns (r: Point)
      ensures r == Point(Border(MinOf(NoteXs(notes), MinOf(EntryXs(copies), INT_MAX))),
                         Border(MinOf(NoteYs(notes), MinOf(EntryYs(copies), INT_MAX))))
    {
      var minx, miny := EntriesMin(copies, INT_MAX, INT_MAX);
      minx, miny := NotesMin(notes, minx, miny);
      if minx > BORDER_INDENT && minx != INT_MAX {
        minx := minx - BORDER_INDENT;
      } else {
        minx := 0;
      }
      if miny > BORDER_INDENT && miny != INT_MAX {
        miny := miny - BORDER_INDENT;
      } else {
        miny := 0;
      }
      r := Point(minx, miny);
    }

    /** The loop of getMinimum over the copies: the smallest x and y of their locations. */
    static method EntriesMin(cs: seq<EntryCopy>, x0: int32, y0: int32) returns (minx: int32, miny: int32)
      ensures minx == MinOf(EntryXs(cs), x0) && miny == MinOf(EntryYs(cs), y0)
    {
      minx, miny := x0, y0;
      var i := 0;
      while i < |cs|
        invariant 0 <= i <= |cs|
        invariant minx == MinOf(EntryXs(cs)[..i], x0) && miny == MinOf(EntryYs(cs)[..i], y0)
      {
        MinOfStep(EntryXs(cs), x0, i);
        MinOfStep(EntryYs(cs), y0, i);
        var loc := cs[i].location;
        if loc.x < minx {
          minx := loc.x;
        }
        if loc.y < miny {
          miny := loc.y;
        }
        i := i + 1;
      }
      assert EntryXs(cs)[..i] == EntryXs(cs) && EntryYs(cs)[..i] == EntryYs(cs);
    }

    /** The loop of getMinimum over the notes: the smallest x and y of their locations. */
    static method NotesMin(ns: seq<Note>, x0: int32, y0: int32) returns (minx: int32, miny: int32)
      ensures minx == MinOf(NoteXs(ns), x0) && miny == MinOf(NoteYs(ns), y0)
    {
      minx, miny := x0, y0;
      var i := 0;
      while i < |ns|
        invariant 0 <= i <= |ns|
        invariant minx == MinOf(NoteXs(ns)[..i], x0) && miny == MinOf(NoteYs(ns)[..i], y0)
      {
        MinOfStep(NoteXs(ns), x0, i);
        MinOfStep(NoteYs(ns), y0, i);
        var loc := ns[i].location;
        if loc.x < minx {
          minx := loc.x;
        }
        if loc.y < miny {
          miny := loc.y;
        }
        i := i + 1;
      }
      assert NoteXs(ns)[..i] == NoteXs(ns) && NoteYs(ns)[..i] == NoteYs(ns);
    }

    /**
     * getJobEntryCopy(x, y, iconsize): the copy whose icon square holds the point, searched
     * back to front because later copies are drawn on top; null when none does.
     */
    method GetJobEntryCopy(x: int32, y: int32, iconsize: int32) returns (r: Option<EntryCopy>)
      ensures r == EntryAt(copies, LastIndexWhere(HitTest(x, y, iconsize), copies))
      ensures r.None? <==> forall j :: 0 <= j < |copies| ==> !Hit(copies[j].location, x, y, iconsize)
      ensures r.Some? ==> Hit(r.value.location, x, y, iconsize) && r.value in copies
    {
      var i := |copies| - 1;
      while i >= 0
        invariant -1 <= i < |copies|
        invariant forall j :: i < j < |copies| ==> !Hit(copies[j].location, x, y, iconsize)
      {
        var je := copies[i];
        var p := je.location;
        if x >= p.x && x <= Wrap(p.x as int + iconsize as int) && y >= p.y && y <= Wrap(p.y as int + iconsize as int) {
          return Some(je);
        }
        i := i - 1;
      }
      return None;
    }
  }
}
