# Job graph and Azure blob files of Apache Hop, in Dafny

This project models two parts of Apache Hop.

**JobMeta** is the in-memory description of a job: an ordered list of job-entry copies
(name, copy number, drawn/selected flags, location, the job entry behind it) and an ordered
list of hops between copies (enabled flag, changed flag). The model covers:

- the list edits and look-ups over those lists;
- the predecessor and successor queries;
- the memoised loop detector and the name-based path test;
- copy-number allocation and collision renaming;
- how loading merges root and numbered copies;
- the missing-plugin registry;
- the changed flags;
- the cancellable validation loop;
- the canvas bounds and hit test.

`JobMeta` is a Dafny class whose `seq` and `map` fields the methods reassign. Every loop of
the Java code is a `while` loop proved against a specification function. The properties
are proved as lemmas about those functions. The modules are:

- `Jobs` (job_meta.dfy): the class.
- `JobEntries`: copies, names and numbers.
- `Hops`: hop queries.
- `LoopDetector`: `hasLoop`.
- `PathAnalyzer`: `isPathExist`.
- `Validation`: `checkJobEntries`.
- `Canvas`: int32 geometry.
- `Seqs` and `Text`: sequence and string helpers.

**AzureFileObject** is the Commons VFS file object of the Azure blob store. The model covers:

- the slash-stripping helpers (`AzurePaths`);
- the routing of attributes between the fixed blob properties and the free metadata map, and
  the size a blob reports, which its output stream encodes on close and `doAttach` decodes
  (`AzureBlobs`);
- the file object and its `AppendBlobOutputStream` with the byte counter, as classes
  (`AzureFiles`).

A blob is a record of its length, its properties (a map from property name to an optional
string) and its metadata map.

On the chain A -> B -> C the code answers true to `hasLoop(B, A)`, because A is a direct
predecessor of B; `LoopDetector.ChainLoopFromBToA` proves that answer.

## Model

| member | source | states |
|---|---|---|
| Jobs.JobMeta.constructor | engine/src/main/java/org/apache/hop/job/JobMeta.java:195-230 | a new job has no copies, hops, notes, memo or registry, and no flag set |
| Jobs.JobMeta.AddJobEntry | engine/src/main/java/org/apache/hop/job/JobMeta.java:902-906 | the copy is appended with its parent set; the job is marked changed |
| Jobs.JobMeta.AddJobHop | engine/src/main/java/org/apache/hop/job/JobMeta.java:913-916 | the hop is appended; the job is marked changed; the loop memo is left as it is |
| Jobs.JobMeta.AddJobEntryAt | engine/src/main/java/org/apache/hop/job/JobMeta.java:924-927 | the copy is inserted at p and the rest keep their order; entries marked changed |
| Jobs.JobMeta.AddJobHopAt | engine/src/main/java/org/apache/hop/job/JobMeta.java:935-942 | insert at p when 0 <= p <= size, append otherwise; hops marked changed |
| Jobs.JobMeta.RemoveJobEntry | engine/src/main/java/org/apache/hop/job/JobMeta.java:949-959 | exactly position i goes and the others keep their order; the removed copy's parent is cleared; a MissingEntry job entry leaves the registry; hops untouched |
| Jobs.JobMeta.RemoveJobHopAt | engine/src/main/java/org/apache/hop/job/JobMeta.java:966-969 | exactly position i of the hop list goes |
| Jobs.JobMeta.RemoveJobHop | engine/src/main/java/org/apache/hop/job/JobMeta.java:977-980 | the first occurrence of the hop goes, if there is one |
| Jobs.JobMeta.IndexOfJobHop | engine/src/main/java/org/apache/hop/job/JobMeta.java:988-990 | the first position of the same hop, or -1 exactly when no position holds it |
| Jobs.JobMeta.IndexOfJobEntry | engine/src/main/java/org/apache/hop/job/JobMeta.java:998-1000 | the first position of the same copy, or -1 exactly when no position holds it |
| Jobs.JobMeta.SetJobEntry | engine/src/main/java/org/apache/hop/job/JobMeta.java:1008-1010 | only position idx changes, to the new copy |
| Jobs.JobMeta.FindJobEntry | engine/src/main/java/org/apache/hop/job/JobMeta.java:1019-1029 | the first copy in list order with the name ignoring case and the number, skipping undrawn copies unless hidden ones count; none exactly when no copy qualifies |
| Jobs.JobMeta.FindJobHopByName | engine/src/main/java/org/apache/hop/job/JobMeta.java:1055-1064 | the first hop whose text equals the name ignoring case; none exactly when no hop matches |
| Jobs.JobMeta.FindJobHopFrom | engine/src/main/java/org/apache/hop/job/JobMeta.java:1072-1084 | the first hop leaving the copy, enabled or not; none exactly when no hop leaves it |
| Jobs.JobMeta.FindJobHop | engine/src/main/java/org/apache/hop/job/JobMeta.java:1093-1115 | the first hop from one copy to the other in list order, disabled ones only when asked; none exactly when there is no such hop |
| Jobs.JobMeta.FindJobHopTo | engine/src/main/java/org/apache/hop/job/JobMeta.java:1123-1131 | the first hop arriving at the copy; none exactly when no hop arrives |
| Jobs.JobMeta.FindNrPrevJobEntries | engine/src/main/java/org/apache/hop/job/JobMeta.java:1161-1172 | the number of enabled hops into the copy |
| Jobs.JobMeta.FindPrevJobEntry | engine/src/main/java/org/apache/hop/job/JobMeta.java:1182-1196 | the from-end of the n-th enabled hop into the copy, in hop-list order, or null |
| Jobs.JobMeta.FindNrNextJobEntries | engine/src/main/java/org/apache/hop/job/JobMeta.java:1204-1214 | the number of enabled hops out of the copy |
| Jobs.JobMeta.FindNextJobEntry | engine/src/main/java/org/apache/hop/job/JobMeta.java:1223-1237 | the to-end of the n-th enabled hop out of the copy, in hop-list order, or null |
| Jobs.JobMeta.IsEntryUsedInHops | engine/src/main/java/org/apache/hop/job/JobMeta.java:1318-1325 | true exactly when some hop leaves or enters the copy |
| Jobs.JobMeta.HasLoop | engine/src/main/java/org/apache/hop/job/JobMeta.java:1245-1248 | the memo is emptied first; the answer and the new memo are those of the reference walk, whose positive answers `LoopDetector.HasLoopSound` shows are real cycles |
| Jobs.JobMeta.HasLoopWith | engine/src/main/java/org/apache/hop/job/JobMeta.java:1254-1268 | a fresh visited set with the memo as it is; answer and memo as in the reference walk, which `LoopDetector.LoopWalkSound` shows sound from a sound memo |
| Jobs.JobMeta.HasLoopFrom | engine/src/main/java/org/apache/hop/job/JobMeta.java:1277-1303 | memo read first, written last; answer, memo and visited set as in the reference walk |
| Jobs.JobMeta.ScanPredecessors | engine/src/main/java/org/apache/hop/job/JobMeta.java:1291-1299 | the predecessor loop computes the reference scan |
| Jobs.JobMeta.ScanPrevious | engine/src/main/java/org/apache/hop/job/JobMeta.java:1293-1298 | one predecessor: the visited set only grows and keeps the entry; the scan from i is the reference scan |
| Jobs.JobMeta.IsPathExist | engine/src/main/java/org/apache/hop/job/JobMeta.java:1451-1466 | the name-based search equals the fuel-bounded reference search |
| Jobs.JobMeta.AddMissingEntry | engine/src/main/java/org/apache/hop/job/JobMeta.java:2334-2339 | the registry is created on first use, then the placeholder is appended |
| Jobs.JobMeta.RemoveMissingEntry | engine/src/main/java/org/apache/hop/job/JobMeta.java:2341-2345 | the first occurrence leaves the registry when there is one that holds it |
| Jobs.JobMeta.HasMissingPlugins | engine/src/main/java/org/apache/hop/job/JobMeta.java:2347-2349 | true exactly when the registry exists and is not empty |
| Jobs.JobMeta.ReconcileEntry | engine/src/main/java/org/apache/hop/job/JobMeta.java:765-801 | one parsed copy: the copies and the registry become the reference merge step of it |
| Jobs.JobMeta.DetachReplaced | engine/src/main/java/org/apache/hop/job/JobMeta.java:772-798 | the copy the reference rule picks is removed; a numbered copy adopts its root's job entry |
| Jobs.JobMeta.LoadEntries | engine/src/main/java/org/apache/hop/job/JobMeta.java:765-801 | the whole entry loop of loadXML equals the reference merge of the parsed copies in order |
| Jobs.JobMeta.CountEntries | engine/src/main/java/org/apache/hop/job/JobMeta.java:1333-1345 | the number of copies with the name ignoring case |
| Jobs.JobMeta.FindUnusedNr | engine/src/main/java/org/apache/hop/job/JobMeta.java:1353-1362 | the smallest k >= 1 that no copy of the name has, hidden ones included; every number in [1, k) is taken |
| Jobs.JobMeta.FindMaxNr | engine/src/main/java/org/apache/hop/job/JobMeta.java:1370-1381 | the maximum of 0 and the numbers of the copies with the name |
| Jobs.JobMeta.GetAllJobGraphEntries | engine/src/main/java/org/apache/hop/job/JobMeta.java:1408-1427 | a new array holding exactly the copies with the name, in list order |
| Jobs.JobMeta.CollectNamed | engine/src/main/java/org/apache/hop/job/JobMeta.java:1418-1425 | the second pass fills the array with the selected copies in list order |
| Jobs.JobMeta.Place | engine/src/main/java/org/apache/hop/job/JobMeta.java:1422-1423 | storing at the count extends the filled part by one copy |
| Jobs.JobMeta.GetAllJobHopsUsing | engine/src/main/java/org/apache/hop/job/JobMeta.java:1435-1449 | the hops with both ends where either end has the name, in list order |
| Jobs.JobMeta.RenameJobEntryIfNameCollides | engine/src/main/java/org/apache/hop/job/JobMeta.java:2169-2196 | the copy takes the first free candidate name; that object is renamed in the copy list and at every hop end that holds it, and nothing else changes |
| Jobs.JobMeta.FreeName | engine/src/main/java/org/apache/hop/job/JobMeta.java:2178-2191 | the do-while loop ends at the first candidate no other root copy holds |
| Jobs.JobMeta.RootCollision | engine/src/main/java/org/apache/hop/job/JobMeta.java:2181-2186 | true exactly when another object is a root copy with that name ignoring case |
| Jobs.JobMeta.ClearChanged | engine/src/main/java/org/apache/hop/job/JobMeta.java:426-439 | every copy and hop has its flag cleared, the job's flags are cleared, and nothing is dirty |
| Jobs.JobMeta.HaveJobEntriesChanged | engine/src/main/java/org/apache/hop/job/JobMeta.java:1880-1892 | the entries flag or the flag of some copy |
| Jobs.JobMeta.HaveJobHopsChanged | engine/src/main/java/org/apache/hop/job/JobMeta.java:1899-1912 | the hops flag or the flag of some hop |
| Jobs.JobMeta.HasChanged | engine/src/main/java/org/apache/hop/job/JobMeta.java:447-460 | the job's flag, the entries or the hops changed |
| Jobs.JobMeta.CheckJobEntries | engine/src/main/java/org/apache/hop/job/JobMeta.java:2037-2070 | remarks emptied; size+2 work units announced; eligible copies checked in list order; with no monitor all eligible copies are checked, with one up to the first cancel |
| Jobs.JobMeta.CheckEntries | engine/src/main/java/org/apache/hop/job/JobMeta.java:2044-2066 | the loop collects the remarks of the eligible copies up to the first cancel |
| Jobs.JobMeta.CheckCopy | engine/src/main/java/org/apache/hop/job/JobMeta.java:2046-2065 | one copy: checked exactly when eligible; one cancel question then, and a cancel stops |
| Jobs.JobMeta.GetStart | engine/src/main/java/org/apache/hop/job/JobMeta.java:280-288 | the first copy holding the Start entry, null exactly when there is none |
| Jobs.JobMeta.GetDummy | engine/src/main/java/org/apache/hop/job/JobMeta.java:295-303 | the first copy holding a Dummy entry, null exactly when there is none |
| Jobs.JobMeta.SelectAll | engine/src/main/java/org/apache/hop/job/JobMeta.java:1471-1483 | every copy and note is selected, nothing else changes; the job is marked changed |
| Jobs.JobMeta.UnselectAll | engine/src/main/java/org/apache/hop/job/JobMeta.java:1488-1498 | every copy and note is deselected, nothing else changes |
| Jobs.JobMeta.GetSelectedEntries | engine/src/main/java/org/apache/hop/job/JobMeta.java:1611-1619 | the selected copies, in list order |
| Jobs.JobMeta.GetEntryIndexes | engine/src/main/java/org/apache/hop/job/JobMeta.java:1627-1635 | a new array with each copy's position in the job, -1 when absent |
| Jobs.JobMeta.ComposeJobEntryInterfaceList | engine/src/main/java/org/apache/hop/job/JobMeta.java:2230-2240 | the job entries of the copies, each once, in first-use order |
| Jobs.JobMeta.ToString | engine/src/main/java/org/apache/hop/job/JobMeta.java:1657-1671 | file name and " : " name when both exist; the file name alone; otherwise the name or the class name |
| Jobs.JobMeta.GetMaximum | engine/src/main/java/org/apache/hop/job/JobMeta.java:1505-1529 | the running maxima of the entry locations and note edges from 0, plus 100, with int wrap-around |
| Jobs.JobMeta.EntriesMax | engine/src/main/java/org/apache/hop/job/JobMeta.java:1507-1516 | the largest x and y of the copies' locations |
| Jobs.JobMeta.NotesMax | engine/src/main/java/org/apache/hop/job/JobMeta.java:1517-1526 | the largest right and bottom edge of the notes |
| Jobs.JobMeta.GetMinimum | engine/src/main/java/org/apache/hop/job/JobMeta.java:1536-1572 | the running minima from Integer.MAX_VALUE, less the border of 20, or 0 |
| Jobs.JobMeta.EntriesMin | engine/src/main/java/org/apache/hop/job/JobMeta.java:1539-1548 | the smallest x and y of the copies' locations |
| Jobs.JobMeta.NotesMin | engine/src/main/java/org/apache/hop/job/JobMeta.java:1549-1558 | the smallest x and y of the notes' locations |
| Jobs.JobMeta.GetJobEntryCopy | engine/src/main/java/org/apache/hop/job/JobMeta.java:842-857 | the last copy whose icon square holds the point, null exactly when none does |
| Canvas.Wrap | engine/src/main/java/org/apache/hop/job/JobMeta.java:1520-1528 | an int sum is moved by 2^32 into the int range exactly when it overflows |
| Canvas.MinOfBounds | engine/src/main/java/org/apache/hop/job/JobMeta.java:1539-1558 | the running minimum is at most every element and is the start value or an element |
| Canvas.MaxOfBounds | engine/src/main/java/org/apache/hop/job/JobMeta.java:1507-1526 | the running maximum is at least every element and is the start value or an element |
| Canvas.Border | engine/src/main/java/org/apache/hop/job/JobMeta.java:1560-1569 | at least 0; the minimum less 20 when above 20 and not MAX_VALUE, else 0 |
| Canvas.BorderFits | engine/src/main/java/org/apache/hop/job/JobMeta.java:1560-1569 | the border lies at least 20 in front of every real coordinate, or is 0 |
| Canvas.MarginCovers | engine/src/main/java/org/apache/hop/job/JobMeta.java:1528 | without overflow the maximum point lies 100 beyond every coordinate |
| JobEntries.IndexOfDistinct | engine/src/main/java/org/apache/hop/job/JobMeta.java:998-1000 | in a list without repeated objects the first position of a copy is its only one |
| JobEntries.MaxNr | engine/src/main/java/org/apache/hop/job/JobMeta.java:1370-1381 | at least 0 and at least the number of every copy with the name, and equal to one of them when positive |
| JobEntries.AboveMaxIsFree | engine/src/main/java/org/apache/hop/job/JobMeta.java:1353-1381 | no copy of the name is numbered above findMaxNr |
| JobEntries.UnusedAtMostMaxPlusOne | engine/src/main/java/org/apache/hop/job/JobMeta.java:1353-1381 | the number findUnusedNr finds is at most findMaxNr + 1 |
| JobEntries.TakenBelowBound | engine/src/main/java/org/apache/hop/job/JobMeta.java:2180-2191 | no candidate above a bound fixed by the longest name is taken, so the renaming loop ends |
| JobEntries.FirstFreeIsFirst | engine/src/main/java/org/apache/hop/job/JobMeta.java:2180-2191 | a free candidate with all earlier ones taken is the one the search stops at |
| JobEntries.RenameObject | engine/src/main/java/org/apache/hop/job/JobMeta.java:2195 | every copy of the object gets the new name; the others are unchanged |
| JobEntries.RenameResolvesCollision | engine/src/main/java/org/apache/hop/job/JobMeta.java:2169-2196 | afterwards no other object is a root copy with the new name, the name or "name (k)", and every earlier candidate was taken |
| JobEntries.FreeNameKept | engine/src/main/java/org/apache/hop/job/JobMeta.java:2169-2196 | a name no other root copy has is kept |
| JobEntries.WithMissing | engine/src/main/java/org/apache/hop/job/JobMeta.java:2334-2339 | the registry exists afterwards, ends with the placeholder and holds it once more |
| JobEntries.WithoutMissing | engine/src/main/java/org/apache/hop/job/JobMeta.java:2341-2345 | one occurrence of a registered placeholder goes; no list or no occurrence means no change |
| JobEntries.AddThenRemoveMissing | engine/src/main/java/org/apache/hop/job/JobMeta.java:2334-2345 | adding and then removing a placeholder leaves the registered ones as they were |
| JobEntries.Reconcile | engine/src/main/java/org/apache/hop/job/JobMeta.java:765-801 | the incoming copy, with its root's job entry when it is numbered, ends up last in the list |
| JobEntries.RootReplacesRoot | engine/src/main/java/org/apache/hop/job/JobMeta.java:772-781 | an incoming root replaces the first root copy of that name, hidden ones included |
| JobEntries.NumberedAdoptsRoot | engine/src/main/java/org/apache/hop/job/JobMeta.java:783-796 | a numbered copy with a root adopts its job entry and replaces the copy with its name and number |
| JobEntries.NoRootAppends | engine/src/main/java/org/apache/hop/job/JobMeta.java:799-800 | without a root the copy is appended as it is |
| JobEntries.ReconcileRegistry | engine/src/main/java/org/apache/hop/job/JobMeta.java:769-795 | the incoming placeholder is registered before the replaced copy's one is dropped |
| JobEntries.RegistryBookkeeping | engine/src/main/java/org/apache/hop/job/JobMeta.java:769-795 | as multisets the registry gains the incoming placeholder and loses the replaced one when present |
| JobEntries.RegistryAccount | engine/src/main/java/org/apache/hop/job/JobMeta.java:769-795 | the registry after one merge step, counted as a multiset |
| JobEntries.RemoveAtKeeps | engine/src/main/java/org/apache/hop/job/JobMeta.java:949-959 | removing a copy keeps one copy per name and number and distinct objects |
| JobEntries.AppendKeepsUnique | engine/src/main/java/org/apache/hop/job/JobMeta.java:902-906 | appending a copy that collides with none keeps both rules |
| JobEntries.RemainingAvoidsIncoming | engine/src/main/java/org/apache/hop/job/JobMeta.java:772-798 | after the replaced copy is gone no copy has the incoming name and number, nor is the same object |
| JobEntries.ReconcileKeepsUnique | engine/src/main/java/org/apache/hop/job/JobMeta.java:765-801 | merging a root, or a numbered copy with a root, keeps one copy per name and number |
| JobEntries.NumberedWithoutRootDuplicates | engine/src/main/java/org/apache/hop/job/JobMeta.java:783-800 | two numbered copies "X" 1 without a root both stay |
| Hops.PrevIffInRange | engine/src/main/java/org/apache/hop/job/JobMeta.java:1161-1196 | a predecessor exists exactly for 0 <= n < findNrPrevJobEntries |
| Hops.NextIffInRange | engine/src/main/java/org/apache/hop/job/JobMeta.java:1204-1237 | a successor exists exactly for 0 <= n < findNrNextJobEntries |
| Hops.NthInto | engine/src/main/java/org/apache/hop/job/JobMeta.java:1182-1196 | the n-th hop into a copy is an enabled hop into it with exactly n such hops before it |
| Hops.DisabledHopIgnored | engine/src/main/java/org/apache/hop/job/JobMeta.java:1161-1237 | a disabled hop inserted anywhere changes no predecessor or successor query |
| Hops.PredecessorOrder | engine/src/main/java/org/apache/hop/job/JobMeta.java:1182-1196 | predecessors come in hop-list order and disabled hops are skipped |
| LoopDetector.LoopWalkSound | engine/src/main/java/org/apache/hop/job/JobMeta.java:1277-1303 | from a memo whose positive entries are backed by chains, and with unambiguous memo keys, a positive answer is a backward chain of enabled hops from the entry to the lookup (to the entry itself without one), and the memo stays sound |
| LoopDetector.ScanSound | engine/src/main/java/org/apache/hop/job/JobMeta.java:1291-1299 | the same for the scan over the predecessors from the i-th on |
| LoopDetector.ScanSkipSound | engine/src/main/java/org/apache/hop/job/JobMeta.java:1293-1295 | the same when the i-th predecessor is unset or already visited |
| LoopDetector.ScanDeeperSound | engine/src/main/java/org/apache/hop/job/JobMeta.java:1294-1297 | the same when the search goes on from an unvisited predecessor, with the lookup defaulted to the entry |
| LoopDetector.HasLoopSound | engine/src/main/java/org/apache/hop/job/JobMeta.java:1245-1248 | a loop reported by hasLoop(entry) is a cycle of enabled hops through the entry |
| LoopDetector.DistinctNamesFaithful | engine/src/main/java/org/apache/hop/job/JobMeta.java:1278-1279 | non-empty, dash-free names held by one object each give unambiguous memo keys |
| LoopDetector.SelfHopMissed | engine/src/main/java/org/apache/hop/job/JobMeta.java:1289-1295 | the single hop E -> E is a cycle, yet hasLoop(E) is false because E is already visited |
| LoopDetector.KeySplits | engine/src/main/java/org/apache/hop/job/JobMeta.java:1278-1279 | with dash-free entry names the memo key determines both names |
| LoopDetector.ChainPrepend | engine/src/main/java/org/apache/hop/job/JobMeta.java:1294-1296 | a direct predecessor extends a backward chain |
| Hops.RenameCommutesWithInto | engine/src/main/java/org/apache/hop/job/JobMeta.java:2195 | after a rename the same hops arrive at each copy, in the same order, renamed |
| LoopDetector.LoopWalk | engine/src/main/java/org/apache/hop/job/JobMeta.java:1277-1303 | the visited set only grows, memo entries are kept, and the answer is memoised under its key |
| LoopDetector.Scan | engine/src/main/java/org/apache/hop/job/JobMeta.java:1291-1299 | the visited set only grows and memo entries are kept |
| LoopDetector.CachedShortCircuit | engine/src/main/java/org/apache/hop/job/JobMeta.java:1281-1285 | a memoised key answers with the memo, whatever the hops are |
| LoopDetector.KeyCollision | engine/src/main/java/org/apache/hop/job/JobMeta.java:1278-1279 | two different entry and lookup pairs share one memo key |
| LoopDetector.ChainHasNoLoop | engine/src/main/java/org/apache/hop/job/JobMeta.java:1245-1248 | on A -> B -> C there is no loop through C |
| LoopDetector.CycleHasLoop | engine/src/main/java/org/apache/hop/job/JobMeta.java:1245-1248 | with C -> A added there is one |
| LoopDetector.ChainLoopFromBToA | engine/src/main/java/org/apache/hop/job/JobMeta.java:1266-1268 | hasLoop(B, A) holds on the chain and on the cycle |
| LoopDetector.StaleMemo | engine/src/main/java/org/apache/hop/job/JobMeta.java:913-916 | a memo kept across addJobHop still answers "no loop" where a fresh walk finds one |
| PathAnalyzer.PathScanSound | engine/src/main/java/org/apache/hop/job/JobMeta.java:1451-1466 | a found path is a real chain of hops by name |
| PathAnalyzer.PathScanComplete | engine/src/main/java/org/apache/hop/job/JobMeta.java:1451-1466 | an answer of "no path" leaves no chain of hops starting at a hop still to be looked at |
| PathAnalyzer.NoPathWhenFalse | engine/src/main/java/org/apache/hop/job/JobMeta.java:1451-1466 | an answer of false means no chain of hops by name at all |
| PathAnalyzer.FuelMonotone | engine/src/main/java/org/apache/hop/job/JobMeta.java:1451-1466 | more fuel does not change an answer already given |
| PathAnalyzer.NameMatchFalsePositive | engine/src/main/java/org/apache/hop/job/JobMeta.java:1455-1460 | matching by name reports a path through two different copies of one entry |
| Validation.ProgressMonitor.BeginTask | engine/src/main/java/org/apache/hop/job/JobMeta.java:2040-2043 | the monitor records the announced total |
| Validation.ProgressMonitor.SubTask | engine/src/main/java/org/apache/hop/job/JobMeta.java:2050-2053 | the monitor records the announced entry |
| Validation.ProgressMonitor.Worked | engine/src/main/java/org/apache/hop/job/JobMeta.java:2055-2065 | the monitor records the units of work |
| Validation.ProgressMonitor.IsCanceled | engine/src/main/java/org/apache/hop/job/JobMeta.java:2057-2059 | the next scripted answer, and one more question asked |
| Validation.ProgressMonitor.Done | engine/src/main/java/org/apache/hop/job/JobMeta.java:2067-2069 | the monitor records the end |
| Validation.EligibleEntries | engine/src/main/java/org/apache/hop/job/JobMeta.java:2047-2049 | the copies checked without a cancel all have a job entry |
| Validation.ChecksBeforeCancel | engine/src/main/java/org/apache/hop/job/JobMeta.java:2044-2066 | checking stops right after the first cancel answer, never earlier |
| Validation.ProgressStep | engine/src/main/java/org/apache/hop/job/JobMeta.java:2050-2060 | a question is asked exactly for an eligible copy, and a cancel stops |
| Validation.NoCancelChecksAll | engine/src/main/java/org/apache/hop/job/JobMeta.java:2044-2066 | with no cancel every eligible copy is checked |
| Validation.CancelAt | engine/src/main/java/org/apache/hop/job/JobMeta.java:2057-2059 | a cancel after the m-th check, with none before, stops exactly there |
| Validation.RemarksStep | engine/src/main/java/org/apache/hop/job/JobMeta.java:2054 | the remarks of one more copy follow those of the earlier ones |
| Validation.CheckedStep | engine/src/main/java/org/apache/hop/job/JobMeta.java:2045-2066 | one copy through the loop keeps the loop's state |
| Validation.CheckedAll | engine/src/main/java/org/apache/hop/job/JobMeta.java:2044-2066 | at the end, the remarks are those of the eligible copies up to the first cancel |
| Text.Lower | engine/src/main/java/org/apache/hop/job/JobMeta.java:1022 | case folding keeps the length and folds every character |
| Text.LongRoundTrip | plugins/tech/azure/src/main/java/org/apache/hop/vfs/azure/AzureFileObject.java:256-262 | Long.parseLong reads back every long that String.valueOf printed |
| AzurePaths.RemoveLeadingSlash | plugins/tech/azure/src/main/java/org/apache/hop/vfs/azure/AzureFileObject.java:451-454 | the result is a suffix of the path, drops only '/', does not start with '/', and equals the reference strip |
| AzurePaths.RemoveTrailingSlash | plugins/tech/azure/src/main/java/org/apache/hop/vfs/azure/AzureFileObject.java:446-449 | the result is a prefix of the path, drops only '/', does not end with '/', and equals the reference strip |
| AzurePaths.LeadingUnique | plugins/tech/azure/src/main/java/org/apache/hop/vfs/azure/AzureFileObject.java:451-454 | only one string is the path stripped of its leading slashes |
| AzurePaths.TrailingUnique | plugins/tech/azure/src/main/java/org/apache/hop/vfs/azure/AzureFileObject.java:446-449 | only one string is the path stripped of its trailing slashes |
| AzurePaths.LeadingIdempotent | plugins/tech/azure/src/main/java/org/apache/hop/vfs/azure/AzureFileObject.java:451-454 | stripping leading slashes twice changes nothing |
| AzurePaths.TrailingIdempotent | plugins/tech/azure/src/main/java/org/apache/hop/vfs/azure/AzureFileObject.java:446-449 | stripping trailing slashes twice changes nothing |
| AzurePaths.OnlySlashesVanish | plugins/tech/azure/src/main/java/org/apache/hop/vfs/azure/AzureFileObject.java:446-454 | a path of slashes only, such as "/", becomes empty |
| AzureBlobs.PropertyAttributes | plugins/tech/azure/src/main/java/org/apache/hop/vfs/azure/AzureFileObject.java:148-159 | exactly the twelve property names are reported |
| AzureBlobs.Attributes | plugins/tech/azure/src/main/java/org/apache/hop/vfs/azure/AzureFileObject.java:143-164 | the twelve names plus the metadata keys; metadata values win, other names give the property |
| AzureBlobs.SetAttrFrame | plugins/tech/azure/src/main/java/org/apache/hop/vfs/azure/AzureFileObject.java:121-141 | setting one attribute changes no other attribute |
| AzureBlobs.SetThenGet | plugins/tech/azure/src/main/java/org/apache/hop/vfs/azure/AzureFileObject.java:121-164 | a set attribute is read back, unless shadowed by metadata or contentMD5 |
| AzureBlobs.MetadataHidesProperty | plugins/tech/azure/src/main/java/org/apache/hop/vfs/azure/AzureFileObject.java:121-164 | a property set under a name the metadata also holds stays invisible |
| AzureBlobs.ContentMD5Invisible | plugins/tech/azure/src/main/java/org/apache/hop/vfs/azure/AzureFileObject.java:121-164 | contentMD5 can be set but is never reported |
| AzureBlobs.RemoveDropsAttribute | plugins/tech/azure/src/main/java/org/apache/hop/vfs/azure/AzureFileObject.java:166-189 | removing a non-reserved name drops only that attribute |
| AzureBlobs.SetThenRemove | plugins/tech/azure/src/main/java/org/apache/hop/vfs/azure/AzureFileObject.java:121-189 | removing a metadata attribute just set undoes the set |
| AzureBlobs.ReservedNameGoesToMetadata | plugins/tech/azure/src/main/java/org/apache/hop/vfs/azure/AzureFileObject.java:121-141 | a reserved name that is not settable, such as blobType, goes to the metadata and is read back |
| AzureBlobs.ParseSize | plugins/tech/azure/src/main/java/org/apache/hop/vfs/azure/AzureFileObject.java:258 | succeeds exactly when Long.parseLong does, with its value; fails with NumberFormatException otherwise |
| AzureBlobs.DispositionNumber | plugins/tech/azure/src/main/java/org/apache/hop/vfs/azure/AzureFileObject.java:88 | the disposition starts with the prefix and characters 14 to length-1 are the count |
| AzureBlobs.SizeRoundTrip | plugins/tech/azure/src/main/java/org/apache/hop/vfs/azure/AzureFileObject.java:86-88 | whatever the blob held, close then decode gives the count back |
| AzureBlobs.DecodeSize | plugins/tech/azure/src/main/java/org/apache/hop/vfs/azure/AzureFileObject.java:256-263 | the size is decided by a fixed priority: a vfs disposition over ActualLength over the blob length (the cases are `AzureBlobs.SizeFromLength`, `SizeFromActualLength`, `SizeFromDisposition`, `BadActualLengthThrows`, `BarePrefixThrows`); only a text that was read can throw, and with neither text the size is the length |
| AzureBlobs.SizeFromLength | plugins/tech/azure/src/main/java/org/apache/hop/vfs/azure/AzureFileObject.java:256-263 | without ActualLength or a vfs disposition the size is the blob length |
| AzureBlobs.SizeFromActualLength | plugins/tech/azure/src/main/java/org/apache/hop/vfs/azure/AzureFileObject.java:256-263 | ActualLength overrides the length when there is no vfs disposition |
| AzureBlobs.SizeFromDisposition | plugins/tech/azure/src/main/java/org/apache/hop/vfs/azure/AzureFileObject.java:256-263 | a vfs disposition overrides both |
| AzureBlobs.BadActualLengthThrows | plugins/tech/azure/src/main/java/org/apache/hop/vfs/azure/AzureFileObject.java:257-258 | an ActualLength that is not a long throws NumberFormatException |
| AzureBlobs.BarePrefixThrows | plugins/tech/azure/src/main/java/org/apache/hop/vfs/azure/AzureFileObject.java:261-262 | a disposition that is just the prefix throws IndexOutOfBoundsException |
| AzureFiles.BaseNameIsTail | plugins/tech/azure/src/main/java/org/apache/hop/vfs/azure/AzureFileObject.java:311-313 | the base name is a slash-free tail of the path after its last '/' |
| AzureFiles.BaseNameAfter | plugins/tech/azure/src/main/java/org/apache/hop/vfs/azure/AzureFileObject.java:311-313 | a slash-free name after '/' or at the start is the base name |
| AzureFiles.HiddenExactlyMarker | plugins/tech/azure/src/main/java/org/apache/hop/vfs/azure/AzureFileObject.java:311-313 | hidden exactly when the path is .cvfs.temp or ends with /.cvfs.temp |
| AzureFiles.AzureFileObject.SetAttribute | plugins/tech/azure/src/main/java/org/apache/hop/vfs/azure/AzureFileObject.java:121-141 | outside a container it throws; with no blob nothing changes; otherwise the blob takes the attribute |
| AzureFiles.AzureFileObject.GetAttributes | plugins/tech/azure/src/main/java/org/apache/hop/vfs/azure/AzureFileObject.java:143-164 | empty unless in a container with a blob; then the twelve properties overwritten by the metadata |
| AzureFiles.AzureFileObject.RemoveAttribute | plugins/tech/azure/src/main/java/org/apache/hop/vfs/azure/AzureFileObject.java:166-189 | throws without a blob or for a reserved name; otherwise only that metadata key goes |
| AzureFiles.AppendBlobOutputStream.Written | plugins/tech/azure/src/main/java/org/apache/hop/vfs/azure/AzureFileObject.java:66-70 | written grows by len; size equals written; lastModified is the clock |
| AzureFiles.AppendBlobOutputStream.WriteByte | plugins/tech/azure/src/main/java/org/apache/hop/vfs/azure/AzureFileObject.java:56-59 | the low eight bits are sent and one byte is counted |
| AzureFiles.AppendBlobOutputStream.WriteRange | plugins/tech/azure/src/main/java/org/apache/hop/vfs/azure/AzureFileObject.java:73-76 | an out-of-range slice throws and counts nothing; otherwise the slice is sent and len counted |
| AzureFiles.AppendBlobOutputStream.Write | plugins/tech/azure/src/main/java/org/apache/hop/vfs/azure/AzureFileObject.java:62-64 | the whole array is sent and counted |
| AzureFiles.AppendBlobOutputStream.Close | plugins/tech/azure/src/main/java/org/apache/hop/vfs/azure/AzureFileObject.java:84-98 | ActualLength and the disposition record the count, so the size decoded from the blob is the number of bytes sent; a failed upload throws before closing |

## Left out

- XML reading and writing, the plugin registry, SQL statements, string search, resource
  export, VFS variables, extension points, cloning and comparison are not part of this
  model. They call code that is not part of this model.
- `findStart` is the same loop as `getStart`, so `Jobs.JobMeta.GetStart` stands for both.
- The `info` argument of the `findNrPrevJobEntries`, `findPrevJobEntry` and `hasLoop`
  overloads is ignored by the code, so the model has no such argument.
- `findJobEntry(full_name_nr)` and `getAlternativeJobentryName` are not part of this model.
- Jobs.JobMeta.FindJobHopByName: the text of a hop (`JobHopMeta.toString`) is not shown, so it
  is a parameter.
- `JobEntryCopy.equals` and `JobHopMeta.equals` are not shown; the model takes both as object
  identity, that is, an id.
- Jobs.JobMeta.IsPathExist: the Java recursion has no visited set. The model bounds its depth by
  fuel and answers None where the stack would run out. The arguments are job entries, and the
  recursion goes on from the to-copy's job entry (`hi.getToEntry().getEntry()`), comparing that
  entry's name with the copy names of the hops; the model uses the to-copy's own name for both,
  which is the per-copy name described below. When that to-copy has no job entry the next
  call's `from.getName()` throws a NullPointerException; the model does not capture it and
  goes on with the copy's name.
- A location is never null in the model.
- Text.Lower: case folding covers ASCII letters only.
- Text.LongRoundTrip: `Long.parseLong` is modelled on ASCII digits only.
- The change listeners, and the `getName` of a job entry shown by the monitor, are
  not modelled.
- Canvas.Wrap: it is defined only for sums inside twice the int range, which covers every int
  addition the code makes.
- The progress monitor is a scripted stand-in for `ProgressMonitorListener`, which is not
  part of this model.
- The Azure SDK calls are not modelled: container and blob listing in `doAttach`,
  `doDelete`, `doCreateFolder`, the streams, `closeBlob` and the uploads. The wrapped
  stream is the `sent` sequence, and the upload outcome is a parameter of close.
- `System.currentTimeMillis` is the `now` parameter.
- AzureFiles.AppendBlobOutputStream.Written: `written` is a Java long; the model does not
  wrap it at 2^63.
- AzureFiles.AppendBlobOutputStream.WriteRange: the wrapped stream's own index check is assumed
  to be the `OutputStream` contract (0 <= off, 0 <= len, off + len <= length).
- AzureBlobs.SetAttr: attribute values are stored as their `toString`, a string; null values
  are not modelled.
- Blob properties that are not strings (blob type, copy state, lease values, sequence number)
  are kept as optional strings.
- LoopDetector.LoopWalk: only soundness is proved, and only when the memo keys are unambiguous
  on the copies involved; completeness does not hold (`LoopDetector.SelfHopMissed`), and a
  memo key shared by two pairs (`LoopDetector.KeyCollision`) can give an answer for the other pair.
- Jobs.JobMeta.AddJobEntry, Jobs.JobMeta.RemoveJobEntry: copies are values, so setting or
  clearing the parent job (`setParentJobMeta`, engine/src/main/java/org/apache/hop/job/JobMeta.java:904 and 953) changes only the occurrence
  added or removed, not other occurrences of the same object in the list or at hop ends.
  The model does not capture aliasing of the parent link.
- Jobs.JobMeta.AddJobEntryAt: its requires `p <= |copies|` excludes the IndexOutOfBoundsException
  that `List.add` throws for other positions.
- Jobs.JobMeta.RemoveJobEntry: its requires `i < |copies|` excludes the IndexOutOfBoundsException
  of `List.remove`.
- Jobs.JobMeta.RemoveJobHopAt: its requires `i < |hops|` excludes the IndexOutOfBoundsException
  of `List.remove`.
- Jobs.JobMeta.SetJobEntry: its requires excludes the IndexOutOfBoundsException of `List.set`.
- Jobs.JobMeta.FindNrPrevJobEntries, Jobs.JobMeta.FindPrevJobEntry, Jobs.JobMeta.HasLoop,
  Jobs.JobMeta.HasLoopWith, Jobs.JobMeta.HasLoopFrom, Jobs.JobMeta.ScanPredecessors,
  Jobs.JobMeta.ScanPrevious: their requires `ToEndsPresent(hops)` excludes the
  NullPointerException that `hi.getToEntry().equals(to)` throws for an enabled hop with no
  to-end (engine/src/main/java/org/apache/hop/job/JobMeta.java:1167 and 1188).
- Jobs.JobMeta.CheckJobEntries: the `check` of a job entry is taken as a function that only
  appends remarks; its effects on the entry, the variables or the metadata store are not modelled.
- Jobs.JobMeta.RenameJobEntryIfNameCollides, JobEntries.Reconcile, JobEntries.Incoming: the name is
  modelled as a field of each copy. `JobEntryCopy` is not part of this model, so whether its
  `getName`/`setName` go to the job entry that several copies share (a numbered copy adopts
  its root's entry at engine/src/main/java/org/apache/hop/job/JobMeta.java:787) is not known. If they do, the rename at 2195 renames every copy
  sharing that entry, and a numbered copy reads its root's spelling of the name; the model
  renames only the one object and keeps each copy's parsed spelling.
- AzureBlobs.ParseSize: `Long.parseLong` also accepts the non-ASCII decimal digits that
  `Character.digit` knows; the model accepts ASCII digits only.
- One `CloudBlob` object shared by several file objects is not modelled. Each file object
  holds its blob as a value.
