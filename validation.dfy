/**
 * What checkJobEntries needs besides the job: the remarks each job entry's own
 * check produces, and the progress monitor it reports to and asks whether the
 * user cancelled.
 */
module Validation {
  import opened Wrappers
  import opened Seqs
  import opened JobEntries

  /** A CheckResult: the job entry it is about and its text. */
  datatype Remark = Remark(pid: nat, text: string)

  /** The calls a ProgressMonitorListener receives, in the order it receives them. */
  datatype MonitorEvent = BeginTask(total: int) | SubTask(entry: string) | Worked(units: int) | Done

  /**
   * A progress monitor. `answers` are the successive replies isCanceled() gives;
   * once they are used up it keeps replying false. `asked` counts the questions.
   */
  class ProgressMonitor {
    const answers: seq<bool>
    var asked: nat
    var log: seq<MonitorEvent>

    constructor (answers: seq<bool>)
      ensures this.answers == answers && asked == 0 && log == []
    {
      this.answers := answers;
      asked := 0;
      log := [];
    }

    method BeginTask(total: int)
      modifies this`log
      ensures log == old(log) + [MonitorEvent.BeginTask(total)]
    {
      log := log + [MonitorEvent.BeginTask(total)];
    }

    method SubTask(entry: string)
      modifies this`log
      ensures log == old(log) + [MonitorEvent.SubTask(entry)]
    {
      log := log + [MonitorEvent.SubTask(entry)];
    }

    method Worked(units: int)
      modifies this`log
      ensures log == old(log) + [MonitorEvent.Worked(units)]
    {
      log := log + [MonitorEvent.Worked(units)];
    }

    method Done()
      modifies this`log
      ensures log == old(log) + [MonitorEvent.Done]
    {
      log := log + [MonitorEvent.Done];
    }

    method IsCanceled() returns (c: bool)
      modifies this`asked
      ensures c == Answer(answers, old(asked)) && asked == old(asked) + 1
    {
      c := Answer(answers, asked);
      asked := asked + 1;
    }
  }

  /** The reply to the q-th cancel question. */
  function Answer(answers: seq<bool>, q: nat): bool {
    q < |answers| && answers[q]
  }

  /** A copy checkJobEntries looks at: selected, when only selected ones count, and with a job entry. */
  predicate Eligible(onlySelected: bool, c: EntryCopy) {
    (!onlySelected || c.selected) && c.payload.Some?
  }

  function EligibleTest(onlySelected: bool): EntryCopy -> bool {
    (c: EntryCopy) => Eligible(onlySelected, c)
  }

  /** The copies checkJobEntries checks when nothing cancels it, in list order. */
  function EligibleEntries(copies: seq<EntryCopy>, onlySelected: bool): (r: seq<EntryCopy>)
    ensures forall i :: 0 <= i < |r| ==> r[i].payload.Some?
  {
    FilterSatisfies(EligibleTest(onlySelected), copies);
    Filter(EligibleTest(onlySelected), copies)
  }

  /**
   * How many of n eligible copies get checked when the cancel questions start at
   * `start`: up to and including the first one after which the monitor says cancel.
   */
  function ChecksBeforeCancel(answers: seq<bool>, start: nat, n: nat): (k: nat)
    ensures k <= n
    ensures forall q :: start <= q < start + k - 1 ==> !Answer(answers, q)
    ensures k < n ==> k >= 1 && Answer(answers, start + k - 1)
    decreases n
  {
    if n == 0 then 0
    else if Answer(answers, start) then 1
    else 1 + ChecksBeforeCancel(answers, start + 1, n - 1)
  }

  /** No cancel among the replies to questions from..to-1. */
  predicate NoCancelBetween(answers: seq<bool>, from: nat, to: int) {
    forall q :: from <= q < to ==> !Answer(answers, q)
  }

  /**
   * The cancel questions asked so far, from `start` on: none answered cancel before the
   * last one, and the last one answered cancel exactly when the checking stopped.
   */
  predicate Progress(answers: seq<bool>, start: nat, asked: nat, stop: bool) {
    asked >= start && NoCancelBetween(answers, start, asked - 1) &&
    (stop ==> asked > start && Answer(answers, asked - 1)) &&
    (!stop ==> NoCancelBetween(answers, start, asked))
  }

  /** One more copy: a question is asked exactly for an eligible copy, and a cancel stops. */
  lemma ProgressStep(answers: seq<bool>, start: nat, asked: nat, eligible: bool, canceled: bool)
    requires Progress(answers, start, asked, false)
    requires canceled <==> eligible && Answer(answers, asked)
    ensures Progress(answers, start, asked + (if eligible then 1 else 0), canceled)
  {
  }

  /** With no cancel among the coming answers every eligible copy is checked. */
  lemma {:induction false} NoCancelChecksAll(answers: seq<bool>, start: nat, n: nat)
    requires NoCancelBetween(answers, start, start + n)
    ensures ChecksBeforeCancel(answers, start, n) == n
    decreases n
  {
    if n > 0 {
      NoCancelChecksAll(answers, start + 1, n - 1);
    }
  }

  /** A cancel after the m-th check, with none before it, stops the checking right there. */
  lemma {:induction false} CancelAt(answers: seq<bool>, start: nat, n: nat, m: nat)
    requires 1 <= m <= n
    requires NoCancelBetween(answers, start, start + m - 1)
    requires Answer(answers, start + m - 1)
    ensures ChecksBeforeCancel(answers, start, n) == m
    decreases m
  {
    if m > 1 {
      CancelAt(answers, start + 1, n - 1, m - 1);
    }
  }

  /** The remarks of one copy's check; a copy without a job entry has none. */
  function RemarksOfCopy(check: Payload -> seq<Remark>, c: EntryCopy): seq<Remark> {
    if c.payload.Some? then check(c.payload.value) else []
  }

  /** The remarks that checking the given copies, in order, produces. */
  function RemarksOf(check: Payload -> seq<Remark>, cs: seq<EntryCopy>): seq<Remark> {
    if |cs| == 0 then [] else RemarksOf(check, cs[..|cs| - 1]) + RemarksOfCopy(check, cs[|cs| - 1])
  }

  lemma RemarksStep(check: Payload -> seq<Remark>, cs: seq<EntryCopy>, c: EntryCopy)
    ensures RemarksOf(check, cs + [c]) == RemarksOf(check, cs) + RemarksOfCopy(check, c)
  {
    assert (cs + [c])[..|cs|] == cs;
  }

  /**
   * The state of the loop of checkJobEntries after its first i copies: the eligible ones
   * among them are checked, their remarks collected in order, one cancel question asked
   * for each when a monitor is there, and the loop stopped exactly at a cancel.
   */
  predicate CheckedUpTo(check: Payload -> seq<Remark>, cs: seq<EntryCopy>, onlySelected: bool, i: nat,
                        remarks: seq<Remark>, done: seq<EntryCopy>, monitored: bool, start: nat, asked: nat,
                        answers: seq<bool>, stop: bool)
  {
    i <= |cs| && done == EligibleEntries(cs[..i], onlySelected) && remarks == RemarksOf(check, done) &&
    (!monitored ==> !stop) && (monitored ==> asked == start + |done| && Progress(answers, start, asked, stop))
  }

  /** One more copy through the loop keeps its state. */
  lemma CheckedStep(check: Payload -> seq<Remark>, cs: seq<EntryCopy>, onlySelected: bool, i: nat,
                    remarks: seq<Remark>, done: seq<EntryCopy>, monitored: bool, start: nat, asked: nat,
                    answers: seq<bool>, found: seq<Remark>, canceled: bool, asked': nat)
    requires CheckedUpTo(check, cs, onlySelected, i, remarks, done, monitored, start, asked, answers, false)
    requires i < |cs|
    requires found == (if Eligible(onlySelected, cs[i]) then RemarksOfCopy(check, cs[i]) else [])
    requires monitored ==> asked' == asked + (if Eligible(onlySelected, cs[i]) then 1 else 0)
    requires canceled <==> monitored && Eligible(onlySelected, cs[i]) && Answer(answers, asked)
    ensures CheckedUpTo(check, cs, onlySelected, i + 1, remarks + found,
                        done + (if Eligible(onlySelected, cs[i]) then [cs[i]] else []), monitored, start, asked',
                        answers, canceled)
  {
    var e := Eligible(onlySelected, cs[i]);
    var done' := done + (if e then [cs[i]] else []);
    assert done' == EligibleEntries(cs[..i + 1], onlySelected) by {
      FilterStep(EligibleTest(onlySelected), cs, i);
    }
    if e {
      RemarksStep(check, done, cs[i]);
    } else {
      assert done' == done && remarks + found == remarks;
    }
    if monitored {
      assert asked' == start + |done'|;
      ProgressStep(answers, start, asked, e, canceled);
    }
  }

  /**
   * When the loop ends, the remarks are those of the eligible copies up to the first
   * cancel, and one question was asked per checked copy.
   */
  lemma CheckedAll(check: Payload -> seq<Remark>, cs: seq<EntryCopy>, onlySelected: bool, i: nat,
                   remarks: seq<Remark>, done: seq<EntryCopy>, monitored: bool, start: nat, asked: nat,
                   answers: seq<bool>, stop: bool)
    requires CheckedUpTo(check, cs, onlySelected, i, remarks, done, monitored, start, asked, answers, stop)
    requires i == |cs| || stop
    ensures !monitored ==> remarks == RemarksOf(check, EligibleEntries(cs, onlySelected))
    ensures monitored ==> (var es := EligibleEntries(cs, onlySelected);
      var k := ChecksBeforeCancel(answers, start, |es|);
      remarks == RemarksOf(check, es[..k]) && asked == start + k)
  {
    var es := EligibleEntries(cs, onlySelected);
    FilterPrefix(EligibleTest(onlySelected), cs, i);
    if !stop {
      assert cs[..i] == cs;
      assert es[..|es|] == es;
      if monitored {
        NoCancelChecksAll(answers, start, |es|);
      }
    } else {
      CancelAt(answers, start, |es|, |done|);
    }
  }
}
