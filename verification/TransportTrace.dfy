/** What the order of transfers enforced on every `Drive` means for the flat history on the wire,
    at every nesting level at once (sections 5.3 and 5.3.4 of Bulk-Only Transport 1.0). */
module TransportTrace {
  import opened Drives

  /** The transfers a drive has seen never left the order. */
  ghost predicate Orderly(trace: seq<Event>) {
    StageAfter(trace) != Broken
  }

  /** A command that went through, with or without data to come. */
  predicate Opened(e: Event, hasData: bool) {
    e.CommandOut? && e.sent && e.hasData == hasData
  }

  /** What the last transfers were, for each stage. */
  ghost predicate EndsAs(trace: seq<Event>, s: Stage) {
    var n := |trace|;
    match s
    case DataDue => n >= 1 && Opened(trace[n - 1], true)
    case StatusDue =>
      n >= 1 && (Opened(trace[n - 1], false)
                 || (n >= 2 && trace[n - 1] == Data(true) && Opened(trace[n - 2], true)))
    case Halted => n >= 1 && trace[n - 1] == Status(Stalled)
    case RetryDue => n >= 2 && trace[n - 1] == ClearIn(true) && trace[n - 2] == Status(Stalled)
    case Lost =>
      && n >= 3 && trace[n - 1].Status? && !trace[n - 1].outcome.Completed?
      && trace[n - 2] == ClearIn(true) && trace[n - 3] == Status(Stalled)
    case WasReset => n >= 2 && trace[n - 1] == Reset(true) && trace[n - 2].Status? && !trace[n - 2].outcome.Completed?
    case InCleared => n >= 2 && trace[n - 1].ClearIn? && trace[n - 2] == Reset(true)
    case _ => true
  }

  lemma {:induction false} StageTells(trace: seq<Event>)
    requires Orderly(trace)
    ensures EndsAs(trace, StageAfter(trace))
    decreases |trace|
  {
    if trace != [] {
      StageTells(trace[..|trace| - 1]);
    }
  }

  lemma {:induction false} PrefixOrderly(trace: seq<Event>, k: nat)
    requires Orderly(trace) && k <= |trace|
    ensures Orderly(trace[..k])
    decreases |trace|
  {
    if k < |trace| {
      PrefixOrderly(trace[..|trace| - 1], k);
      assert trace[..|trace| - 1][..k] == trace[..k];
    } else {
      assert trace[..k] == trace;
    }
  }

  /** Transfer `k` was allowed where it happened. */
  lemma StageBefore(trace: seq<Event>, k: nat)
    requires Orderly(trace) && k < |trace|
    ensures Orderly(trace[..k]) && Advance(StageAfter(trace[..k]), trace[k]) == StageAfter(trace[..k + 1]) != Broken
    ensures EndsAs(trace[..k], StageAfter(trace[..k]))
  {
    PrefixOrderly(trace, k);
    PrefixOrderly(trace, k + 1);
    assert trace[..k + 1][..k] == trace[..k];
    StageTells(trace[..k]);
  }

  /** After an accepted reset the bulk-IN and then the bulk-OUT endpoint are cleared before anything
      else, in particular before any later command, nested or not. */
  lemma ClearsFollowReset(trace: seq<Event>, i: nat, j: nat)
    requires Orderly(trace) && i < j < |trace|
    requires trace[i] == Reset(true) && trace[j].CommandOut?
    ensures i + 2 < j && trace[i + 1].ClearIn? && trace[i + 2].ClearOut?
  {
    StageBefore(trace, i);
    StageBefore(trace, i + 1);
    if i + 2 < |trace| {
      StageBefore(trace, i + 2);
    }
  }

  /** Both endpoints are only cleared together after an accepted reset, which itself follows a
      stalled status, a successful clear of bulk-IN and a failed second status. */
  lemma ClearOutFollowsReset(trace: seq<Event>, k: nat)
    requires Orderly(trace) && k < |trace| && trace[k].ClearOut?
    ensures k >= 5 && trace[k - 1].ClearIn? && trace[k - 2] == Reset(true)
    ensures trace[k - 3].Status? && !trace[k - 3].outcome.Completed?
    ensures trace[k - 4] == ClearIn(true) && trace[k - 5] == Status(Stalled)
  {
    StageBefore(trace, k);
    StageBefore(trace, k - 1);
    ResetFollowsLostStatus(trace, k - 2);
  }

  lemma ResetFollowsLostStatus(trace: seq<Event>, k: nat)
    requires Orderly(trace) && k < |trace| && trace[k].Reset?
    ensures k >= 3 && trace[k - 1].Status? && !trace[k - 1].outcome.Completed?
    ensures trace[k - 2] == ClearIn(true) && trace[k - 3] == Status(Stalled)
  {
    StageBefore(trace, k);
  }

  /** A status is read directly after the command or its data, or once more directly after a stall
      and a successful clear of bulk-IN. */
  lemma StatusIsDue(trace: seq<Event>, k: nat)
    requires Orderly(trace) && k < |trace| && trace[k].Status?
    ensures k >= 1
    ensures || Opened(trace[k - 1], false)
            || (k >= 2 && trace[k - 1] == Data(true) && Opened(trace[k - 2], true))
            || (k >= 2 && trace[k - 1] == ClearIn(true) && trace[k - 2] == Status(Stalled))
  {
    StageBefore(trace, k);
  }

  /** A failed command or data stage ends the command: the next transfer opens another one. */
  lemma FailureEndsCommand(trace: seq<Event>, k: nat)
    requires Orderly(trace) && k + 1 < |trace|
    requires trace[k] == Data(false) || (trace[k].CommandOut? && !trace[k].sent)
    ensures trace[k + 1].CommandOut?
  {
    StageBefore(trace, k);
    StageBefore(trace, k + 1);
  }

  /** Data stages, status reads and resets since the last command was opened. */
  datatype Tally = Tally(data: nat, status: nat, resets: nat)

  function SinceCommand(trace: seq<Event>): Tally {
    if trace == [] then Tally(0, 0, 0)
    else
      var t := SinceCommand(trace[..|trace| - 1]);
      match trace[|trace| - 1]
      case CommandOut(_, _, _) => Tally(0, 0, 0)
      case Data(_) => t.(data := t.data + 1)
      case Status(_) => t.(status := t.status + 1)
      case Reset(_) => t.(resets := t.resets + 1)
      case _ => t
  }

  /** One command has at most one data stage, two status reads and one reset. */
  lemma {:induction false} CommandShape(trace: seq<Event>)
    requires Orderly(trace)
    ensures var t := SinceCommand(trace);
            && t.data <= 1 && t.status <= 2 && t.resets <= 1
            && (StageAfter(trace) == DataDue ==> t == Tally(0, 0, 0))
            && (StageAfter(trace) == StatusDue ==> t.status == t.resets == 0)
            && (StageAfter(trace) in {Halted, RetryDue} ==> t.status == 1 && t.resets == 0)
            && (StageAfter(trace) == Lost ==> t.status == 2 && t.resets == 0)
    decreases |trace|
  {
    if trace != [] {
      StageBefore(trace, |trace| - 1);
      CommandShape(trace[..|trace| - 1]);
    }
  }
}
