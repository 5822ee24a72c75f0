/** The history of polls, and exactly when power is cycled (src/usb_mass_storage/driver.rs). Times are milliseconds
    of a monotone clock. */
module Watchdog {
  import opened Words

  /** One poll: when it looked at the clock, when it measured the time elapsed, when it was over;
      whether it saw neither a handle nor a pending address; whether it cycled the power. */
  datatype Poll = Poll(at: nat, measured: nat, over: nat, quiet: bool, cycled: bool)

  predicate Ordered(p: Poll) {
    p.at <= p.measured <= p.over
  }

  /** The times of a poll alone. */
  datatype Tick = Tick(at: nat, measured: nat, over: nat)

  function Ticks(polls: seq<Poll>): (r: seq<Tick>)
    ensures |r| == |polls|
  {
    seq(|polls|, i requires 0 <= i < |polls| => Tick(polls[i].at, polls[i].measured, polls[i].over))
  }

  ghost predicate Monotone(polls: seq<Poll>) {
    && (forall i :: 0 <= i < |polls| ==> Ordered(polls[i]))
    && (forall i, j :: 0 <= i < j < |polls| ==> polls[i].over <= polls[j].at)
  }

  /** From poll `i` on, all before poll `k` saw nothing, the first of them at least two seconds before time `m`; and
      each that cycled the power was over two seconds before. */
  ghost predicate QuietSince(polls: seq<Poll>, i: nat, k: nat, m: nat)
    requires k <= |polls|
  {
    && i < k && polls[i].at + 2000 <= m
    && (forall j :: i <= j < k ==> polls[j].quiet && (polls[j].cycled ==> polls[j].over + 2000 <= m))
  }

  /** A quiet poll that comes as number `k` and measures time `m` has to cycle the power. */
  ghost predicate Due(polls: seq<Poll>, k: nat, m: nat)
    requires k <= |polls|
  {
    exists i: nat :: QuietSince(polls, i, k, m)
  }

  /** Power has been cycled exactly when it was due. */
  ghost predicate AllExact(polls: seq<Poll>) {
    forall k :: 0 <= k < |polls| ==> (polls[k].cycled <==> polls[k].quiet && Due(polls, k, polls[k].measured))
  }

  /** An instant is remembered exactly after a quiet poll, and two seconds after it power has to be cycled. */
  ghost predicate Remembers(polls: seq<Poll>, since: Option<nat>) {
    && (since.Some? <==> polls != [] && polls[|polls| - 1].quiet)
    && (since.Some? ==>
          && since.value <= polls[|polls| - 1].over
          && forall m: nat :: Due(polls, |polls|, m) <==> since.value + 2000 <= m)
  }

  ghost predicate Watched(polls: seq<Poll>, since: Option<nat>) {
    Monotone(polls) && AllExact(polls) && Remembers(polls, since)
  }

  ghost predicate Follows(polls: seq<Poll>, p: Poll) {
    Ordered(p) && (polls != [] ==> polls[|polls| - 1].over <= p.at)
  }

  lemma Extends(polls: seq<Poll>, p: Poll)
    requires Monotone(polls) && Follows(polls, p)
    ensures Monotone(polls + [p])
  {
    forall i | 0 <= i < |polls| ensures polls[i].over <= p.at {
      if i < |polls| - 1 {
        assert polls[i].over <= polls[|polls| - 1].at <= polls[|polls| - 1].over;
      }
    }
  }

  lemma DueStays(polls: seq<Poll>, p: Poll, k: nat, m: nat)
    requires k <= |polls|
    ensures Due(polls + [p], k, m) <==> Due(polls, k, m)
  {
    var all := polls + [p];
    if Due(polls, k, m) {
      var i: nat :| QuietSince(polls, i, k, m);
      assert QuietSince(all, i, k, m);
    }
    if Due(all, k, m) {
      var i: nat :| QuietSince(all, i, k, m);
      assert forall j :: i <= j < k ==> all[j] == polls[j];
      assert QuietSince(polls, i, k, m);
    }
  }

  /** After a poll: due two seconds after it, or, if it has not cycled power, when it was due before. */
  lemma DueNext(polls: seq<Poll>, p: Poll, m: nat)
    requires Monotone(polls) && Follows(polls, p)
    ensures var all := polls + [p];
            Due(all, |all|, m) <==>
              p.quiet && (p.cycled ==> p.over + 2000 <= m) && (p.at + 2000 <= m || Due(polls, |polls|, m))
  {
    var all, n := polls + [p], |polls|;
    if Due(all, |all|, m) {
      var i: nat :| QuietSince(all, i, |all|, m);
      if i < n {
        assert forall j :: i <= j < n ==> all[j] == polls[j];
        assert QuietSince(polls, i, n, m);
      }
      assert all[n] == p;
    }
    if p.quiet && (p.cycled ==> p.over + 2000 <= m) {
      if p.at + 2000 <= m {
        assert QuietSince(all, n, |all|, m);
      } else if Due(polls, n, m) {
        var i: nat :| QuietSince(polls, i, n, m);
        assert QuietSince(all, i, |all|, m);
      }
    }
  }

  lemma DueLater(polls: seq<Poll>, k: nat, m: nat, later: nat)
    requires k <= |polls| && Due(polls, k, m) && m <= later
    ensures Due(polls, k, later)
  {
    var i: nat :| QuietSince(polls, i, k, m);
    assert QuietSince(polls, i, k, later);
  }

  /** A poll that saw something, or nothing for the first time, or nothing yet again. */
  lemma TickKeepsWatch(polls: seq<Poll>, since: Option<nat>, p: Poll, next: Option<nat>)
    requires Watched(polls, since) && Follows(polls, p)
    requires p.cycled <==> p.quiet && since.Some? && since.value + 2000 <= p.measured
    requires next ==
             if !p.quiet then None
             else if since.None? then Some(p.at)
             else if p.cycled then Some(p.over)
             else since
    ensures Watched(polls + [p], next)
    ensures p.cycled <==> p.quiet && Due(polls, |polls|, p.measured)
  {
    var all, n := polls + [p], |polls|;
    Extends(polls, p);
    NothingDue(polls, since, p.measured);
    forall k | 0 <= k < |all| ensures all[k].cycled <==> all[k].quiet && Due(all, k, all[k].measured) {
      DueStays(polls, p, k, all[k].measured);
      assert k < n ==> all[k] == polls[k];
    }
    if p.quiet {
      forall m: nat ensures Due(all, |all|, m) <==> next.value + 2000 <= m {
        DueNext(polls, p, m);
        NothingDue(polls, since, m);
        if p.cycled && p.over + 2000 <= m {
          DueLater(polls, n, p.measured, m);
        }
      }
    }
  }

  lemma NothingDue(polls: seq<Poll>, since: Option<nat>, m: nat)
    requires Remembers(polls, since)
    ensures Due(polls, |polls|, m) <==> since.Some? && since.value + 2000 <= m
  {
  }

  /** A stretch of quiet polls in which power was not cycled before poll `k`: it is, as soon as poll `k` measures two
      seconds from its start, or from the end of the cycle it starts with. */
  lemma QuietBusIsCycled(polls: seq<Poll>, i: nat, k: nat)
    requires AllExact(polls) && Monotone(polls) && i < k < |polls| && polls[k].quiet
    requires forall j :: i <= j < k ==> polls[j].quiet && (j > i ==> !polls[j].cycled)
    requires (if polls[i].cycled then polls[i].over else polls[i].at) + 2000 <= polls[k].measured
    ensures polls[k].cycled
  {
    assert QuietSince(polls, i, k, polls[k].measured);
  }

  /** On a bus that stays quiet, power is cycled again and again: two seconds never pass without. */
  lemma QuietBusIsCycledAgain(polls: seq<Poll>, i: nat, k: nat)
    requires AllExact(polls) && Monotone(polls) && i < k < |polls| && polls[i].over + 2000 <= polls[k].measured
    requires forall j :: i <= j <= k ==> polls[j].quiet
    ensures exists j: nat :: i < j <= k && polls[j].cycled
  {
    if forall j :: i < j < k ==> !polls[j].cycled {
      QuietBusIsCycled(polls, i, k);
    }
  }

  /** Two quiet polls, two seconds or more apart. */
  lemma TwoPolls(polls: seq<Poll>, first: nat, later: nat)
    requires AllExact(polls) && Monotone(polls) && first + 2000 <= later
    requires Ticks(polls) == [Tick(first, first, first), Tick(later, later, later)]
    requires forall j :: 0 <= j < |polls| ==> polls[j].quiet
    ensures polls == [Poll(first, first, first, true, false), Poll(later, later, later, true, true)]
  {
    assert Ticks(polls)[0] == Tick(first, first, first) && Ticks(polls)[1] == Tick(later, later, later);
    assert !Due(polls, 0, first);
    QuietBusIsCycled(polls, 0, 1);
  }

  /** A power cycle comes after two seconds of quiet polls, and two seconds after the end of every earlier one. */
  lemma CycledOnlyThen(polls: seq<Poll>, k: nat)
    requires AllExact(polls) && Monotone(polls) && k < |polls| && polls[k].cycled
    ensures exists i: nat :: i < k && polls[i].at + 2000 <= polls[k].measured
                             && forall j :: i <= j <= k ==> polls[j].quiet
    ensures forall j :: 0 <= j < k && polls[j].cycled ==> polls[j].over + 2000 <= polls[k].measured
  {
    var i: nat :| QuietSince(polls, i, k, polls[k].measured);
    forall j | 0 <= j < k && polls[j].cycled ensures polls[j].over + 2000 <= polls[k].measured {
      if j < i {
        assert polls[j].over <= polls[i].at;
      }
    }
  }
}
