/** The whole device, from power-up on. */
module Boards {
  import opened Cbw
  import opened Chunking
  import opened Commands
  import opened Disk
  import opened Driver
  import opened Drives
  import opened EndToEnd
  import opened MscHosts
  import opened Runs
  import opened SpiLinks
  import opened Transports
  import opened TransportTrace
  import opened Watchdog
  import opened Words

  /** Between actions, no drive has ever seen a transfer out of order. */
  lemma EveryTraceOrderly(usb: UsbMassStorage)
    requires usb.Valid()
    ensures forall d :: d in usb.drives ==> Orderly(d.trace)
  {
  }

  /** The drive is as it comes out of power-up. */
  ghost predicate Unused(d: Drive)
    reads d
  {
    d.Valid() && d.stage == AtRest && d.log == []
  }

  class Board {
    const usb: UsbMassStorage
    const link: SpiLink

    constructor (usb: UsbMassStorage, link: SpiLink)
      ensures this.usb == usb && this.link == link
    {
      this.usb, this.link := usb, link;
    }

    ghost function Parts(): set<object>
      reads usb
    {
      {usb, usb.host, link, link.respBuf, link.blockBuf, link.rxDma, link.txDma} + usb.drives
    }

    /** One SPI command, and what it means for the open drive, if its record is read with `known`. */
    method Act(a: Action, ghost known: bool) returns (response: Option<Response>, ghost turn: Option<Turn>)
      requires link.Buffers() && usb.Working() && a.Command?
      requires known && usb.host.issued < U32 ==> usb.Known()
      modifies link.respBuf, link`respLen, link.blockBuf, link.txDma, link.rxDma, link`wire
      modifies usb`blockSize, usb`blockCount, usb.host`cbwTag, usb.host`issued, usb.OpenDrive()
      ensures Acted(a, response, turn, known, old(usb.Now()), usb.Now())
      ensures Marks(link.wire) == Marks(old(link.wire)) + Uttered(a, response)
    {
      response, turn := link.Step(usb, a.x);
      if turn.Some? {
        assert Acted(a, response, turn, known, old(usb.Now()), usb.Now()) by {
          usb.WorkingNow();
          DoneIsActed(turn.value, a, known, old(usb.Now()), usb.Now());
        }
      }
    }

    /** The same, in terms of the state. */
    method Execute(a: Action, ghost known: bool) returns (response: Option<Response>, ghost turn: Option<Turn>)
      requires link.Buffers() && usb.Working() && a.Command?
      requires known && usb.host.issued < U32 ==> usb.Known()
      modifies link.respBuf, link`respLen, link.blockBuf, link.txDma, link.rxDma, link`wire
      modifies usb`blockSize, usb`blockCount, usb.host`cbwTag, usb.host`issued, usb.OpenDrive()
      ensures usb.Working() && usb.host.issued >= old(usb.host.issued)
      ensures old(usb.Known()) && usb.host.issued < U32 ==> usb.Cached() == old(usb.Cached())
      ensures turn.Some? <==> RequestIn(a.x).Some?
      ensures turn.None? ==> usb.Medium() == old(usb.Medium()) && response.None?
      ensures turn.Some? ==> turn.value.before == old(usb.Medium()) && turn.value.after == usb.Medium()
      ensures turn.Some? && usb.handle != null && usb.host.issued < U32 ==>
                Genuine(turn.value, a, response, View(false, known, usb.Size()))
      ensures Marks(link.wire) == Marks(old(link.wire)) + Uttered(a, response)
    {
      response, turn := Act(a, known);
    }

    /** And for the drive `d`, which may not be the open one. */
    method PerformCommand(a: Action, ghost d: Drive, ghost v: View)
      returns (response: Option<Response>, ghost turn: Option<Turn>)
      requires link.Buffers() && usb.Working() && a.Command? && v.size == d.blockSize
      requires v.full ==> usb.OpenDrive() == d
      requires v.known && usb.host.issued < U32 ==> usb.Known()
      modifies link.respBuf, link`respLen, link.blockBuf, link.txDma, link.rxDma, link`wire
      modifies usb`blockSize, usb`blockCount, usb.host`cbwTag, usb.host`issued, usb.OpenDrive()
      ensures usb.Working()
      ensures StepOf(a, response, turn, v, old(Seen(d)), Seen(d))
    {
      response, turn := Execute(a, v.known);
      if usb.OpenDrive() != d {
        turn := None;
      }
      CommandStep(a, response, turn, v, old(Seen(d)), Seen(d));
    }

    method PerformPoll(a: Action, ghost last: nat)
      requires usb.Valid() && a.Polled? && Timely(usb.polls, last)
      requires OnTime(a, last) && (a.found != null ==> a.found in usb.drives)
      modifies usb, usb.host, usb.drives
      ensures usb.Valid() && usb.drives == old(usb.drives)
      ensures forall d :: d in usb.drives ==> d.blocks == old(d.blocks)
      ensures StepOnBus(a, old(usb.OnBus()), usb.OnBus()) && Timely(usb.polls, a.over)
    {
      var ignored, res := usb.PollOnce(a.found, a.steps, a.at, a.measured, a.over);
    }

    /** A bus event or a poll. */
    method PerformBus(a: Action, ghost last: nat)
      requires usb.Valid() && !a.Command? && Timely(usb.polls, last)
      requires OnTime(a, last) && (a.Polled? && a.found != null ==> a.found in usb.drives)
      modifies usb, usb.host, usb.drives
      ensures usb.Valid() && usb.drives == old(usb.drives)
      ensures forall d :: d in usb.drives ==> d.blocks == old(d.blocks)
      ensures StepOnBus(a, old(usb.OnBus()), usb.OnBus()) && (a.Polled? ==> Timely(usb.polls, a.over))
    {
      match a {
        case Connected(addr) => usb.HandleConnected(addr);
        case Gone(drive, answers) => usb.DeviceGone(drive, answers);
        case Polled(_, _, _, _, _) => PerformPoll(a, last);
      }
    }

    /** All that can be seen of the device and the drive `d`. */
    ghost function Seen(d: Drive): Sight
      reads usb, usb.host, usb.handle, link, d
    {
      Sight(usb.OnBus(), d.blocks, Marks(link.wire))
    }

    /** The same as a step. */
    method PerformEvent(a: Action, ghost last: nat, ghost d: Drive, ghost v: View)
      requires usb.Valid() && !a.Command? && Timely(usb.polls, last)
      requires OnTime(a, last) && (a.Polled? && a.found != null ==> a.found in usb.drives)
      modifies usb, usb.host, usb.drives
      ensures usb.Valid() && usb.drives == old(usb.drives)
      ensures StepOf(a, None, None, v, old(Seen(d)), Seen(d))
    {
      PerformBus(a, last);
      assert Marks(link.wire) + [] == Marks(link.wire);
    }

    method Perform(a: Action, ghost last: nat, ghost d: Drive, ghost v: View)
      returns (response: Option<Response>, ghost turn: Option<Turn>)
      requires link.Buffers() && usb.Valid() && Timely(usb.polls, last) && v.size == d.blockSize
      requires OnTime(a, last) && (a.Polled? && a.found != null ==> a.found in usb.drives)
      requires v.full ==> usb.OpenDrive() == d
      requires v.known && usb.host.issued < U32 ==> usb.Known()
      modifies link, link.respBuf, link.blockBuf, link.rxDma, link.txDma, usb, usb.host, usb.drives
      ensures link.Buffers() && usb.Valid() == old(usb.Valid()) && usb.drives == old(usb.drives)
      ensures StepOf(a, response, turn, v, old(Seen(d)), Seen(d))
    {
      response, turn := None, None;
      if a.Command? {
        response, turn := PerformCommand(a, d, v);
      } else {
        PerformEvent(a, last, d, v);
      }
    }

    /** Any run of the device, as the drive `d` sees it. */
    method Run(actions: seq<Action>, ghost start: nat, ghost d: Drive) returns (responses: Responses, ghost h: History)
      requires link.Buffers() && usb.Valid() && Timely(usb.polls, start) && InTime(actions, start)
      requires Plugged(actions, usb.drives)
      modifies link, link.respBuf, link.blockBuf, link.rxDma, link.txDma, usb, usb.host, usb.drives
      ensures link.Buffers() && usb.Valid() == old(usb.Valid()) && usb.drives == old(usb.drives)
      ensures WholeRun(actions, responses, h, start, old(Viewed(actions, d)), old(Seen(d)), Seen(d))
      ensures NoneConnected(actions) ==> Paid(0, old(usb.OnBus()), usb.OnBus())
      ensures Monotone(usb.polls) && AllExact(usb.polls)
    {
      responses, h := [], [];
      ghost var v, last, was := Viewed(actions, d), start, Seen(d);
      ghost var now := was;
      RunOfNothing(actions, start, v, now);
      var i := 0;
      while i < |actions|
        invariant 0 <= i == |responses| <= |actions|
        invariant link.Buffers() && usb.Valid() == old(usb.Valid()) && usb.drives == old(usb.drives)
        invariant now == Seen(d) && RunOf(actions, responses, h, start, last, v, was, now)
      {
        StillOpen(actions, responses, h, start, last, v, was, now);
        var response, turn := Perform(actions[i], last, d, v);
        RunOfStep(actions, responses, h, start, last, v, was, now, Seen(d), response, turn);
        responses, h, last, now := responses + [response], h + [turn], TimeAfter(actions[i], last), Seen(d);
        i := i + 1;
      }
      if NoneConnected(actions) {
        NothingPaid(actions, responses, h, start, last, v, was, now);
      }
    }

    /** How the record of a run that starts now is to be read for this drive. */
    ghost function Viewed(actions: seq<Action>, d: Drive): View
      reads usb, usb.handle
    {
      var full := Undisturbed(actions) && usb.OpenDrive() == d;
      View(full, full && usb.Known(), d.blockSize)
    }

    /** A run in which the drive `d` stays open. */
    method RunOnDrive(actions: seq<Action>, ghost start: nat, ghost d: Drive)
      returns (responses: Responses, ghost h: History)
      requires link.Buffers() && usb.Valid() && Timely(usb.polls, start) && InTime(actions, start)
      requires Plugged(actions, usb.drives) && Undisturbed(actions) && usb.OpenDrive() == d
      modifies link, link.respBuf, link.blockBuf, link.rxDma, link.txDma, usb, usb.host, usb.drives
      ensures link.Buffers() && usb.Valid() == old(usb.Valid()) && usb.drives == old(usb.drives)
      ensures WholeRun(actions, responses, h, start, View(true, old(usb.Known()), d.blockSize), old(Seen(d)), Seen(d))
      ensures usb.host.issued < U32 && old(usb.Known()) ==>
                AnsweredInPhase(actions, responses, old(usb.Cached()), Marks(old(link.wire)), Marks(link.wire))
    {
      ghost var v, was := View(true, usb.Known(), d.blockSize), Seen(d);
      usb.KnownIsGeometry(d);
      assert Viewed(actions, d) == v;
      responses, h := Run(actions, start, d);
      if usb.host.issued < U32 && v.known {
        KnownInPhase(actions, responses, h, start, v, was, Seen(d));
      }
    }

    /** A run in which the drive `d` stays open and the master stores one job on it. */
    method RunJob(actions: seq<Action>, ghost start: nat, ghost d: Drive, ghost job: Job) returns (responses: Responses)
      requires link.Buffers() && usb.Valid() && Timely(usb.polls, start) && InTime(actions, start)
      requires Plugged(actions, usb.drives) && Undisturbed(actions) && usb.OpenDrive() == d
      requires job.Fair() && job.bs == d.blockSize && job.bc == |d.blocks| - 1 && SendsOnly(job, actions)
      modifies link, link.respBuf, link.blockBuf, link.rxDma, link.txDma, usb, usb.host, usb.drives
      ensures |responses| == |actions|
      ensures usb.host.issued < U32 ==> Concludes(job, actions, responses, old(d.blocks), d.blocks)
      ensures usb.host.issued < U32 && old(usb.Known()) ==>
                AnsweredInPhase(actions, responses, old(usb.Cached()), Marks(old(link.wire)), Marks(link.wire))
    {
      ghost var h;
      ghost var v := View(true, usb.Known(), d.blockSize);
      responses, h := RunOnDrive(actions, start, d);
      if usb.host.issued < U32 {
        MasterConcludes(job, h, actions, responses, v, old(d.blocks), d.blocks);
      }
    }

    // ----- Installing -----

    /** One more poll after a CONNECTED event. */
    method PollAgain(polls: seq<Action>, ghost last: nat, ghost addr: byte, results: seq<Option<EspErr>>,
                     ghost since: nat) returns (all: seq<Option<EspErr>>)
      requires usb.Valid() && Timely(usb.polls, last) && |results| < |polls|
      requires var a := polls[|results|];
               a.Polled? && OnTime(a, last) && (a.found != null ==> a.found in usb.drives)
      requires PendingAfter(addr, results, usb.pendingAddr, usb.retriesLeft) && ResultsOf(polls, results)
      requires since <= |usb.polls| && (usb.pendingAddr >= 0 ==> NoCycleSince(usb.polls, since))
      modifies usb, usb.host, usb.drives
      ensures usb.Valid() == old(usb.Valid()) && usb.drives == old(usb.drives)
      ensures Timely(usb.polls, polls[|results|].over)
      ensures |all| == |results| + 1 && ResultsOf(polls, all)
      ensures PendingAfter(addr, all, usb.pendingAddr, usb.retriesLeft)
      ensures since <= |usb.polls| && (usb.pendingAddr >= 0 ==> NoCycleSince(usb.polls, since))
    {
      var a := polls[|results|];
      ghost var pending, retries := usb.pendingAddr, usb.retriesLeft;
      var ignored, res := usb.PollOnce(a.found, a.steps, a.at, a.measured, a.over);
      PendingStep(addr, results, pending, retries, res);
      AttemptIff(addr, results, pending, retries);
      ResultsStep(polls, results, res);
      all := results + [res];
    }

    /** A CONNECTED event and any number of polls after it. The driver is stuck exactly when the first three
        attempts to install all came back with INVALID_STATE; that is bound to happen if it is the first error of the
        library each time, and cannot unless each time either it is, or the library has no error and some transfer of
        the drive fails with it. As long as the address is pending, power has not been cycled. `Steady` says that only
        another event gets a stuck driver going again. */
    method GivesUp(addr: byte, polls: seq<Action>, ghost start: nat) returns (results: seq<Option<EspErr>>)
      requires usb.Valid() && Timely(usb.polls, start) && InTime(polls, start) && Plugged(polls, usb.drives)
      requires forall i :: 0 <= i < |polls| ==> polls[i].Polled?
      modifies usb, usb.host, usb.drives
      ensures usb.Valid() && |results| == |polls| && ResultsOf(polls, results)
      ensures usb.Stuck() <==> |results| >= RETRY_COUNT && AllRefused(results[..RETRY_COUNT])
      ensures |polls| >= RETRY_COUNT && (forall i :: 0 <= i < RETRY_COUNT ==> Sticks(polls[i])) ==> usb.Stuck()
      ensures usb.Stuck() ==> |polls| >= RETRY_COUNT && forall i :: 0 <= i < RETRY_COUNT ==> MayStick(polls[i])
      ensures PendingAfter(addr, results, usb.pendingAddr, usb.retriesLeft)
      ensures usb.pendingAddr >= 0 ==> NoCycleSince(usb.polls, old(|usb.polls|))
    {
      usb.HandleConnected(addr);
      results := [];
      ghost var last, since := start, |usb.polls|;
      for i := 0 to |polls|
        invariant usb.Valid() && usb.drives == old(usb.drives) && i == |results| && ResultsOf(polls, results)
        invariant Timely(usb.polls, last) && EndTime(polls, i, last) == EndTime(polls, 0, start)
        invariant PendingAfter(addr, results, usb.pendingAddr, usb.retriesLeft)
        invariant since <= |usb.polls| && (usb.pendingAddr >= 0 ==> NoCycleSince(usb.polls, since))
      {
        results := PollAgain(polls, last, addr, results, since);
        last := polls[i].over;
      }
      if |polls| >= RETRY_COUNT {
        StuckByPolls(polls, results);
      }
    }

    /** A CONNECTED event and one poll: a drive that helps with an install, if need be after some failed tries at
        readiness, is opened, and its geometry cached. */
    method OpenDrive(addr: byte, poll: Action, ghost last: nat, ghost d: Drive, ghost p: Prospect)
      requires usb.Valid() && Timely(usb.polls, last) && poll.Polled? && OnTime(poll, last)
      requires poll.found == d && d in usb.drives && poll.Feasible()
      requires p == GreetedProspect(d, usb.host.Now(d), p.failures) && Inviting(d, p, usb.host.Now(d))
      modifies usb, usb.host, usb.drives
      ensures usb.Valid() == old(usb.Valid()) && usb.drives == old(usb.drives)
      ensures Timely(usb.polls, poll.over) && d.blocks == old(d.blocks)
      ensures usb.Opened(d, old(usb.host.issued) + 4 + 3 * p.failures, p.end.value + 6)
    {
      usb.HandleConnected(addr);
      var ignored, res := usb.PollOnce(poll.found, poll.steps, poll.at, poll.measured, poll.over, p.failures);
    }

    // ----- A drive that helps throughout -----

    /** One chunk of a job, sent intact to a drive that helps. */
    method StoreOne(x: FullExchange, ghost d: Drive, ghost job: Job, ghost k: nat, ghost was: seq<Block>)
      returns (response: Option<Response>)
      requires link.Buffers() && usb.Working() && usb.OpenDrive() == d && usb.Known()
      requires job.Fair() && job.bs == d.blockSize && job.bc == |d.blocks| - 1 && Sends(job, k, x)
      requires usb.host.issued + 1 < U32 && d.Helps(d.pos, usb.host.issued + 1, 3)
      requires Progress(job, was, d.blocks, FirstChunks(k))
      modifies link.respBuf, link`respLen, link.blockBuf, link.txDma, link.rxDma, link`wire
      modifies usb`blockSize, usb`blockCount, usb.host`cbwTag, usb.host`issued, usb.OpenDrive()
      ensures usb.Working() == old(usb.Working()) && usb.Cached() == old(usb.Cached())
      ensures usb.host.issued == old(usb.host.issued) + 1 && d.pos == old(d.pos) + 3
      ensures Acknowledges(response, |job.Piece(k)|)
      ensures |d.blocks| == |old(d.blocks)| && Progress(job, was, d.blocks, FirstChunks(k + 1))
    {
      usb.HelpIsPromising(d);
      usb.WorkingNow();
      ghost var turn;
      response, turn := link.Step(usb, x);
      IntactStored(job, was, k, x, turn.value, old(usb.Now()), usb.Now());
    }

    /** All chunks of a job, sent intact and in order to a drive that helps each time. */
    method StoreAll(frames: seq<FullExchange>, ghost d: Drive, ghost job: Job) returns (responses: Responses)
      requires link.Buffers() && usb.Working() && usb.OpenDrive() == d && usb.Known()
      requires job.Fair() && job.bs == d.blockSize && job.bc == |d.blocks| - 1 && |frames| == job.Count()
      requires forall k :: 0 <= k < |frames| ==> Sends(job, k, frames[k])
      requires usb.host.issued + |frames| < U32
      requires forall k :: 0 <= k < |frames| ==> d.Helps(d.pos + 3 * k, usb.host.issued + 1 + k, 3)
      modifies link.respBuf, link`respLen, link.blockBuf, link.txDma, link.rxDma, link`wire
      modifies usb`blockSize, usb`blockCount, usb.host`cbwTag, usb.host`issued, usb.OpenDrive()
      ensures usb.Working() == old(usb.Working())
      ensures |responses| == |frames| && AllGood(job, responses)
      ensures d.blocks == Overwrite(old(d.blocks), job.lba, job.n, job.data, job.bs)
    {
      responses := [];
      ghost var was, at, issued := d.blocks, d.pos, usb.host.issued;
      while |responses| < |frames|
        invariant |responses| <= |frames| && usb.Working() == old(usb.Working()) && usb.Cached() == old(usb.Cached())
        invariant usb.host.issued == issued + |responses| && d.pos == at + 3 * |responses|
        invariant |d.blocks| == |was| && Progress(job, was, d.blocks, FirstChunks(|responses|))
        invariant AllGood(job, responses)
      {
        var response := StoreOne(frames[|responses|], d, job, |responses|, was);
        AllGoodStep(job, responses, response);
        responses := responses + [response];
      }
      AllAcked(job, was, d.blocks, FirstChunks(|responses|));
    }
  }

  // ----- From power-up on -----

  /** The board as it comes up, with the drives that will ever be plugged in. */
  method Boot(memory: seq<byte>, ghost plugged: set<Drive>) returns (board: Board)
    requires |memory| == 6 && forall d :: d in plugged ==> Unused(d)
    ensures fresh(board.Parts() - plugged) && board.usb.drives == plugged
    ensures board.link.Buffers() && board.link.wire == [] && board.usb.Valid() && Timely(board.usb.polls, 0)
    ensures board.usb.handle == null && board.usb.connects == board.usb.installs == board.usb.retriesLeft == 0
    ensures board.usb.polls == [] && board.usb.host.issued == 0 && board.usb.pendingAddr == -1
  {
    var host := new MscHost(memory);
    var usb := new UsbMassStorage(host);
    usb.Attach(plugged);
    var link := new SpiLink();
    board := new Board(usb, link);
  }

  /** Everything that holds of any run from power-up on: the invariants of the driver; at most three installs
      for each CONNECTED event; no drive has ever seen a transfer out of order; and each drive's medium was
      changed by commands only, which are all on record. On the wire, READY is low between commands, and the
      transfers are those the headers alone call for exactly if every request has been answered. */
  method Life(memory: seq<byte>, ghost plugged: set<Drive>, actions: seq<Action>, ghost d: Drive)
    returns (board: Board, responses: Responses, ghost h: History)
    requires |memory| == 6 && (forall e :: e in plugged ==> Unused(e)) && d in plugged
    requires InTime(actions, 0) && Plugged(actions, plugged)
    modifies plugged
    ensures fresh(board.Parts() - plugged) && board.usb.drives == plugged
    ensures board.link.Buffers() && board.usb.Valid()
    ensures WholeRun(actions, responses, h, 0, View(false, false, d.blockSize),
                     Beginning(d, old(d.blocks)), board.Seen(d))
    ensures board.usb.installs + board.usb.retriesLeft <= Allowance(Connects(actions, |actions|))
    ensures forall e :: e in plugged ==> Orderly(e.trace)
    ensures Ticks(board.usb.polls) == TicksIn(actions, |actions|)
    ensures Monotone(board.usb.polls) && AllExact(board.usb.polls)
    ensures NoneConnected(actions) ==> forall j :: 0 <= j < |board.usb.polls| ==> board.usb.polls[j].quiet
    ensures LineAfter(Marks(board.link.wire)) == LineLow
    ensures Marks(board.link.wire) == Scheduled(actions) <==> AllAnswered(actions, responses)
  {
    board, responses, h := PowerUpAndRun(memory, plugged, actions, d);
    EveryTraceOrderly(board.usb);
    FromPowerUp(actions, responses, h, Beginning(d, old(d.blocks)), board.Seen(d), View(false, false, d.blockSize));
  }

  method PowerUpAndRun(memory: seq<byte>, ghost plugged: set<Drive>, actions: seq<Action>, ghost d: Drive)
    returns (board: Board, responses: Responses, ghost h: History)
    requires |memory| == 6 && (forall e :: e in plugged ==> Unused(e)) && d in plugged
    requires InTime(actions, 0) && Plugged(actions, plugged)
    modifies plugged
    ensures fresh(board.Parts() - plugged) && board.usb.drives == plugged
    ensures board.link.Buffers() && board.usb.Valid()
    ensures WholeRun(actions, responses, h, 0, View(false, false, d.blockSize),
                     Beginning(d, old(d.blocks)), board.Seen(d))
  {
    board := Boot(memory, plugged);
    responses, h := board.Run(actions, 0, d);
  }

  /** What a whole run from power-up on comes to. */
  lemma FromPowerUp(actions: seq<Action>, responses: Responses, h: History, was: Sight, now: Sight, v: View)
    requires InTime(actions, 0) && WholeRun(actions, responses, h, 0, v, was, now)
    requires was == Sight(was.bus, was.blocks, [])
    requires was.bus == BusState(null, null, Capacity(0, 0), -1, 0, 0, 0, [], 0)
    ensures now.bus.installs + now.bus.retriesLeft <= Allowance(Connects(actions, |actions|))
    ensures Ticks(now.bus.polls) == TicksIn(actions, |actions|)
    ensures NoneConnected(actions) ==> forall j :: 0 <= j < |now.bus.polls| ==> now.bus.polls[j].quiet
    ensures LineAfter(now.marks) == LineLow
    ensures now.marks == Scheduled(actions) <==> AllAnswered(actions, responses)
  {
    PhaseOfWhole(actions, responses, h, 0, v, was, now);
    assert [] + Scheduled(actions) == Scheduled(actions);
    assert Ticks([]) + TicksIn(actions, |actions|) == TicksIn(actions, |actions|);
  }

  /** With no drive found after power-up, two polls two seconds and more apart cycle the power. */
  method CycledFromPowerUp(memory: seq<byte>, ghost plugged: set<Drive>, steps: InstallSteps, ghost d: Drive,
                           first: nat, later: nat) returns (board: Board)
    requires |memory| == 6 && (forall e :: e in plugged ==> Unused(e)) && d in plugged && first + 2000 <= later
    modifies plugged
    ensures board.usb.polls == [Poll(first, first, first, true, false), Poll(later, later, later, true, true)]
  {
    var polls := [Polled(null, steps, first, first, first), Polled(null, steps, later, later, later)];
    TwoTicks(polls, first, later);
    ghost var h;
    var responses;
    board, responses, h := Life(memory, plugged, polls, d);
    TwoPolls(board.usb.polls, first, later);
  }

  lemma TwoTicks(polls: seq<Action>, first: nat, later: nat)
    requires |polls| == 2 && polls[0].Polled? && polls[1].Polled? && first <= later
    requires polls[0].at == polls[0].measured == polls[0].over == first
    requires polls[1].at == polls[1].measured == polls[1].over == later
    ensures InTime(polls, 0) && NoneConnected(polls)
    ensures TicksIn(polls, 2) == [Tick(first, first, first), Tick(later, later, later)]
  {
    assert EndTime(polls, 1, first) == EndTime(polls, 2, later) == Some(later);
    assert TicksIn(polls, 1) == [Tick(first, first, first)];
  }

  /** What there is to be seen before anything has happened. */
  ghost function Beginning(d: Drive, blocks: seq<Block>): Sight {
    Sight(BusState(null, null, Capacity(0, 0), -1, 0, 0, 0, [], 0), blocks, [])
  }

  /** The host and the drive at power-up. */
  ghost function AtPowerUp(d: Drive): Snapshot
    reads d
  {
    Snapshot(0, 0, d.pos, d.FaultsLeft(), d.deepest, d.given, d.log, d.trace, d.blocks)
  }

  /** The drive helps with the commands after power-up, if need be after some failed tries at readiness; `p` says how
      many, and where it is ready. */
  ghost predicate HelpsFromStart(d: Drive, p: Prospect)
    reads d
  {
    p == GreetedProspect(d, AtPowerUp(d), p.failures) && Inviting(d, p, AtPowerUp(d))
  }

  /** A drive that helps with INQUIRY, TEST UNIT READY and READ CAPACITY, twice, does. */
  lemma HelpsAtOnce(d: Drive)
    requires d.Supply(d.pos + 1, 36) == 36 && d.Helps(d.pos, 1, 3)
    requires d.Helps(d.pos + 3, 2, 2) && d.Helps(d.pos + 5, 3, 3) && d.Helps(d.pos + 8, 4, 3)
    ensures HelpsFromStart(d, Prospect(false, Some(d.pos + 5), 0))
  {
    assert ReadyEnd(d, d.pos + 3, 2, 0) == Some(d.pos + 5);
  }

  /** So does one whose first TEST UNIT READY comes back with a bad status, and which has a reason, asked for twice,
      that lets the host try again. */
  lemma HelpsAtSecondTry(d: Drive)
    requires d.Supply(d.pos + 1, 36) == 36 && d.Helps(d.pos, 1, 3)
    requires d.behaviour.reply(d.pos + 3).outcome.Completed? && d.behaviour.reply(d.pos + 4).outcome.Completed?
    requires d.behaviour.reply(d.pos + 4).csw == Csw(0x53425355, 2, 0, 1)
    requires d.Helps(d.pos + 5, 3, 3) && d.Supply(d.pos + 6, 18) == 18
    requires d.Helps(d.pos + 8, 4, 3) && d.Supply(d.pos + 9, 18) == 18
    requires d.behaviour.reply(d.pos + 9).data[2] in {0x00, 0x02, 0x06}
    requires d.Helps(d.pos + 11, 5, 2) && d.Helps(d.pos + 13, 6, 3) && d.Helps(d.pos + 16, 7, 3)
    ensures HelpsFromStart(d, Prospect(false, Some(d.pos + 13), 1))
  {
    ReadyAtSecondTry(d, d.pos + 3, 1);
  }

  /** Power-up, a CONNECTED event and a poll at which the drive is found and opened. */
  method Open(memory: seq<byte>, ghost plugged: set<Drive>, addr: byte, poll: Action, ghost d: Drive, ghost p: Prospect)
    returns (board: Board)
    requires |memory| == 6 && (forall e :: e in plugged ==> Unused(e)) && d in plugged && HelpsFromStart(d, p)
    requires poll.Polled? && OnTime(poll, 0) && poll.found == d && poll.Feasible()
    modifies plugged
    ensures fresh(board.Parts() - plugged) && board.usb.drives == plugged
    ensures board.link.Buffers() && board.link.wire == [] && board.usb.Valid() && Timely(board.usb.polls, poll.over)
    ensures board.usb.OpenDrive() == d && board.usb.Cached() == Capacity(d.blockSize, |d.blocks| - 1)
    ensures board.usb.host.issued == 4 + 3 * p.failures && d.pos == p.end.value + 6 && d.blocks == old(d.blocks)
  {
    board := Boot(memory, plugged);
    board.OpenDrive(addr, poll, 0, d, p);
  }

  /** A session from power-up on: the drive is found at the first poll after CONNECTED, opened, and a job stored on
      it among any polls and commands. */
  method Session(memory: seq<byte>, ghost plugged: set<Drive>, addr: byte, poll: Action, actions: seq<Action>,
                 ghost d: Drive, ghost p: Prospect, ghost job: Job) returns (board: Board, responses: Responses)
    requires |memory| == 6 && (forall e :: e in plugged ==> Unused(e)) && d in plugged && HelpsFromStart(d, p)
    requires poll.Polled? && OnTime(poll, 0) && poll.found == d && poll.Feasible()
    requires InTime(actions, poll.over) && Plugged(actions, plugged) && Undisturbed(actions)
    requires job.Fair() && job.bs == d.blockSize && job.bc == |d.blocks| - 1 && SendsOnly(job, actions)
    modifies plugged
    ensures |responses| == |actions|
    ensures board.usb.host.issued < U32 ==> Concludes(job, actions, responses, old(d.blocks), d.blocks)
    ensures board.usb.host.issued < U32 && job.bc != 0 ==>
              AnsweredInPhase(actions, responses, Capacity(job.bs, job.bc), [], Marks(board.link.wire))
  {
    board := Open(memory, plugged, addr, poll, d, p);
    responses := board.RunJob(actions, poll.over, d, job);
  }

  /** And if the drive goes on helping and the master sends each chunk once, intact, the data is on the medium. */
  method StoreFromPowerUp(memory: seq<byte>, ghost plugged: set<Drive>, addr: byte, poll: Action,
                          frames: seq<FullExchange>, ghost d: Drive, ghost p: Prospect, ghost job: Job)
    returns (board: Board, responses: Responses)
    requires |memory| == 6 && (forall e :: e in plugged ==> Unused(e)) && d in plugged && HelpsFromStart(d, p)
    requires poll.Polled? && OnTime(poll, 0) && poll.found == d && poll.Feasible()
    requires job.Fair() && job.bs == d.blockSize && job.bc == |d.blocks| - 1 && job.bc != 0
    requires |frames| == job.Count() && forall k :: 0 <= k < |frames| ==> Sends(job, k, frames[k])
    requires 4 + 3 * p.failures + |frames| < U32
    requires forall k :: 0 <= k < |frames| ==> d.Helps(p.end.value + 6 + 3 * k, 5 + 3 * p.failures + k, 3)
    modifies plugged
    ensures |responses| == |frames| && AllGood(job, responses)
    ensures d.blocks == Overwrite(old(d.blocks), job.lba, job.n, job.data, job.bs)
  {
    board := Open(memory, plugged, addr, poll, d, p);
    CountFits(job.bs, job.n);
    responses := board.StoreAll(frames, d, job);
  }

  /** Three polls at which the library refuses to open anything: no power cycle, and no retry is left. */
  method StuckFromPowerUp(memory: seq<byte>) returns (board: Board)
    requires |memory| == 6
    ensures board.usb.Valid() && board.usb.Stuck() && NoCycleSince(board.usb.polls, 0)
  {
    board := Boot(memory, {});
    var refused := InstallSteps(false, true, ESP_ERR_INVALID_STATE, ESP_OK, ESP_OK, ESP_OK, ESP_OK);
    var poll := Polled(null, refused, 0, 0, 0);
    var polls := [poll, poll, poll];
    assert EndTime(polls, 2, 0) == EndTime(polls, 3, 0) == Some(0);
    assert EndTime(polls, 1, 0) == EndTime(polls, 2, 0);
    var results := board.GivesUp(1, polls, 0);
  }
}
