/** The drive's life on the bus (src/usb_mass_storage/driver.rs) and the block device over it
    (src/usb_mass_storage/block_device.rs). */
module Driver {
  import opened Disk
  import opened Drives
  import opened MscHosts
  import opened Transports
  import opened Watchdog
  import opened Words

  const RETRY_COUNT: int := 3

  /** Attempts to install that this many CONNECTED events pay for. */
  function Allowance(connects: nat): nat {
    3 * connects
  }

  datatype BlockDevStatus = NotPresent | NotReady | Ready

  /** What an attempt to install leaves of the pending address and the retries; `None` is no attempt. */
  function AfterInstall(pending: int, retries: int, res: Option<EspErr>): (int, int) {
    match res
    case None => (pending, retries)
    case Some(e) => if e == ESP_ERR_INVALID_STATE then (pending, retries - 1) else (-1, 0)
  }

  datatype Cost = Cost(commands: nat, transfers: nat) {
    function Plus(c: nat, t: nat): Cost {
      Cost(commands + c, transfers + t)
    }
  }

  /** All that matters to a command: the capacity cached, the open drive's medium and block size, whether the drive
      will help with the next command, or with as many as a Read or Write takes, and what has been spent so far. */
  datatype Situation = Situation(working: bool, open: bool, cap: Capacity, size: u32, medium: seq<Block>,
                                 obliging: bool, promising: bool, failing: Option<EspErr>, ready: Option<bool>,
                                 spent: Cost)
  {
    /** No tag has been used twice. */
    predicate TagsFresh() {
      spent.commands < U32
    }

    /** The capacity is that of the open drive. */
    predicate Current() {
      open && cap.bs == size && cap.bc == |medium| - 1
    }
  }

  /** The drive helps with an install, after so many failed tries at readiness, and with the READ CAPACITY after it. */
  ghost predicate Inviting(d: Drive, p: Prospect, a: Snapshot) {
    && Welcoming(d, p, a) && a.issued + 4 + 3 * p.failures < U32
    && d.Helps(p.end.value + 3, a.issued + 4 + 3 * p.failures, 3)
  }

  lemma InvitedHelps(d: Drive, p: Prospect, a: Snapshot, b: Snapshot)
    requires Inviting(d, p, a) && Tagged(b) && b.issued == a.issued + 3 + 3 * p.failures && b.pos == p.end.value + 3
    ensures b.TagsFresh() && d.Helps(b.pos, b.NewTag(), 3)
  {
  }

  /** The state that bus events and polls work on. */
  datatype BusState = BusState(handle: MscDevice?, drive: Drive?, cap: Capacity, pendingAddr: int,
                               retriesLeft: int, connects: nat, installs: nat, polls: seq<Poll>, issued: nat)
  {
    predicate Stuck() {
      pendingAddr >= 0 && retriesLeft == 0
    }

    /** The device is gone. */
    ghost function Left(): BusState {
      this.(handle := null, drive := null, cap := Capacity(0, 0), pendingAddr := -1, retriesLeft := 0)
    }

    /** A device has come. */
    ghost function Joined(addr: byte): BusState {
      Left().(pendingAddr := addr, retriesLeft := 3, connects := connects + 1)
    }

    /** Nothing is open, nothing is pending. */
    predicate Deserted() {
      handle == null && pendingAddr < 0
    }
  }

  class UsbMassStorage {
    const host: MscHost

    var pendingAddr: int
    var retriesLeft: int
    var handle: MscDevice?
    var blockSize: u32
    var blockCount: u32
    var noDeviceSince: Option<nat>

    /** Every drive that was ever plugged in. */
    ghost var drives: set<Drive>
    /** CONNECTED events, calls of `msc_host_install_device`, and polls, since boot. */
    ghost var connects: nat
    ghost var installs: nat
    ghost var polls: seq<Poll>

    ghost predicate Lifecycle()
      reads this, host
    {
      && (handle != null ==> handle in host.devices && pendingAddr < 0)
      && -1 <= pendingAddr < 256
      && 0 <= retriesLeft <= RETRY_COUNT
      && (pendingAddr < 0 ==> retriesLeft == 0)
      && (handle == null ==> blockSize == 0 && blockCount == 0)
      && installs + retriesLeft <= Allowance(connects)
    }

    /** The cached capacity, if there is one, is the geometry of the drive behind the open handle. */
    ghost predicate Coherent()
      reads this, host, handle, if handle == null then null else handle.drive
    {
      host.issued < U32 && (blockSize != 0 || blockCount != 0) ==> Current()
    }

    ghost predicate BusValid()
      reads this, host, host.devices, drives
    {
      && host.Valid() && host.ProperList()
      && (forall dev :: dev in host.devices ==> dev.drive != null && dev.drive in drives)
      && (forall d :: d in drives ==> host.Idle(d))
    }

    ghost predicate Working()
      reads this, host, host.devices, drives, handle, if handle == null then null else handle.drive
    {
      Lifecycle() && BusValid() && Coherent()
    }

    ghost predicate Valid()
      reads this, host, host.devices, drives, handle, if handle == null then null else handle.drive
    {
      Working() && Watched(polls, noDeviceSince)
    }

    /** The drive that block commands reach. */
    ghost function OpenDrive(): Drive?
      reads this, handle
    {
      if handle == null then null else handle.drive
    }

    /** The blocks and the block size of that drive. */
    ghost function Medium(): seq<Block>
      reads this, handle, if handle == null then null else handle.drive
    {
      if handle == null || handle.drive == null then [] else handle.drive.blocks
    }

    ghost function Size(): u32
      reads this, handle
    {
      if handle == null || handle.drive == null then 0 else handle.drive.blockSize
    }

    function Cached(): Capacity
      reads this
    {
      Capacity(blockSize, blockCount)
    }

    /** A capacity is cached. */
    predicate Known()
      reads this
    {
      Cached().Known()
    }

    /** What is cached is the geometry of the drive behind the open handle. */
    ghost predicate Current()
      reads this, handle, if handle == null then null else handle.drive
    {
      handle != null && handle.drive != null && blockSize == Size() && blockCount == |Medium()| - 1
    }

    /** Commands built so far, and transfers made with the open drive. */
    ghost function Spent(): Cost
      reads this, host, handle, if handle == null then null else handle.drive
    {
      Cost(host.issued, if handle == null || handle.drive == null then 0 else handle.drive.pos)
    }

    constructor (host: MscHost)
      requires host.Valid() && host.devices == []
      ensures Valid() && this.host == host && handle == null && drives == {} && polls == []
      ensures connects == installs == retriesLeft == 0 && pendingAddr == -1
    {
      this.host := host;
      pendingAddr, retriesLeft, handle, blockSize, blockCount, noDeviceSince := -1, 0, null, 0, 0, None;
      drives, connects, installs, polls := {}, 0, 0, [];
    }

    /** Drives are plugged in and powered up. */
    ghost method Attach(plugged: set<Drive>)
      requires Valid() && forall d :: d in plugged ==> d.Valid() && d.stage == AtRest && d.log == []
      modifies this`drives
      ensures Valid() && drives == old(drives) + plugged
    {
      drives := drives + plugged;
    }

    ghost function OnBus(): BusState
      reads this, host, handle
    {
      BusState(handle, OpenDrive(), Cached(), pendingAddr, retriesLeft, connects, installs, polls, host.issued)
    }

    // ----- Events -----

    /** `handle_raw_event`, CONNECTED. An open handle is dropped, not closed: its device stays on the
        list. */
    method HandleConnected(addr: byte)
      requires Valid()
      modifies this`pendingAddr, this`retriesLeft, this`handle, this`blockSize, this`blockCount, this`connects
      ensures Valid()
      ensures OnBus() == old(OnBus()).Joined(addr)
    {
      pendingAddr, retriesLeft := addr, RETRY_COUNT;
      handle := null;
      blockSize, blockCount := 0, 0;
      connects := connects + 1;
    }

    /** `handle_raw_event`, DISCONNECTED. The device named in the event is not looked at: what is
        closed is the driver's own handle. */
    method HandleDisconnected(gone: MscDevice, answers: seq<EspErr>)
      requires Valid()
      modifies this`pendingAddr, this`retriesLeft, this`handle, this`blockSize, this`blockCount, host`devices
      ensures Valid()
      ensures OnBus() == old(OnBus()).Left()
      ensures host.devices == if old(handle) == null then old(host.devices)
                              else Without<MscDevice>(old(host.devices), old(handle))
      ensures gone in old(host.devices) ==> (gone !in host.devices <==> gone == old(handle))
    {
      CloseDevice(answers);
      pendingAddr, retriesLeft := -1, 0;
      blockSize, blockCount := 0, 0;
    }

    method CloseDevice(answers: seq<EspErr>)
      requires host.Valid() && host.ProperList() && (handle != null ==> handle in host.devices)
      modifies this`handle, host`devices
      ensures host.Valid() && host.ProperList() && handle == null
      ensures host.devices == if old(handle) == null then old(host.devices)
                              else Without<MscDevice>(old(host.devices), old(handle))
      ensures forall d: MscDevice :: d in host.devices <==> d in old(host.devices) && d != old(handle)
    {
      if handle != null {
        var ignored := host.MscHostUninstallDevice(handle, answers);
        handle := null;
      }
    }

    /** `client_event_cb`, DEV_GONE: only a listed device is reported. */
    method DeviceGone(usb: Drive, answers: seq<EspErr>)
      requires Valid()
      modifies this`pendingAddr, this`retriesLeft, this`handle, this`blockSize, this`blockCount, host`devices
      ensures Valid()
      ensures (forall dev :: dev in old(host.devices) ==> dev.drive != usb) ==> unchanged(this) && unchanged(host)
      ensures (exists dev :: dev in old(host.devices) && dev.drive == usb) ==> OnBus() == old(OnBus()).Left()
    {
      var found := host.FindMscDevice(usb);
      if found != null {
        HandleDisconnected(found, answers);
      }
    }

    // ----- Polling -----

    /** Retries are used up, the address is still pending: nothing but an event gets out of this. */
    ghost predicate Stuck()
      reads this
    {
      pendingAddr >= 0 && retriesLeft == 0
    }

    /** `poll`, after the pending events have been handled. `usb` is the drive at the pending address,
        if there is one, `steps` what the USB host library answers if it is opened. `res` is what an attempt
        to install came to. */
    method PollOnce(usb: Drive?, steps: InstallSteps, at: nat, measured: nat, over: nat, ghost failures: nat := 0)
      returns (cycled: bool, res: Option<EspErr>)
      requires Valid() && (usb != null ==> usb in drives)
      requires Follows(polls, Poll(at, measured, over, false, false))
      modifies this`pendingAddr, this`retriesLeft, this`handle, this`blockSize, this`blockCount, this`noDeviceSince
      modifies this`installs, this`polls, host`devices, host`cbwTag, host`issued, drives
      ensures host.issued >= old(host.issued)
      ensures Valid()
      ensures drives == old(drives) && connects == old(connects)
      ensures forall d :: d in drives ==> d.blocks == old(d.blocks)
      ensures old(handle) != null ==> handle == old(handle) && Cached() == old(Cached())
      ensures old(installs) <= installs <= old(installs) + 1
      ensures installs + retriesLeft <= old(installs + retriesLeft)
      ensures polls == old(polls) + [Poll(at, measured, over, handle == null && pendingAddr < 0, cycled)]
      ensures cycled <==> handle == null && pendingAddr < 0 && Due(old(polls), |old(polls)|, measured)
      ensures res.Some? <==> old(pendingAddr >= 0 && retriesLeft > 0)
      ensures res.Some? && steps.Failure(usb != null) != ESP_OK ==> res.value == steps.Failure(usb != null)
      ensures res.Some? && steps.Failure(usb != null) == ESP_OK ==>
                Tried(usb, GreetedProspect(usb, old(host.Now(usb)), failures), old(host.Now(usb)), res.value)
      ensures (pendingAddr, retriesLeft) == AfterInstall(old(pendingAddr), old(retriesLeft), res)
      ensures if res.None? then OnBus() == old(OnBus()).(polls := polls) else installs == old(installs) + 1
      ensures handle != old(handle) <==> res == Some(ESP_OK)
      ensures Stuck() <==>
                old(Stuck()) || (old(pendingAddr >= 0 && retriesLeft == 1) && res == Some(ESP_ERR_INVALID_STATE))
      ensures old(Stuck()) ==> !cycled && installs == old(installs) && host.devices == old(host.devices)
    {
      res := TryOpenAndMount(usb, steps, failures);
      cycled := Watch(at, measured, over);
    }

    /** The watchdog at the end of `poll`. */
    method Watch(at: nat, measured: nat, over: nat) returns (cycled: bool)
      requires Valid()
      requires Follows(polls, Poll(at, measured, over, false, false))
      modifies this`noDeviceSince, this`polls
      ensures Valid()
      ensures polls == old(polls) + [Poll(at, measured, over, handle == null && pendingAddr < 0, cycled)]
      ensures cycled <==> handle == null && pendingAddr < 0 && Due(old(polls), |old(polls)|, measured)
    {
      var quiet := handle == null && pendingAddr < 0;
      cycled := false;
      ghost var before := noDeviceSince;
      if quiet {
        match noDeviceSince {
          case None => noDeviceSince := Some(at);
          case Some(since) =>
            if measured >= since && (measured - since) / 1000 >= 2 {
              cycled := true;
              noDeviceSince := Some(over);
            }
        }
      } else {
        noDeviceSince := None;
      }
      TickKeepsWatch(polls, before, Poll(at, measured, over, quiet, cycled), noDeviceSince);
      polls := polls + [Poll(at, measured, over, quiet, cycled)];
    }

    /** `try_open_and_mount`, with the VFS branch switched off as in the source. */
    method TryOpenAndMount(usb: Drive?, steps: InstallSteps, ghost failures: nat) returns (res: Option<EspErr>)
      requires Working() && (usb != null ==> usb in drives)
      modifies this`pendingAddr, this`retriesLeft, this`handle, this`blockSize, this`blockCount, this`installs
      modifies host`devices, host`cbwTag, host`issued, drives
      ensures host.issued >= old(host.issued) + if handle == old(handle) then 0 else 4
      ensures Working()
      ensures res.Some? <==> old(pendingAddr >= 0 && retriesLeft > 0)
      ensures if res.None? then unchanged(this) && unchanged(host) && unchanged(drives)
              else installs == old(installs) + 1
      ensures res.Some? && steps.Failure(usb != null) != ESP_OK ==> res.value == steps.Failure(usb != null)
      ensures res.Some? && steps.Failure(usb != null) == ESP_OK ==>
                Tried(usb, GreetedProspect(usb, old(host.Now(usb)), failures), old(host.Now(usb)), res.value)
      ensures (pendingAddr, retriesLeft) == AfterInstall(old(pendingAddr), old(retriesLeft), res)
      ensures handle != old(handle) <==> res == Some(ESP_OK)
      ensures installs + retriesLeft <= old(installs + retriesLeft)
      ensures forall d :: d in drives ==> d.blocks == old(d.blocks)
      ensures handle == old(handle) ==> host.devices == old(host.devices)
      ensures handle != old(handle) ==>
                handle != null && fresh(handle) && handle.drive == usb && host.devices == old(host.devices) + [handle]
    {
      if pendingAddr < 0 || retriesLeft <= 0 {
        return None;
      }
      var ret := OpenPending(usb, steps, failures);
      return Some(ret);
    }

    /** An attempt to install; after a success, the capacity is asked for once more. */
    method OpenPending(usb: Drive?, steps: InstallSteps, ghost failures: nat) returns (ret: EspErr)
      requires Working() && (usb != null ==> usb in drives) && pendingAddr >= 0 && retriesLeft > 0
      modifies this`pendingAddr, this`retriesLeft, this`handle, this`blockSize, this`blockCount, this`installs
      modifies host`devices, host`cbwTag, host`issued, usb
      ensures host.issued >= old(host.issued) + if ret == ESP_OK then 4 else 0
      ensures Working() && installs == old(installs) + 1
      ensures steps.Failure(usb != null) != ESP_OK ==> ret == steps.Failure(usb != null)
      ensures steps.Failure(usb != null) == ESP_OK ==>
                usb != null && Tried(usb, GreetedProspect(usb, old(host.Now(usb)), failures), old(host.Now(usb)), ret)
      ensures (pendingAddr, retriesLeft) == AfterInstall(old(pendingAddr), old(retriesLeft), Some(ret))
      ensures usb != null ==> usb.blocks == old(usb.blocks)
      ensures ret == ESP_OK ==>
                handle != null && fresh(handle) && handle.drive == usb && host.devices == old(host.devices) + [handle]
      ensures ret != ESP_OK ==> handle == null && host.devices == old(host.devices)
    {
      ret := InstallPending(usb, steps, failures);
      if ret == ESP_OK {
        CacheCapacity(usb, GreetedProspect(usb, old(host.Now(usb)), failures), old(host.Now(usb)));
      }
    }

    /** The capacity of a drive that has just been installed; `p` and `a` are from before that. */
    method CacheCapacity(d: Drive, ghost p: Prospect, ghost a: Snapshot)
      requires Working() && handle != null && handle.drive == d && InstallDone(d, p, a, ESP_OK)
      modifies this`blockSize, this`blockCount, host`cbwTag, host`issued, d
      ensures Working() && host.issued >= old(host.issued) + 1 && d.blocks == old(d.blocks)
      ensures Tried(d, p, a, ESP_OK)
    {
      ghost var b := host.Now(d);
      if Inviting(d, p, a) {
        InvitedHelps(d, p, a, b);
        assert Obliging(3);
      }
      var ignored := BdRefreshCapacity();
    }

    /** What the drive's replies say about an install comes true; and an inviting drive is open then and its geometry
        cached, with four commands, and three more for every failed try at readiness. */
    ghost predicate Tried(d: Drive, p: Prospect, a: Snapshot, ret: EspErr)
      reads this, host, handle, if handle == null then null else handle.drive, d
    {
      && Foretold(d, p, a, ret)
      && (Inviting(d, p, a) ==> ret == ESP_OK && Opened(d, a.issued + 4 + 3 * p.failures, p.end.value + 6))
    }

    /** The drive is open and its geometry cached, after so many commands, and so many transfers of its own. */
    ghost predicate Opened(d: Drive, issued: nat, pos: nat)
      reads this, host, handle, if handle == null then null else handle.drive, d
    {
      handle != null && handle.drive == d && Current() && host.issued == issued && d.pos == pos
    }

    method InstallPending(usb: Drive?, steps: InstallSteps, ghost failures: nat) returns (ret: EspErr)
      requires Working() && (usb != null ==> usb in drives) && pendingAddr >= 0 && retriesLeft > 0
      modifies this`pendingAddr, this`retriesLeft, this`handle, this`installs
      modifies host`devices, host`cbwTag, host`issued, usb
      ensures host.issued >= old(host.issued) + if ret == ESP_OK then 3 else 0
      ensures Working() && installs == old(installs) + 1
      ensures usb != null ==> usb.blocks == old(usb.blocks)
      ensures ret == ESP_OK ==>
                handle != null && fresh(handle) && handle.drive == usb && host.devices == old(host.devices) + [handle]
      ensures ret != ESP_OK ==> handle == null && host.devices == old(host.devices)
      ensures (pendingAddr, retriesLeft) == AfterInstall(old(pendingAddr), old(retriesLeft), Some(ret))
      ensures steps.Failure(usb != null) != ESP_OK ==> ret == steps.Failure(usb != null)
      ensures steps.Failure(usb != null) == ESP_OK ==>
                && usb != null
                && InstallDone(usb, GreetedProspect(usb, old(host.Now(usb)), failures), old(host.Now(usb)), ret)
    {
      var device;
      ret, device := Install(usb, steps, failures);
      if ret == ESP_OK {
        handle := device;
        pendingAddr, retriesLeft := -1, 0;
      } else if ret == ESP_ERR_INVALID_STATE {
        retriesLeft := retriesLeft - 1;
      } else {
        pendingAddr, retriesLeft := -1, 0;
      }
    }

    /** The call has come to what the replies say. */
    ghost predicate InstallDone(d: Drive, p: Prospect, a: Snapshot, ret: EspErr)
      reads host, d
    {
      && Foretold(d, p, a, ret)
      && (Welcoming(d, p, a) ==> host.issued == a.issued + 3 + 3 * p.failures && d.pos == p.end.value + 3)
    }

    /** The call of the host driver, and what it keeps. */
    method Install(usb: Drive?, steps: InstallSteps, ghost failures: nat) returns (ret: EspErr, device: MscDevice?)
      requires BusValid() && (usb != null ==> usb in drives)
      modifies this`installs, host`devices, host`cbwTag, host`issued, usb
      ensures host.issued >= old(host.issued) + if ret == ESP_OK then 3 else 0
      ensures BusValid() && installs == old(installs) + 1
      ensures usb != null ==> usb.blocks == old(usb.blocks)
      ensures ret == ESP_OK <==> device != null
      ensures ret == ESP_OK ==> fresh(device) && device.drive == usb && host.devices == old(host.devices) + [device]
      ensures ret != ESP_OK ==> host.devices == old(host.devices)
      ensures steps.Failure(usb != null) != ESP_OK ==> ret == steps.Failure(usb != null)
      ensures steps.Failure(usb != null) == ESP_OK ==>
                && usb != null
                && InstallDone(usb, GreetedProspect(usb, old(host.Now(usb)), failures), old(host.Now(usb)), ret)
    {
      installs := installs + 1;
      ret, device := host.MscHostInstallDevice(usb, steps, failures);
    }

    // ----- The block device -----

    /** The drive behind the handle will help with the next command. */
    ghost predicate Obliging(transfers: nat)
      reads this, host, handle, if handle == null then null else handle.drive
    {
      && handle != null && handle.drive != null && host.issued < U32
      && handle.drive.Willing(host.NewTag(), transfers)
    }

    /** The drive will help with the next Read or Write, and before that with a READ CAPACITY if the capacity is
        not known. */
    ghost predicate Promising()
      reads this, host, handle, if handle == null then null else handle.drive
    {
      && Obliging(3)
      && (Known()
          || (host.issued + 1 < U32 && handle.drive.Helps(handle.drive.pos + 3, host.issued + 2, 3)))
    }

    /** The error the next command with data is bound to end with. */
    ghost function Failure(): Option<EspErr>
      reads this, host, handle, if handle == null then null else handle.drive
    {
      if handle == null || handle.drive == null then None else Failing(handle.drive, host.Now(handle.drive))
    }

    /** What the next TEST UNIT READY is bound to come to. */
    ghost function Readiness(): Option<bool>
      reads this, host, handle, if handle == null then null else handle.drive
    {
      if Obliging(2) then Some(true)
      else if handle != null && handle.drive != null
              && exists e :: FailsWith(handle.drive, handle.drive.pos, ReadyCommand(host.NewTag()), e) then Some(false)
      else None
    }

    ghost function Now(): Situation
      reads this, host, host.devices, drives, handle, if handle == null then null else handle.drive
    {
      Situation(Working(), handle != null, Cached(), Size(), Medium(), Obliging(3), Promising(), Failure(), Readiness(),
                Spent())
    }

    /** The open drive has a medium, and what is cached is its geometry or nothing. */
    lemma WorkingNow()
      requires Working()
      ensures Now().open ==> 0 < |Now().medium| <= U32
      ensures Now().open && Now().TagsFresh() ==> Now().cap == Capacity(0, 0) || Now().Current()
    {
    }

    lemma KnownIsCurrent()
      requires Working() && Known()
      ensures Now().TagsFresh() ==> Now().Current()
    {
    }

    lemma KnownIsGeometry(d: Drive)
      requires Working() && OpenDrive() == d
      ensures 0 < |d.blocks| <= U32
      ensures Known() && host.issued < U32 ==> Cached() == Capacity(d.blockSize, |d.blocks| - 1)
    {
    }

    /** A drive that helps with the next tag can be counted on once the capacity is known. */
    lemma HelpIsPromising(d: Drive)
      requires Working() && OpenDrive() == d && Known() && host.issued + 1 < U32 && d.Helps(d.pos, host.issued + 1, 3)
      ensures Promising()
    {
      assert host.NewTag() == host.issued + 1;
    }

    /** The drive's answer to READ CAPACITY. */
    method AskGeometry() returns (err: EspErr, bs: u32, bc: u32)
      requires Working() && handle != null
      modifies host`cbwTag, host`issued, OpenDrive()
      ensures Working() && host.issued > old(host.issued) && Medium() == old(Medium())
      ensures err == ESP_OK && host.issued < U32 ==> bs == Size() && bc == |Medium()| - 1
      ensures old(Obliging(3)) ==> err == ESP_OK && Spent() == old(Spent()).Plus(1, 3)
      ensures old(Failure()).Some? ==> err == old(Failure()).value != ESP_OK
    {
      ghost var was := host.Now(handle.drive);
      err, bs, bc := host.ScsiCmdReadCapacity(handle.drive);
      CapacityOutcome(handle.drive, was, host.Now(handle.drive), err);
    }

    /** `bd_refresh_capacity`. */
    method BdRefreshCapacity() returns (r: Result<(u32, u32)>)
      requires Working()
      modifies this`blockSize, this`blockCount, host`cbwTag, host`issued, OpenDrive()
      ensures host.issued >= old(host.issued) && (handle != null ==> host.issued > old(host.issued))
      ensures Working()
      ensures old(handle) == null ==> r == Err(ESP_ERR_INVALID_STATE)
      ensures r.Ok? ==> Cached() == Capacity(r.value.0, r.value.1)
      ensures r.Ok? && host.issued < U32 ==> Current()
      ensures old(Known()) && host.issued < U32 ==> Cached() == old(Cached())
      ensures old(Obliging(3)) ==> r.Ok? && Spent() == old(Spent()).Plus(1, 3)
      ensures old(Failure()).Some? ==> r == Err(old(Failure()).value)
      ensures r.Err? ==> r.error != ESP_OK && Cached() == old(Cached())
      ensures Medium() == old(Medium())
    {
      if handle == null {
        return Err(ESP_ERR_INVALID_STATE);
      }
      var err, bs, bc := AskGeometry();
      if err != ESP_OK {
        return Err(err);
      }
      blockCount, blockSize := bc, bs;
      return Ok((bs, bc));
    }

    /** `bd_status`. */
    method BdStatus() returns (s: BlockDevStatus)
      requires Working()
      modifies host`cbwTag, host`issued, OpenDrive()
      ensures host.issued >= old(host.issued)
      ensures Working()
      ensures handle == null <==> s == NotPresent
      ensures s == Ready ==> Known()
      ensures s == Ready && host.issued < U32 ==> |Medium()| > 1
      ensures handle != null && !Known() ==> s == NotReady
      ensures Known() && old(Readiness()) == Some(true) ==> s == Ready
      ensures handle != null && old(Readiness()) == Some(false) ==> s == NotReady
      ensures s == Ready ==> host.JustReady(OpenDrive())
      ensures Medium() == old(Medium())
    {
      if handle == null {
        return NotPresent;
      }
      if blockSize == 0 || blockCount == 0 {
        return NotReady;
      }
      ghost var was := host.Now(handle.drive);
      var err := host.ScsiCmdUnitReady(handle.drive, 0);
      ReadyOutcome(handle.drive, was, host.Now(handle.drive), err);
      return if err == ESP_OK then Ready else NotReady;
    }

    /** The checks that `bd_read_blocks` and `bd_write_blocks` both make: why the operation is refused
        before anything is sent, if it is. The end of the range is a saturating sum. */
    function Refusal(lba: u32, n: u32, len: nat): Option<EspErr>
      reads this
    {
      if handle == null then Some(ESP_ERR_INVALID_STATE)
      else if n == 0 then Some(ESP_ERR_INVALID_ARG)
      else if blockSize == 0 || blockCount == 0 then Some(ESP_ERR_INVALID_STATE)
      else if Min(lba + n, U32 - 1) > blockCount then Some(ESP_ERR_INVALID_ARG)
      else if len != Wrap32(Extent(n, blockSize)) then Some(ESP_ERR_INVALID_ARG)
      else None
    }

    /** An operation that is not refused lies inside the cached capacity exactly when the range does
        not run past 2^32 on a drive whose cached count is the largest there is. */
    lemma NotRefusedInside(lba: u32, n: u32, len: nat)
      requires Refusal(lba, n, len).None?
      ensures lba + n <= blockCount <==> !(blockCount == U32 - 1 && lba + n >= U32)
      ensures handle != null && n > 0 && len == Wrap32(Extent(n, blockSize))
    {
    }

    /** The code of every refusal: INVALID_STATE without a handle, and for a range without a cached capacity. */
    lemma WhyRefused(lba: u32, n: u32, len: nat)
      ensures Refusal(lba, n, len).Some? ==>
                Refusal(lba, n, len).value == if handle == null || (n > 0 && !Known()) then 0x103 else 0x102
    {
    }

    /** The range ends inside the cached capacity, and neither its length nor its count is truncated. */
    predicate Whole(lba: u32, n: u32)
      reads this
    {
      n < U16 && lba + n <= blockCount && Extent(n, blockSize) < U32
    }

    /** `bd_read_blocks`, into the first `len` bytes of `out`. */
    method BdReadBlocks(lba: u32, n: u32, out: array<byte>, len: nat) returns (err: EspErr)
      requires Working() && len <= out.Length
      modifies host`cbwTag, host`issued, OpenDrive(), out
      ensures host.issued >= old(host.issued)
      ensures Working()
      ensures old(Refusal(lba, n, len)).Some? ==>
                err == old(Refusal(lba, n, len)).value && unchanged(host) && unchanged(out)
                && (OpenDrive() != null ==> unchanged(OpenDrive()))
      ensures Medium() == old(Medium())
      ensures err == ESP_OK ==> old(Refusal(lba, n, len)).None?
      ensures err == ESP_OK && host.issued < U32 ==>
                && lba + Wrap16(n) <= |Medium()| && Sized(Medium(), Size())
                && out[..len] == ReadRange(Medium(), lba, Wrap16(n), Size())
      ensures old(Refusal(lba, n, len).None? && Obliging(3) && Whole(lba, n)) ==>
                err == ESP_OK && Spent() == old(Spent()).Plus(1, 3)
      ensures old(Refusal(lba, n, len).None? && Failure().Some?) ==> err == old(Failure()).value
    {
      var refusal := Refusal(lba, n, len);
      if refusal.Some? {
        return refusal.value;
      }
      ghost var was := host.Now(handle.drive);
      err := host.ScsiCmdRead10(handle.drive, out, lba, n, blockSize);
      RangeOutcome(handle.drive, ReadCommand(was.NewTag(), lba, n, blockSize), lba, n, blockSize, was,
                   host.Now(handle.drive), err);
    }

    /** `bd_write_blocks`, from the first `len` bytes of `data`. */
    method BdWriteBlocks(lba: u32, n: u32, data: array<byte>, len: nat) returns (err: EspErr)
      requires Working() && len <= data.Length
      modifies host`cbwTag, host`issued, OpenDrive(), data
      ensures host.issued >= old(host.issued)
      ensures Working() && data[..] == old(data[..])
      ensures old(Refusal(lba, n, len)).Some? ==>
                err == old(Refusal(lba, n, len)).value && unchanged(host)
                && (OpenDrive() != null ==> unchanged(OpenDrive()))
      ensures Torn(old(Medium()), Medium(), lba, Wrap16(n), data[..len], Size())
      ensures err == ESP_OK ==> old(Refusal(lba, n, len)).None?
      ensures err == ESP_OK && host.issued < U32 ==>
                && lba + Wrap16(n) <= |Medium()| && len == Extent(Wrap16(n), Size())
                && Medium() == Overwrite(old(Medium()), lba, Wrap16(n), data[..len], Size())
      ensures old(Refusal(lba, n, len).None? && Obliging(3) && Whole(lba, n)) ==>
                err == ESP_OK && Spent() == old(Spent()).Plus(1, 3)
      ensures old(Refusal(lba, n, len).None? && Failure().Some?) ==> err == old(Failure()).value
    {
      var refusal := Refusal(lba, n, len);
      if refusal.Some? {
        return refusal.value;
      }
      ghost var was := host.Now(handle.drive);
      err := host.ScsiCmdWrite10(handle.drive, data, lba, n, blockSize);
      RangeOutcome(handle.drive, WriteCommand(was.NewTag(), lba, n, blockSize), lba, n, blockSize, was,
                   host.Now(handle.drive), err);
    }
  }
}
