/** The mass-storage host driver: Bulk-Only Transport with its error recovery
    (src/usb_mass_storage/usb_host_msc/src/msc_scsi_bot.c) and the list of installed devices
    (src/usb_mass_storage/usb_host_msc/src/msc_host.c). */
module MscHosts {
  import opened Cbw
  import opened Disk
  import opened Drives
  import opened Transports
  import opened Words

  /** The host's record of an installed device. `drive` is its USB handle. */
  class MscDevice {
    var drive: Drive?

    constructor ()
      ensures drive == null
    {
      drive := null;
    }
  }

  class MscHost {
    /** The number that pairs commands and statuses; one counter for all devices. */
    var cbwTag: u32
    var devices: seq<MscDevice>
    /** Commands built since boot. */
    ghost var issued: nat
    /** Whatever lies on the stack behind a command block. */
    const memory: seq<byte>

    ghost predicate Valid()
      reads this
    {
      && (issued < U32 ==> cbwTag == issued)
      && |memory| == 6
    }

    /** No device is on the list twice. */
    ghost predicate ProperList()
      reads this
    {
      Distinct(devices)
    }

    ghost function Now(d: Drive): Snapshot
      reads this, d
    {
      Snapshot(issued, cbwTag, d.pos, d.FaultsLeft(), d.deepest, d.given, d.log, d.trace, d.blocks)
    }

    /** Until the counter wraps, the drive has only executed commands this host has built. */
    ghost predicate Knows(d: Drive)
      reads this, d
    {
      issued < U32 ==> forall i :: 0 <= i < |d.log| ==> d.log[i].tag <= issued
    }

    /** Between commands. */
    ghost predicate Idle(d: Drive)
      reads this, d
    {
      d.Valid() && d.stage == AtRest && Knows(d)
    }

    /** A device on the list has this USB handle. */
    ghost predicate Reaches(d: Drive)
      reads this`devices, devices
    {
      exists dev :: dev in devices && dev.drive == d
    }

    /** The tag of the next command. */
    function NewTag(): u32
      reads this
    {
      Wrap32(cbwTag + 1)
    }

    /** The counter at zero and no device installed. */
    constructor (memory: seq<byte>)
      requires |memory| == 6
      ensures Valid() && ProperList() && issued == 0 && devices == []
    {
      this.memory := memory;
      cbwTag, devices, issued := 0, [], 0;
    }

    method NextTag() returns (tag: u32)
      requires Valid()
      modifies this`cbwTag, this`issued
      ensures Valid() && issued == old(issued) + 1 && tag == cbwTag == old(NewTag())
    {
      cbwTag := NewTag();
      issued := issued + 1;
      tag := cbwTag;
    }

    /** The command has just been built: its tag is the newest one. */
    ghost predicate Newest(c: Cbw, d: Drive)
      reads this, d
    {
      issued < U32 ==> c.tag == issued && forall i :: 0 <= i < |d.log| ==> d.log[i].tag < issued
    }

    // ----- Bulk-Only Transport -----

    /** `bot_execute_command`. */
    method BotExecuteCommand(d: Drive, cbw: Cbw, data: array?<byte>, size: nat, ghost depth: nat) returns (err: EspErr)
      requires Valid() && Reaches(d) && Idle(d) && Newest(cbw, d)
      requires data == null <==> cbw.cdb.TestUnitReady?
      requires data != null ==> cbw.dataLength == size <= data.Length
      modifies this`cbwTag, this`issued, d, data
      ensures Valid() && Idle(d)
      ensures Executed(d, cbw, depth, old(Now(d)), Now(d), err)
      ensures data != null && !cbw.dirIn ==> data[..] == old(data[..])
      ensures data != null ==> Delivered(d, cbw, data[..size], old(Now(d)), Now(d), err)
      decreases d.FaultsLeft(), 1, 0
    {
      err := SendStages(d, cbw, data, size, depth);
      if err == ESP_OK {
        ghost var mid := Now(d);
        var csw;
        err, csw := StatusStage(d, depth);
        ghost var statusErr := err;
        if err == ESP_OK {
          err := CheckCsw(csw, cbw.tag);
        }
        ExecutedSent(d, cbw, depth, old(Now(d)), mid, Now(d), csw, statusErr, err);
        if data != null {
          MovedIsDelivered(d, cbw, data[..size], depth, old(Now(d)), mid, Now(d), csw, statusErr, err);
        }
      } else {
        ExecutedNotSent(d, cbw, depth, old(Now(d)), Now(d), err);
      }
    }

    method SendStages(d: Drive, cbw: Cbw, data: array?<byte>, size: nat, ghost depth: nat) returns (err: EspErr)
      requires Valid() && Reaches(d) && Idle(d)
      requires data == null <==> cbw.cdb.TestUnitReady?
      requires data != null ==> cbw.dataLength == size <= data.Length
      requires issued < U32 ==> cbw.tag <= issued
      modifies d, data
      ensures d.Valid() && Knows(d)
      ensures d.stage == if err == ESP_OK then StatusDue else AtRest
      ensures SendDone(d, cbw, depth, old(Now(d)), Now(d), err)
      ensures data != null && !cbw.dirIn ==> data[..] == old(data[..])
      ensures data != null ==> Moved(d, cbw, data[..size], old(Now(d)), Now(d))
    {
      err := CommandStage(d, cbw, depth);
      ghost var mid := Now(d);
      if err == ESP_OK && data != null {
        err := DataStage(d, cbw, data, size);
        SentWithData(d, cbw, data[..size], depth, old(Now(d)), mid, Now(d), err);
      } else {
        SentAlone(d, cbw, if data == null then [] else data[..size], depth, old(Now(d)), mid, err);
      }
    }

    method CommandStage(d: Drive, cbw: Cbw, ghost depth: nat) returns (err: EspErr)
      requires Valid() && d.Valid() && d.stage == AtRest
      modifies d
      ensures d.Valid()
      ensures d.stage ==
              if err != ESP_OK then AtRest else if cbw.cdb.TestUnitReady? then StatusDue else DataDue
      ensures CommandSent(d, cbw, depth, old(Now(d)), Now(d), err)
      ensures err == ESP_OK && !cbw.cdb.TestUnitReady? ==> d.current == Some(cbw)
    {
      CbwRoundTrip(cbw, memory);
      var o := d.TakeCommand(Encode(cbw, memory), !cbw.cdb.TestUnitReady?, depth);
      err := BulkError(o);
    }

    method DataStage(d: Drive, cbw: Cbw, data: array<byte>, size: nat) returns (err: EspErr)
      requires Valid() && Reaches(d) && d.Valid() && d.stage == DataDue && Knows(d)
      requires d.current == Some(cbw) && cbw.dataLength == size <= data.Length
      requires issued < U32 ==> cbw.tag <= issued
      modifies d, data
      ensures d.Valid() && Knows(d)
      ensures d.stage == if err == ESP_OK then StatusDue else AtRest
      ensures !cbw.dirIn ==> data[..] == old(data[..])
      ensures DataMoved(d, cbw, data[..size], old(Now(d)), Now(d), err)
    {
      if cbw.dirIn {
        err := DataIn(d, cbw, data, size);
      } else {
        var o := d.TakeData(data[..size]);
        err := BulkError(o);
      }
    }

    method DataIn(d: Drive, cbw: Cbw, data: array<byte>, size: nat) returns (err: EspErr)
      requires Valid() && Reaches(d) && d.Valid() && d.stage == DataDue && Knows(d)
      requires d.current == Some(cbw) && cbw.dataLength == size <= data.Length && cbw.dirIn
      requires issued < U32 ==> cbw.tag <= issued
      modifies d, data
      ensures d.Valid() && Knows(d)
      ensures d.stage == if err == ESP_OK then StatusDue else AtRest
      ensures DataMoved(d, cbw, data[..size], old(Now(d)), Now(d), err)
    {
      var o, got := d.GiveData(size);
      if o.Completed? {
        CopyIn(data, got);
        assert |got| == size ==> data[..size] == got;
      }
      err := BulkError(o);
    }

    method StatusStage(d: Drive, ghost depth: nat) returns (err: EspErr, csw: Csw)
      requires Valid() && Reaches(d) && d.Valid() && d.stage == StatusDue && Knows(d)
      modifies this`cbwTag, this`issued, d
      ensures Valid() && Idle(d)
      ensures StatusDone(d, depth, old(Now(d)), Now(d), err, csw)
      decreases d.FaultsLeft(), 0
    {
      var o;
      o, csw := d.GiveStatus();
      err := BulkError(o);
      if o.Stalled? {
        ghost var mid := Now(d);
        err, csw := RetryStatus(d, depth);
        StatusStalled(d, depth, old(Now(d)), mid, Now(d), err, csw);
      }
    }

    /** The status has stalled: it is read once more after clearing the endpoint, and if that fails the
        drive is reset. */
    method RetryStatus(d: Drive, ghost depth: nat) returns (err: EspErr, csw: Csw)
      requires Valid() && Reaches(d) && d.Valid() && d.stage == Halted && Knows(d)
      modifies this`cbwTag, this`issued, d
      ensures Valid() && Idle(d)
      ensures RetryDone(d, depth, old(Now(d)), Now(d), err, csw)
      decreases d.FaultsLeft(), 10
    {
      ghost var was := Now(d);
      csw := Csw(0, 0, 0, 0);
      var c := d.ClearHalt(true);
      if c.Completed? {
        err, csw := ReadAgain(d, depth, was);
      } else {
        err := ControlError(c);
        assert RetryDone(d, depth, was, Now(d), err, csw) by {
          RetryNotCleared(d, depth, was, Now(d), csw);
        }
      }
    }

    /** The second status; `was` is from before the clear. */
    method ReadAgain(d: Drive, ghost depth: nat, ghost was: Snapshot) returns (err: EspErr, csw: Csw)
      requires Valid() && Reaches(d) && d.Valid() && d.stage == RetryDue && Knows(d)
      requires Now(d) == was.(pos := was.pos + 1, trace := was.trace + [ClearIn(true)])
      requires d.behaviour.reply(was.pos).outcome.Completed?
      modifies this`cbwTag, this`issued, d
      ensures Valid() && Idle(d)
      ensures RetryDone(d, depth, was, Now(d), err, csw)
      decreases d.FaultsLeft(), 9
    {
      var o;
      o, csw := d.GiveStatus();
      ghost var mid := Now(d);
      assert mid == was.(pos := was.pos + 2, faults := mid.faults, trace := was.trace + [ClearIn(true)] + [Status(o)]);
      err := BulkError(o);
      if o.Completed? {
        assert RetryDone(d, depth, was, Now(d), err, csw) by {
          RetryRead(d, depth, was, mid, csw);
        }
      } else {
        var ignored := MscHostResetRecovery(d, depth);
        assert RetryDone(d, depth, was, Now(d), err, csw) by {
          RetryRecovered(d, depth, was, mid, Now(d), ignored, csw);
        }
      }
    }

    /** The copy out of the transfer buffer at the end of `msc_bulk_transfer`. */
    method CopyIn(data: array<byte>, got: seq<byte>)
      requires |got| <= data.Length
      modifies data
      ensures data[..] == got + old(data[|got|..])
    {
      forall i | 0 <= i < |got| {
        data[i] := got[i];
      }
    }

    /** `msc_host_reset_recovery`. */
    method MscHostResetRecovery(d: Drive, ghost depth: nat) returns (err: EspErr)
      requires Valid() && Reaches(d)
      requires d.Valid() && d.stage == Lost && Knows(d)
      modifies this`cbwTag, this`issued, d
      ensures Valid() && Idle(d)
      ensures RecoveryDone(d, depth, old(Now(d)), Now(d), err)
      decreases d.FaultsLeft(), 8
    {
      ghost var was := Now(d);
      err := ResetEndpoints(d);
      ghost var mid := Now(d);
      if err == ESP_OK {
        ghost var p, attempts := ProspectOf(d, d.pos, issued, 0), [];
        err, attempts := MscWaitForReadyState(d, WAIT_FOR_READY_TIMEOUT_MS, depth + 1);
        assert RecoveryDone(d, depth, was, Now(d), err) by {
          RecoveryWaited(d, depth, was, mid, Now(d), p, attempts, err);
        }
      } else {
        assert RecoveryDone(d, depth, was, mid, err) by {
          RecoveryRefused(d, depth, was, mid);
        }
      }
    }

    /** The reset, and the two clears, whose results are ignored. */
    method ResetEndpoints(d: Drive) returns (err: EspErr)
      requires Valid() && d.Valid() && d.stage == Lost && Knows(d)
      modifies d
      ensures Idle(d) && err == ControlError(d.behaviour.reply(old(d.pos)).outcome)
      ensures Cleared(d, old(Now(d)), Now(d), err)
    {
      var o := d.MassReset();
      err := ControlError(o);
      if o.Completed? {
        var ignoredIn := d.ClearHalt(true);
        var ignoredOut := d.ClearHalt(false);
        assert d.trace == Recovering(d, old(d.trace), old(d.pos));
      }
    }

    /** One turn of the loop that follows. */
    method TryReady(d: Drive, ghost depth: nat) returns (err: EspErr, retry: bool, ghost a: Attempt)
      requires Valid() && Reaches(d) && Idle(d)
      modifies this`cbwTag, this`issued, d
      ensures Valid() && Idle(d)
      ensures TryDone(d, depth, old(Now(d)), Now(d), err, retry, a)
      decreases d.FaultsLeft(), 5
    {
      ghost var was := Now(d);
      err := ScsiCmdUnitReady(d, depth);
      retry, a := false, Succeeded;
      if err == ESP_OK {
        TrySucceeded(d, depth, was, Now(d));
      } else {
        ghost var mid, ret := Now(d), err;
        var e, key := ScsiCmdSense(d, depth);
        ghost var at := LastIndex(d.given);
        if e != ESP_OK {
          err, a := e, SenseFailed(e);
        } else if !Waitable(key) {
          err, a := ESP_ERR_MSC_INTERNAL, Refused(key, at);
        } else {
          retry, a := true, Retried(key, at);
        }
        TryFailed(d, depth, was, mid, Now(d), ret, e, key, err, a);
      }
    }

    /** `msc_wait_for_ready_state`. */
    method MscWaitForReadyState(d: Drive, timeoutMs: nat, ghost depth: nat, ghost failures: nat := 0)
      returns (err: EspErr, ghost attempts: seq<Attempt>)
      requires Valid() && Reaches(d) && Idle(d)
      modifies this`cbwTag, this`issued, d
      ensures Valid() && Idle(d) && |attempts| <= MaxAttempts(timeoutMs)
      ensures WaitDone(d, ProspectOf(d, old(d.pos), old(issued), failures), depth, old(Now(d)), Now(d), attempts,
                       MaxAttempts(timeoutMs) - |attempts|, err)
      decreases d.FaultsLeft(), 7
    {
      var trials := Max(1, timeoutMs / 100);
      var again := true;
      attempts := [];
      err := ESP_FAIL;
      ghost var was := Now(d);
      ghost var p := ProspectOf(d, d.pos, issued, failures);
      ghost var rest, ahead := p, failures;
      while again
        invariant Valid() && Idle(d)
        invariant |attempts| + trials + (if again then 1 else 0) == MaxAttempts(timeoutMs)
        invariant again ==> Waiting(d, p, rest, depth, was, Now(d), attempts)
        invariant again ==> rest == ProspectOf(d, d.pos, issued, ahead)
        invariant !again ==> WaitDone(d, p, depth, was, Now(d), attempts, trials, err)
        decreases trials, again
      {
        var retry;
        ghost var a;
        ghost var mid := Now(d);
        err, retry, a := TryReady(d, depth);
        ghost var after := if ahead == 0 then 0 else ahead - 1;
        ghost var next := ProspectOf(d, d.pos, issued, after);
        ProspectStep(d, mid, Now(d), err, retry, ahead);
        WaitingNext(d, p, rest, next, depth, was, mid, Now(d), attempts, err, a, trials);
        attempts, rest, ahead := attempts + [a], next, after;
        if !retry || trials == 0 {
          again := false;
        } else {
          trials := trials - 1;
        }
      }
    }

    // ----- SCSI commands -----

    /** `scsi_cmd_sense`; also gives the sense key. */
    method ScsiCmdSense(d: Drive, ghost depth: nat) returns (err: EspErr, key: byte)
      requires Valid() && Reaches(d) && Idle(d)
      modifies this`cbwTag, this`issued, d
      ensures Valid() && Idle(d)
      ensures SenseDone(d, depth, old(Now(d)), Now(d), err, key)
      decreases d.FaultsLeft(), 2
    {
      var response := new byte[SENSE_SIZE](i => 0);
      err := SenseInto(d, response, depth);
      key := response[2];
    }

    method SenseInto(d: Drive, response: array<byte>, ghost depth: nat) returns (err: EspErr)
      requires Valid() && Reaches(d) && Idle(d) && response.Length == SENSE_SIZE
      modifies this`cbwTag, this`issued, d, response
      ensures Valid() && Idle(d)
      ensures SenseDone(d, depth, old(Now(d)), Now(d), err, response[2])
      decreases d.FaultsLeft(), 1, 1
    {
      ghost var was := Now(d);
      var tag := NextTag();
      assert Now(d) == was.Built();
      err := BotExecuteCommand(d, SenseCommand(tag), response, SENSE_SIZE, depth);
      SenseFrom(d, depth, was, Now(d), err, response[2], response[..SENSE_SIZE]);
    }

    /** What every command does about an error: ask the drive for its reason, and report the failure
        of that if it fails. */
    method SenseOnError(d: Drive, ret: EspErr, ghost c: Cbw, ghost depth: nat, ghost was: Snapshot)
      returns (err: EspErr)
      requires Valid() && Reaches(d) && Idle(d)
      requires c.tag == was.NewTag() && Executed(d, c, depth, was.Built(), Now(d), ret)
      modifies this`cbwTag, this`issued, d
      ensures Valid() && Idle(d)
      ensures Reasoned(d, depth, old(Now(d)), Now(d), ret, err)
      ensures Asked(d, c, depth, was, Now(d), err)
      decreases d.FaultsLeft(), 3
    {
      ghost var mid := Now(d);
      err := ret;
      if ret != ESP_OK {
        var e, key := ScsiCmdSense(d, depth);
        if e != ESP_OK {
          err := e;
        }
        ReasonedFrom(d, depth, mid, Now(d), ret, e, key, err);
      }
      AskedFrom(d, c, depth, was, mid, Now(d), ret, err);
    }

    /** `scsi_cmd_unit_ready`. */
    method ScsiCmdUnitReady(d: Drive, ghost depth: nat) returns (err: EspErr)
      requires Valid() && Reaches(d) && Idle(d)
      modifies this`cbwTag, this`issued, d
      ensures Valid() && Idle(d)
      ensures Asked(d, ReadyCommand(old(NewTag())), depth, old(Now(d)), Now(d), err)
      ensures err == ESP_OK ==> JustReady(d)
      decreases d.FaultsLeft(), 4
    {
      ghost var was := Now(d);
      var tag := NextTag();
      assert Now(d) == was.Built();
      var ret := BotExecuteCommand(d, ReadyCommand(tag), null, 0, depth);
      err := SenseOnError(d, ret, ReadyCommand(tag), depth, was);
    }

    /** The last command the drive has executed is the newest one, a TEST UNIT READY. */
    ghost predicate JustReady(d: Drive)
      reads this, d
    {
      Now(d).JustReady()
    }

    /** `scsi_cmd_inquiry`. */
    method ScsiCmdInquiry(d: Drive) returns (err: EspErr)
      requires Valid() && Reaches(d) && Idle(d)
      modifies this`cbwTag, this`issued, d
      ensures Valid() && Idle(d)
      ensures Asked(d, InquiryCommand(old(NewTag())), 0, old(Now(d)), Now(d), err)
    {
      var response := new byte[INQUIRY_SIZE](i => 0);
      ghost var was := Now(d);
      var tag := NextTag();
      assert Now(d) == was.Built();
      var ret := BotExecuteCommand(d, InquiryCommand(tag), response, INQUIRY_SIZE, 0);
      err := SenseOnError(d, ret, InquiryCommand(tag), 0, was);
    }

    /** `scsi_cmd_read_capacity`. The count it reports is the address of the last block. */
    method ScsiCmdReadCapacity(d: Drive) returns (err: EspErr, blockSize: u32, blockCount: u32)
      requires Valid() && Reaches(d) && Idle(d)
      modifies this`cbwTag, this`issued, d
      ensures Valid() && Idle(d)
      ensures Asked(d, CapacityCommand(old(NewTag())), 0, old(Now(d)), Now(d), err)
      ensures err == ESP_OK && issued < U32 ==> blockSize == d.blockSize && blockCount == |d.blocks| - 1
    {
      var response := new byte[CAPACITY_SIZE](i => 0);
      err := FetchCapacity(d, response);
      var answer := response[..];
      blockCount, blockSize := FromBe32(answer[..4]), FromBe32(answer[4..]);
      if err == ESP_OK && issued < U32 {
        CapacityRead(|d.blocks|, d.blockSize, answer);
      }
    }

    method FetchCapacity(d: Drive, response: array<byte>) returns (err: EspErr)
      requires Valid() && Reaches(d) && Idle(d) && response.Length == CAPACITY_SIZE
      modifies this`cbwTag, this`issued, d, response
      ensures Valid() && Idle(d)
      ensures Asked(d, CapacityCommand(old(NewTag())), 0, old(Now(d)), Now(d), err)
      ensures err == ESP_OK && issued < U32 ==> response[..] == CapacityBytes(|d.blocks|, d.blockSize)
    {
      ghost var was := Now(d);
      var tag := NextTag();
      assert Now(d) == was.Built();
      var ret := BotExecuteCommand(d, CapacityCommand(tag), response, CAPACITY_SIZE, 0);
      err := SenseOnError(d, ret, CapacityCommand(tag), 0, was);
      assert response[..CAPACITY_SIZE] == response[..];
    }

    /** `scsi_cmd_read10`. */
    method ScsiCmdRead10(d: Drive, data: array<byte>, address: u32, count: u32, bs: u32) returns (err: EspErr)
      requires Valid() && Reaches(d) && Idle(d)
      requires Wrap32(Extent(count, bs)) <= data.Length
      modifies this`cbwTag, this`issued, d, data
      ensures Valid() && Idle(d)
      ensures Asked(d, ReadCommand(old(NewTag()), address, count, bs), 0, old(Now(d)), Now(d), err)
      ensures err == ESP_OK && issued < U32 ==>
                && address + Wrap16(count) <= |d.blocks|
                && data[..Wrap32(Extent(count, bs))] == ReadRange(d.blocks, address, Wrap16(count), d.blockSize)
    {
      var size := Wrap32(Extent(count, bs));
      ghost var was := Now(d);
      var tag := NextTag();
      assert Now(d) == was.Built();
      var ret := BotExecuteCommand(d, ReadCommand(tag, address, count, bs), data, size, 0);
      ghost var mid := Now(d);
      err := SenseOnError(d, ret, ReadCommand(tag, address, count, bs), 0, was);
      ghost var payload := data[..size];
      assert err == ESP_OK && issued < U32 ==>
          && address + Wrap16(count) <= |d.blocks|
          && payload == ReadRange(d.blocks, address, Wrap16(count), d.blockSize)
      by {
        if err == ESP_OK && issued < U32 {
          ReadDelivered(d, ReadCommand(tag, address, count, bs), payload, was.Built(), mid);
        }
      }
    }

    /** `scsi_cmd_write10`. */
    method ScsiCmdWrite10(d: Drive, data: array<byte>, address: u32, count: u32, bs: u32) returns (err: EspErr)
      requires Valid() && Reaches(d) && Idle(d)
      requires Wrap32(Extent(count, bs)) <= data.Length
      modifies this`cbwTag, this`issued, d, data
      ensures Valid() && Idle(d) && data[..] == old(data[..])
      ensures Asked(d, WriteCommand(old(NewTag()), address, count, bs), 0, old(Now(d)), Now(d), err)
      ensures Torn(old(d.blocks), d.blocks, address, Wrap16(count), data[..Wrap32(Extent(count, bs))], d.blockSize)
      ensures err == ESP_OK && issued < U32 ==>
                && address + Wrap16(count) <= |d.blocks|
                && Wrap32(Extent(count, bs)) == Extent(Wrap16(count), d.blockSize)
                && d.blocks
                == Overwrite(old(d.blocks), address, Wrap16(count), data[..Wrap32(Extent(count, bs))], d.blockSize)
    {
      var size := Wrap32(Extent(count, bs));
      ghost var was := Now(d);
      var tag := NextTag();
      assert Now(d) == was.Built();
      var ret := BotExecuteCommand(d, WriteCommand(tag, address, count, bs), data, size, 0);
      err := SenseOnError(d, ret, WriteCommand(tag, address, count, bs), 0, was);
    }

    // ----- The list of installed devices -----

    /** `find_msc_device`: the first listed device with this USB handle. */
    method FindMscDevice(usb: Drive) returns (found: MscDevice?)
      ensures found != null ==> found in devices && found.drive == usb
      ensures found == null <==> forall dev :: dev in devices ==> dev.drive != usb
    {
      found := null;
      var i := 0;
      while i < |devices| && found == null
        invariant 0 <= i <= |devices|
        invariant found != null ==> found in devices && found.drive == usb
        invariant found == null ==> forall j :: 0 <= j < i ==> devices[j].drive != usb
        decreases |devices| - i, found == null
      {
        if devices[i].drive == usb {
          found := devices[i];
        } else {
          i := i + 1;
        }
      }
    }

    /** `msc_deinit_device`: the device leaves the list first, whatever the USB host library then
        answers to the release, close and free requests. */
    method MscDeinitDevice(dev: MscDevice, installFailed: bool, answers: seq<EspErr>) returns (err: EspErr)
      requires Valid() && ProperList() && dev in devices
      modifies this`devices
      ensures Valid() && ProperList() && devices == Without(old(devices), dev)
      ensures forall d: MscDevice :: d in devices <==> d in old(devices) && d != dev
      ensures err == ESP_OK <==> installFailed || forall i :: 0 <= i < |answers| ==> answers[i] == ESP_OK
    {
      devices := Without(devices, dev);
      WithoutDistinct(old(devices), dev);
      err := ESP_OK;
      if !installFailed {
        var i := 0;
        while i < |answers| && err == ESP_OK
          invariant 0 <= i <= |answers|
          invariant err == ESP_OK <==> forall j :: 0 <= j < i ==> answers[j] == ESP_OK
        {
          err := answers[i];
          i := i + 1;
        }
      }
    }

    /** `msc_host_uninstall_device`. */
    method MscHostUninstallDevice(dev: MscDevice, answers: seq<EspErr>) returns (err: EspErr)
      requires Valid() && ProperList() && dev in devices
      modifies this`devices
      ensures Valid() && ProperList() && devices == Without(old(devices), dev)
      ensures forall d: MscDevice :: d in devices <==> d in old(devices) && d != dev
    {
      err := MscDeinitDevice(dev, false, answers);
    }

    /** `msc_host_install_device`, with the driver installed. `usb` is the device at the address, if there
        is one, `steps` what the USB host library answers. */
    method MscHostInstallDevice(usb: Drive?, steps: InstallSteps, ghost failures: nat := 0)
      returns (ret: EspErr, handle: MscDevice?)
      requires Valid() && ProperList() && (usb != null ==> Idle(usb))
      modifies this`cbwTag, this`issued, this`devices, usb
      ensures Valid() && ProperList() && issued >= old(issued) + if ret == ESP_OK then 3 else 0
      ensures usb != null ==> Idle(usb) && usb.blocks == old(usb.blocks)
      ensures ret == ESP_OK <==> handle != null
      ensures ret == ESP_OK ==> fresh(handle) && handle.drive == usb != null && devices == old(devices) + [handle]
      ensures ret != ESP_OK ==> devices == old(devices)
      ensures steps.Failure(usb != null) != ESP_OK ==> ret == steps.Failure(usb != null) && issued == old(issued)
      ensures steps.Failure(usb != null) == ESP_OK ==>
                usb != null && Started(usb, GreetedProspect(usb, old(Now(usb)), failures), old(Now(usb)), Now(usb), ret)
    {
      handle := null;
      if steps.outOfMemory {
        return ESP_ERR_NO_MEM, null;
      }
      var dev := new MscDevice();
      devices := devices + [dev];
      ret := OpenDevice(dev, usb, steps);
      if ret == ESP_OK {
        ret := StartDevice(usb, failures);
      }
      if ret == ESP_OK {
        handle := dev;
      } else {
        WithoutLast(old(devices), dev);
        var ignored := MscDeinitDevice(dev, true, []);
      }
    }

    method OpenDevice(dev: MscDevice, usb: Drive?, steps: InstallSteps) returns (ret: EspErr)
      requires !steps.outOfMemory
      modifies dev
      ensures ret == steps.Failure(usb != null)
      ensures ret == ESP_OK ==> dev.drive == usb != null
    {
      if !steps.semaphore { return ESP_ERR_NO_MEM; }
      if steps.open != ESP_OK { return steps.open; }
      if usb == null { return ESP_ERR_NOT_FOUND; }
      dev.drive := usb;
      if steps.descriptor != ESP_OK { return steps.descriptor; }
      if steps.config != ESP_OK { return steps.config; }
      if steps.transfer != ESP_OK { return steps.transfer; }
      return steps.claim;
    }

    method StartDevice(d: Drive, ghost failures: nat) returns (ret: EspErr)
      requires Valid() && Reaches(d) && Idle(d)
      modifies this`cbwTag, this`issued, d
      ensures Valid() && Idle(d)
      ensures Started(d, GreetedProspect(d, old(Now(d)), failures), old(Now(d)), Now(d), ret)
    {
      ghost var was := Now(d);
      ghost var p := GreetedProspect(d, was, failures);
      ret := ScsiCmdInquiry(d);
      if ret != ESP_OK {
        NotStarted(d, p, was, Now(d), ret);
        return;
      }
      ghost var mid := Now(d);
      ghost var q := ProspectOf(d, mid.pos, mid.issued, failures);
      SameProspect(d, was, mid, failures);
      ghost var attempts;
      ret, attempts := MscWaitForReadyState(d, WAIT_FOR_READY_TIMEOUT_MS, 0, failures);
      if ret != ESP_OK {
        NeverReady(d, p, q, was, mid, Now(d), attempts, ret);
        return;
      }
      ghost var ready := Now(d);
      var blockSize, blockCount;
      ret, blockSize, blockCount := ScsiCmdReadCapacity(d);
      StartedWhole(d, p, q, was, mid, ready, Now(d), attempts, ret);
    }
  }

  /** What the USB host library and the allocators answer during an install. */
  datatype InstallSteps = InstallSteps(outOfMemory: bool, semaphore: bool, open: EspErr, descriptor: EspErr,
                                       config: EspErr, transfer: EspErr, claim: EspErr)
  {
    /** The first of them that is an error; opening fails if no device is present at the address. */
    function Failure(present: bool): EspErr {
      if outOfMemory || !semaphore then ESP_ERR_NO_MEM
      else if open != ESP_OK then open
      else if !present then ESP_ERR_NOT_FOUND
      else if descriptor != ESP_OK then descriptor
      else if config != ESP_OK then config
      else if transfer != ESP_OK then transfer
      else claim
    }
  }

  /** `STAILQ_REMOVE`. */
  function Without<T(==)>(s: seq<T>, x: T): seq<T> {
    if s == [] then [] else if s[0] == x then s[1..] else [s[0]] + Without(s[1..], x)
  }

  predicate Distinct<T(==)>(s: seq<T>) {
    forall i, j :: 0 <= i < j < |s| ==> s[i] != s[j]
  }

  lemma {:induction false} WithoutDistinct<T>(s: seq<T>, x: T)
    requires Distinct(s)
    ensures forall y :: y in Without(s, x) <==> y in s && y != x
    ensures Distinct(Without(s, x))
  {
    if s != [] {
      assert forall y :: y in s <==> y == s[0] || y in s[1..];
      WithoutDistinct(s[1..], x);
      if s[0] != x {
        var r := Without(s[1..], x);
        assert s[0] !in r;
      }
    }
  }

  lemma {:induction false} WithoutLast<T>(s: seq<T>, x: T)
    requires x !in s
    ensures Without(s + [x], x) == s
  {
    if s != [] {
      assert (s + [x])[1..] == s[1..] + [x];
      WithoutLast(s[1..], x);
    }
  }

  /** The two words of a capacity answer. */
  lemma CapacityRead(blockCount: nat, bs: u32, answer: seq<byte>)
    requires 0 < blockCount <= U32 && answer == CapacityBytes(blockCount, bs)
    ensures FromBe32(answer[..4]) == blockCount - 1 && FromBe32(answer[4..]) == bs
  {
    Be32RoundTrip(blockCount - 1);
    Be32RoundTrip(bs);
    assert answer[..4] == Be32(blockCount - 1) && answer[4..] == Be32(bs);
  }
}
