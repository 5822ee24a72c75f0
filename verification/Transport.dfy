/** Bulk-Only Transport and the SCSI commands over it as relations between snapshots: what a step may do, and what the
    drive's replies make it do (src/usb_mass_storage/usb_host_msc/src/msc_scsi_bot.c and
    src/usb_mass_storage/usb_host_msc/src/msc_host.c). */
module Transports {
  import opened Cbw
  import opened Disk
  import opened Drives
  import opened Words

  const WAIT_FOR_READY_TIMEOUT_MS: nat := 5000
  const MSC_NO_SENSE: byte := 0x00
  const MSC_NOT_READY: byte := 0x02
  const MSC_UNIT_ATTENTION: byte := 0x06

  /** Readiness attempts in one wait, and commands sent by one recovery, at most. */
  function MaxAttempts(timeoutMs: nat): nat {
    Max(1, timeoutMs / 100) + 1
  }

  const RECOVERY_COMMANDS: nat := 153

  function BulkError(o: Outcome): EspErr {
    match o
    case Completed => ESP_OK
    case Stalled => ESP_ERR_MSC_STALL
    case Failed(code) => code
  }

  function ControlError(o: Outcome): EspErr {
    match o
    case Completed => ESP_OK
    case Stalled => ESP_ERR_MSC_INTERNAL
    case Failed(code) => code
  }

  /** How one turn of the readiness loop ended. */
  datatype Attempt = Succeeded | Retried(key: byte, at: nat) | SenseFailed(error: EspErr) | Refused(key: byte, at: nat)

  predicate Waitable(key: byte) {
    key == MSC_NOT_READY || key == MSC_UNIT_ATTENTION || key == MSC_NO_SENSE
  }

  /** The error code that goes with each end of a turn. */
  predicate Ended(a: Attempt, err: EspErr) {
    match a
    case Succeeded => err == ESP_OK
    case Retried(key, _) => Waitable(key) && err != ESP_OK
    case SenseFailed(e) => e != ESP_OK && err == e
    case Refused(key, _) => !Waitable(key) && err == ESP_ERR_MSC_INTERNAL
  }

  /** The sense key of the turn is byte 2 of the sense data that came as number `at`, when `before` data stages
      had been made before the turn. */
  predicate Sensed(a: Attempt, before: nat, given: seq<seq<byte>>) {
    a.Retried? || a.Refused? ==>
      before <= a.at < |given| && |given[a.at]| == SENSE_SIZE && given[a.at][2] == a.key
  }

  /** The data stages that have been made when the first `n` turns, all of them retried, are over. */
  function Heard(attempts: seq<Attempt>, n: nat, start: nat): nat
    requires n <= |attempts|
  {
    if n > 0 && attempts[n - 1].Retried? then attempts[n - 1].at + 1 else start
  }

  /** Each turn has its key from its own request: its sense data came after that of the turn before. */
  ghost predicate AllSensed(attempts: seq<Attempt>, start: nat, given: seq<seq<byte>>) {
    forall i :: 0 <= i < |attempts| ==> Sensed(attempts[i], Heard(attempts, i, start), given)
  }

  lemma SensedNext(attempts: seq<Attempt>, start: nat, given: seq<seq<byte>>, a: Attempt, now: seq<seq<byte>>)
    requires AllSensed(attempts, start, given) && given <= now && start <= |given|
    requires Sensed(a, |given|, now)
    ensures AllSensed(attempts + [a], start, now)
  {
    var all := attempts + [a];
    forall i | 0 <= i < |all| ensures Sensed(all[i], Heard(all, i, start), now) {
      assert i > 0 ==> all[i - 1] == attempts[i - 1] && Sensed(attempts[i - 1], Heard(attempts, i - 1, start), given);
      if i < |attempts| {
        assert Sensed(attempts[i], Heard(attempts, i, start), given);
      }
    }
  }

  // ----- What a call did, seen from outside -----

  /** The commands built so far and the tag of the last, the transfers made, the failed ones still to come, the
      deepest nesting, the data given, the commands executed, the transfers in order, and the medium. */
  datatype Snapshot = Snapshot(issued: nat, tag: u32, pos: nat, faults: nat, deepest: nat, given: seq<seq<byte>>,
                               log: seq<Cbw>, trace: seq<Event>, blocks: seq<Block>)
  {
    /** No tag has been used twice. */
    predicate TagsFresh() {
      issued < U32
    }

    /** The tag of the next command. */
    function NewTag(): u32 {
      Wrap32(tag + 1)
    }

    /** The next command has been built. */
    function Built(): Snapshot {
      this.(issued := issued + 1, tag := NewTag())
    }

    /** The last command the drive has executed is the newest one, a TEST UNIT READY. */
    predicate JustReady() {
      TagsFresh() ==> log != [] && log[|log| - 1] == ReadyCommand(issued)
    }
  }

  /** Until the counter wraps, it is the last tag. */
  predicate Tagged(s: Snapshot) {
    s.TagsFresh() ==> s.tag == s.issued
  }

  lemma NextTagIs(s: Snapshot)
    requires Tagged(s) && s.issued + 1 < U32
    ensures s.NewTag() == s.issued + 1
  {
  }

  /** Between `a` and `b`, beyond `own` commands, at most 153 were built for every two failed
      transfers, and nesting below `depth` went at most one deeper for every two. */
  ghost predicate Ran(a: Snapshot, b: Snapshot, own: nat, depth: nat) {
    && a.issued <= b.issued && b.faults <= a.faults
    && a.given <= b.given && a.log <= b.log && a.trace <= b.trace
    && 2 * (b.issued - a.issued) <= 2 * own + 153 * (a.faults - b.faults)
    && 2 * (b.deepest - Max(a.deepest, depth)) <= a.faults - b.faults
  }

  /** The same after a stall that is not counted. */
  ghost predicate RanAfterStall(a: Snapshot, b: Snapshot, depth: nat) {
    Ran(a.(faults := a.faults + 1), b, 0, depth) && b.faults <= a.faults
  }

  /** The first thing in `after` that is not in `before` is a command wrapper that means this command. */
  predicate Begins(before: seq<Event>, after: seq<Event>, c: Cbw) {
    before < after && after[|before|].CommandOut? && after[|before|].command == Some(c)
  }

  /** A history extended by a command and its data, if it has any, that went through. */
  function Opening(before: seq<Event>, c: Cbw): seq<Event> {
    if c.cdb.TestUnitReady? then before + [CommandOut(false, true, Some(c))]
    else before + [CommandOut(true, true, Some(c))] + [Data(true)]
  }

  /** `after` adds to `before` the status transfers of a command that succeeded. */
  predicate StatusRead(before: seq<Event>, after: seq<Event>) {
    || after == before + [Status(Completed)]
    || after == before + [Status(Stalled)] + [ClearIn(true)] + [Status(Completed)]
  }

  /** `after` adds to `before` all the transfers of a command that succeeded. */
  predicate Clean(before: seq<Event>, after: seq<Event>, c: Cbw) {
    StatusRead(Opening(before, c), after)
  }

  // ----- What the drive's replies say about a command that goes out at transfer `at` -----

  /** The transfers of a command that succeeds without a stall. */
  function Transfers(cdb: Cdb): nat {
    if cdb.TestUnitReady? then 2 else 3
  }

  /** The error of its first stages. */
  ghost function SendError(d: Drive, at: nat, c: Cbw): EspErr {
    var first := d.behaviour.reply(at).outcome;
    if first.Completed? && !c.cdb.TestUnitReady? then BulkError(d.behaviour.reply(at + 1).outcome) else BulkError(first)
  }

  /** The transfers they take. */
  ghost function SendUsed(d: Drive, at: nat, c: Cbw): nat {
    if d.behaviour.reply(at).outcome.Completed? then Transfers(c.cdb) - 1 else 1
  }

  /** The error of its status, read at `at` and after a stall once more, and the wrapper read then. */
  ghost function StatusError(d: Drive, at: nat): EspErr {
    var first := d.behaviour.reply(at).outcome;
    if !first.Stalled? then BulkError(first)
    else if !d.behaviour.reply(at + 1).outcome.Completed? then ControlError(d.behaviour.reply(at + 1).outcome)
    else BulkError(d.behaviour.reply(at + 2).outcome)
  }

  ghost function StatusGiven(d: Drive, at: nat): Csw {
    if d.behaviour.reply(at).outcome.Stalled? then d.behaviour.reply(at + 2).csw else d.behaviour.reply(at).csw
  }

  /** The error it is bound to end with; ESP_OK if all goes through and the status is good and its own. */
  ghost function CommandError(d: Drive, at: nat, c: Cbw): EspErr {
    var status := at + Transfers(c.cdb) - 1;
    if SendError(d, at, c) != ESP_OK then SendError(d, at, c)
    else if StatusError(d, status) != ESP_OK then StatusError(d, status)
    else CheckCsw(StatusGiven(d, status), c.tag)
  }

  /** It fails without a stall of its status, and so without recovery. */
  ghost predicate FailsPlainly(d: Drive, at: nat, c: Cbw) {
    && CommandError(d, at, c) != ESP_OK
    && (SendError(d, at, c) != ESP_OK || !d.behaviour.reply(at + Transfers(c.cdb) - 1).outcome.Stalled?)
  }

  /** The transfers it takes then. */
  ghost function Used(d: Drive, at: nat, c: Cbw): nat {
    SendUsed(d, at, c) + if SendError(d, at, c) == ESP_OK then 1 else 0
  }

  /** A request for sense data with this tag is served from transfer `at` on. */
  ghost predicate Explains(d: Drive, at: nat, tag: nat) {
    d.Helps(at, tag, 3) && d.Supply(at + 1, SENSE_SIZE) == SENSE_SIZE
  }

  /** A try at readiness from transfer `at` on fails without recovery, and both requests for the reason are served:
      it ends before transfer `end`, with this sense key. */
  ghost predicate ExplainedAs(d: Drive, at: nat, tag: nat, end: nat, key: byte) {
    && tag < U32 && FailsPlainly(d, at, ReadyCommand(tag))
    && var asked := at + Used(d, at, ReadyCommand(tag));
       && Explains(d, asked, tag + 1) && Explains(d, asked + 3, tag + 2)
       && end == asked + 6 && key == d.behaviour.reply(asked + 4).data[2]
  }

  /** Where and with which key, if it does. */
  ghost function Explained(d: Drive, at: nat, tag: nat): Option<(nat, byte)> {
    if exists end: nat, key: byte :: ExplainedAs(d, at, tag, end, key)
    then var end: nat, key: byte :| ExplainedAs(d, at, tag, end, key); Some((end, key))
    else None
  }

  /** A TEST UNIT READY that goes through and comes back with a bad status. */
  lemma BadStatusFails(d: Drive, at: nat, tag: u32)
    requires d.behaviour.reply(at).outcome.Completed? && d.behaviour.reply(at + 1).outcome.Completed?
    requires d.behaviour.reply(at + 1).csw == Csw(0x53425355, tag, 0, 1)
    ensures CommandError(d, at, ReadyCommand(tag)) == -1
    ensures FailsPlainly(d, at, ReadyCommand(tag)) && Used(d, at, ReadyCommand(tag)) == 2
  {
  }

  /** Where the drive is ready after `failures` such tries with a key of NO SENSE, NOT READY or UNIT ATTENTION. */
  ghost function ReadyEnd(d: Drive, at: nat, tag: nat, failures: nat): Option<nat>
    decreases failures
  {
    if failures == 0 then if d.Helps(at, tag, 2) then Some(at + 2) else None
    else
      var e := Explained(d, at, tag);
      if e.Some? && (e.value.1 == 0x00 || e.value.1 == 0x02 || e.value.1 == 0x06)
      then ReadyEnd(d, e.value.0, tag + 3, failures - 1) else None
  }

  /** The codes of failed transfers, and of a status that is not good or not the command's own. */
  lemma ErrorCodes(code: FailCode, csw: Csw, tag: u32)
    ensures BulkError(Completed) == ControlError(Completed) == 0
    ensures BulkError(Stalled) == 0x1704 && ControlError(Stalled) == 0x1703
    ensures BulkError(Failed(code)) == ControlError(Failed(code)) == code
    ensures CheckCsw(csw, tag) == if csw == Csw(0x53425355, tag, 0, 0) then 0 else -1
    ensures MaxAttempts(WAIT_FOR_READY_TIMEOUT_MS) == 51
  {
  }

  /** A status that passes the check of the newest command is good, is about that command, and can only be
      had after executing it. */
  lemma StatusIsOwn(before: seq<Cbw>, after: seq<Cbw>, c: Cbw, csw: Csw)
    requires after == before || after == before + [c]
    requires forall i :: 0 <= i < |before| ==> before[i].tag < c.tag
    requires GoodStatus(csw) ==> Logged(after, csw.tag)
    requires CheckCsw(csw, c.tag) == ESP_OK
    ensures GoodStatus(csw) && csw.tag == c.tag && after == before + [c]
  {
  }

  function ReadyCommand(tag: u32): Cbw {
    Cbw(tag, 0, true, TestUnitReady)
  }

  function SenseCommand(tag: u32): Cbw {
    Cbw(tag, SENSE_SIZE, true, RequestSense(SENSE_SIZE))
  }

  function InquiryCommand(tag: u32): Cbw {
    Cbw(tag, INQUIRY_SIZE, true, Inquiry(INQUIRY_SIZE))
  }

  function CapacityCommand(tag: u32): Cbw {
    Cbw(tag, CAPACITY_SIZE, true, ReadCapacity)
  }

  /** The commands for a range of blocks: the transfer length is cut to 32 bits, the block count to 16. */
  function ReadCommand(tag: u32, lba: u32, n: u32, bs: u32): Cbw {
    Cbw(tag, Wrap32(Extent(n, bs)), true, Read10(lba, Wrap16(n)))
  }

  function WriteCommand(tag: u32, lba: u32, n: u32, bs: u32): Cbw {
    Cbw(tag, Wrap32(Extent(n, bs)), false, Write10(lba, Wrap16(n)))
  }

  /** The lengths and arguments of all commands. */
  lemma CommandsAre(tag: u32, lba: u32, n: u32, bs: u32)
    ensures ReadyCommand(tag) == Cbw(tag, 0, true, TestUnitReady)
    ensures SenseCommand(tag) == Cbw(tag, 18, true, RequestSense(18))
    ensures InquiryCommand(tag) == Cbw(tag, 36, true, Inquiry(36))
    ensures CapacityCommand(tag) == Cbw(tag, 8, true, ReadCapacity)
    ensures ReadCommand(tag, lba, n, bs) == Cbw(tag, n * bs % 0x1_0000_0000, true, Read10(lba, n % 0x1_0000))
    ensures WriteCommand(tag, lba, n, bs) == Cbw(tag, n * bs % 0x1_0000_0000, false, Write10(lba, n % 0x1_0000))
  {
    ExtentIs(n, bs);
  }

  // ----- What each step of a command does, between one snapshot and the next -----

  /** The next transfers all help with the command, and the drive can answer it. */
  ghost predicate Serves(d: Drive, a: Snapshot, c: Cbw) {
    && Helpful(d.behaviour.reply(a.pos), c.tag)
    && if c.cdb.TestUnitReady? then d.Helps(a.pos + 1, c.tag, 1) else Carries(d, a.pos + 1, |a.blocks|, c)
  }

  /** From its data stage on, which is transfer `at`. */
  ghost predicate Carries(d: Drive, at: nat, count: nat, c: Cbw) {
    && d.Helps(at, c.tag, 2)
    && (if c.dirIn then HasAnswer(c, d.Supply(at, c.dataLength)) else c.cdb.Write10?)
    && InRange(c, d.blockSize, count, c.dataLength)
  }

  /** INVALID_STATE can only come from a transfer of the drive that fails with it. */
  ghost predicate Blameless(d: Drive, err: EspErr) {
    d.Spares(ESP_ERR_INVALID_STATE) ==> err != ESP_ERR_INVALID_STATE
  }

  /** The command alone. */
  ghost predicate CommandSent(d: Drive, c: Cbw, depth: nat, a: Snapshot, b: Snapshot, err: EspErr) {
    && b == a.(pos := a.pos + 1, faults := b.faults, deepest := Max(a.deepest, depth), log := b.log, trace := b.trace)
    && b.trace == a.trace + [CommandOut(!c.cdb.TestUnitReady?, err == ESP_OK, Some(c))]
    && err == BulkError(d.behaviour.reply(a.pos).outcome) && b.faults <= a.faults
    && (b.log == a.log || (c.cdb.TestUnitReady? && b.log == a.log + [c]))
    && (Helpful(d.behaviour.reply(a.pos), c.tag) && c.cdb.TestUnitReady? ==> b.log == a.log + [c])
    && Blameless(d, err)
  }

  /** Its data stage, with these bytes in the buffer after it. */
  ghost predicate DataMoved(d: Drive, c: Cbw, payload: seq<byte>, a: Snapshot, b: Snapshot, err: EspErr) {
    && b == a.(pos := a.pos + 1, faults := b.faults, given := b.given, log := b.log,
               trace := a.trace + [Data(err == ESP_OK)], blocks := b.blocks)
    && err == BulkError(d.behaviour.reply(a.pos).outcome) && b.faults <= a.faults
    && (c.dirIn ==> b.blocks == a.blocks)
    && (!c.dirIn ==> Contained(c, a.blocks, b.blocks, payload, d.blockSize))
    && (b.log == a.log
        || (b.log == a.log + [c] && CarriedOut(c, a.blocks, b.blocks, payload, d.blockSize)))
    && a.given <= b.given && (c.dirIn && b.log != a.log ==> b.given == a.given + [payload])
    && (Carries(d, a.pos, |a.blocks|, c) ==> err == ESP_OK && b.log != a.log)
    && (Foreign(c) && Carries(d, a.pos, |a.blocks|, c) ==> payload <= d.behaviour.reply(a.pos).data)
    && Blameless(d, err)
  }

  /** The command and its data stage. */
  ghost predicate SendDone(d: Drive, c: Cbw, depth: nat, a: Snapshot, b: Snapshot, err: EspErr) {
    && b.issued == a.issued && b.deepest == Max(a.deepest, depth) && b.faults <= a.faults
    && a.given <= b.given && (b.log == a.log || b.log == a.log + [c])
    && Begins(a.trace, b.trace, c)
    && (err == ESP_OK ==> b.trace == Opening(a.trace, c))
    && (!c.cdb.Write10? ==> b.blocks == a.blocks)
    && err == SendError(d, a.pos, c) && b.pos == a.pos + SendUsed(d, a.pos, c)
    && (Serves(d, a, c) ==> err == ESP_OK && Logged(b.log, c.tag) && Helpful(d.behaviour.reply(b.pos), c.tag))
    && Blameless(d, err)
  }

  /** The wrapper read is the one the drive gave, except that a drive does not report success for a tag it has not
      executed. */
  ghost predicate GivenAs(csw: Csw, given: Csw, log: seq<Cbw>) {
    csw == given || (!Logged(log, given.tag) && csw.status != 0)
  }

  /** The status read at `at` stalls, the clear goes through, the second status fails, and so does not the reset. */
  ghost predicate Recovers(d: Drive, at: nat) {
    && d.behaviour.reply(at).outcome.Stalled? && d.behaviour.reply(at + 1).outcome.Completed?
    && !d.behaviour.reply(at + 2).outcome.Completed? && d.behaviour.reply(at + 3).outcome.Completed?
  }

  /** The status stage, with its recovery. */
  ghost predicate StatusDone(d: Drive, depth: nat, a: Snapshot, b: Snapshot, err: EspErr, csw: Csw) {
    && Ran(a, b, 0, depth) && b.blocks == a.blocks
    && (err == ESP_OK ==> b.issued == a.issued && b.log == a.log && b.given == a.given && StatusRead(a.trace, b.trace))
    && (err == ESP_OK ==> GivenAs(csw, StatusGiven(d, a.pos), a.log) && (GoodStatus(csw) ==> Logged(b.log, csw.tag)))
    && err == StatusError(d, a.pos)
    && (!d.behaviour.reply(a.pos).outcome.Stalled? ==> b.issued == a.issued && b.pos == a.pos + 1)
    && (Recovers(d, a.pos) ==> b.issued > a.issued)
    && Blameless(d, err)
  }

  /** The status after a stall, which is behind us. */
  ghost predicate RetryDone(d: Drive, depth: nat, a: Snapshot, b: Snapshot, err: EspErr, csw: Csw) {
    && RanAfterStall(a, b, depth) && b.blocks == a.blocks
    && (err == ESP_OK ==> b.issued == a.issued && b.log == a.log && b.given == a.given)
    && (err == ESP_OK ==> b.trace == a.trace + [ClearIn(true)] + [Status(Completed)])
    && (err == ESP_OK ==>
          && GivenAs(csw, d.behaviour.reply(a.pos + 1).csw, a.log)
          && (GoodStatus(csw) ==> Logged(b.log, csw.tag)))
    && err == (if d.behaviour.reply(a.pos).outcome.Completed? then BulkError(d.behaviour.reply(a.pos + 1).outcome)
               else ControlError(d.behaviour.reply(a.pos).outcome))
    && (d.behaviour.reply(a.pos).outcome.Completed? && !d.behaviour.reply(a.pos + 1).outcome.Completed?
        && d.behaviour.reply(a.pos + 2).outcome.Completed? ==>
          b.issued > a.issued)
    && Blameless(d, err)
  }

  /** Reset, two clears, and the wait for the drive: an accepted reset is followed by at least one TEST UNIT READY
      after both clears, and a drive that is ready then makes it succeed, with that one command. */
  ghost predicate RecoveryDone(d: Drive, depth: nat, a: Snapshot, b: Snapshot, err: EspErr) {
    && Ran(a, b, RECOVERY_COMMANDS, depth + 1) && b.blocks == a.blocks && (err == ESP_OK ==> b.JustReady())
    && (if d.behaviour.reply(a.pos).outcome.Completed? then
          && b.issued > a.issued
          && Begins(Recovering(d, a.trace, a.pos), b.trace, ReadyCommand(a.NewTag()))
        else
          && err == ControlError(d.behaviour.reply(a.pos).outcome)
          && b.issued == a.issued && b.trace == a.trace + [Reset(false)])
    && (d.behaviour.reply(a.pos).outcome.Completed? && d.Helps(a.pos + 3, a.NewTag(), 2) ==>
          err == ESP_OK && b.issued == a.issued + 1 && b.pos == a.pos + 5)
  }

  /** The reset and the two clears. */
  ghost function Recovering(d: Drive, before: seq<Event>, at: nat): seq<Event> {
    before + [Reset(true)] + [ClearIn(d.behaviour.reply(at + 1).outcome.Completed?)]
    + [ClearOut(d.behaviour.reply(at + 2).outcome.Completed?)]
  }

  /** A whole command: its wrapper goes out first. If it succeeds it was executed once, with a clean sequence of
      transfers and no recovery. */
  ghost predicate ExecutedRan(c: Cbw, depth: nat, a: Snapshot, b: Snapshot, err: EspErr) {
    && Ran(a, b, 0, depth) && Begins(a.trace, b.trace, c) && (!c.cdb.Write10? ==> b.blocks == a.blocks)
    && (err == ESP_OK ==> b.issued == a.issued && Clean(a.trace, b.trace, c))
    && (err == ESP_OK && b.TagsFresh() ==> b.log == a.log + [c])
  }

  /** Its error is the one the replies call for, and a drive that helps makes it succeed. */
  ghost predicate ExecutedAs(d: Drive, c: Cbw, a: Snapshot, b: Snapshot, err: EspErr) {
    && (CommandError(d, a.pos, c) != ESP_OK ==> err == CommandError(d, a.pos, c))
    && (FailsPlainly(d, a.pos, c) ==> b.issued == a.issued && b.pos == a.pos + Used(d, a.pos, c))
    && (SendError(d, a.pos, c) == ESP_OK && Recovers(d, a.pos + Transfers(c.cdb) - 1) ==> b.issued > a.issued)
    && (Serves(d, a, c) ==> err == ESP_OK && b.pos == a.pos + Transfers(c.cdb))
    && Blameless(d, err)
  }

  ghost predicate Executed(d: Drive, c: Cbw, depth: nat, a: Snapshot, b: Snapshot, err: EspErr) {
    ExecutedRan(c, depth, a, b, err) && ExecutedAs(d, c, a, b, err)
  }

  lemma ExecutedNotSent(d: Drive, c: Cbw, depth: nat, a: Snapshot, b: Snapshot, err: EspErr)
    requires SendDone(d, c, depth, a, b, err) && err != ESP_OK
    ensures Executed(d, c, depth, a, b, err)
  {
  }

  lemma ExecutedSent(d: Drive, c: Cbw, depth: nat, a: Snapshot, mid: Snapshot, b: Snapshot,
                     csw: Csw, statusErr: EspErr, err: EspErr)
    requires SendDone(d, c, depth, a, mid, ESP_OK) && StatusDone(d, depth, mid, b, statusErr, csw)
    requires err == if statusErr != ESP_OK then statusErr else CheckCsw(csw, c.tag)
    requires b.TagsFresh() ==> forall i :: 0 <= i < |a.log| ==> a.log[i].tag < c.tag
    ensures Executed(d, c, depth, a, b, err)
  {
    if err == ESP_OK && b.TagsFresh() {
      StatusIsOwn(a.log, b.log, c, csw);
    }
    ExecutedError(d, c, depth, a, mid, b, csw, statusErr, err);
  }

  lemma ExecutedError(d: Drive, c: Cbw, depth: nat, a: Snapshot, mid: Snapshot, b: Snapshot,
                      csw: Csw, statusErr: EspErr, err: EspErr)
    requires SendDone(d, c, depth, a, mid, ESP_OK) && StatusDone(d, depth, mid, b, statusErr, csw)
    requires err == if statusErr != ESP_OK then statusErr else CheckCsw(csw, c.tag)
    ensures ExecutedAs(d, c, a, b, err)
  {
    assert mid.pos == a.pos + Transfers(c.cdb) - 1;
  }

  /** What the data stage moved, if these bytes are in the buffer. */
  ghost predicate Moved(d: Drive, c: Cbw, payload: seq<byte>, a: Snapshot, b: Snapshot) {
    && ((c.dirIn ==> !c.cdb.Write10?) ==> Contained(c, a.blocks, b.blocks, payload, d.blockSize))
    && (b.log != a.log ==> CarriedOut(c, a.blocks, b.blocks, payload, d.blockSize))
    && (c.dirIn && b.log != a.log ==> b.given == a.given + [payload])
    && (Foreign(c) && Serves(d, a, c) ==> payload <= d.behaviour.reply(a.pos + 1).data)
  }

  lemma SentAlone(d: Drive, c: Cbw, payload: seq<byte>, depth: nat, a: Snapshot, b: Snapshot, err: EspErr)
    requires CommandSent(d, c, depth, a, b, err) && (err != ESP_OK || c.cdb.TestUnitReady?)
    ensures SendDone(d, c, depth, a, b, err) && (!c.cdb.TestUnitReady? ==> Moved(d, c, payload, a, b))
  {
    assert b.log == a.log + [c] ==> b.log[|a.log|].tag == c.tag;
  }

  lemma SentWithData(d: Drive, c: Cbw, payload: seq<byte>, depth: nat, a: Snapshot, mid: Snapshot, b: Snapshot,
                     err: EspErr)
    requires CommandSent(d, c, depth, a, mid, ESP_OK) && !c.cdb.TestUnitReady?
    requires DataMoved(d, c, payload, mid, b, err)
    ensures SendDone(d, c, depth, a, b, err) && Moved(d, c, payload, a, b)
  {
    assert b.log == a.log + [c] ==> b.log[|a.log|].tag == c.tag;
  }

  /** And what the whole command comes to for its data: addressed blocks may have changed; success means that it was
      carried out in full. */
  ghost predicate Delivered(d: Drive, c: Cbw, payload: seq<byte>, a: Snapshot, b: Snapshot, err: EspErr) {
    && ((c.dirIn ==> !c.cdb.Write10?) ==> Contained(c, a.blocks, b.blocks, payload, d.blockSize))
    && (err == ESP_OK && b.TagsFresh() ==>
          && CarriedOut(c, a.blocks, b.blocks, payload, d.blockSize)
          && (c.dirIn ==> b.given == a.given + [payload]))
    && (Foreign(c) && Serves(d, a, c) ==> payload <= d.behaviour.reply(a.pos + 1).data)
  }

  lemma MovedIsDelivered(d: Drive, c: Cbw, payload: seq<byte>, depth: nat, a: Snapshot, mid: Snapshot, b: Snapshot,
                         csw: Csw, statusErr: EspErr, err: EspErr)
    requires Moved(d, c, payload, a, mid) && StatusDone(d, depth, mid, b, statusErr, csw)
    requires (err == ESP_OK ==> statusErr == ESP_OK) && ExecutedRan(c, depth, a, b, err)
    ensures Delivered(d, c, payload, a, b, err)
  {
  }

  /** The answer to the command is what the drive makes of it. */
  predicate Foreign(c: Cbw) {
    c.dirIn && (c.cdb.RequestSense? || c.cdb.Inquiry?)
  }

  lemma StatusStalled(d: Drive, depth: nat, a: Snapshot, mid: Snapshot, b: Snapshot, err: EspErr, csw: Csw)
    requires d.behaviour.reply(a.pos).outcome.Stalled? && RetryDone(d, depth, mid, b, err, csw)
    requires mid == a.(pos := a.pos + 1, faults := mid.faults, trace := a.trace + [Status(Stalled)])
    requires mid.faults == a.faults - 1
    ensures StatusDone(d, depth, a, b, err, csw)
  {
  }

  lemma RetryNotCleared(d: Drive, depth: nat, a: Snapshot, b: Snapshot, csw: Csw)
    requires !d.behaviour.reply(a.pos).outcome.Completed? && b.faults == a.faults - 1
    requires b == a.(pos := a.pos + 1, faults := b.faults, trace := a.trace + [ClearIn(false)])
    ensures RetryDone(d, depth, a, b, ControlError(d.behaviour.reply(a.pos).outcome), csw)
  {
  }

  lemma RetryRead(d: Drive, depth: nat, a: Snapshot, b: Snapshot, csw: Csw)
    requires d.behaviour.reply(a.pos).outcome.Completed? && d.behaviour.reply(a.pos + 1).outcome.Completed?
    requires b == a.(pos := a.pos + 2, trace := a.trace + [ClearIn(true)] + [Status(Completed)])
    requires GivenAs(csw, d.behaviour.reply(a.pos + 1).csw, a.log) && (GoodStatus(csw) ==> Logged(a.log, csw.tag))
    ensures RetryDone(d, depth, a, b, ESP_OK, csw)
  {
  }

  /** Only the history has grown: by the reset and both clears, or by the refused reset. */
  ghost predicate Cleared(d: Drive, a: Snapshot, b: Snapshot, err: EspErr) {
    && b.faults <= a.faults
    && if err == ESP_OK then b == a.(pos := a.pos + 3, faults := b.faults, trace := Recovering(d, a.trace, a.pos))
       else b == a.(pos := a.pos + 1, faults := b.faults, trace := a.trace + [Reset(false)])
  }

  lemma RecoveryRefused(d: Drive, depth: nat, a: Snapshot, b: Snapshot)
    requires !d.behaviour.reply(a.pos).outcome.Completed?
    requires Cleared(d, a, b, ControlError(d.behaviour.reply(a.pos).outcome))
    ensures RecoveryDone(d, depth, a, b, ControlError(d.behaviour.reply(a.pos).outcome))
  {
  }

  /** `mid` is after the clear and the second status. */
  lemma RetryRecovered(d: Drive, depth: nat, a: Snapshot, mid: Snapshot, b: Snapshot,
                       ignored: EspErr, csw: Csw)
    requires d.behaviour.reply(a.pos).outcome.Completed? && !d.behaviour.reply(a.pos + 1).outcome.Completed?
    requires RecoveryDone(d, depth, mid, b, ignored)
    requires mid == a.(pos := a.pos + 2, faults := mid.faults,
                       trace := a.trace + [ClearIn(true)] + [Status(d.behaviour.reply(a.pos + 1).outcome)])
    requires mid.faults == a.faults - 1
    ensures RetryDone(d, depth, a, b, BulkError(d.behaviour.reply(a.pos + 1).outcome), csw)
  {
  }

  lemma RecoveryWaited(d: Drive, depth: nat, a: Snapshot, mid: Snapshot, b: Snapshot,
                       p: Prospect, attempts: seq<Attempt>, err: EspErr)
    requires d.behaviour.reply(a.pos).outcome.Completed? && |attempts| <= 51
    requires Cleared(d, a, mid, ESP_OK)
    requires WaitDone(d, p, depth + 1, mid, b, attempts, Left(attempts), err)
    ensures RecoveryDone(d, depth, a, b, err)
  {
  }

  // ----- What a SCSI command does, with what follows its failure -----

  /** A command that fails without recovery, and whose reason the drive gives, fails with its own error. */
  ghost predicate FailsFor(d: Drive, c: Cbw, a: Snapshot, b: Snapshot, err: EspErr) {
    a.issued + 2 < U32 && FailsPlainly(d, a.pos, c) && Explains(d, a.pos + Used(d, a.pos, c), a.issued + 2) ==>
      err == CommandError(d, a.pos, c) && b.issued == a.issued + 2 && b.pos == a.pos + Used(d, a.pos, c) + 3
  }

  /** A whole SCSI command, from the taking of its tag on; after a failure its reason is asked for. */
  ghost predicate AskedRan(c: Cbw, depth: nat, a: Snapshot, b: Snapshot, err: EspErr) {
    && c.tag == a.NewTag() && Ran(a, b, 2, depth) && Begins(a.trace, b.trace, c)
    && (!c.cdb.Write10? ==> b.blocks == a.blocks)
    && (if err == ESP_OK then b.issued == a.issued + 1 else b.issued >= a.issued + 2)
    && (err == ESP_OK && b.TagsFresh() ==> b.log == a.log + [c])
  }

  /** What the replies make of it. */
  ghost predicate AskedAs(d: Drive, c: Cbw, a: Snapshot, b: Snapshot, err: EspErr) {
    && (CommandError(d, a.pos, c) != ESP_OK ==> err != ESP_OK) && FailsFor(d, c, a, b, err)
    && (Serves(d, a, c) ==> err == ESP_OK && b.issued == a.issued + 1 && b.pos == a.pos + Transfers(c.cdb))
    && Blameless(d, err)
  }

  ghost predicate Asked(d: Drive, c: Cbw, depth: nat, a: Snapshot, b: Snapshot, err: EspErr) {
    AskedRan(c, depth, a, b, err) && AskedAs(d, c, a, b, err)
  }

  /** The replies settle the error of this command, and it is not ESP_OK. */
  ghost predicate FailsWith(d: Drive, at: nat, c: Cbw, e: EspErr) {
    CommandError(d, at, c) == e != ESP_OK
  }

  /** They settle it to the end: it fails without recovery, and the drive gives its reason. */
  ghost predicate FailsInTheEnd(d: Drive, c: Cbw, a: Snapshot, e: EspErr) {
    && a.issued + 2 < U32 && FailsPlainly(d, a.pos, c) && FailsWith(d, a.pos, c, e)
    && Explains(d, a.pos + Used(d, a.pos, c), a.issued + 2)
  }

  /** The error that any command with a data stage is bound to end with now, if the replies settle it. */
  ghost function Failing(d: Drive, a: Snapshot): Option<EspErr> {
    var c := CapacityCommand(a.NewTag());
    if exists e :: FailsInTheEnd(d, c, a, e) then var e :| FailsInTheEnd(d, c, a, e); Some(e) else None
  }

  lemma FailingComesTrue(d: Drive, c: Cbw, a: Snapshot, b: Snapshot, err: EspErr)
    requires AskedAs(d, c, a, b, err) && !c.cdb.TestUnitReady? && c.tag == a.NewTag()
    ensures Failing(d, a).Some? ==> err == Failing(d, a).value != ESP_OK
  {
  }

  /** A drive serves a range that lies on its medium, if the command block and the wrapper agree about it. */
  lemma RangeServed(d: Drive, a: Snapshot, lba: u32, n: u32, bs: u32)
    requires d.Helps(a.pos, a.NewTag(), 3) && lba + Wrap16(n) <= |a.blocks|
    requires Wrap32(Extent(n, bs)) == Extent(Wrap16(n), d.blockSize)
    ensures Serves(d, a, ReadCommand(a.NewTag(), lba, n, bs)) && Serves(d, a, WriteCommand(a.NewTag(), lba, n, bs))
  {
  }

  /** REQUEST SENSE, from the taking of its tag on. */
  ghost predicate SenseRan(depth: nat, a: Snapshot, b: Snapshot, err: EspErr, key: byte) {
    && Ran(a, b, 1, depth) && b.issued > a.issued && b.blocks == a.blocks
    && Begins(a.trace, b.trace, SenseCommand(a.NewTag()))
    && (err == ESP_OK && b.TagsFresh() ==>
          && |b.given| == |a.given| + 1 && |b.given[|a.given|]| == SENSE_SIZE && key == b.given[|a.given|][2]
          && b.log == a.log + [SenseCommand(b.issued)])
  }

  ghost predicate SenseAs(d: Drive, a: Snapshot, b: Snapshot, err: EspErr, key: byte) {
    && (Explains(d, a.pos, a.NewTag()) ==>
          && err == ESP_OK && key == d.behaviour.reply(a.pos + 1).data[2]
          && b.issued == a.issued + 1 && b.pos == a.pos + 3)
    && (CommandError(d, a.pos, SenseCommand(a.NewTag())) != ESP_OK ==>
          err == CommandError(d, a.pos, SenseCommand(a.NewTag())))
    && Blameless(d, err)
  }

  ghost predicate SenseDone(d: Drive, depth: nat, a: Snapshot, b: Snapshot, err: EspErr, key: byte) {
    SenseRan(depth, a, b, err, key) && SenseAs(d, a, b, err, key)
  }

  lemma SenseFrom(d: Drive, depth: nat, a: Snapshot, b: Snapshot, err: EspErr, key: byte,
                  data: seq<byte>)
    requires Executed(d, SenseCommand(a.NewTag()), depth, a.Built(), b, err)
    requires Delivered(d, SenseCommand(a.NewTag()), data, a.Built(), b, err)
    requires Tagged(b) && Tagged(a.Built()) && |data| == SENSE_SIZE && key == data[2]
    ensures SenseDone(d, depth, a, b, err, key)
  {
    if Explains(d, a.pos, a.NewTag()) {
      assert Serves(d, a.Built(), SenseCommand(a.NewTag()));
    }
  }

  /** What follows the result `ret` of a command. */
  ghost predicate ReasonedRan(depth: nat, a: Snapshot, b: Snapshot, ret: EspErr, err: EspErr) {
    if ret == ESP_OK then err == ESP_OK && b == a
    else
      && Ran(a, b, 1, depth) && b.issued > a.issued && b.blocks == a.blocks && err != ESP_OK
      && Begins(a.trace, b.trace, SenseCommand(a.NewTag()))
  }

  ghost predicate ReasonedAs(d: Drive, a: Snapshot, b: Snapshot, ret: EspErr, err: EspErr) {
    && (ret != ESP_OK && Explains(d, a.pos, a.NewTag()) ==>
          err == ret && b.issued == a.issued + 1 && b.pos == a.pos + 3)
    && (ret != ESP_OK && CommandError(d, a.pos, SenseCommand(a.NewTag())) != ESP_OK ==>
          err == CommandError(d, a.pos, SenseCommand(a.NewTag())))
    && (Blameless(d, ret) ==> Blameless(d, err))
  }

  ghost predicate Reasoned(d: Drive, depth: nat, a: Snapshot, b: Snapshot, ret: EspErr, err: EspErr) {
    ReasonedRan(depth, a, b, ret, err) && ReasonedAs(d, a, b, ret, err)
  }

  lemma ReasonedFrom(d: Drive, depth: nat, a: Snapshot, b: Snapshot, ret: EspErr, e: EspErr, key: byte, err: EspErr)
    requires ret != ESP_OK && SenseDone(d, depth, a, b, e, key) && err == if e != ESP_OK then e else ret
    ensures Reasoned(d, depth, a, b, ret, err)
  {
  }

  lemma BeginsOn(a: seq<Event>, mid: seq<Event>, b: seq<Event>, c: Cbw)
    requires Begins(a, mid, c) && mid <= b
    ensures Begins(a, b, c)
  {
  }

  lemma AskedRanFrom(c: Cbw, depth: nat, a: Snapshot, mid: Snapshot, b: Snapshot, ret: EspErr, err: EspErr)
    requires ExecutedRan(c, depth, a.Built(), mid, ret) && c.tag == a.NewTag()
    requires ReasonedRan(depth, mid, b, ret, err)
    ensures AskedRan(c, depth, a, b, err)
  {
    BeginsOn(a.trace, mid.trace, b.trace, c);
  }

  lemma AskedAsFrom(d: Drive, c: Cbw, a: Snapshot, mid: Snapshot, b: Snapshot, ret: EspErr, err: EspErr)
    requires ExecutedAs(d, c, a.Built(), mid, ret) && ReasonedAs(d, mid, b, ret, err) && Tagged(mid)
    requires if ret == ESP_OK then err == ESP_OK && b == mid && mid.issued == a.issued + 1 else err != ESP_OK
    ensures AskedAs(d, c, a, b, err)
  {
  }

  lemma AskedFrom(d: Drive, c: Cbw, depth: nat, a: Snapshot, mid: Snapshot, b: Snapshot,
                  ret: EspErr, err: EspErr)
    requires Executed(d, c, depth, a.Built(), mid, ret) && c.tag == a.NewTag()
    requires Reasoned(d, depth, mid, b, ret, err) && Tagged(mid)
    ensures Asked(d, c, depth, a, b, err)
  {
    AskedRanFrom(c, depth, a, mid, b, ret, err);
    AskedAsFrom(d, c, a, mid, b, ret, err);
  }

  // ----- What waiting for the drive does -----

  /** A try from snapshot `a` on whose failure the drive explains is followed by another one if its sense key is
      0x00, 0x02 or 0x06, and is the last one otherwise. */
  ghost predicate Followed(d: Drive, a: Snapshot, b: Snapshot, err: EspErr, retry: bool) {
    var e := Explained(d, a.pos, a.issued + 1);
    a.issued + 3 < U32 && e.Some? ==>
      && b.issued == a.issued + 3 && b.pos == e.value.0
      && (retry <==> e.value.1 == 0x00 || e.value.1 == 0x02 || e.value.1 == 0x06)
      && (!retry ==> err == ESP_ERR_MSC_INTERNAL)
  }

  function LastIndex(given: seq<seq<byte>>): nat {
    if given == [] then 0 else |given| - 1
  }

  /** One try. */
  ghost predicate TryRan(depth: nat, a: Snapshot, b: Snapshot, err: EspErr, retry: bool, t: Attempt) {
    && Ran(a, b, 3, depth) && b.issued > a.issued && b.blocks == a.blocks
    && Ended(t, err) && (retry <==> t.Retried?) && (b.TagsFresh() ==> Sensed(t, |a.given|, b.given))
    && (err == ESP_OK ==> b.JustReady()) && Begins(a.trace, b.trace, ReadyCommand(a.NewTag()))
  }

  ghost predicate TryAs(d: Drive, a: Snapshot, b: Snapshot, err: EspErr, retry: bool) {
    && Followed(d, a, b, err, retry) && Blameless(d, err)
    && (d.Helps(a.pos, a.NewTag(), 2) ==> err == ESP_OK && b.pos == a.pos + 2 && b.issued == a.issued + 1)
  }

  ghost predicate TryDone(d: Drive, depth: nat, a: Snapshot, b: Snapshot, err: EspErr, retry: bool, t: Attempt) {
    TryRan(depth, a, b, err, retry, t) && TryAs(d, a, b, err, retry)
  }

  lemma TrySucceeded(d: Drive, depth: nat, a: Snapshot, b: Snapshot)
    requires Asked(d, ReadyCommand(a.NewTag()), depth, a, b, ESP_OK) && Tagged(b) && Tagged(a)
    ensures TryDone(d, depth, a, b, ESP_OK, false, Succeeded)
  {
    TryServed(d, a, b, ESP_OK);
  }

  lemma TryServed(d: Drive, a: Snapshot, b: Snapshot, err: EspErr)
    requires AskedAs(d, ReadyCommand(a.NewTag()), a, b, err)
    ensures d.Helps(a.pos, a.NewTag(), 2) ==> err == ESP_OK && b.issued == a.issued + 1 && b.pos == a.pos + 2
  {
    if d.Helps(a.pos, a.NewTag(), 2) {
      assert Serves(d, a, ReadyCommand(a.NewTag()));
    }
  }

  /** The end of a try that failed: with `e` if the request for the key failed. */
  predicate TryEnd(key: byte, e: EspErr, ret: EspErr, at: nat, err: EspErr, t: Attempt) {
    if e != ESP_OK then t == SenseFailed(e) && err == e
    else if !Waitable(key) then t == Refused(key, at) && err == ESP_ERR_MSC_INTERNAL
    else t == Retried(key, at) && err == ret
  }

  lemma TryFailed(d: Drive, depth: nat, a: Snapshot, mid: Snapshot, b: Snapshot, ret: EspErr,
                  e: EspErr, key: byte, err: EspErr, t: Attempt)
    requires Asked(d, ReadyCommand(a.NewTag()), depth, a, mid, ret) && ret != ESP_OK && Tagged(a) && Tagged(mid)
    requires SenseDone(d, depth, mid, b, e, key) && TryEnd(key, e, ret, LastIndex(b.given), err, t)
    ensures TryDone(d, depth, a, b, err, t.Retried?, t)
  {
    TryFailedRan(depth, a, mid, b, ret, e, key, err, t);
    TryServed(d, a, mid, ret);
    TryFailedAs(d, a, mid, b, ret, e, key, err, t);
  }

  lemma TryFailedRan(depth: nat, a: Snapshot, mid: Snapshot, b: Snapshot, ret: EspErr,
                     e: EspErr, key: byte, err: EspErr, t: Attempt)
    requires AskedRan(ReadyCommand(a.NewTag()), depth, a, mid, ret) && ret != ESP_OK
    requires SenseRan(depth, mid, b, e, key) && TryEnd(key, e, ret, LastIndex(b.given), err, t)
    ensures TryRan(depth, a, b, err, t.Retried?, t)
  {
    BeginsOn(a.trace, mid.trace, b.trace, ReadyCommand(a.NewTag()));
  }

  lemma TryFailedAs(d: Drive, a: Snapshot, mid: Snapshot, b: Snapshot, ret: EspErr,
                    e: EspErr, key: byte, err: EspErr, t: Attempt)
    requires AskedAs(d, ReadyCommand(a.NewTag()), a, mid, ret) && ret != ESP_OK && Tagged(a) && Tagged(mid)
    requires SenseAs(d, mid, b, e, key) && TryEnd(key, e, ret, LastIndex(b.given), err, t)
    ensures Followed(d, a, b, err, t.Retried?) && Blameless(d, err)
  {
    var x := Explained(d, a.pos, a.issued + 1);
    if a.issued + 3 < U32 && x.Some? {
      BothReasons(d, a, mid, b, ret, e, key, x.value.0, x.value.1);
    }
  }

  lemma BothReasons(d: Drive, a: Snapshot, mid: Snapshot, b: Snapshot, ret: EspErr, e: EspErr, key: byte,
                    end: nat, reason: byte)
    requires AskedAs(d, ReadyCommand(a.NewTag()), a, mid, ret) && ret != ESP_OK && Tagged(a) && Tagged(mid)
    requires SenseAs(d, mid, b, e, key) && a.issued + 3 < U32 && ExplainedAs(d, a.pos, a.issued + 1, end, reason)
    ensures e == ESP_OK && key == reason && b.issued == a.issued + 3 && b.pos == end
  {
    NextTagIs(a);
    var c := ReadyCommand(a.issued + 1);
    assert FailsFor(d, c, a, mid, ret) && FailsPlainly(d, a.pos, c);
    assert mid.issued == a.issued + 2 && mid.pos == a.pos + Used(d, a.pos, c) + 3;
    NextTagIs(mid);
    assert Explains(d, mid.pos, mid.NewTag());
  }

  /** A first try that comes back with a bad status, with a reason that lets the host try again, and a second one that
      the drive helps with. */
  lemma ReadyAtSecondTry(d: Drive, at: nat, issued: nat)
    requires issued + 4 < U32
    requires d.behaviour.reply(at).outcome.Completed? && d.behaviour.reply(at + 1).outcome.Completed?
    requires d.behaviour.reply(at + 1).csw == Csw(0x53425355, issued + 1, 0, 1)
    requires d.Helps(at + 2, issued + 2, 3) && d.Supply(at + 3, 18) == 18
    requires d.Helps(at + 5, issued + 3, 3) && d.Supply(at + 6, 18) == 18
    requires d.behaviour.reply(at + 6).data[2] in {0x00, 0x02, 0x06} && d.Helps(at + 8, issued + 4, 2)
    ensures ProspectOf(d, at, issued, 1) == Prospect(false, Some(at + 10), 1)
  {
    BadStatusFails(d, at, issued + 1);
    var key := d.behaviour.reply(at + 6).data[2];
    assert ExplainedAs(d, at, issued + 1, at + 8, key);
    assert Explained(d, at, issued + 1) == Some((at + 8, key));
    assert ReadyEnd(d, at + 8, issued + 4, 0) == Some(at + 10);
    assert ReadyEnd(d, at, issued + 1, 1) == Some(at + 10);
  }

  /** The tries left in a wait as long as the driver makes it. */
  function Left(attempts: seq<Attempt>): nat {
    var all := MaxAttempts(WAIT_FOR_READY_TIMEOUT_MS);
    if |attempts| < all then all - |attempts| else 0
  }

  /** So many tries, if time was left for `left` more. All of them were retried, except perhaps the last. */
  ghost predicate WaitRan(depth: nat, a: Snapshot, b: Snapshot, attempts: seq<Attempt>, left: nat, err: EspErr) {
    && attempts != [] && Ran(a, b, 3 * |attempts|, depth) && b.issued >= a.issued + |attempts| && b.blocks == a.blocks
    && (forall i :: 0 <= i < |attempts| - 1 ==> attempts[i].Retried? && Waitable(attempts[i].key))
    && (b.TagsFresh() ==> AllSensed(attempts, |a.given|, b.given))
    && Ended(attempts[|attempts| - 1], err) && (attempts[|attempts| - 1].Retried? ==> left == 0)
    && (err == ESP_OK ==> b.JustReady()) && Begins(a.trace, b.trace, ReadyCommand(a.NewTag()))
  }

  /** What the replies say about a wait: whether the first try fails with a key that is none of 0x00, 0x02 and 0x06,
      and where the drive is ready after so many failed tries, if it is. */
  datatype Prospect = Prospect(hopeless: bool, end: Option<nat>, failures: nat)

  ghost function ProspectOf(d: Drive, at: nat, issued: nat, failures: nat): Prospect {
    var e := Explained(d, at, issued + 1);
    Prospect(issued + 3 < U32 && e.Some? && e.value.1 != 0x00 && e.value.1 != 0x02 && e.value.1 != 0x06,
             if issued + 3 * failures + 1 < U32 then ReadyEnd(d, at, issued + 1, failures) else None, failures)
  }

  /** A drive that is ready at once, or after some failed tries with the right keys and before time is up, makes the
      wait succeed then; one that gives another key at first ends it. */
  ghost predicate WaitAs(d: Drive, p: Prospect, a: Snapshot, b: Snapshot, tries: nat, left: nat, err: EspErr) {
    && (d.Helps(a.pos, a.NewTag(), 2) ==> err == ESP_OK && b.pos == a.pos + 2 && b.issued == a.issued + 1)
    && (p.end.Some? && p.failures < tries + left ==>
          && err == ESP_OK && tries == p.failures + 1 && b.issued == a.issued + 3 * p.failures + 1
          && Some(b.pos) == p.end)
    && (p.hopeless ==> err == ESP_ERR_MSC_INTERNAL && tries == 1)
    && Blameless(d, err)
  }

  ghost predicate WaitDone(d: Drive, p: Prospect, depth: nat, a: Snapshot, b: Snapshot, attempts: seq<Attempt>,
                           left: nat, err: EspErr)
  {
    WaitRan(depth, a, b, attempts, left, err) && WaitAs(d, p, a, b, |attempts|, left, err)
  }

  /** So many tries so far, all of them retried. */
  ghost predicate WaitingRan(depth: nat, a: Snapshot, b: Snapshot, attempts: seq<Attempt>) {
    && Ran(a, b, 3 * |attempts|, depth) && b.issued >= a.issued + |attempts| && b.blocks == a.blocks
    && (forall i :: 0 <= i < |attempts| ==> attempts[i].Retried? && Waitable(attempts[i].key))
    && (b.TagsFresh() ==> AllSensed(attempts, |a.given|, b.given))
    && (if attempts == [] then b == a else Begins(a.trace, b.trace, ReadyCommand(a.NewTag())))
  }

  /** `rest` is what the replies say from here on. */
  ghost predicate WaitingAs(d: Drive, p: Prospect, rest: Prospect, a: Snapshot, b: Snapshot, tries: nat) {
    && (tries == 0 ==> b == a && rest == p)
    && (tries > 0 ==> !p.hopeless && !d.Helps(a.pos, a.NewTag(), 2))
    && (p.end.Some? ==>
          && tries <= p.failures && b.issued == a.issued + 3 * tries
          && rest.end == p.end && rest.failures == p.failures - tries)
  }

  ghost predicate Waiting(d: Drive, p: Prospect, rest: Prospect, depth: nat, a: Snapshot, b: Snapshot,
                          attempts: seq<Attempt>)
  {
    WaitingRan(depth, a, b, attempts) && WaitingAs(d, p, rest, a, b, |attempts|)
  }

  /** What one try makes of a prospect `p`, if `q` is what comes after it. */
  predicate StepAs(p: Prospect, q: Prospect, a: Snapshot, b: Snapshot, err: EspErr, retry: bool) {
    && (p.end.Some? ==>
          if p.failures == 0 then err == ESP_OK && b.issued == a.issued + 1 && Some(b.pos) == p.end
          else retry && b.issued == a.issued + 3 && q.end == p.end && q.failures == p.failures - 1)
    && (p.hopeless ==> !retry && err == ESP_ERR_MSC_INTERNAL)
  }

  lemma ProspectStep(d: Drive, a: Snapshot, b: Snapshot, err: EspErr, retry: bool, failures: nat)
    requires TryAs(d, a, b, err, retry) && Tagged(a)
    ensures StepAs(ProspectOf(d, a.pos, a.issued, failures),
                   ProspectOf(d, b.pos, b.issued, if failures == 0 then 0 else failures - 1), a, b, err, retry)
  {
    var left := if failures == 0 then 0 else failures - 1;
    var p, q := ProspectOf(d, a.pos, a.issued, failures), ProspectOf(d, b.pos, b.issued, left);
    if p.end.Some? {
      assert a.issued + 3 * failures + 1 < U32 && p.end == ReadyEnd(d, a.pos, a.issued + 1, failures);
      if failures == 0 {
        ReadyNow(d, a, b, err, retry);
      } else {
        NextTry(d, a, b, err, retry, failures);
        assert q.end == ReadyEnd(d, b.pos, b.issued + 1, left);
      }
    }
    if p.hopeless {
      assert !retry;
      assert err == ESP_ERR_MSC_INTERNAL;
    }
  }

  lemma ReadyNow(d: Drive, a: Snapshot, b: Snapshot, err: EspErr, retry: bool)
    requires TryAs(d, a, b, err, retry) && Tagged(a) && a.issued + 1 < U32
    requires ReadyEnd(d, a.pos, a.issued + 1, 0).Some?
    ensures err == ESP_OK && b.issued == a.issued + 1 && ReadyEnd(d, a.pos, a.issued + 1, 0) == Some(b.pos)
  {
  }

  lemma NextTry(d: Drive, a: Snapshot, b: Snapshot, err: EspErr, retry: bool, failures: nat)
    requires Followed(d, a, b, err, retry) && failures > 0 && a.issued + 3 < U32
    requires ReadyEnd(d, a.pos, a.issued + 1, failures).Some?
    ensures retry && b.issued == a.issued + 3
    ensures ReadyEnd(d, b.pos, b.issued + 1, failures - 1) == ReadyEnd(d, a.pos, a.issued + 1, failures)
  {
    var e := Explained(d, a.pos, a.issued + 1);
    assert ReadyEnd(d, a.pos, a.issued + 1, failures) == ReadyEnd(d, e.value.0, a.issued + 4, failures - 1);
  }

  lemma WaitingNext(d: Drive, p: Prospect, rest: Prospect, next: Prospect, depth: nat, a: Snapshot, mid: Snapshot,
                    b: Snapshot, attempts: seq<Attempt>, err: EspErr, t: Attempt, left: nat)
    requires Waiting(d, p, rest, depth, a, mid, attempts) && StepAs(rest, next, mid, b, err, t.Retried?)
    requires TryDone(d, depth, mid, b, err, t.Retried?, t)
    ensures t.Retried? ==> Waiting(d, p, next, depth, a, b, attempts + [t])
    ensures (t.Retried? ==> left == 0) ==> WaitDone(d, p, depth, a, b, attempts + [t], left, err)
  {
    WaitingRanNext(depth, a, mid, b, attempts, err, t);
  }

  lemma WaitingRanNext(depth: nat, a: Snapshot, mid: Snapshot, b: Snapshot, attempts: seq<Attempt>, err: EspErr,
                       t: Attempt)
    requires WaitingRan(depth, a, mid, attempts) && TryRan(depth, mid, b, err, t.Retried?, t)
    ensures t.Retried? ==> WaitingRan(depth, a, b, attempts + [t])
    ensures WaitRan(depth, a, b, attempts + [t], 0, err)
  {
    if attempts != [] {
      BeginsOn(a.trace, mid.trace, b.trace, ReadyCommand(a.NewTag()));
    }
    if b.TagsFresh() {
      SensedNext(attempts, |a.given|, mid.given, t, b.given);
    }
  }

  // ----- What an install does with the drive -----

  /** The drive helps with the three commands of an install and has its INQUIRY data, with this prospect of being
      ready after INQUIRY, in time. */
  ghost predicate Welcoming(d: Drive, p: Prospect, a: Snapshot) {
    && p.failures <= 50 && a.issued + 3 + 3 * p.failures < U32
    && Greets(d, a) && p.end.Some? && d.Helps(p.end.value, a.issued + 3 + 3 * p.failures, 3)
  }

  /** The prospect after INQUIRY. */
  ghost function GreetedProspect(d: Drive, a: Snapshot, failures: nat): Prospect {
    ProspectOf(d, a.pos + 3, a.issued + 1, failures)
  }

  /** The drive helps with INQUIRY and has its data. */
  ghost predicate Greets(d: Drive, a: Snapshot) {
    a.issued + 1 < U32 && d.Helps(a.pos, a.issued + 1, 3) && d.Supply(a.pos + 1, INQUIRY_SIZE) == INQUIRY_SIZE
  }

  /** INQUIRY, the wait, READ CAPACITY: success means that all three were executed, the last two one after the
      other. */
  ghost predicate StartedRan(a: Snapshot, b: Snapshot, ret: EspErr) {
    && a.issued <= b.issued && b.faults <= a.faults && b.blocks == a.blocks && a.log <= b.log
    && Begins(a.trace, b.trace, InquiryCommand(a.NewTag()))
    && (ret == ESP_OK ==> b.issued >= a.issued + 3)
    && (ret == ESP_OK && b.TagsFresh() ==>
          && |a.log| + 3 <= |b.log| && b.log[|a.log|] == InquiryCommand(a.NewTag())
          && b.log[|b.log| - 2] == ReadyCommand(b.issued - 1) && b.log[|b.log| - 1] == CapacityCommand(b.issued))
  }

  /** A drive that helps makes it succeed, if it is ready in time; an INQUIRY that fails, or a first sense key that
      ends the wait, is the failure of it all. */
  ghost predicate Foretold(d: Drive, p: Prospect, a: Snapshot, ret: EspErr) {
    && FailsAtOnce(d, InquiryCommand(a.NewTag()), a, ret)
    && (Welcoming(d, p, a) ==> ret == ESP_OK)
    && (Greets(d, a) && p.hopeless ==> ret == ESP_ERR_MSC_INTERNAL)
    && Blameless(d, ret)
  }

  ghost predicate StartedAs(d: Drive, p: Prospect, a: Snapshot, b: Snapshot, ret: EspErr) {
    && Foretold(d, p, a, ret)
    && (Welcoming(d, p, a) ==> b.issued == a.issued + 3 + 3 * p.failures && b.pos == p.end.value + 3)
  }

  ghost predicate Started(d: Drive, p: Prospect, a: Snapshot, b: Snapshot, ret: EspErr) {
    StartedRan(a, b, ret) && StartedAs(d, p, a, b, ret)
  }

  ghost predicate FailsAtOnce(d: Drive, c: Cbw, a: Snapshot, err: EspErr) {
    a.issued + 2 < U32 && FailsPlainly(d, a.pos, c) && Explains(d, a.pos + Used(d, a.pos, c), a.issued + 2) ==>
      err == CommandError(d, a.pos, c)
  }

  lemma GreetingServed(d: Drive, a: Snapshot, mid: Snapshot, ret: EspErr)
    requires AskedAs(d, InquiryCommand(a.NewTag()), a, mid, ret) && Tagged(a) && Greets(d, a)
    ensures ret == ESP_OK && mid.issued == a.issued + 1 && mid.pos == a.pos + 3
  {
    assert Serves(d, a, InquiryCommand(a.NewTag()));
  }

  lemma NotStarted(d: Drive, p: Prospect, a: Snapshot, b: Snapshot, ret: EspErr)
    requires Asked(d, InquiryCommand(a.NewTag()), 0, a, b, ret) && ret != ESP_OK && Tagged(a)
    ensures Started(d, p, a, b, ret)
  {
    assert !Greets(d, a) by {
      if Greets(d, a) {
        GreetingServed(d, a, b, ret);
      }
    }
  }

  lemma SameProspect(d: Drive, a: Snapshot, mid: Snapshot, failures: nat)
    requires Asked(d, InquiryCommand(a.NewTag()), 0, a, mid, ESP_OK) && Tagged(a)
    ensures Greets(d, a) ==> ProspectOf(d, mid.pos, mid.issued, failures) == GreetedProspect(d, a, failures)
  {
    if Greets(d, a) {
      GreetingServed(d, a, mid, ESP_OK);
    }
  }

  lemma NeverReady(d: Drive, p: Prospect, q: Prospect, a: Snapshot, mid: Snapshot, b: Snapshot,
                   attempts: seq<Attempt>, ret: EspErr)
    requires Asked(d, InquiryCommand(a.NewTag()), 0, a, mid, ESP_OK) && Tagged(a) && ret != ESP_OK
    requires WaitDone(d, q, 0, mid, b, attempts, Left(attempts), ret) && |attempts| <= 51 && (Greets(d, a) ==> q == p)
    ensures Started(d, p, a, b, ret)
  {
    BeginsOn(a.trace, mid.trace, b.trace, InquiryCommand(a.NewTag()));
    NeverReadyAs(d, p, q, a, mid, b, |attempts|, Left(attempts), ret);
  }

  lemma NeverReadyAs(d: Drive, p: Prospect, q: Prospect, a: Snapshot, mid: Snapshot, b: Snapshot, tries: nat,
                     left: nat, ret: EspErr)
    requires AskedAs(d, InquiryCommand(a.NewTag()), a, mid, ESP_OK) && Tagged(a) && ret != ESP_OK
    requires WaitAs(d, q, mid, b, tries, left, ret) && tries + left == 51 && (Greets(d, a) ==> q == p)
    ensures StartedAs(d, p, a, b, ret)
  {
    if Greets(d, a) {
      GreetingServed(d, a, mid, ESP_OK);
    }
  }

  lemma StartedWhole(d: Drive, p: Prospect, q: Prospect, a: Snapshot, mid: Snapshot, ready: Snapshot, b: Snapshot,
                     attempts: seq<Attempt>, ret: EspErr)
    requires Asked(d, InquiryCommand(a.NewTag()), 0, a, mid, ESP_OK) && Tagged(a) && Tagged(ready) && Tagged(b)
    requires WaitDone(d, q, 0, mid, ready, attempts, Left(attempts), ESP_OK) && |attempts| <= 51
    requires Greets(d, a) ==> q == p
    requires Asked(d, CapacityCommand(ready.NewTag()), 0, ready, b, ret)
    ensures Started(d, p, a, b, ret)
  {
    StartedWholeRan(a, mid, ready, b, attempts, Left(attempts), ret);
    StartedWholeAs(d, p, q, a, mid, ready, b, |attempts|, Left(attempts), ret);
  }

  lemma StartedWholeRan(a: Snapshot, mid: Snapshot, ready: Snapshot, b: Snapshot, attempts: seq<Attempt>, left: nat,
                        ret: EspErr)
    requires AskedRan(InquiryCommand(a.NewTag()), 0, a, mid, ESP_OK)
    requires WaitRan(0, mid, ready, attempts, left, ESP_OK)
    requires AskedRan(CapacityCommand(ready.NewTag()), 0, ready, b, ret) && Tagged(ready) && Tagged(b)
    ensures StartedRan(a, b, ret)
  {
    if ret == ESP_OK && b.TagsFresh() {
      assert b.log == ready.log + [CapacityCommand(b.issued)];
      assert ready.log[|ready.log| - 1] == ReadyCommand(ready.issued);
      assert mid.log == a.log + [InquiryCommand(a.NewTag())] && ready.log[|a.log|] == mid.log[|a.log|];
    }
    BeginsOn(a.trace, mid.trace, b.trace, InquiryCommand(a.NewTag()));
  }

  lemma StartedWholeAs(d: Drive, p: Prospect, q: Prospect, a: Snapshot, mid: Snapshot, ready: Snapshot, b: Snapshot,
                       tries: nat, left: nat, ret: EspErr)
    requires AskedAs(d, InquiryCommand(a.NewTag()), a, mid, ESP_OK) && Tagged(a) && Tagged(ready)
    requires WaitAs(d, q, mid, ready, tries, left, ESP_OK) && tries + left == 51 && (Greets(d, a) ==> q == p)
    requires AskedAs(d, CapacityCommand(ready.NewTag()), ready, b, ret)
    ensures StartedAs(d, p, a, b, ret)
  {
    if Greets(d, a) {
      GreetingServed(d, a, mid, ESP_OK);
      if Welcoming(d, p, a) {
        CapacityServed(d, ready);
      }
    }
  }

  lemma CapacityServed(d: Drive, a: Snapshot)
    requires d.Helps(a.pos, a.NewTag(), 3)
    ensures Serves(d, a, CapacityCommand(a.NewTag()))
  {
  }

  /** A READ(10) that succeeded brought its range. */
  lemma ReadDelivered(d: Drive, c: Cbw, payload: seq<byte>, a: Snapshot, b: Snapshot)
    requires Delivered(d, c, payload, a, b, ESP_OK) && b.TagsFresh() && c.cdb.Read10? && b.blocks == a.blocks
    ensures c.cdb.lba + c.cdb.count <= |b.blocks| && Sized(b.blocks, d.blockSize)
    ensures payload == ReadRange(b.blocks, c.cdb.lba, c.cdb.count, d.blockSize)
  {
  }

  // ----- What a block operation can count on -----

  /** A drive that helps makes READ CAPACITY succeed; replies that settle its error make it fail with that. */
  lemma CapacityOutcome(d: Drive, a: Snapshot, b: Snapshot, err: EspErr)
    requires AskedAs(d, CapacityCommand(a.NewTag()), a, b, err)
    ensures d.Helps(a.pos, a.NewTag(), 3) ==> err == ESP_OK && b.issued == a.issued + 1 && b.pos == a.pos + 3
    ensures Failing(d, a).Some? ==> err == Failing(d, a).value != ESP_OK
  {
    FailingComesTrue(d, CapacityCommand(a.NewTag()), a, b, err);
    if d.Helps(a.pos, a.NewTag(), 3) {
      CapacityServed(d, a);
    }
  }

  lemma ReadyOutcome(d: Drive, a: Snapshot, b: Snapshot, err: EspErr)
    requires AskedAs(d, ReadyCommand(a.NewTag()), a, b, err)
    ensures d.Helps(a.pos, a.NewTag(), 2) ==> err == ESP_OK
    ensures (exists e :: FailsWith(d, a.pos, ReadyCommand(a.NewTag()), e)) ==> err != ESP_OK
  {
    TryServed(d, a, b, err);
  }

  /** The same for a range of blocks, if it lies on the medium and nothing is truncated. */
  lemma RangeOutcome(d: Drive, c: Cbw, lba: u32, n: u32, bs: u32, a: Snapshot, b: Snapshot, err: EspErr)
    requires AskedAs(d, c, a, b, err)
    requires c == ReadCommand(a.NewTag(), lba, n, bs) || c == WriteCommand(a.NewTag(), lba, n, bs)
    ensures d.Helps(a.pos, a.NewTag(), 3) && n < U16 && lba + n <= |a.blocks| && bs == d.blockSize
            && Extent(n, bs) < U32 ==>
              err == ESP_OK && b.issued == a.issued + 1 && b.pos == a.pos + 3
    ensures Failing(d, a).Some? ==> err == Failing(d, a).value != ESP_OK
  {
    FailingComesTrue(d, c, a, b, err);
    if d.Helps(a.pos, a.NewTag(), 3) && n < U16 && lba + n <= |a.blocks| && bs == d.blockSize && Extent(n, bs) < U32 {
      NotCut(n, Extent(n, bs));
      RangeServed(d, a, lba, n, bs);
      AskedServed(d, c, a, b, err);
    }
  }

  lemma NotCut(n: u16, size: u32)
    ensures Wrap16(n) == n && Wrap32(size) == size
  {
  }

  lemma AskedServed(d: Drive, c: Cbw, a: Snapshot, b: Snapshot, err: EspErr)
    requires AskedAs(d, c, a, b, err) && Serves(d, a, c)
    ensures err == ESP_OK && b.issued == a.issued + 1 && b.pos == a.pos + Transfers(c.cdb)
  {
  }
}
