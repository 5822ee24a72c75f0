/** The USB mass-storage drive at the other end of the cable: the environment of the driver.

    What a drive does is settled by an arbitrary oracle, consulted once for each transfer, within
    these limits:
    - only finitely many transfers fail (stall, time out, or are refused by the USB host library);
    - it executes only a command it received whole, at most once, and only if the block range lies
      on its medium and the data length is the one the command implies;
    - the medium changes only in the data stage of a WRITE(10); if that command is not executed,
      each addressed block is left either old or new;
    - it reports success for a tag only after executing a command with that tag. Which tag it
      reports, and when, is otherwise up to the oracle, so stale reports are included. */
module Drives {
  import opened Cbw
  import opened Disk
  import opened Words

  type FailCode = e: EspErr | e != ESP_OK && e != ESP_ERR_MSC_STALL witness ESP_ERR_MSC_INTERNAL

  datatype Outcome = Completed | Stalled | Failed(code: FailCode)

  /** One consultation of the oracle. Each transfer uses the parts it needs. */
  datatype Reply = Reply(outcome: Outcome, obeys: bool, kept: set<nat>, data: seq<byte>, csw: Csw)

  /** The transfer goes through, the command is obeyed, and the status is good and carries this tag. */
  predicate Helpful(r: Reply, tag: nat) {
    r.outcome.Completed? && r.obeys && GoodStatus(r.csw) && r.csw.tag == tag
  }

  datatype Behaviour = Behaviour(reply: nat -> Reply, horizon: nat)

  /** A behaviour without failed transfers from the horizon on. */
  type Oracle = b: Behaviour | forall i: nat :: i >= b.horizon ==> b.reply(i).outcome.Completed?
    witness Behaviour(i => Reply(Completed, false, {}, [], Csw(0, 0, 0, 0)), 0)

  ghost function Faults(b: Behaviour, pos: nat): nat
    decreases b.horizon - pos
  {
    if pos >= b.horizon then 0 else (if b.reply(pos).outcome.Completed? then 0 else 1) + Faults(b, pos + 1)
  }

  // ----- The transfers on the wire, and the order Bulk-Only Transport allows -----

  datatype Event =
    | CommandOut(hasData: bool, sent: bool, command: Option<Cbw>)
    | Data(done: bool)
    | Status(outcome: Outcome)
    | ClearIn(cleared: bool)
    | ClearOut(cleared: bool)
    | Reset(accepted: bool)

  datatype Stage = AtRest | DataDue | StatusDue | Halted | RetryDue | Lost | WasReset | InCleared | Broken

  function Advance(s: Stage, e: Event): Stage {
    match (s, e)
    case (AtRest, CommandOut(hasData, sent, _)) => if !sent then AtRest else if hasData then DataDue else StatusDue
    case (DataDue, Data(done)) => if done then StatusDue else AtRest
    case (StatusDue, Status(o)) => if o.Stalled? then Halted else AtRest
    case (Halted, ClearIn(cleared)) => if cleared then RetryDue else AtRest
    case (RetryDue, Status(o)) => if o.Completed? then AtRest else Lost
    case (Lost, Reset(accepted)) => if accepted then WasReset else AtRest
    case (WasReset, ClearIn(_)) => InCleared
    case (InCleared, ClearOut(_)) => AtRest
    case _ => Broken
  }

  function StageAfter(trace: seq<Event>): Stage {
    if trace == [] then AtRest else Advance(StageAfter(trace[..|trace| - 1]), trace[|trace| - 1])
  }

  // ----- The drive -----

  predicate InRange(c: Cbw, bs: nat, blockCount: nat, size: nat) {
    match c.cdb
    case Read10(lba, n) => c.dirIn && c.dataLength == size == Extent(n, bs) && lba + n <= blockCount
    case Write10(lba, n) => !c.dirIn && c.dataLength == size == Extent(n, bs) && lba + n <= blockCount
    case ReadCapacity => c.dirIn && c.dataLength == size == CAPACITY_SIZE
    case RequestSense(alloc) => c.dirIn && c.dataLength == size == alloc
    case Inquiry(alloc) => c.dirIn && c.dataLength == size == alloc
    case TestUnitReady => c.dataLength == size == 0
  }

  /** The drive has the whole answer to the command: its own for reads and capacity, `supplied` bytes
      of the oracle's otherwise. */
  predicate HasAnswer(c: Cbw, supplied: nat) {
    c.cdb.Read10? || c.cdb.ReadCapacity? || (!c.cdb.Write10? && c.dataLength == supplied)
  }

  /** READ CAPACITY(10) reports the address of the last block, not the number of blocks (section 5.15
      of SBC-3). */
  function CapacityBytes(blockCount: nat, bs: u32): (d: seq<byte>)
    requires 0 < blockCount <= U32
    ensures |d| == CAPACITY_SIZE
  {
    Be32(blockCount - 1) + Be32(bs)
  }

  /** The command was carried out in full: the medium and the bytes transferred agree with it. */
  ghost predicate CarriedOut(c: Cbw, before: seq<Block>, after: seq<Block>, payload: seq<byte>, bs: u32) {
    && bs > 0 && 0 < |after| <= U32 && Sized(after, bs)
    && InRange(c, bs, |after|, |payload|)
    && (c.cdb.Write10? ==> after == Overwrite(before, c.cdb.lba, c.cdb.count, payload, bs))
    && (c.cdb.Read10? ==> payload == ReadRange(after, c.cdb.lba, c.cdb.count, bs))
    && (c.cdb.ReadCapacity? ==> payload == CapacityBytes(|after|, bs))
  }

  /** The command did no harm outside the blocks it addresses. */
  ghost predicate Contained(c: Cbw, before: seq<Block>, after: seq<Block>, payload: seq<byte>, bs: u32) {
    if c.cdb.Write10? then Torn(before, after, c.cdb.lba, c.cdb.count, payload, bs) else after == before
  }

  ghost predicate Logged(log: seq<Cbw>, tag: u32) {
    exists i :: 0 <= i < |log| && log[i].tag == tag
  }

  class Drive {
    const blockSize: u32
    const behaviour: Oracle

    var pos: nat
    var blocks: seq<Block>
    var current: Option<Cbw>
    var log: seq<Cbw>
    /** The data of every data stage towards the host that went through. */
    ghost var given: seq<seq<byte>>
    ghost var trace: seq<Event>
    /** Where the trace has got to. */
    ghost var stage: Stage
    /** The deepest nesting of commands so far. */
    ghost var deepest: nat

    ghost predicate Valid()
      reads this
    {
      && blockSize > 0
      && 0 < |blocks| <= U32
      && Sized(blocks, blockSize)
      && stage == StageAfter(trace)
    }

    ghost function FaultsLeft(): nat
      reads this
    {
      Faults(behaviour, pos)
    }

    /** The transfers from number `at` on all help with the command that carries this tag. */
    ghost predicate Helps(at: nat, tag: nat, transfers: nat) {
      forall i :: at <= i < at + transfers ==> Helpful(behaviour.reply(i), tag)
    }

    /** The next transfers do. */
    ghost predicate Willing(tag: nat, transfers: nat)
      reads this
    {
      Helps(pos, tag, transfers)
    }

    /** The bytes that transfer `at` brings if it is a data stage of this size towards the host. */
    function Supply(at: nat, size: nat): nat {
      Min(|behaviour.reply(at).data|, size)
    }

    /** No transfer fails with this code. */
    ghost predicate Spares(code: FailCode) {
      forall i: nat :: behaviour.reply(i).outcome != Failed(code)
    }

    constructor (blockSize: u32, blocks: seq<Block>, behaviour: Oracle)
      requires blockSize > 0 && 0 < |blocks| <= U32 && Sized(blocks, blockSize)
      ensures Valid() && this.blocks == blocks && this.blockSize == blockSize
      ensures log == [] && trace == [] && stage == AtRest
    {
      this.blockSize, this.blocks, this.behaviour := blockSize, blocks, behaviour;
      pos, current, log, given, trace, stage, deepest := 0, None, [], [], [], AtRest, 0;
    }

    method Consult() returns (r: Reply)
      modifies this`pos
      ensures FaultsLeft() == old(FaultsLeft()) - (if r.outcome.Completed? then 0 else 1)
      ensures r == behaviour.reply(old(pos)) && pos == old(pos) + 1
    {
      r := behaviour.reply(pos);
      pos := pos + 1;
    }

    ghost method Record(e: Event)
      requires stage == StageAfter(trace)
      modifies this`trace, this`stage
      ensures trace == old(trace) + [e]
      ensures stage == StageAfter(trace) == Advance(old(stage), e)
    {
      trace, stage := trace + [e], Advance(stage, e);
      assert trace[..|trace| - 1] == old(trace);
    }

    /** A bulk-OUT transfer carrying a command wrapper. */
    method TakeCommand(bytes: seq<byte>, ghost hasData: bool, ghost depth: nat) returns (o: Outcome)
      requires Valid() && stage == AtRest
      modifies this
      ensures Valid() && blocks == old(blocks) && given == old(given)
      ensures o == behaviour.reply(old(pos)).outcome && pos == old(pos) + 1
      ensures trace == old(trace) + [CommandOut(hasData, o.Completed?, Decode(bytes))]
      ensures stage == if !o.Completed? then AtRest else if hasData then DataDue else StatusDue
      ensures deepest == Max(old(deepest), depth)
      ensures FaultsLeft() == old(FaultsLeft()) - (if o.Completed? then 0 else 1)
      ensures o.Completed? && Decode(bytes).Some? && !Decode(bytes).value.cdb.TestUnitReady? ==>
                current == Decode(bytes)
      ensures log == old(log)
           || (Decode(bytes).Some? && Decode(bytes).value.cdb.TestUnitReady? && log == old(log) + [Decode(bytes).value])
      ensures Decode(bytes).Some? && Decode(bytes).value.cdb.TestUnitReady?
              && o.Completed? && behaviour.reply(old(pos)).obeys ==>
                log != old(log)
    {
      var r := Consult();
      o := r.outcome;
      current := None;
      if o.Completed? {
        current := Decode(bytes);
        if current.Some? && r.obeys && current.value.cdb.TestUnitReady? {
          log := log + [current.value];
          current := None;
        }
      }
      deepest := Max(deepest, depth);
      Record(CommandOut(hasData, o.Completed?, Decode(bytes)));
    }

    /** A whole data stage has arrived, or part of one. */
    method Write(c: Cbw, data: seq<byte>, whole: bool, kept: set<nat>)
      requires blockSize > 0 && 0 < |blocks| <= U32 && Sized(blocks, blockSize)
      requires c.cdb.Write10? && InRange(c, blockSize, |blocks|, |data|)
      modifies this`blocks, this`log
      ensures |blocks| == old(|blocks|) && Sized(blocks, blockSize)
      ensures Contained(c, old(blocks), blocks, data, blockSize)
      ensures whole ==> log == old(log) + [c] && CarriedOut(c, old(blocks), blocks, data, blockSize)
      ensures !whole ==> log == old(log)
    {
      if whole {
        blocks := Overwrite(blocks, c.cdb.lba, c.cdb.count, data, blockSize);
        log := log + [c];
      } else {
        blocks := Tear(blocks, c.cdb.lba, c.cdb.count, data, blockSize, kept);
      }
    }

    /** The current command is a WRITE(10) for this much data. */
    ghost predicate Wanted(data: seq<byte>)
      reads this
    {
      current.Some? && current.value.cdb.Write10? && InRange(current.value, blockSize, |blocks|, |data|)
    }

    /** The current command can be answered with this much data. */
    ghost predicate Answerable(size: nat)
      reads this
    {
      && current.Some? && HasAnswer(current.value, Supply(pos, size))
      && InRange(current.value, blockSize, |blocks|, size)
    }

    /** A bulk-OUT transfer carrying data. */
    method TakeData(data: seq<byte>) returns (o: Outcome)
      requires Valid() && stage == DataDue
      modifies this
      ensures Valid() && deepest == old(deepest) && given == old(given)
      ensures o == behaviour.reply(old(pos)).outcome && pos == old(pos) + 1
      ensures trace == old(trace) + [Data(o.Completed?)]
      ensures stage == if o.Completed? then StatusDue else AtRest
      ensures FaultsLeft() == old(FaultsLeft()) - (if o.Completed? then 0 else 1)
      ensures log == old(log) || (old(current).Some? && log == old(log) + [old(current).value] && o.Completed?)
      ensures log != old(log) ==> CarriedOut(old(current).value, old(blocks), blocks, data, blockSize)
      ensures blocks == old(blocks)
           || (old(current).Some? && Contained(old(current).value, old(blocks), blocks, data, blockSize))
      ensures o.Completed? && behaviour.reply(old(pos)).obeys && old(Wanted(data)) ==> log != old(log)
    {
      var r := Consult();
      o := r.outcome;
      if current.Some? && current.value.cdb.Write10? && InRange(current.value, blockSize, |blocks|, |data|) {
        Write(current.value, data, o.Completed? && r.obeys, r.kept);
      }
      current := None;
      Record(Data(o.Completed?));
    }

    /** A bulk-IN transfer of data: at most `size` bytes come back. */
    method GiveData(size: nat) returns (o: Outcome, bytes: seq<byte>)
      requires Valid() && stage == DataDue
      modifies this
      ensures Valid() && deepest == old(deepest) && blocks == old(blocks) && |bytes| <= size
      ensures o == behaviour.reply(old(pos)).outcome && pos == old(pos) + 1
      ensures given == old(given) + (if o.Completed? then [bytes] else [])
      ensures trace == old(trace) + [Data(o.Completed?)]
      ensures stage == if o.Completed? then StatusDue else AtRest
      ensures FaultsLeft() == old(FaultsLeft()) - (if o.Completed? then 0 else 1)
      ensures log == old(log) || (old(current).Some? && log == old(log) + [old(current).value] && o.Completed?)
      ensures log != old(log) ==> CarriedOut(old(current).value, old(blocks), blocks, bytes, blockSize)
      ensures o.Completed?
              && !(old(current).Some? && (old(current).value.cdb.Read10? || old(current).value.cdb.ReadCapacity?)) ==>
                bytes == behaviour.reply(old(pos)).data[..old(Supply(pos, size))]
      ensures o.Completed? && behaviour.reply(old(pos)).obeys && old(Answerable(size)) ==> log != old(log)
    {
      var r := Consult();
      o := r.outcome;
      bytes := [];
      if o.Completed? {
        bytes := r.data[..Min(|r.data|, size)];
        if current.Some? && r.obeys
           && HasAnswer(current.value, |bytes|) && InRange(current.value, blockSize, |blocks|, size) {
          if current.value.cdb.Read10? {
            bytes := ReadRange(blocks, current.value.cdb.lba, current.value.cdb.count, blockSize);
          } else if current.value.cdb.ReadCapacity? {
            bytes := CapacityBytes(|blocks|, blockSize);
          }
          log := log + [current.value];
        }
        given := given + [bytes];
      }
      current := None;
      Record(Data(o.Completed?));
    }

    /** A bulk-IN transfer of a status wrapper. */
    method GiveStatus() returns (o: Outcome, csw: Csw)
      requires Valid() && (stage == StatusDue || stage == RetryDue)
      modifies this`pos, this`trace, this`stage
      ensures Valid()
      ensures trace == old(trace) + [Status(o)]
      ensures old(stage) == StatusDue ==> stage == if o.Stalled? then Halted else AtRest
      ensures old(stage) == RetryDue ==> stage == if o.Completed? then AtRest else Lost
      ensures FaultsLeft() == old(FaultsLeft()) - (if o.Completed? then 0 else 1)
      ensures o == behaviour.reply(old(pos)).outcome && pos == old(pos) + 1
      ensures o.Completed? && GoodStatus(csw) ==> Logged(log, csw.tag)
      ensures var r := behaviour.reply(old(pos)).csw;
              csw == r || (GoodStatus(r) && !Logged(log, r.tag) && csw == r.(status := 1))
    {
      var r := Consult();
      o, csw := r.outcome, r.csw;
      if GoodStatus(csw) && !(exists i :: 0 <= i < |log| && log[i].tag == csw.tag) {
        csw := csw.(status := 1);
      }
      Record(Status(o));
    }

    /** The steps of `clear_feature` on one bulk endpoint, as one attempt. */
    method ClearHalt(inward: bool) returns (o: Outcome)
      requires Valid() && (if inward then stage == Halted || stage == WasReset else stage == InCleared)
      modifies this`pos, this`trace, this`stage
      ensures Valid()
      ensures trace == old(trace) + [if inward then ClearIn(o.Completed?) else ClearOut(o.Completed?)]
      ensures o == behaviour.reply(old(pos)).outcome && pos == old(pos) + 1
      ensures old(stage) == Halted ==> stage == if o.Completed? then RetryDue else AtRest
      ensures old(stage) == WasReset ==> stage == InCleared
      ensures old(stage) == InCleared ==> stage == AtRest
      ensures FaultsLeft() == old(FaultsLeft()) - (if o.Completed? then 0 else 1)
    {
      var r := Consult();
      o := r.outcome;
      Record(if inward then ClearIn(o.Completed?) else ClearOut(o.Completed?));
    }

    /** The Bulk-Only Mass Storage Reset request. */
    method MassReset() returns (o: Outcome)
      requires Valid() && stage == Lost
      modifies this`pos, this`trace, this`stage
      ensures Valid()
      ensures o == behaviour.reply(old(pos)).outcome && pos == old(pos) + 1
      ensures trace == old(trace) + [Reset(o.Completed?)]
      ensures stage == if o.Completed? then WasReset else AtRest
      ensures FaultsLeft() == old(FaultsLeft()) - (if o.Completed? then 0 else 1)
    {
      var r := Consult();
      o := r.outcome;
      Record(Reset(o.Completed?));
    }
  }
}
