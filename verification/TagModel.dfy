/**
 The tag and the transport as steps (src/type2/mod.rs). A transmission takes the next outcome of a schedule, so
 every behaviour of the environment is a schedule; when the schedule is used up the tag answers faultlessly.
 What is assumed of the environment:
 - a block WRITE is atomic: it is applied as a whole or not at all;
 - an ACK to WRITE means the block was written; silence after packet 2 means the sector was selected;
 - a NACK or a short answer to READ or WRITE does not change the active sector;
 - after a transport error the command may or may not have been applied and the tag may or may not be back in sector 0;
 - a READ near the end of a sector returns unspecified bytes for the blocks past that end.
 */
module TagModel {
  import opened Basics
  import opened Memory
  import opened UsableBytes

  const CMD_READ: byte := 0x30
  const CMD_WRITE: byte := 0xA2
  const CMD_SECTOR_SELECT: byte := 0xC2
  const ACK: byte := 0x0A

  datatype Command =
    | Read(block: byte)
    | Write(block: byte, data: seq<byte>)
    | SectorSelectPart1
    | SectorSelectPart2(sector: byte)
  {
    predicate Valid() {
      Write? ==> |data| == 4
    }

    function ToBytes(): seq<byte> {
      match this
      case Read(block) => [CMD_READ, block]
      case Write(block, data) => [CMD_WRITE, block] + data
      case SectorSelectPart1 => [CMD_SECTOR_SELECT, 0xFF]
      case SectorSelectPart2(sector) => [sector, 0x00, 0x00, 0x00]
    }
  }

  /** How the tag reads a frame while it is not waiting for packet 2. */
  function DecodeCommand(frame: seq<byte>): Result<Command, Type2Error> {
    if frame == [] then
      Err(InvalidLength)
    else if frame[0] == CMD_READ then
      if |frame| < 2 then Err(InvalidLength) else Ok(Read(frame[1]))
    else if frame[0] == CMD_WRITE then
      if |frame| < 6 then Err(InvalidLength) else Ok(Write(frame[1], frame[2..6]))
    else if frame[0] == CMD_SECTOR_SELECT then
      if |frame| < 2 || frame[1] != 0xFF then Err(InvalidLength) else Ok(SectorSelectPart1)
    else
      Err(UnknownCommand(frame[0]))
  }

  /** Frames are read back as the command that was sent; packet 2 has no code and needs the tag's phase. */
  lemma CommandRoundTrip(c: Command)
    requires c.Valid() && !c.SectorSelectPart2?
    ensures DecodeCommand(c.ToBytes()) == Ok(c)
  {
    if c.Write? {
      assert c.ToBytes()[2..6] == c.data;
    }
  }

  /** The frames on the wire. */
  lemma FrameBytes(block: byte, data: seq<byte>, sector: byte)
    requires |data| == 4
    ensures Read(block).ToBytes() == [0x30, block]
    ensures Write(block, data).ToBytes() == [0xA2, block, data[0], data[1], data[2], data[3]]
    ensures SectorSelectPart1.ToBytes() == [0xC2, 0xFF]
    ensures SectorSelectPart2(sector).ToBytes() == [sector, 0x00, 0x00, 0x00]
  {
  }

  datatype Answer = Data(data: seq<byte>) | Acked | Nacked(code: byte) | PassiveAck

  predicate IsAck(raw: seq<byte>) {
    raw != [] && raw[0] % 16 == ACK
  }

  /** The tag's answer says that the command was carried out. */
  predicate Answered(c: Command, raw: seq<byte>) {
    if c.Read? then |raw| == 16 else IsAck(raw)
  }

  function ParseAnswer(c: Command, raw: seq<byte>): (r: Result<Answer, Type2Error>)
    ensures c.Read? ==> (r.Ok? <==> |raw| >= 16) && (r.Ok? ==> r.value == Data(raw[..16]))
    ensures (c.Write? || c.SectorSelectPart1?) ==>
      (r == Ok(Acked) <==> raw != [] && raw[0] % 16 == 0x0A) && (r.Err? <==> raw == [])
    ensures c.SectorSelectPart2? ==> (r == Ok(PassiveAck) <==> raw == []) && r.Ok?
    ensures r.Ok? && r.value.Nacked? ==> raw != [] && r.value == Nacked(raw[0] % 16)
    ensures r.Err? ==> r.error == InvalidLength
  {
    match c
    case Read(_) => if |raw| < 16 then Err(InvalidLength) else Ok(Data(raw[..16]))
    case SectorSelectPart2(_) => if raw == [] then Ok(PassiveAck) else Ok(Nacked(raw[0] % 16))
    case _ =>
      if raw == [] then Err(InvalidLength)
      else if raw[0] % 16 == ACK then Ok(Acked)
      else Ok(Nacked(raw[0] % 16))
  }

  /** What happens to one transmission. */
  datatype Outcome =
    | Deliver(filler: seq<byte>)                        // done and answered; `filler` stands for bytes past a sector's end
    | Refuse(raw: seq<byte>, applied: bool)             // a NACK or a short answer
    | Lost(code: nat, applied: bool, reset: bool)       // a transport error

  /** The outcome of the next transmission; a schedule that is used up goes on faultlessly. */
  function First(schedule: seq<Outcome>): Outcome {
    if schedule == [] then Deliver([]) else schedule[0]
  }

  function Rest(schedule: seq<Outcome>): seq<Outcome> {
    if schedule == [] then [] else schedule[1..]
  }

  /** What an outcome makes of an answer. */
  predicate AnswersTo(c: Command, outcome: Outcome, r: Result<seq<byte>, nat>) {
    match outcome
    case Deliver(_) => r.Ok? && Answered(c, r.value)
    case Refuse(raw, _) => r == Ok(if c.Read? then raw[..Min(|raw|, 15)] else raw)
    case Lost(code, _, _) => r == Err(code)
  }

  predicate FaultFree(schedule: seq<Outcome>) {
    forall i :: 0 <= i < |schedule| ==> schedule[i].Deliver?
  }

  /** A transmission as it reached the tag: the command, the sector then active, and the memory afterwards. */
  datatype Step = Step(cmd: Command, sector: nat, mem: seq<byte>)

  /** From index `from` on, no WRITE was sent and the memory stayed `m`. */
  ghost predicate NoWrites(log: seq<Step>, from: nat, m: seq<byte>) {
    forall j :: from <= j < |log| ==> !log[j].cmd.Write? && log[j].mem == m
  }

  /** From index `from` on, only sectors that satisfy the bound were selected. */
  ghost predicate SelectsBelow(log: seq<Step>, from: nat, bound: int) {
    forall j :: from <= j < |log| && log[j].cmd.SectorSelectPart2? ==> log[j].cmd.sector < bound
  }

  /** How many READs and WRITEs were sent. */
  ghost function Sends(log: seq<Step>): nat {
    if log == [] then 0 else
    var last := log[|log| - 1].cmd;
    Sends(log[..|log| - 1]) + if last.Read? || last.Write? then 1 else 0
  }

  lemma SendsOne(log: seq<Step>, step: Step)
    ensures Sends(log + [step]) == Sends(log) + if step.cmd.Read? || step.cmd.Write? then 1 else 0
  {
    assert (log + [step])[..|log|] == log;
  }

  /**
   What a step of one READ or WRITE operation may be: the command itself, received in sector `active`, or part of
   selecting that sector; the memory is the one before or the one the command leads to.
   */
  ghost predicate StepOf(step: Step, c: Command, active: nat, before: seq<byte>, after: seq<byte>) {
    && (step.mem == before || step.mem == after)
    && match step.cmd
       case SectorSelectPart1 => true
       case SectorSelectPart2(s) => s == active
       case _ => step.cmd == c && step.sector == active
  }

  ghost predicate StepsOf(log: seq<Step>, from: nat, c: Command, active: nat, before: seq<byte>, after: seq<byte>) {
    forall j :: from <= j < |log| ==> StepOf(log[j], c, active, before, after)
  }

  /** The memory a command leads to when it is carried out in sector `active`. */
  function Effect(c: Command, active: nat, m: seq<byte>): seq<byte>
    requires c.Valid() && IsMemory(m) && active <= MAX_SECTOR
  {
    if c.Write? then PutBlock(m, Address(active, c.block), c.data) else m
  }

  /** Memory after a block was written. */
  function PutBlock(m: seq<byte>, at: nat, data: seq<byte>): (m': seq<byte>)
    requires |data| == 4 && at + 4 <= |m|
    ensures |m'| == |m|
    ensures forall a :: 0 <= a < |m| ==> m'[a] == if at <= a < at + 4 then data[a - at] else m[a]
  {
    m[..at] + data + m[at + 4..]
  }

  /** The 16 bytes hold the blocks from `block` on, as far as they lie in the sector. */
  predicate HoldsBlocks(bytes: seq<byte>, m: seq<byte>, sector: nat, block: byte) {
    && |bytes| == 16 && IsMemory(m) && sector <= MAX_SECTOR
    && forall i :: 0 <= i < 16 && block * 4 + i < SECTOR_SIZE ==> bytes[i] == m[Address(sector, block) + i]
  }

  class Tag {
    var mem: seq<byte>
    var active: nat
    var packet1: bool
    var schedule: seq<Outcome>
    ghost var log: seq<Step>

    ghost predicate Valid()
      reads this
    {
      IsMemory(mem) && active <= MAX_SECTOR
    }

    /** Transmits a frame and receives the response. */
    method Transceive(frame: seq<byte>) returns (r: Result<seq<byte>, nat>)
      requires Valid() && DecodeCommand(frame).Ok?
      modifies this
      ensures Valid()
      ensures schedule == Rest(old(schedule))
      ensures log == old(log) + [Step(DecodeCommand(frame).value, old(active), mem)]
      ensures var c := DecodeCommand(frame).value;
        && (mem == old(mem) || mem == Effect(c, old(active), old(mem)))
        && (r.Ok? && !c.SectorSelectPart1? ==> active == old(active))
        && (r.Ok? && Answered(c, r.value) ==> mem == Effect(c, old(active), old(mem)))
        && (r.Ok? && c.Read? && |r.value| >= 16 ==> HoldsBlocks(r.value, mem, active, c.block))
        && (r.Ok? && c.SectorSelectPart1? && IsAck(r.value) ==> packet1)
      ensures AnswersTo(DecodeCommand(frame).value, First(old(schedule)), r)
    {
      var c := DecodeCommand(frame).value;
      var outcome := First(schedule);
      schedule := Rest(schedule);
      ghost var at := active;
      packet1 := false;
      match outcome {
        case Deliver(filler) =>
          var answer := Execute(c, filler);
          r := Ok(answer);
        case Refuse(raw, applied) =>
          if c.Read? {
            r := Ok(raw[..Min(|raw|, 15)]);
          } else {
            if applied || IsAck(raw) {
              var _ := Execute(c, []);
            }
            r := Ok(raw);
          }
        case Lost(code, applied, reset) =>
          if applied {
            var _ := Execute(c, []);
          }
          if reset {
            active := 0;
          }
          r := Err(code);
      }
      log := log + [Step(c, at, mem)];
    }

    /** The tag carries out a command in its active sector. */
    method Execute(c: Command, filler: seq<byte>) returns (answer: seq<byte>)
      requires Valid() && c.Valid() && !c.SectorSelectPart2?
      modifies this`mem, this`packet1
      ensures Valid()
      ensures mem == Effect(c, active, old(mem)) && Answered(c, answer)
      ensures c.Read? ==> HoldsBlocks(answer, mem, active, c.block)
      ensures c.SectorSelectPart1? ==> packet1
    {
      match c {
        case Read(block) =>
          var m, base := mem, Address(active, block);
          answer := seq(16, i requires 0 <= i < 16 =>
            if block * 4 + i < SECTOR_SIZE && base + i < |m| then m[base + i]
            else if i < |filler| then filler[i] else 0);
        case Write(block, data) =>
          mem := PutBlock(mem, Address(active, block), data);
          answer := [ACK];
        case SectorSelectPart1 =>
          packet1 := true;
          answer := [ACK];
      }
    }

    /** Transmits packet 2; silence (`None`) is its acknowledgement. */
    method TransceiveNoResponse(frame: seq<byte>) returns (r: Result<Option<byte>, nat>)
      requires Valid() && |frame| == 4
      modifies this
      ensures Valid() && mem == old(mem)
      ensures schedule == Rest(old(schedule))
      ensures log == old(log) + [Step(SectorSelectPart2(frame[0]), old(active), mem)]
      ensures r == Ok(None) ==> active == frame[0]
      ensures match First(old(schedule))
        case Deliver(_) => old(packet1) && frame[0] <= MAX_SECTOR ==> r == Ok(None)
        case Refuse(raw, _) => r == Ok(Some(if raw == [] then 0 else raw[0]))
        case Lost(code, _, _) => r == Err(code)
    {
      log := log + [Step(SectorSelectPart2(frame[0]), active, mem)];
      var outcome := First(schedule);
      schedule := Rest(schedule);
      var selects := packet1 && frame[0] <= MAX_SECTOR;
      packet1 := false;
      match outcome {
        case Deliver(_) =>
          if selects {
            active := frame[0];
            r := Ok(None);
          } else {
            r := Ok(Some(0));
          }
        case Refuse(raw, applied) =>
          if applied && selects {
            active := frame[0];
          }
          r := Ok(Some(if raw == [] then 0 else raw[0]));
        case Lost(code, applied, reset) =>
          if applied && selects {
            active := frame[0];
          }
          if reset {
            active := 0;
          }
          r := Err(code);
      }
    }
  }
}
