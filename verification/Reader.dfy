/** The Type 2 Tag reader/writer (src/type2/reader.rs). */
module Reader {
  import opened Basics
  import opened TlvLength
  import opened Tlv
  import opened TlvParser
  import opened TlvScanner
  import opened Memory
  import opened UsableBytes
  import opened NdefProcedures
  import opened TagModel
  import opened Retries
  import opened PageWrites
  import opened WriteGuarantees
  import opened ReaderSupport

  class T2TReader {
    const tag: Tag
    var sector: SectorState
    var cacheBlock: Option<byte>
    var cacheData: seq<byte>
    var maxRetries: byte

    /** The coupling of reader and tag: a known sector is the active one, and the cache holds what a READ would return. */
    ghost predicate Coupled()
      reads this, tag
    {
      && tag.Valid()
      && |cacheData| == 16
      && (sector.Known? ==> sector.sector == tag.active)
      && (cacheBlock.Some? ==> HoldsBlocks(cacheData, tag.mem, tag.active, cacheBlock.value))
    }

    constructor (tag: Tag)
      requires tag.Valid() && tag.active == 0
      ensures this.tag == tag && Coupled() && sector == Known(0) && cacheBlock == None && maxRetries == 1
    {
      this.tag := tag;
      sector := Known(0);
      cacheBlock := None;
      cacheData := seq(16, i => 0);
      maxRetries := 1;
    }

    /** How many times a READ or WRITE is sent again. */
    method SetMaxRetries(n: byte)
      modifies this`maxRetries
      ensures maxRetries == n
      ensures old(Coupled()) ==> Coupled()
    {
      maxRetries := n;
    }

    method InvalidateCache()
      modifies this`cacheBlock
      ensures cacheBlock == None
    {
      cacheBlock := None;
    }

    /** SECTOR SELECT, both packets, without the known-state fast path. */
    method ForceSectorSelect(s: byte) returns (r: Result<(), ReaderError>)
      requires Coupled()
      modifies this`sector, this`cacheBlock, tag
      ensures Coupled()
      ensures old(tag.log) <= tag.log && tag.mem == old(tag.mem)
      ensures s > MAX_SECTOR ==> r == Err(Protocol(OutOfRange)) && tag.log == old(tag.log) && sector == old(sector)
      ensures s <= MAX_SECTOR ==>
        && cacheBlock == None
        && r != Err(Protocol(OutOfRange))
        && (r.Ok? ==> sector == Known(s) && |tag.log| == |old(tag.log)| + 2)
        && (r.Err? ==> sector == Unknown)
      ensures forall j :: |old(tag.log)| <= j < |tag.log| ==>
        tag.log[j].mem == tag.mem && (tag.log[j].cmd == SectorSelectPart1 || tag.log[j].cmd == SectorSelectPart2(s))
      ensures Sends(tag.log) == Sends(old(tag.log))
      ensures s <= MAX_SECTOR ==>
        && r == SelectionResult(First(old(tag.schedule)), First(Rest(old(tag.schedule))))
        && (r.Ok? ==> tag.schedule == Rest(Rest(old(tag.schedule))))
      ensures old(FaultFree(tag.schedule)) ==> FaultFree(tag.schedule) && (s <= MAX_SECTOR ==> r.Ok?)
    {
      if s > MAX_SECTOR {
        return Err(Protocol(OutOfRange));
      }
      InvalidateCache();
      sector := Unknown;

      CommandRoundTrip(SectorSelectPart1);
      var answer1 := tag.Transceive(SectorSelectPart1.ToBytes());
      SendsOne(old(tag.log), tag.log[|tag.log| - 1]);
      if answer1.Err? {
        return Err(Transceiver(answer1.error));
      }
      match ParseAnswer(SectorSelectPart1, answer1.value) {
        case Err(e) => return Err(Protocol(e));
        case Ok(Acked) =>
        case Ok(Nacked(code)) => return Err(Protocol(Nack(code)));
        case Ok(_) => return Err(Protocol(InvalidLength));
      }

      ghost var log1 := tag.log;
      var answer2 := tag.TransceiveNoResponse(SectorSelectPart2(s).ToBytes());
      SendsOne(log1, tag.log[|tag.log| - 1]);
      if answer2.Err? {
        return Err(Transceiver(answer2.error));
      }
      if answer2.value.Some? {
        return Err(Protocol(Nack(answer2.value.value)));
      }
      sector := Known(s);
      r := Ok(());
    }

    /** Selects a sector unless it is known to be selected; sector 0xFF is refused without traffic. */
    method SectorSelect(s: byte) returns (r: Result<(), ReaderError>)
      requires Coupled()
      modifies this`sector, this`cacheBlock, tag
      ensures Coupled()
      ensures old(tag.log) <= tag.log && tag.mem == old(tag.mem)
      ensures r == Err(Protocol(OutOfRange)) <==> s > MAX_SECTOR
      ensures s > MAX_SECTOR ==> tag.log == old(tag.log)
      ensures r.Ok? ==> sector == Known(s)
      ensures old(sector) == Known(s) ==> tag.log == old(tag.log) && cacheBlock == old(cacheBlock)
      ensures s <= MAX_SECTOR && old(sector) != Known(s) ==> cacheBlock == None
      ensures NoWrites(tag.log, |old(tag.log)|, tag.mem)
      ensures SelectsBelow(tag.log, |old(tag.log)|, s + 1)
      ensures Sends(tag.log) == Sends(old(tag.log))
      ensures old(FaultFree(tag.schedule)) ==> FaultFree(tag.schedule) && (s <= MAX_SECTOR ==> r.Ok?)
    {
      if s > MAX_SECTOR {
        return Err(Protocol(OutOfRange));
      }
      if sector == Known(s) {
        return Ok(());
      }
      r := ForceSectorSelect(s);
    }

    /** A call has sent its command `n` times: all of it in the sector the call found active. */
    ghost predicate During(call: Call, n: nat)
      reads this, tag
    {
      && tag.Valid() && |cacheData| == 16 && call.Valid()
      && (tag.mem == call.before || tag.mem == call.after)
      && call.log <= tag.log && StepsOf(tag.log, |call.log|, call.c, call.active, call.before, call.after)
      && Sends(tag.log) == Sends(call.log) + n
    }

    /** What an answer to a call says: an acknowledged command is carried out, and data is the tag's. */
    ghost predicate Conclusive(call: Call, raw: seq<byte>)
      reads this, tag
    {
      && tag.active == call.active
      && (Answered(call.c, raw) ==>
          tag.mem == call.after && |tag.log| > |call.log| && tag.log[|tag.log| - 1].mem == call.after)
      && (call.c.Read? && |raw| >= 16 ==> HoldsBlocks(raw, tag.mem, tag.active, call.c.block))
    }

    /** The first `n` transmissions of a call were lost, the last one with this error. */
    ghost predicate LostSoFar(call: Call, n: nat, budget: nat, code: nat)
      reads this, tag
    {
      && sector == Unknown && cacheBlock == None
      && 1 <= n <= budget + 1 && GoesOn(call.exchange, tag.schedule, budget + 1 - n, code)
    }

    /** One transmission of a READ or WRITE; a transport error makes the active sector ambiguous. */
    method Transmit(c: Command, ghost call: Call, ghost n: nat, ghost budget: nat) returns (answer: Result<seq<byte>, nat>)
      requires During(call, n) && c == call.c && tag.active == call.active
      requires n <= budget && call.exchange == Exchange(tag.schedule, budget - n)
      modifies this`sector, this`cacheBlock, tag
      ensures During(call, n + 1) && |tag.log| == |old(tag.log)| + 1
      ensures answer.Ok? ==> sector == old(sector) && cacheBlock == old(cacheBlock) && Conclusive(call, answer.value)
      ensures answer.Ok? ==> Concludes(c, call.exchange, Ok(answer.value))
      ensures answer.Err? ==> LostSoFar(call, n + 1, budget, answer.error)
      ensures old(FaultFree(tag.schedule)) ==> FaultFree(tag.schedule) && answer.Ok? && Answered(c, answer.value)
    {
      CommandRoundTrip(c);
      ghost var schedule := tag.schedule;
      answer := tag.Transceive(c.ToBytes());
      SendsOne(old(tag.log), tag.log[|tag.log| - 1]);
      SendAnswers(c, schedule, budget - n, answer);
      if answer.Err? {
        sector := Unknown;
        InvalidateCache();
      }
    }

    /** A retry: re-selects the intended sector, so that the transmission lands there, and sends again. */
    method Retry(c: Command, s: byte, ghost call: Call, ghost n: nat, ghost budget: nat, ghost code: nat)
      returns (r: Result<(), ReaderError>, answer: Result<seq<byte>, nat>)
      requires During(call, n) && LostSoFar(call, n, budget, code) && n <= budget
      requires c == call.c && s == call.active
      modifies this`sector, this`cacheBlock, tag
      ensures During(call, if r.Ok? then n + 1 else n)
      ensures r.Err? ==> r.error != Protocol(OutOfRange) && Concludes(c, call.exchange, Err(r.error))
      ensures r.Err? ==> sector == Unknown
      ensures r.Ok? && answer.Ok? ==>
        sector == Known(s) && Conclusive(call, answer.value) && Concludes(c, call.exchange, Ok(answer.value))
      ensures r.Ok? && answer.Err? ==> LostSoFar(call, n + 1, budget, answer.error)
      ensures cacheBlock == None
    {
      r := ForceSectorSelect(s);
      answer := Err(0);
      if r.Ok? {
        answer := Transmit(c, call, n, budget);
      }
    }

    /**
     Sends a READ or WRITE, and again after a transport error, re-selecting the intended sector first.
     Every transmission reaches the tag in the sector that was active when the call was made.
     */
    method TransceiveWithRetry(c: Command) returns (r: Result<seq<byte>, ReaderError>)
      requires Coupled() && c.Valid() && (c.Read? || c.Write?)
      modifies this`sector, this`cacheBlock, tag
      ensures tag.Valid()
      ensures old(tag.log) <= tag.log
      ensures var after := Effect(c, old(tag.active), old(tag.mem));
        && (tag.mem == old(tag.mem) || tag.mem == after)
        && StepsOf(tag.log, |old(tag.log)|, c, old(tag.active), old(tag.mem), after)
        && (r.Ok? && Answered(c, r.value) ==>
            tag.mem == after && |tag.log| > |old(tag.log)| && tag.log[|tag.log| - 1].mem == after)
      ensures 1 <= Sends(tag.log) - Sends(old(tag.log)) <= maxRetries + 1
      ensures old(sector) == Unknown ==> |tag.log| == |old(tag.log)| + 1
      ensures r.Ok? ==> sector == old(sector) && tag.active == old(tag.active)
      ensures r.Ok? ==> cacheBlock == old(cacheBlock) || cacheBlock == None
      ensures r.Ok? && c.Read? && |r.value| >= 16 ==> HoldsBlocks(r.value, tag.mem, tag.active, c.block)
      ensures r.Err? ==> sector == Unknown && cacheBlock == None && r != Err(Protocol(OutOfRange))
      ensures Concludes(c, Exchange(old(tag.schedule), if old(sector).Known? then maxRetries else 0), r)
      ensures old(FaultFree(tag.schedule)) ==>
        FaultFree(tag.schedule) && Sends(tag.log) == Sends(old(tag.log)) + 1 && r.Ok? && Answered(c, r.value)
    {
      ghost var exchange := Exchange(tag.schedule, if sector.Known? then maxRetries else 0);
      ghost var n;
      r, n := SendWithRetry(c, CallOf(c, tag.active, tag.mem, tag.log, exchange));
    }

    /** The loop of `TransceiveWithRetry`, about the call it belongs to. */
    method SendWithRetry(c: Command, ghost call: Call) returns (r: Result<seq<byte>, ReaderError>, ghost n: nat)
      requires During(call, 0) && c == call.c && tag.active == call.active && tag.log == call.log
      requires sector.Known? ==> sector.sector == call.active
      requires call.exchange == Exchange(tag.schedule, if sector.Known? then maxRetries else 0)
      modifies this`sector, this`cacheBlock, tag
      ensures During(call, n) && 1 <= n <= maxRetries + 1
      ensures old(sector) == Unknown ==> |tag.log| == |call.log| + 1
      ensures r.Ok? ==>
        && sector == old(sector) && Conclusive(call, r.value)
        && (cacheBlock == old(cacheBlock) || cacheBlock == None)
      ensures r.Err? ==> sector == Unknown && cacheBlock == None && r.error != Protocol(OutOfRange)
      ensures Concludes(c, call.exchange, r)
      ensures old(FaultFree(tag.schedule)) ==> FaultFree(tag.schedule) && n == 1 && r.Ok? && Answered(c, r.value)
    {
      var intended := sector;
      var lastErr: Option<nat> := None;
      ghost var budget := if sector.Known? then maxRetries else 0;
      n := 0;
      for attempt := 0 to maxRetries + 1
        invariant n == attempt && During(call, n)
        invariant attempt == 0 ==>
          && sector == old(sector) && cacheBlock == old(cacheBlock)
          && tag.active == old(tag.active) && tag.schedule == old(tag.schedule) && tag.log == old(tag.log)
        invariant attempt > 0 ==> lastErr.Some? && LostSoFar(call, attempt, budget, lastErr.value)
        invariant attempt > 0 ==> !old(FaultFree(tag.schedule))
        invariant attempt == 1 ==> |tag.log| == |old(tag.log)| + 1
        invariant attempt > 1 ==> intended.Known?
      {
        var answer: Result<seq<byte>, nat>;
        if attempt == 0 {
          answer := Transmit(c, call, 0, budget);
        } else {
          match intended {
            case Known(s) =>
              var selected;
              selected, answer := Retry(c, s, call, attempt, budget, lastErr.value);
              if selected.Err? {
                return Err(selected.error), n;
              }
            case Unknown =>
              break;
          }
        }
        n := attempt + 1;
        if answer.Ok? {
          return Ok(answer.value), n;
        }
        lastErr := Some(answer.error);
      }
      r := Err(Transceiver(lastErr.value));
    }

    /** Reads the four blocks from `block` on, or takes them from the cache. */
    method Read(block: byte) returns (r: Result<seq<byte>, ReaderError>)
      requires Coupled()
      modifies this`sector, this`cacheBlock, this`cacheData, tag
      ensures Coupled()
      ensures old(tag.log) <= tag.log && tag.mem == old(tag.mem)
      ensures NoWrites(tag.log, |old(tag.log)|, tag.mem)
      ensures SelectsBelow(tag.log, |old(tag.log)|, old(tag.active) + 1)
      ensures r.Ok? ==>
        && sector == old(sector) && tag.active == old(tag.active)
        && cacheBlock == Some(block) && cacheData == r.value
      ensures old(cacheBlock) == Some(block) ==> r.Ok? && tag.log == old(tag.log)
      ensures r != Err(Protocol(OutOfRange))
      ensures old(cacheBlock) != Some(block) ==>
        ReadConcludes(Exchange(old(tag.schedule), if old(sector).Known? then maxRetries else 0), r)
      ensures Sends(tag.log) <= Sends(old(tag.log)) + maxRetries + 1
      ensures old(FaultFree(tag.schedule)) ==>
        FaultFree(tag.schedule) && r.Ok? && Sends(tag.log) <= Sends(old(tag.log)) + 1
    {
      if cacheBlock == Some(block) {
        return Ok(cacheData);
      }
      var c := Command.Read(block);
      var raw := TransceiveWithRetry(c);
      if raw.Err? {
        return Err(raw.error);
      }
      match ParseAnswer(c, raw.value) {
        case Err(e) => return Err(Protocol(e));
        case Ok(Data(data)) =>
          cacheBlock := Some(block);
          cacheData := data;
          return Ok(data);
        case Ok(Nacked(code)) => return Err(Protocol(Nack(code)));
        case Ok(_) => return Err(Protocol(InvalidLength));
      }
    }

    /** Writes one block in the current sector; the cache is dropped. */
    method Write(block: byte, data: seq<byte>) returns (r: Result<(), ReaderError>)
      requires Coupled() && |data| == 4
      modifies this`sector, this`cacheBlock, tag
      ensures Coupled() && cacheBlock == None
      ensures old(tag.log) <= tag.log
      ensures var after := PutBlock(old(tag.mem), Address(old(tag.active), block), data);
        && (tag.mem == old(tag.mem) || tag.mem == after)
        && StepsOf(tag.log, |old(tag.log)|, Command.Write(block, data), old(tag.active), old(tag.mem), after)
        && (r.Ok? ==> tag.mem == after && |tag.log| > |old(tag.log)| && tag.log[|tag.log| - 1].mem == after)
      ensures r.Ok? ==> sector == old(sector) && tag.active == old(tag.active)
      ensures r != Err(Protocol(OutOfRange))
      ensures WriteConcludes(Exchange(old(tag.schedule), if old(sector).Known? then maxRetries else 0), r)
      ensures old(FaultFree(tag.schedule)) ==> FaultFree(tag.schedule) && r.Ok? && Sends(tag.log) == Sends(old(tag.log)) + 1
    {
      var c := Command.Write(block, data);
      var raw := TransceiveWithRetry(c);
      if raw.Err? {
        return Err(raw.error);
      }
      InvalidateCache();
      match ParseAnswer(c, raw.value) {
        case Err(e) => return Err(Protocol(e));
        case Ok(Acked) => return Ok(());
        case Ok(Nacked(code)) => return Err(Protocol(Nack(code)));
        case Ok(_) => return Err(Protocol(InvalidLength));
      }
    }

    /** Reads and parses the Capability Container, block 3 of sector 0. */
    method ReadCC() returns (r: Result<CapabilityContainer, ReaderError>)
      requires Coupled()
      modifies this`sector, this`cacheBlock, this`cacheData, tag
      ensures Coupled()
      ensures old(tag.log) <= tag.log && tag.mem == old(tag.mem)
      ensures NoWrites(tag.log, |old(tag.log)|, tag.mem)
      ensures SelectsBelow(tag.log, |old(tag.log)|, 1)
      ensures r.Ok? ==> CCOf(tag.mem) == Ok(r.value)
      ensures r != Err(Protocol(OutOfRange))
      ensures old(FaultFree(tag.schedule)) ==>
        FaultFree(tag.schedule) && r == AsReaderResult(CCOf(tag.mem))
    {
      var selected := SectorSelect(0);
      if selected.Err? {
        return Err(selected.error);
      }
      var data := Read(CC_BLOCK);
      if data.Err? {
        return Err(data.error);
      }
      var bytes := data.value[..4];
      assert bytes == tag.mem[12..16];
      r := AsReaderResult(ParseCC(bytes));
    }

    /** The four bytes of a block, from the cache when it covers the block; the distance is taken modulo 256. */
    method FetchBlock(block: byte) returns (r: Result<seq<byte>, ReaderError>)
      requires Coupled() && sector.Known? && NoWrap(cacheBlock, block)
      modifies this`sector, this`cacheBlock, this`cacheData, tag
      ensures Coupled()
      ensures old(tag.log) <= tag.log && tag.mem == old(tag.mem)
      ensures NoWrites(tag.log, |old(tag.log)|, tag.mem)
      ensures SelectsBelow(tag.log, |old(tag.log)|, old(tag.active) + 1)
      ensures r.Ok? ==>
        && sector == old(sector) && tag.active == old(tag.active)
        && r.value == tag.mem[Address(tag.active, block)..Address(tag.active, block) + 4]
        && cacheBlock.Some? && cacheBlock.value <= block < cacheBlock.value + 4
      ensures r != Err(Protocol(OutOfRange))
      ensures old(FaultFree(tag.schedule)) ==>
        && FaultFree(tag.schedule) && r.Ok?
        && if Covers(old(cacheBlock), block)
           then Sends(tag.log) == Sends(old(tag.log)) && cacheBlock == old(cacheBlock)
           else Sends(tag.log) <= Sends(old(tag.log)) + 1 && cacheBlock == Some(block)
    {
      if cacheBlock.Some? && WrappingSub(block, cacheBlock.value) < 4 {
        var offset := WrappingSub(block, cacheBlock.value) * BLOCK_SIZE;
        r := Ok(cacheData[offset..offset + BLOCK_SIZE]);
      } else {
        var data := Read(block);
        if data.Err? {
          return Err(data.error);
        }
        r := Ok(data.value[..BLOCK_SIZE]);
      }
    }

    /** The block at `addr` is next: the cache cannot serve it wrapped, and `n` READs are accounted for. */
    ghost predicate FetchReady(addr: nat, n: int)
      reads this, tag
    {
      && Coupled()
      && DATA_START <= addr <= ADDRESS_SPACE_END && addr % 4 == 0
      && (sector == Known(addr / SECTOR_SIZE) ==> NoWrap(cacheBlock, BlockOf(addr)))
      && Paid(n, sector, cacheBlock, addr)
    }

    /** Selects the sector of an address of the data area and fetches its block. */
    method FetchAt(addr: nat, ghost n: int) returns (r: Result<seq<byte>, ReaderError>, ghost n': int)
      requires FetchReady(addr, n) && addr < ADDRESS_SPACE_END
      modifies this`sector, this`cacheBlock, this`cacheData, tag
      ensures Coupled()
      ensures old(tag.log) <= tag.log && tag.mem == old(tag.mem)
      ensures NoWrites(tag.log, |old(tag.log)|, tag.mem)
      ensures SelectsBelow(tag.log, |old(tag.log)|, addr / SECTOR_SIZE + 1)
      ensures r.Ok? ==> FetchReady(addr + 4, n') && r.value == tag.mem[addr..addr + 4]
      ensures r != Err(Protocol(OutOfRange))
      ensures n' <= (addr - DATA_START) / 16 + 1
      ensures old(FaultFree(tag.schedule)) ==>
        FaultFree(tag.schedule) && r.Ok? && n' == n + Sends(tag.log) - Sends(old(tag.log))
    {
      AlignedAddress(addr);
      n' := 0;
      var (s, block, _) := AddressToSectorBlock(addr).value;
      if sector != Known(s) {
        var selected := SectorSelect(s);
        if selected.Err? {
          return Err(selected.error), 0;
        }
      }
      ghost var cached := cacheBlock;
      r := FetchBlock(block);
      if r.Ok? {
        NextNoWrap(addr, cacheBlock);
      }
      if old(FaultFree(tag.schedule)) {
        n' := n + Sends(tag.log) - Sends(old(tag.log));
        PaidFetch(n, addr, cached, n', cacheBlock.value);
      }
    }

    /** One block of the data area: fetches it and takes over its usable bytes. */
    method ReadNextBlock(layout: MemoryLayout, scanner: Scanner, addr: nat, bytes: seq<byte>, ghost n: int)
      returns (r: Result<seq<byte>, ReaderError>, stop: bool, ghost n': int)
      requires FetchReady(addr, n)
      requires Gathered(layout, tag.mem, addr, bytes, scanner.state) && |bytes| < layout.dataAreaSize
      modifies this`sector, this`cacheBlock, this`cacheData, tag, scanner
      ensures Coupled()
      ensures old(tag.log) <= tag.log && tag.mem == old(tag.mem)
      ensures NoWrites(tag.log, |old(tag.log)|, tag.mem)
      ensures SelectsBelow(tag.log, |old(tag.log)|, layout.SectorCount())
      ensures r == Err(Protocol(OutOfRange)) ==> addr == ADDRESS_SPACE_END
      ensures r.Ok? ==> addr < ADDRESS_SPACE_END && FetchReady(addr + 4, n')
      ensures r.Ok? && !stop ==> Gathered(layout, tag.mem, addr + 4, r.value, scanner.state)
      ensures r.Ok? && (stop || |r.value| == layout.dataAreaSize) ==>
        IsDataArea(layout, tag.mem, r.value) && n' <= ReadBudget(layout, |r.value|)
      ensures old(FaultFree(tag.schedule)) ==>
        && FaultFree(tag.schedule) && (r.Ok? || r == Err(Protocol(OutOfRange)))
        && (r.Ok? ==> n' == n + Sends(tag.log) - Sends(old(tag.log)))
    {
      stop := false;
      if AddressToSectorBlock(addr).None? {
        return Err(Protocol(OutOfRange)), false, 0;
      }
      SectorBound(layout, addr);
      r, n' := FetchAt(addr, n);
      if r.Ok? {
        var result;
        result, stop := ConsumeBlock(layout, addr, r.value, scanner, bytes, tag.mem);
        r := Ok(result);
      }
    }

    /**
     Reads the data area: block by block, through the cache and across sectors, leaving out lock and reserved bytes
     and stopping after a Terminator tag.
     */
    method ReadDataArea(layout: MemoryLayout) returns (r: Result<seq<byte>, ReaderError>)
      requires Coupled()
      modifies this`sector, this`cacheBlock, this`cacheData, tag
      ensures Coupled()
      ensures old(tag.log) <= tag.log && tag.mem == old(tag.mem)
      ensures NoWrites(tag.log, |old(tag.log)|, tag.mem)
      ensures SelectsBelow(tag.log, |old(tag.log)|, layout.SectorCount())
      ensures r.Ok? ==> DataArea(layout, tag.mem) == Ok(r.value)
      ensures r == Err(Protocol(OutOfRange)) ==> DataArea(layout, tag.mem) == Err(OutOfRange)
      ensures old(FaultFree(tag.schedule)) ==>
        && FaultFree(tag.schedule) && r == AsReaderResult(DataArea(layout, tag.mem))
        && (r.Ok? ==> Sends(tag.log) - Sends(old(tag.log)) <= ReadBudget(layout, |r.value|))
    {
      var result: seq<byte> := [];
      var scanner := new Scanner();
      var byteAddr := DATA_START;
      var stop := false;
      ghost var n := 0;
      while !stop && |result| < layout.dataAreaSize
        invariant Coupled() && tag.mem == old(tag.mem) && fresh(scanner)
        invariant old(tag.log) <= tag.log
        invariant NoWrites(tag.log, |old(tag.log)|, tag.mem)
        invariant SelectsBelow(tag.log, |old(tag.log)|, layout.SectorCount())
        invariant FetchReady(byteAddr, n)
        invariant !stop ==> Gathered(layout, tag.mem, byteAddr, result, scanner.state)
        invariant stop || |result| == layout.dataAreaSize ==>
          IsDataArea(layout, tag.mem, result) && n <= ReadBudget(layout, |result|)
        invariant old(FaultFree(tag.schedule)) ==> FaultFree(tag.schedule) && n == Sends(tag.log) - Sends(old(tag.log))
        decreases ADDRESS_SPACE_END - byteAddr
      {
        var next;
        next, stop, n := ReadNextBlock(layout, scanner, byteAddr, result, n);
        if next.Err? {
          if byteAddr == ADDRESS_SPACE_END {
            ShortStream(layout, tag.mem, result);
          }
          return Err(next.error);
        }
        result := next.value;
        byteAddr := byteAddr + BLOCK_SIZE;
      }
      CompleteArea(layout, tag.mem, result);
      r := Ok(result);
    }

    /** Two-pass detection; see `ReadView`. */
    method ReadDataAreaWithLayout(cc: CapabilityContainer) returns (r: Result<seq<byte>, ReaderError>)
      requires Coupled()
      modifies this`sector, this`cacheBlock, this`cacheData, tag
      ensures Coupled()
      ensures old(tag.log) <= tag.log && tag.mem == old(tag.mem)
      ensures NoWrites(tag.log, |old(tag.log)|, tag.mem)
      ensures SelectsBelow(tag.log, |old(tag.log)|, 255)
      ensures r.Ok? ==> ReadView(cc, tag.mem).Ok? && ReadView(cc, tag.mem).value.bytes == r.value
      ensures r != Err(Protocol(OutOfRange))
      ensures old(FaultFree(tag.schedule)) ==>
        && FaultFree(tag.schedule)
        && (ReadView(cc, tag.mem).Ok? ==> r.Ok?)
        && (ReadView(cc, tag.mem).Err? ==> r == Err(Protocol(ReadView(cc, tag.mem).error)))
    {
      var basicLayout := BuildLayout(cc, []);
      DescribedAreaReadable(cc, [], tag.mem);
      var dataArea := ReadDataArea(basicLayout);
      if dataArea.Err? {
        return dataArea;
      }
      var tlvs := ParseTlvs(dataArea.value);
      if tlvs.Err? {
        return Err(Protocol(tlvs.error));
      }
      ParsedControls(dataArea.value);
      if cc.IsDynamic() && HasControl(tlvs.value) {
        var fullLayout := BuildLayout(cc, tlvs.value);
        DescribedAreaReadable(cc, tlvs.value, tag.mem);
        r := ReadDataArea(fullLayout);
      } else {
        r := dataArea;
      }
    }

    /** Detects and parses the TLVs of the data area. */
    method ReadTlvs(cc: CapabilityContainer) returns (r: Result<seq<Tlv>, ReaderError>)
      requires Coupled()
      modifies this`sector, this`cacheBlock, this`cacheData, tag
      ensures Coupled()
      ensures old(tag.log) <= tag.log && tag.mem == old(tag.mem)
      ensures NoWrites(tag.log, |old(tag.log)|, tag.mem)
      ensures SelectsBelow(tag.log, |old(tag.log)|, 255)
      ensures r.Ok? ==> ReadView(cc, tag.mem).Ok? && Parse(ReadView(cc, tag.mem).value.bytes) == Ok(r.value)
      ensures r != Err(Protocol(OutOfRange))
      ensures old(FaultFree(tag.schedule)) ==>
        && FaultFree(tag.schedule)
        && (ReadView(cc, tag.mem).Err? ==> r == Err(Protocol(ReadView(cc, tag.mem).error)))
        && (ReadView(cc, tag.mem).Ok? ==> r == AsReaderResult(Parse(ReadView(cc, tag.mem).value.bytes)))
    {
      var dataArea := ReadDataAreaWithLayout(cc);
      if dataArea.Err? {
        return Err(dataArea.error);
      }
      var tlvs := ParseTlvs(dataArea.value);
      r := AsReaderResult(tlvs);
    }

    /** Detects and reads the NDEF message; whatever the faults, a message returned is the one the tag presents. */
    method ReadNdef() returns (r: Result<seq<byte>, ReaderError>)
      requires Coupled()
      modifies this`sector, this`cacheBlock, this`cacheData, tag
      ensures Coupled()
      ensures old(tag.log) <= tag.log && tag.mem == old(tag.mem)
      ensures NoWrites(tag.log, |old(tag.log)|, tag.mem)
      ensures SelectsBelow(tag.log, |old(tag.log)|, 255)
      ensures r.Ok? ==> NdefOf(tag.mem) == Ok(r.value)
      ensures r.Ok? ==> Readable(tag.mem)
      ensures old(FaultFree(tag.schedule)) ==> FaultFree(tag.schedule) && r == AsReaderResult(NdefOf(tag.mem))
    {
      ContainerAccess(tag.mem);
      var cc := ReadCC();
      if cc.Err? {
        return Err(cc.error);
      }
      if !cc.value.IsValid() {
        return Err(Protocol(InvalidMagic(0)));
      }
      var tlvs := ReadTlvs(cc.value);
      if tlvs.Err? {
        return Err(tlvs.error);
      }
      var i := 0;
      assert tlvs.value[0..] == tlvs.value;
      while i < |tlvs.value|
        invariant 0 <= i <= |tlvs.value|
        invariant FirstNdef(tlvs.value) == FirstNdef(tlvs.value[i..])
      {
        if tlvs.value[i].NdefMessage? {
          return Ok(tlvs.value[i].message);
        }
        assert tlvs.value[i..][1..] == tlvs.value[i + 1..];
        i := i + 1;
      }
      r := Ok([]);
    }

    /** Writes a block whose new bytes are those of `after`: the memory goes from the one state to the other. */
    method PutPage(block: byte, page: seq<byte>, ghost at: nat, ghost after: seq<byte>) returns (r: Result<(), ReaderError>)
      requires Coupled() && |page| == 4 && at == Address(tag.active, block)
      requires PutBlock(tag.mem, at, page) == after
      modifies this`sector, this`cacheBlock, tag
      ensures Coupled()
      ensures old(tag.log) <= tag.log && Between(tag.log, |old(tag.log)|, old(tag.mem), after)
      ensures SelectsBelow(tag.log, |old(tag.log)|, old(tag.active) + 1)
      ensures tag.mem == old(tag.mem) || tag.mem == after
      ensures r.Ok? ==> tag.mem == after && |tag.log| > |old(tag.log)| && tag.log[|tag.log| - 1].mem == after
      ensures r != Err(Protocol(OutOfRange))
      ensures old(FaultFree(tag.schedule)) ==> FaultFree(tag.schedule) && r.Ok? && Sends(tag.log) == Sends(old(tag.log)) + 1
    {
      r := Write(block, page);
    }

    /** Read-modify-write of one page: lock and reserved bytes, and whatever else is not data, keep their values. */
    method MergeAndPut(layout: MemoryLayout, block: byte, at: nat, offset: nat, data: seq<byte>, di: nat, limit: nat,
                       ghost m0: seq<byte>, ghost k: nat, ghost next: nat)
      returns (r: Result<nat, ReaderError>)
      requires di <= next == DoneBelow(layout, k, data, at + 4)
      requires Coupled() && IsMemory(m0) && DATA_START <= at == Address(tag.active, block) && offset < 4
      requires di < |data| && Rank(layout, at + offset) == k + di
      requires tag.mem == Scatter(layout, m0, k, data, di)
      modifies this`sector, this`cacheBlock, this`cacheData, tag
      ensures Coupled()
      ensures old(tag.log) <= tag.log
      ensures SelectsBelow(tag.log, |old(tag.log)|, old(tag.active) + 1)
      ensures PageDone(tag.log, |old(tag.log)|, tag.mem, old(tag.mem), Scatter(layout, m0, k, data, next), di, next, r)
      ensures r == Err(Protocol(OutOfRange)) ==> Rank(layout, limit) < k + |data|
      ensures r.Ok? ==> k + next <= Rank(layout, limit)
      ensures old(FaultFree(tag.schedule)) ==>
        && FaultFree(tag.schedule) && (r.Ok? || r == Err(Protocol(OutOfRange)))
        && Sends(tag.log) <= Sends(old(tag.log)) + 2
    {
      RankMonotone(layout, at, at + offset);
      var cur := Read(block);
      if cur.Err? {
        return Err(cur.error);
      }
      HeldPage(cur.value, tag.mem, tag.active, block, at);
      var page, di', touched := MergePage(layout, at, at + offset, cur.value[..4], data, di, limit, m0, k);
      if page.None? {
        return Err(Protocol(OutOfRange));
      }
      assert di' == next;
      ghost var before, after, log1 := tag.mem, Scatter(layout, m0, k, data, next), tag.log;
      if touched {
        PageScatters(layout, m0, k, data, di, next, at);
        var written := PutPage(block, page.value, at, after);
        ReadThenPut(|old(tag.log)|, log1, tag.log, before, after);
        if written.Err? {
          return Err(written.error);
        }
      }
      r := Ok(di');
    }

    /** A fully usable page that the data covers is written outright. */
    method PutFullPage(layout: MemoryLayout, block: byte, at: nat, data: seq<byte>, di: nat, limit: nat,
                       ghost m0: seq<byte>, ghost k: nat, ghost next: nat)
      returns (r: Result<nat, ReaderError>)
      requires di <= next == DoneBelow(layout, k, data, at + 4)
      requires Coupled() && IsMemory(m0) && DATA_START <= at == Address(tag.active, block)
      requires di + 4 <= |data| && Rank(layout, at) == k + di
      requires forall a :: at <= a < at + 4 ==> !layout.IsSkip(a)
      requires tag.mem == Scatter(layout, m0, k, data, di)
      modifies this`sector, this`cacheBlock, tag
      ensures Coupled()
      ensures old(tag.log) <= tag.log
      ensures SelectsBelow(tag.log, |old(tag.log)|, old(tag.active) + 1)
      ensures PageDone(tag.log, |old(tag.log)|, tag.mem, old(tag.mem), Scatter(layout, m0, k, data, next), di, next, r)
      ensures r == Err(Protocol(OutOfRange)) ==> Rank(layout, limit) < k + |data|
      ensures r.Ok? ==> k + next <= Rank(layout, limit)
      ensures old(FaultFree(tag.schedule)) ==>
        && FaultFree(tag.schedule) && (r.Ok? || r == Err(Protocol(OutOfRange)))
        && Sends(tag.log) <= Sends(old(tag.log)) + 1
    {
      FullPageScatters(layout, m0, k, data, di, next, at);
      if at + BLOCK_SIZE > limit {
        RankMonotone(layout, limit, at + 3);
        return Err(Protocol(OutOfRange));
      }
      RankMonotone(layout, at + 4, limit);
      var written := PutPage(block, data[di..di + 4], at, Scatter(layout, m0, k, data, next));
      if written.Err? {
        return Err(written.error);
      }
      r := Ok(di + 4);
    }

    /** One page of `WriteUsableBytes`: written outright if the data covers it, else read, merged and written. */
    method WritePage(layout: MemoryLayout, addr: nat, data: seq<byte>, di: nat, limit: nat,
                     ghost m0: seq<byte>, ghost k: nat, ghost next: nat)
      returns (r: Result<nat, ReaderError>)
      requires di <= next == DoneBelow(layout, k, data, PageEnd(addr))
      requires Coupled() && IsMemory(m0) && DATA_START <= addr < ADDRESS_SPACE_END
      requires di < |data| && Rank(layout, addr) == k + di
      requires tag.mem == Scatter(layout, m0, k, data, di)
      modifies this`sector, this`cacheBlock, this`cacheData, tag
      ensures Coupled()
      ensures old(tag.log) <= tag.log
      ensures SelectsBelow(tag.log, |old(tag.log)|, addr / SECTOR_SIZE + 1)
      ensures PageDone(tag.log, |old(tag.log)|, tag.mem, old(tag.mem), Scatter(layout, m0, k, data, next), di, next, r)
      ensures r == Err(Protocol(OutOfRange)) ==> Rank(layout, limit) < k + |data|
      ensures r.Ok? ==> k + next <= Rank(layout, limit)
      ensures old(FaultFree(tag.schedule)) ==>
        && FaultFree(tag.schedule) && (r.Ok? || r == Err(Protocol(OutOfRange)))
        && Sends(tag.log) <= Sends(old(tag.log)) + if FullPageAt(layout, addr, |data| - di) then 1 else 2
    {
      PageOfAddress(addr);
      var (s, block, offset) := AddressToSectorBlock(addr).value;
      if sector != Known(s) {
        var selected := SectorSelect(s);
        if selected.Err? {
          return Err(selected.error);
        }
      }
      var pageBase := addr - offset;
      var pageAllUsable := forall a :: pageBase <= a < pageBase + 4 ==> !layout.IsSkip(a);
      if offset == 0 && |data| - di >= BLOCK_SIZE && pageAllUsable {
        r := PutFullPage(layout, block, pageBase, data, di, limit, m0, k, next);
      } else {
        r := MergeAndPut(layout, block, pageBase, offset, data, di, limit, m0, k, next);
      }
    }

    /**
     Writes `data` to the usable bytes from `startAddr` on, page by page, stepping over lock and reserved bytes.
     Whatever happens on the way, the memory is always the old one with the data written up to a page boundary.
     */
    method WriteUsableBytes(layout: MemoryLayout, startAddr: nat, data: seq<byte>, limit: nat)
      returns (r: Result<(), ReaderError>)
      requires Coupled() && DATA_START <= startAddr && limit <= ADDRESS_SPACE_END
      modifies this`sector, this`cacheBlock, this`cacheData, tag
      ensures Coupled()
      ensures old(tag.log) <= tag.log
      ensures var k := Rank(layout, startAddr);
        && IsPrefixState(layout, old(tag.mem), k, data, tag.mem)
        && AllPrefixStates(tag.log, |old(tag.log)|, layout, old(tag.mem), k, data)
        && (r.Ok? ==>
            && tag.mem == Scatter(layout, old(tag.mem), k, data, |data|)
            && AllVisited(tag.log, |old(tag.log)|, layout, old(tag.mem), k, data, |data|))
        && (r == Err(Protocol(OutOfRange)) ==> Rank(layout, limit) < k + |data|)
        && (r.Ok? && data != [] ==> k + |data| <= Rank(layout, limit))
        && (k + |data| <= layout.dataAreaSize ==> SelectsBelow(tag.log, |old(tag.log)|, layout.SectorCount()))
      ensures old(FaultFree(tag.schedule)) ==> FaultFree(tag.schedule) && (r.Ok? || r == Err(Protocol(OutOfRange)))
    {
      ghost var m0, k, from := tag.mem, Rank(layout, startAddr), |tag.log|;
      assert IsCut(layout, k, |data|, 0);
      var di := 0;
      var addr := startAddr;
      while di < |data|
        invariant Coupled() && old(tag.log) <= tag.log
        invariant 0 <= di <= |data| && IsCut(layout, k, |data|, di)
        invariant di < |data| ==> DATA_START <= addr && Rank(layout, addr) == k + di
        invariant tag.mem == Scatter(layout, m0, k, data, di)
        invariant AllPrefixStates(tag.log, from, layout, m0, k, data)
        invariant AllVisited(tag.log, from, layout, m0, k, data, di)
        invariant di > 0 ==> k + di <= Rank(layout, limit)
        invariant k + |data| <= layout.dataAreaSize ==> SelectsBelow(tag.log, from, layout.SectorCount())
        invariant old(FaultFree(tag.schedule)) ==> FaultFree(tag.schedule)
        decreases ADDRESS_SPACE_END - addr
      {
        if addr >= limit {
          RankMonotone(layout, limit, addr);
          return Err(Protocol(OutOfRange));
        }
        NextCut(layout, k, data, addr, di);
        if k + |data| <= layout.dataAreaSize {
          SectorBound(layout, addr);
        }
        ghost var log := tag.log;
        ghost var next := DoneBelow(layout, k, data, PageEnd(addr));
        var page := WritePage(layout, addr, data, di, limit, m0, k, next);
        PageInRun(log, tag.log, from, tag.mem, layout, m0, k, data, di, next, page);
        if page.Err? {
          return Err(page.error);
        }
        di := page.value;
        addr := PageEnd(addr);
      }
      r := Ok(());
    }

    /** The part of write_ndef before its first WRITE: detection, offset and capacity check; see `WritePlan`. */
    method PlanWrite(d: seq<byte>) returns (r: Result<(MemoryLayout, nat), ReaderError>)
      requires Coupled()
      modifies this`sector, this`cacheBlock, this`cacheData, tag
      ensures Coupled()
      ensures old(tag.log) <= tag.log && tag.mem == old(tag.mem)
      ensures NoWrites(tag.log, |old(tag.log)|, tag.mem)
      ensures SelectsBelow(tag.log, |old(tag.log)|, 255)
      ensures r.Ok? ==>
        var plan := WritePlan(tag.mem, d); plan.Ok? && r.value == (plan.value.layout, plan.value.offset)
      ensures r == Err(Protocol(OutOfRange)) ==> WritePlan(tag.mem, d) == Err(OutOfRange)
      ensures old(FaultFree(tag.schedule)) ==>
        && FaultFree(tag.schedule)
        && (WritePlan(tag.mem, d).Ok? ==> r.Ok?)
        && (WritePlan(tag.mem, d).Err? ==> r == Err(Protocol(WritePlan(tag.mem, d).error)))
    {
      var cc := ReadCC();
      if cc.Err? {
        return Err(cc.error);
      }
      if !cc.value.IsValid() {
        return Err(Protocol(InvalidMagic(0)));
      }
      if cc.value.writeAccess != Granted {
        return Err(Protocol(ReadOnly));
      }
      var tlvs := ReadTlvs(cc.value);
      if tlvs.Err? {
        return Err(tlvs.error);
      }
      if |d| > 0xFFFE {
        return Err(Protocol(OutOfRange));
      }
      var lFieldSize := if |d| < 0xFF then 1 else 3;
      var offset := ComputeOffset(tlvs.value);
      if offset.None? {
        return Err(Protocol(InvalidTlv));
      }
      var requiredEnd := offset.value + 1 + lFieldSize + |d| + 1;
      if requiredEnd > cc.value.DataAreaSize() {
        return Err(Protocol(OutOfRange));
      }
      ParsedControls(ReadView(cc.value, tag.mem).value.bytes);
      var layout := BuildLayout(cc.value, tlvs.value);
      r := Ok((layout, offset.value));
    }

    /**
     Writes an NDEF message: the payload with a zero length first, the length last. At every step of the run, whatever
     the faults, nothing outside the payload has changed and a safely planned NDEF TLV is not torn in the stream written
     through, nor in the one read with where the layouts agree; an unobstructed message is read back after success.
     */
    method WriteNdef(d: seq<byte>) returns (r: Result<(), ReaderError>)
      requires Coupled()
      modifies this`sector, this`cacheBlock, this`cacheData, tag
      ensures Coupled()
      ensures old(tag.log) <= tag.log && SelectsBelow(tag.log, |old(tag.log)|, 255)
      ensures WritePlan(old(tag.mem), d).Err? ==>
        r.Err? && tag.mem == old(tag.mem) && NoWrites(tag.log, |old(tag.log)|, tag.mem)
      ensures r == Err(Protocol(OutOfRange)) ==> WritePlan(old(tag.mem), d) == Err(OutOfRange)
      ensures Guaranteed(old(tag.mem), d, tag.log, |old(tag.log)|, r.Ok?, tag.mem)
      ensures r.Ok? ==> tag.mem == AfterWrite(old(tag.mem), d)
      ensures !Readable(old(tag.mem)) || old(tag.mem)[15] != 0x00 ==>
        r.Err? && tag.mem == old(tag.mem) && NoWrites(tag.log, |old(tag.log)|, tag.mem)
      ensures old(FaultFree(tag.schedule) && Readable(tag.mem) && tag.mem[15] != 0x00) ==> r == Err(Protocol(ReadOnly))
      ensures old(FaultFree(tag.schedule)) ==>
        && FaultFree(tag.schedule)
        && (WritePlan(old(tag.mem), d).Ok? ==> r.Ok?)
        && (WritePlan(old(tag.mem), d).Err? ==> r == Err(Protocol(WritePlan(old(tag.mem), d).error)))
    {
      ghost var m0, from := tag.mem, |tag.log|;
      r := RunWrite(d);
      if Readable(m0) {
        ReadOnlyRefused(m0, d);
      } else {
        UnreadableRefused(m0, d);
      }
      if WritePlan(m0, d).Ok? {
        WriteIsGuaranteed(m0, d, tag.log, from, r.Ok?, tag.mem);
      }
    }

    /**
     The run of write_ndef: through any faults the memory is always one of the write states; a range error comes before
     the first WRITE; success means that all states were passed.
     */
    method RunWrite(d: seq<byte>) returns (r: Result<(), ReaderError>)
      requires Coupled()
      modifies this`sector, this`cacheBlock, this`cacheData, tag
      ensures Coupled()
      ensures old(tag.log) <= tag.log && SelectsBelow(tag.log, |old(tag.log)|, 255)
      ensures WritePlan(old(tag.mem), d).Err? ==>
        r.Err? && tag.mem == old(tag.mem) && NoWrites(tag.log, |old(tag.log)|, tag.mem)
      ensures r == Err(Protocol(OutOfRange)) ==> WritePlan(old(tag.mem), d) == Err(OutOfRange)
      ensures WritePlan(old(tag.mem), d).Ok? ==>
        var plan := WritePlan(old(tag.mem), d).value;
        && |d| <= MAX_TLV_LENGTH
        && IsWriteState(plan.layout, plan.offset, old(tag.mem), d, tag.mem)
        && AllWriteStates(tag.log, |old(tag.log)|, plan.layout, plan.offset, old(tag.mem), d)
        && (r.Ok? ==>
            && tag.mem == Written(plan.layout, plan.offset, old(tag.mem), d)
            && WentThroughAll(tag.log, |old(tag.log)|, plan.layout, plan.offset, old(tag.mem), d))
      ensures old(FaultFree(tag.schedule)) ==>
        && FaultFree(tag.schedule)
        && (WritePlan(old(tag.mem), d).Ok? ==> r.Ok?)
        && (WritePlan(old(tag.mem), d).Err? ==> r == Err(Protocol(WritePlan(old(tag.mem), d).error)))
    {
      ghost var m0, from := tag.mem, |tag.log|;
      var target := PlanWrite(d);
      if target.Err? {
        if WritePlan(m0, d).Ok? {
          InitialPhase(tag.log, from, WritePlan(m0, d).value.layout, WritePlan(m0, d).value.offset, m0,
                       Payload(d), LengthField(|d|));
        }
        return Err(target.error);
      }
      ghost var plan := WritePlan(m0, d).value;
      InitialPhase(tag.log, from, plan.layout, plan.offset, m0, Payload(d), LengthField(|d|));
      PlanFits(m0, d);
      var (layout, offset) := target.value;
      r := WriteTlv(layout, offset, d);
    }

    /** The WRITEs of write_ndef: no bound can trip once the capacity check has passed. */
    method WriteTlv(layout: MemoryLayout, offset: nat, d: seq<byte>)
      returns (r: Result<(), ReaderError>)
      requires Coupled() && Fits(layout, offset, d)
      modifies this`sector, this`cacheBlock, this`cacheData, tag
      ensures Coupled()
      ensures old(tag.log) <= tag.log && SelectsBelow(tag.log, |old(tag.log)|, layout.SectorCount())
      ensures r != Err(Protocol(OutOfRange))
      ensures IsWriteState(layout, offset, old(tag.mem), d, tag.mem)
      ensures AllWriteStates(tag.log, |old(tag.log)|, layout, offset, old(tag.mem), d)
      ensures r.Ok? ==>
        && tag.mem == Written(layout, offset, old(tag.mem), d)
        && WentThroughAll(tag.log, |old(tag.log)|, layout, offset, old(tag.mem), d)
      ensures old(FaultFree(tag.schedule)) ==> FaultFree(tag.schedule) && r.Ok?
    {
      var payload := BuildPayload(d);
      var lBytes: seq<byte> := if |d| < 0xFF then [|d|] else [0xFF, |d| / 256, |d| % 256];
      r := WriteBoth(layout, offset, payload, lBytes);
    }

    /** Writes `first` at an offset and then `second` right behind its first byte: the length goes last. */
    method WriteBoth(layout: MemoryLayout, offset: nat, first: seq<byte>, second: seq<byte>)
      returns (r: Result<(), ReaderError>)
      requires Coupled() && 0 < |second| < |first| && offset + |first| <= layout.dataAreaSize
      requires layout.dataAreaSize < Rank(layout, ADDRESS_SPACE_END)
      modifies this`sector, this`cacheBlock, this`cacheData, tag
      ensures Coupled()
      ensures old(tag.log) <= tag.log && SelectsBelow(tag.log, |old(tag.log)|, layout.SectorCount())
      ensures r != Err(Protocol(OutOfRange))
      ensures IsPhaseState(layout, offset, old(tag.mem), first, second, tag.mem)
      ensures AllPhaseStates(tag.log, |old(tag.log)|, layout, offset, old(tag.mem), first, second)
      ensures r.Ok? ==>
        && tag.mem == Scatter(layout, Scatter(layout, old(tag.mem), offset, first, |first|), offset + 1, second, |second|)
        && WentThroughPhases(tag.log, |old(tag.log)|, layout, offset, old(tag.mem), first, second)
      ensures old(FaultFree(tag.schedule)) ==> FaultFree(tag.schedule) && r.Ok?
    {
      ghost var m0, from := tag.mem, |tag.log|;
      var lastAddr := UsableOffsetToAddress(layout, layout.dataAreaSize - 1);
      var limit := lastAddr.value + 1;
      r := WriteAtOffset(layout, offset, first, limit);
      FirstPhase(tag.log, from, layout, offset, m0, first, second);
      if r.Err? {
        return;
      }
      ghost var log1 := tag.log;
      r := WriteAtOffset(layout, offset + 1, second, limit);
      BothPhases(log1, tag.log, from, layout, offset, m0, first, second);
      if r.Ok? {
        CompleteRun(log1, tag.log, from, layout, offset, m0, first, second);
      }
    }

    /** Writes at a logical offset of the data area, below an address that has the whole data area under it. */
    method WriteAtOffset(layout: MemoryLayout, offset: u16, data: seq<byte>, limit: nat)
      returns (r: Result<(), ReaderError>)
      requires Coupled() && limit <= ADDRESS_SPACE_END && layout.dataAreaSize <= Rank(layout, limit)
      requires data != [] && offset + |data| <= layout.dataAreaSize
      modifies this`sector, this`cacheBlock, this`cacheData, tag
      ensures Coupled()
      ensures old(tag.log) <= tag.log && SelectsBelow(tag.log, |old(tag.log)|, layout.SectorCount())
      ensures r != Err(Protocol(OutOfRange))
      ensures IsPrefixState(layout, old(tag.mem), offset, data, tag.mem)
      ensures AllPrefixStates(tag.log, |old(tag.log)|, layout, old(tag.mem), offset, data)
      ensures r.Ok? ==>
        && tag.mem == Scatter(layout, old(tag.mem), offset, data, |data|)
        && AllVisited(tag.log, |old(tag.log)|, layout, old(tag.mem), offset, data, |data|)
      ensures old(FaultFree(tag.schedule)) ==> FaultFree(tag.schedule) && r.Ok?
    {
      RankMonotone(layout, limit, ADDRESS_SPACE_END);
      var addr := UsableOffsetToAddress(layout, offset);
      r := WriteUsableBytes(layout, addr.value, data, limit);
    }
  }
}
