/** Vocabulary and lemmas of the reader: its state, the READ account, the scanner loop and the pages of a write. */
module ReaderSupport {
  import opened Basics
  import opened Tlv
  import opened TlvScanner
  import opened Memory
  import opened UsableBytes
  import opened NdefProcedures
  import opened TagModel
  import opened Retries
  import opened PageWrites

  datatype SectorState = Known(sector: byte) | Unknown

  /** The answer of a transmission with retries is what its exchange comes to. */
  predicate Concludes(c: Command, exchange: Result<Outcome, ReaderError>, r: Result<seq<byte>, ReaderError>) {
    match exchange
    case Ok(outcome) => r.Ok? && AnswersTo(c, outcome, Ok(r.value))
    case Err(e) => r == Err(e)
  }

  /** What a READ reports: a refusal is an answer of less than 16 bytes, whatever it says. */
  predicate ReadConcludes(exchange: Result<Outcome, ReaderError>, r: Result<seq<byte>, ReaderError>) {
    match exchange
    case Ok(Deliver(_)) => r.Ok?
    case Ok(_) => r == Err(Protocol(InvalidLength))
    case Err(e) => r == Err(e)
  }

  /** What a WRITE reports: a refusal is told by the low nibble of its first byte. */
  predicate WriteConcludes(exchange: Result<Outcome, ReaderError>, r: Result<(), ReaderError>) {
    match exchange
    case Ok(Refuse(raw, _)) =>
      if raw == [] then r == Err(Protocol(InvalidLength))
      else if raw[0] % 16 == 0x0A then r.Ok?
      else r == Err(Protocol(Nack(raw[0] % 16)))
    case Ok(_) => r.Ok?
    case Err(e) => r == Err(e)
  }

  /** A call of transceive_with_retry: what it found, where it leads and what its exchange comes to. */
  datatype Call = Call(
    c: Command,
    active: nat,
    before: seq<byte>,
    after: seq<byte>,
    log: seq<Step>,
    exchange: Result<Outcome, ReaderError>)
  {
    predicate Valid() {
      && c.Valid() && (c.Read? || c.Write?) && IsMemory(before) && active <= MAX_SECTOR
      && after == Effect(c, active, before) == Effect(c, active, after)
    }
  }

  function CallOf(c: Command, active: nat, m: seq<byte>, log: seq<Step>, exchange: Result<Outcome, ReaderError>)
    : (call: Call)
    requires c.Valid() && (c.Read? || c.Write?) && IsMemory(m) && active <= MAX_SECTOR
    ensures call.Valid()
  {
    PutTwice(c, active, m);
    Call(c, active, m, Effect(c, active, m), log, exchange)
  }

  /** The exchange goes on after a loss. */
  predicate GoesOn(exchange: Result<Outcome, ReaderError>, schedule: seq<Outcome>, left: nat, code: nat) {
    exchange == AfterLoss(schedule, left, code)
  }

  /** A transmission of the exchange concludes it or lets it go on. */
  predicate Answers(c: Command, exchange: Result<Outcome, ReaderError>, answer: Result<seq<byte>, nat>,
                    schedule: seq<Outcome>, left: nat) {
    match answer
    case Ok(raw) => Concludes(c, exchange, Ok(raw))
    case Err(code) => GoesOn(exchange, schedule, left, code)
  }

  lemma SendAnswers(c: Command, schedule: seq<Outcome>, left: nat, answer: Result<seq<byte>, nat>)
    requires AnswersTo(c, First(schedule), answer)
    ensures Answers(c, Exchange(schedule, left), answer, Rest(schedule), left)
  {
  }

  /** The payload as write_ndef builds it: tag, a zero length in the field's final width, the message, a Terminator. */
  method BuildPayload(d: seq<byte>) returns (payload: seq<byte>)
    ensures payload == Payload(d)
  {
    payload := [TLV_NDEF_MESSAGE];
    if |d| < 0xFF {
      payload := payload + [0x00];
    } else {
      payload := payload + [0xFF, 0x00, 0x00];
    }
    payload := payload + d;
    payload := payload + [TLV_TERMINATOR];
  }

  /** A protocol result as the reader reports it. */
  function AsReaderResult<T>(r: Result<T, Type2Error>): Result<T, ReaderError> {
    match r
    case Ok(v) => Ok(v)
    case Err(e) => Err(Protocol(e))
  }

  /** The first four bytes of a READ are its block. */
  lemma HeldPage(bytes: seq<byte>, m: seq<byte>, sector: nat, block: byte, at: nat)
    requires HoldsBlocks(bytes, m, sector, block) && at == Address(sector, block)
    ensures at + 4 <= |m| && bytes[..4] == m[at..at + 4]
  {
  }

  lemma ReadThenPut(from: nat, log1: seq<Step>, log2: seq<Step>, before: seq<byte>, after: seq<byte>)
    requires from <= |log1| && NoWrites(log1, from, before)
    requires log1 <= log2 && Between(log2, |log1|, before, after)
    ensures Between(log2, from, before, after)
  {
    assert forall j :: from <= j < |log1| ==> log2[j] == log1[j];
  }

  /** u8 subtraction modulo 256. */
  function WrappingSub(a: byte, b: byte): byte {
    (a - b) % 256
  }

  function BlockOf(addr: nat): byte {
    addr % SECTOR_SIZE / BLOCK_SIZE
  }

  /** The cached READ covers the block in its sector. */
  predicate Covers(cached: Option<byte>, block: byte) {
    cached.Some? && cached.value <= block < cached.value + 4
  }

  /** The modular distance test is only met by blocks the cached READ covers without passing the sector's end. */
  predicate NoWrap(cached: Option<byte>, block: byte) {
    cached.Some? && WrappingSub(block, cached.value) < 4 ==> Covers(cached, block)
  }

  /** Where the reading of an address's sector starts. */
  function SectorStart(addr: nat): nat {
    if addr < SECTOR_SIZE then DATA_START else addr - addr % SECTOR_SIZE
  }

  /** `n` READs are accounted for when the block at `addr` is next: one per 16 bytes, up to the cached READ. */
  predicate Paid(n: int, sector: SectorState, cached: Option<byte>, addr: nat) {
    || 16 * n <= SectorStart(addr) - DATA_START
    || (&& sector.Known? && sector.sector == addr / SECTOR_SIZE && cached.Some? && cached.value < BlockOf(addr)
        && 16 * (n - 1) <= Address(addr / SECTOR_SIZE, cached.value) - DATA_START)
  }

  /** The first address of the page after the one that holds `addr`. */
  function PageEnd(addr: nat): nat {
    addr - addr % 4 + 4
  }

  lemma PageOfAddress(addr: nat)
    requires addr < ADDRESS_SPACE_END
    ensures var (s, block, offset) := AddressToSectorBlock(addr).value;
      && s == addr / SECTOR_SIZE && Address(s, block) == addr - offset && PageEnd(addr) == addr - offset + 4
      && PageEnd(addr) <= ADDRESS_SPACE_END
  {
  }

  /** From index `from` on the memory was one of two states. */
  ghost predicate Between(log: seq<Step>, from: nat, before: seq<byte>, after: seq<byte>) {
    forall j :: from <= j < |log| ==> log[j].mem == before || log[j].mem == after
  }

  /** Writing a page took the memory from `di` bytes done to `next` bytes done, or stopped at one of the two. */
  ghost predicate PageDone(log: seq<Step>, from: nat, m: seq<byte>, before: seq<byte>, after: seq<byte>, di: nat, next: nat,
                           r: Result<nat, ReaderError>) {
    && Between(log, from, before, after) && (m == before || m == after)
    && (r.Ok? ==> r.value == next && m == after && (di < next ==> from < |log| && log[|log| - 1].mem == m))
  }

  /** A page in a run: the states stay prefix states, and none between the two is left out. */
  lemma PageInRun(log: seq<Step>, log': seq<Step>, from: nat, m: seq<byte>, layout: MemoryLayout, m0: seq<byte>, k: nat,
                  data: seq<byte>, di: nat, next: nat, r: Result<nat, ReaderError>)
    requires log <= log' && from <= |log| && di <= next <= |data|
    requires PageDone(log', |log|, m, Scatter(layout, m0, k, data, di), Scatter(layout, m0, k, data, next), di, next, r)
    requires IsCut(layout, k, |data|, di) && IsCut(layout, k, |data|, next)
    requires forall p: nat :: di < p < next ==> !IsCut(layout, k, |data|, p)
    requires AllPrefixStates(log, from, layout, m0, k, data) && AllVisited(log, from, layout, m0, k, data, di)
    ensures AllPrefixStates(log', from, layout, m0, k, data) && IsPrefixState(layout, m0, k, data, m)
    ensures r.Ok? ==> AllVisited(log', from, layout, m0, k, data, next)
  {
    forall j | from <= j < |log'|
      ensures IsPrefixState(layout, m0, k, data, log'[j].mem)
    {
      if j < |log| {
        assert log'[j] == log[j];
      }
    }
    if r.Ok? {
      forall p: nat | 0 < p <= next && IsCut(layout, k, |data|, p)
        ensures Visited(log', from, Scatter(layout, m0, k, data, p))
      {
        if p <= di {
          var j :| from <= j < |log| && log[j].mem == Scatter(layout, m0, k, data, p);
          assert log'[j] == log[j];
        } else {
          assert p == next;
        }
      }
    }
  }

  /** The data done after a page is a cut, and there is none in between. */
  lemma NextCut(layout: MemoryLayout, k: nat, data: seq<byte>, addr: nat, di: nat)
    requires DATA_START <= addr < ADDRESS_SPACE_END && di < |data| && Rank(layout, addr) == k + di
    ensures var next := DoneBelow(layout, k, data, PageEnd(addr));
      && di <= next <= |data| && IsCut(layout, k, |data|, next)
      && (next < |data| ==> Rank(layout, PageEnd(addr)) == k + next)
      && forall p: nat :: di < p < next ==> !IsCut(layout, k, |data|, p)
  {
    var end := PageEnd(addr);
    PageOfAddress(addr);
    assert end % 4 == 0;
    RankMonotone(layout, addr, end);
    var next := DoneBelow(layout, k, data, end);
    forall p: nat | di < p < next
      ensures !IsCut(layout, k, |data|, p)
    {
      forall b: nat | b % 4 == 0 && Rank(layout, b) == k + p
        ensures false
      {
        if b <= addr {
          RankMonotone(layout, b, addr);
        } else {
          assert end <= b;
          RankMonotone(layout, end, b);
        }
      }
    }
  }

  /** READs a faultless pass may send for `count` bytes: one for every 16 bytes up to the last one's address. */
  ghost function ReadBudget(layout: MemoryLayout, count: nat): int {
    if count == 0 || Select(layout, count - 1).None? then 0
    else (Select(layout, count - 1).value - DATA_START) / 16 + 1
  }

  lemma AlignedAddress(addr: nat)
    requires addr % 4 == 0 && addr < ADDRESS_SPACE_END
    ensures addr == Address(addr / SECTOR_SIZE, BlockOf(addr))
    ensures AddressToSectorBlock(addr) == Some((addr / SECTOR_SIZE, BlockOf(addr), 0))
  {
  }

  /** Fetching a block from the cache or with one more READ keeps the account. */
  lemma PaidFetch(n: int, addr: nat, before: Option<byte>, n': int, after: byte)
    requires DATA_START <= addr < ADDRESS_SPACE_END && addr % 4 == 0
    requires 16 * n <= SectorStart(addr) - DATA_START || Paid(n, Known(addr / SECTOR_SIZE), before, addr)
    requires if Covers(before, BlockOf(addr)) then n' == n && Some(after) == before
             else n' <= n + 1 && after == BlockOf(addr)
    ensures Paid(n', Known(addr / SECTOR_SIZE), Some(after), addr + 4)
    ensures n' <= (addr - DATA_START) / 16 + 1
  {
    AlignedAddress(addr);
    assert SectorStart(addr) <= addr;
    assert
      || 16 * n' <= SectorStart(addr) - DATA_START
      || 16 * (n' - 1) <= Address(addr / SECTOR_SIZE, after) - DATA_START;
    PaidNext(n', addr, after);
  }

  lemma PaidNext(n: int, addr: nat, cached: byte)
    requires DATA_START <= addr < ADDRESS_SPACE_END && addr % 4 == 0
    requires cached <= BlockOf(addr)
    requires
      || 16 * n <= SectorStart(addr) - DATA_START
      || 16 * (n - 1) <= Address(addr / SECTOR_SIZE, cached) - DATA_START
    ensures Paid(n, Known(addr / SECTOR_SIZE), Some(cached), addr + 4)
    ensures n <= (addr - DATA_START) / 16 + 1
  {
    AlignedAddress(addr);
  }

  /** Moving on to the next block of a sector keeps the cache ahead of the wrap; the next sector is not selected yet. */
  lemma NextNoWrap(addr: nat, cached: Option<byte>)
    requires addr % 4 == 0 && Covers(cached, BlockOf(addr))
    ensures (addr + 4) / SECTOR_SIZE == addr / SECTOR_SIZE ==> NoWrap(cached, BlockOf(addr + 4))
  {
  }

  /** Reading has got to `addr`: `bytes` are the usable bytes below, without a Terminator tag. */
  predicate Gathered(layout: MemoryLayout, m: seq<byte>, addr: nat, bytes: seq<byte>, state: ScanState) {
    && addr <= |m| && bytes == Gather(layout, m, addr) && |bytes| <= layout.dataAreaSize
    && FirstFire(AtTag, bytes) == None && state == StateAfter(AtTag, bytes)
  }

  lemma ShortStream(layout: MemoryLayout, m: seq<byte>, bytes: seq<byte>)
    requires IsMemory(m) && bytes == Stream(layout, m) && |bytes| < layout.dataAreaSize
    requires FirstFire(AtTag, bytes) == None
    ensures DataArea(layout, m) == Err(OutOfRange)
  {
    assert bytes[..|bytes|] == bytes;
  }

  /** Feeds the usable bytes of one block to the result and the scanner; stops at a Terminator tag or a full result. */
  method ConsumeBlock(layout: MemoryLayout, byteAddr: nat, block: seq<byte>, scanner: Scanner, bytes: seq<byte>,
                      ghost m: seq<byte>)
    returns (result: seq<byte>, stop: bool)
    requires IsMemory(m) && DATA_START <= byteAddr <= ADDRESS_SPACE_END - 4
    requires block == m[byteAddr..byteAddr + 4]
    requires Gathered(layout, m, byteAddr, bytes, scanner.state) && |bytes| < layout.dataAreaSize
    modifies scanner
    ensures !stop ==> Gathered(layout, m, byteAddr + 4, result, scanner.state)
    ensures stop || |result| == layout.dataAreaSize ==>
      IsDataArea(layout, m, result) && (byteAddr - DATA_START) / 16 + 1 <= ReadBudget(layout, |result|)
  {
    result := bytes;
    stop := false;
    var i := 0;
    while i < 4
      invariant 0 <= i <= 4
      invariant Gathered(layout, m, byteAddr + i, result, scanner.state) && |bytes| <= |result|
    {
      var addr := byteAddr + i;
      i := i + 1;
      if layout.IsSkip(addr) {
        GatherNone(layout, m, addr, result, scanner.state);
        continue;
      }
      if |result| >= layout.dataAreaSize {
        AreaComplete(layout, m, byteAddr, addr, result);
        return result, true;
      }
      var b := block[i - 1];
      BlockByte(m, byteAddr, block, i - 1);
      GatherOne(layout, m, addr, result, scanner.state);
      result := result + [b];
      var fired := scanner.Feed(b);
      if fired {
        AreaComplete(layout, m, byteAddr, addr + 1, result);
        return result, true;
      }
    }
    if |result| == layout.dataAreaSize {
      AreaComplete(layout, m, byteAddr, byteAddr + 4, result);
    }
  }

  lemma BlockByte(m: seq<byte>, at: nat, block: seq<byte>, i: nat)
    requires at + 4 <= |m| && block == m[at..at + 4] && i < 4
    ensures block[i] == m[at + i]
  {
  }

  lemma GatherNone(layout: MemoryLayout, m: seq<byte>, addr: nat, bytes: seq<byte>, state: ScanState)
    requires DATA_START <= addr < |m| && Gathered(layout, m, addr, bytes, state) && layout.IsSkip(addr)
    ensures Gathered(layout, m, addr + 1, bytes, state)
  {
    assert bytes + [] == bytes;
  }

  /** The next usable byte is gathered, and the scanner decides whether it ends the data area. */
  lemma GatherOne(layout: MemoryLayout, m: seq<byte>, addr: nat, bytes: seq<byte>, state: ScanState)
    requires DATA_START <= addr < |m| && Gathered(layout, m, addr, bytes, state) && !layout.IsSkip(addr)
    requires |bytes| < layout.dataAreaSize
    ensures bytes + [m[addr]] == Gather(layout, m, addr + 1)
    ensures if Fires(state, m[addr]) then FirstFire(AtTag, bytes + [m[addr]]) == Some(|bytes|)
            else Gathered(layout, m, addr + 1, bytes + [m[addr]], NextState(state, m[addr]))
  {
    FeedNext(AtTag, bytes, m[addr]);
  }

  /** Bytes gathered beyond `addr` that fill the size or end in a Terminator tag are the data area, within the budget. */
  lemma AreaComplete(layout: MemoryLayout, m: seq<byte>, addr: nat, hi: nat, bytes: seq<byte>)
    requires IsMemory(m) && DATA_START <= addr <= hi <= ADDRESS_SPACE_END && bytes == Gather(layout, m, hi)
    requires Rank(layout, addr) < |bytes| <= layout.dataAreaSize
    requires
      || FirstFire(AtTag, bytes) == Some(|bytes| - 1)
      || (FirstFire(AtTag, bytes) == None && |bytes| == layout.dataAreaSize)
    ensures IsDataArea(layout, m, bytes) && (addr - DATA_START) / 16 + 1 <= ReadBudget(layout, |bytes|)
  {
    GatheredArea(layout, m, hi, bytes);
    BudgetCovers(layout, addr, |bytes|);
  }

  lemma GatheredArea(layout: MemoryLayout, m: seq<byte>, hi: nat, bytes: seq<byte>)
    requires IsMemory(m) && hi <= ADDRESS_SPACE_END && bytes == Gather(layout, m, hi)
    requires |bytes| <= layout.dataAreaSize
    requires
      || FirstFire(AtTag, bytes) == Some(|bytes| - 1)
      || (FirstFire(AtTag, bytes) == None && |bytes| == layout.dataAreaSize)
    ensures IsDataArea(layout, m, bytes) && |bytes| <= Rank(layout, ADDRESS_SPACE_END)
  {
    GatherGrows(layout, m, hi, ADDRESS_SPACE_END);
  }

  /** The budget for more bytes than lie below an address covers the READs up to that address. */
  lemma BudgetCovers(layout: MemoryLayout, addr: nat, count: nat)
    requires DATA_START <= addr && Rank(layout, addr) < count <= Rank(layout, ADDRESS_SPACE_END)
    ensures (addr - DATA_START) / 16 + 1 <= ReadBudget(layout, count)
  {
    SelectExact(layout, count - 1);
    SelectAbove(layout, count - 1, addr);
  }

  /** Carrying out a command again changes nothing. */
  lemma PutTwice(c: Command, active: nat, m: seq<byte>)
    requires c.Valid() && IsMemory(m) && active <= MAX_SECTOR
    ensures Effect(c, active, Effect(c, active, m)) == Effect(c, active, m)
  {
  }
}
