/** Capability Container and memory layout of a Type 2 Tag (src/type2/cc.rs, src/type2/memory.rs). */
module Memory {
  import opened Basics
  import opened Tlv

  const BLOCK_SIZE: nat := 4
  const SECTOR_SIZE: nat := 1024
  const MAX_SECTOR: byte := 0xFE
  const CC_BLOCK: byte := 3
  const DATA_START: nat := 16
  const STATIC_DATA_AREA_SIZE: nat := 48

  // ---- Capability Container ----

  datatype AccessCondition = Granted | Denied | ProprietaryAccess(nibble: byte) | Rfu(nibble: byte)

  function AccessFromNibble(nibble: byte): AccessCondition {
    if nibble == 0 then Granted
    else if nibble == 15 then Denied
    else if nibble >= 8 then ProprietaryAccess(nibble)
    else Rfu(nibble)
  }

  datatype CapabilityContainer = CapabilityContainer(
    versionMajor: byte,
    versionMinor: byte,
    sizeField: byte,
    readAccess: AccessCondition,
    writeAccess: AccessCondition)
  {
    function DataAreaSize(): (n: u16)
      ensures n <= 2040
    {
      var size: int := sizeField; size * 8
    }

    predicate IsDynamic() {
      sizeField > 6
    }

    predicate IsValid() {
      versionMajor == 1 && readAccess == Granted
    }
  }

  function ParseCC(b: seq<byte>): (r: Result<CapabilityContainer, Type2Error>)
    requires |b| >= 4
  {
    if b[0] != 0xE1 then
      Err(InvalidMagic(b[0]))
    else if b[1] / 16 > 1 then
      Err(UnsupportedVersion(b[1] / 16, b[1] % 16))
    else
      Ok(CapabilityContainer(b[1] / 16, b[1] % 16, b[2], AccessFromNibble(b[3] / 16), AccessFromNibble(b[3] % 16)))
  }

  // ---- areas ----

  /** Addition that clamps at the top of the address type instead of wrapping to a low address. */
  function SaturatingAdd(a: u32, b: u16): (c: u32)
  {
    Min(a + b, 0xFFFF_FFFF)
  }

  datatype LockArea = LockArea(byteAddress: u32, sizeInBits: u16, bytesPerLockBit: nat) {
    function LockByteCount(): u16 {
      CeilDiv(sizeInBits, 8)
    }

    predicate Contains(addr: int) {
      byteAddress <= addr < SaturatingAdd(byteAddress, LockByteCount())
    }
  }

  datatype ReservedArea = ReservedArea(byteAddress: u32, size: u16) {
    predicate Contains(addr: int) {
      byteAddress <= addr < SaturatingAdd(byteAddress, size)
    }
  }

  function LockAreaOf(v: LockControlValue): LockArea
    requires v.WellFormed()
  {
    LockArea(v.ByteAddress(), v.sizeInBits, ShiftLeft(1, v.bytesLockedPerBit))
  }

  function ReservedAreaOf(v: MemoryControlValue): ReservedArea
    requires v.WellFormed()
  {
    ReservedArea(v.ByteAddress(), v.sizeInBytes)
  }

  /** An accepted descriptor's area is exactly its bytes: it ends inside the address space, so nothing is clamped. */
  lemma DescribedAreas(lock: LockControlValue, memory: MemoryControlValue, a: nat)
    requires lock.WellFormed() && memory.WellFormed()
    ensures LockAreaOf(lock).Contains(a) <==> lock.ByteAddress() <= a < lock.ByteAddress() + CeilDiv(lock.sizeInBits, 8)
    ensures ReservedAreaOf(memory).Contains(a) <==> memory.ByteAddress() <= a < memory.ByteAddress() + memory.sizeInBytes
    ensures LockAreaOf(lock).Contains(a) || ReservedAreaOf(memory).Contains(a) ==> a < ADDRESS_SPACE_END
  {
  }

  /** A lock bit of a described area stands for two to 32768 bytes. */
  lemma LockBitBytes(lock: LockControlValue)
    requires lock.WellFormed()
    ensures LockAreaOf(lock).bytesPerLockBit ==
      [2, 4, 8, 16, 32, 64, 128, 256, 512, 1024, 2048, 4096, 8192, 16384, 32768][lock.bytesLockedPerBit - 1]
  {
    PageSizes(lock.bytesLockedPerBit);
  }

  /** The lock area a dynamic tag has when no Lock Control TLV says otherwise: right behind the data area. */
  function DefaultDynamicLockArea(dataAreaSize: u16): (area: LockArea)
    requires dataAreaSize <= 2040
    ensures forall a :: area.Contains(a) ==> DATA_START + dataAreaSize <= a
    ensures dataAreaSize > STATIC_DATA_AREA_SIZE ==> area.Contains(DATA_START + dataAreaSize)
    ensures area.bytesPerLockBit == 8
    ensures dataAreaSize > STATIC_DATA_AREA_SIZE ==>
      8 * (area.sizeInBits - 1) < dataAreaSize - STATIC_DATA_AREA_SIZE <= 8 * area.sizeInBits
  {
    var extra := if dataAreaSize > STATIC_DATA_AREA_SIZE then dataAreaSize - STATIC_DATA_AREA_SIZE else 0;
    LockArea(DATA_START + dataAreaSize, CeilDiv(extra, 8), 8)
  }

  // ---- layout ----

  datatype MemoryLayout = MemoryLayout(
    dataAreaSize: u16,
    lockAreas: seq<LockArea>,
    reservedAreas: seq<ReservedArea>)
  {
    /** Whether an address belongs to a lock or reserved area. */
    predicate IsSkip(addr: int) {
      || (exists i :: 0 <= i < |lockAreas| && lockAreas[i].Contains(addr))
      || (exists i :: 0 <= i < |reservedAreas| && reservedAreas[i].Contains(addr))
    }

    function TotalBytes(): nat {
      dataAreaSize + DATA_START + LockBytes(lockAreas) + ReservedBytes(reservedAreas)
    }

    function SectorCount(): (n: byte) {
      Min(CeilDiv(TotalBytes(), SECTOR_SIZE), 255)
    }
  }

  /** The sector count is the least number of 1024-byte sectors that holds all bytes, clamped below sector 0xFF. */
  lemma SectorCountExact(layout: MemoryLayout)
    ensures var n: int := layout.SectorCount();
      var total := 16 + layout.dataAreaSize + LockBytes(layout.lockAreas) + ReservedBytes(layout.reservedAreas);
      1024 * (n - 1) < total && (total <= 1024 * n || n == 255)
  {
  }

  function LockBytes(areas: seq<LockArea>): nat {
    if areas == [] then 0 else LockBytes(areas[..|areas| - 1]) + areas[|areas| - 1].LockByteCount()
  }

  function ReservedBytes(areas: seq<ReservedArea>): nat {
    if areas == [] then 0 else ReservedBytes(areas[..|areas| - 1]) + areas[|areas| - 1].size
  }

  predicate AllWellFormed(ts: seq<Tlv>) {
    forall i :: 0 <= i < |ts| ==> ts[i].IsControl() ==> ts[i].WellFormed()
  }

  function LockAreasOf(ts: seq<Tlv>): seq<LockArea>
    requires AllWellFormed(ts)
  {
    if ts == [] then [] else
    var last := ts[|ts| - 1];
    LockAreasOf(ts[..|ts| - 1]) + if last.LockControl? then [LockAreaOf(last.lock)] else []
  }

  function ReservedAreasOf(ts: seq<Tlv>): seq<ReservedArea>
    requires AllWellFormed(ts)
  {
    if ts == [] then [] else
    var last := ts[|ts| - 1];
    ReservedAreasOf(ts[..|ts| - 1]) + if last.MemoryControl? then [ReservedAreaOf(last.memory)] else []
  }

  /** The layout that a Capability Container and a list of TLVs describe. */
  function LayoutOf(cc: CapabilityContainer, ts: seq<Tlv>): (layout: MemoryLayout)
    requires AllWellFormed(ts)
    ensures layout.dataAreaSize == cc.DataAreaSize()
  {
    var size := cc.DataAreaSize();
    var locks := LockAreasOf(ts);
    MemoryLayout(
      size,
      if cc.IsDynamic() && locks == [] then [DefaultDynamicLockArea(size)] else locks,
      ReservedAreasOf(ts))
  }

  method BuildLayout(cc: CapabilityContainer, tlvs: seq<Tlv>) returns (layout: MemoryLayout)
    requires AllWellFormed(tlvs)
    ensures layout == LayoutOf(cc, tlvs)
  {
    var lockAreas: seq<LockArea> := [];
    var reservedAreas: seq<ReservedArea> := [];
    for i := 0 to |tlvs|
      invariant lockAreas == LockAreasOf(tlvs[..i])
      invariant reservedAreas == ReservedAreasOf(tlvs[..i])
    {
      assert tlvs[..i + 1][..i] == tlvs[..i];
      match tlvs[i] {
        case LockControl(lock) =>
          lockAreas := lockAreas + [LockAreaOf(lock)];
        case MemoryControl(memory) =>
          reservedAreas := reservedAreas + [ReservedAreaOf(memory)];
        case _ =>
      }
    }
    assert tlvs[..|tlvs|] == tlvs;
    var size := cc.DataAreaSize();
    if cc.IsDynamic() && lockAreas == [] {
      lockAreas := lockAreas + [DefaultDynamicLockArea(size)];
    }
    layout := MemoryLayout(size, lockAreas, reservedAreas);
  }

  /** An address that the TLV describes as a lock byte or as reserved. */
  predicate CoveredBy(t: Tlv, addr: int) {
    match t
    case LockControl(v) => 0 <= addr - v.ByteAddress() && 8 * (addr - v.ByteAddress()) < v.sizeInBits
    case MemoryControl(v) => 0 <= addr - v.ByteAddress() < v.sizeInBytes
    case _ => false
  }

  /** An address among the default lock bytes: one lock bit for every eight bytes of the data area beyond 48. */
  predicate IsDefaultLockByte(sizeField: byte, addr: int) {
    var size: int := sizeField;
    var first := 16 + 8 * size;
    0 <= addr - first && 8 * (addr - first) < size - 6
  }

  /**
   What a layout leaves out: exactly the described bytes and, on a dynamic tag without Lock Control, the default lock
   bytes behind the data area.
   */
  lemma SkippedExactly(cc: CapabilityContainer, ts: seq<Tlv>, addr: int)
    requires AllWellFormed(ts)
    ensures LayoutOf(cc, ts).IsSkip(addr) <==>
      || (exists t :: t in ts && CoveredBy(t, addr))
      || (cc.sizeField > 6 && (forall t :: t in ts ==> !t.LockControl?) && IsDefaultLockByte(cc.sizeField, addr))
  {
    LocksDescribe(ts, addr);
    ReservedDescribe(ts, addr);
    var layout := LayoutOf(cc, ts);
    if cc.sizeField > 6 {
      DefaultLockBytesAt(cc, addr);
      InLocksNext([], DefaultDynamicLockArea(cc.DataAreaSize()), addr);
    }
    assert layout.IsSkip(addr) <==> InLocks(layout.lockAreas, addr) || InReserved(layout.reservedAreas, addr);
  }

  predicate InLocks(areas: seq<LockArea>, addr: int) {
    exists i :: 0 <= i < |areas| && areas[i].Contains(addr)
  }

  predicate InReserved(areas: seq<ReservedArea>, addr: int) {
    exists i :: 0 <= i < |areas| && areas[i].Contains(addr)
  }

  lemma InLocksNext(areas: seq<LockArea>, area: LockArea, addr: int)
    ensures InLocks(areas + [area], addr) <==> InLocks(areas, addr) || area.Contains(addr)
  {
    var all := areas + [area];
    assert all[|areas|] == area;
    assert forall i :: 0 <= i < |areas| ==> all[i] == areas[i];
  }

  lemma InReservedNext(areas: seq<ReservedArea>, area: ReservedArea, addr: int)
    ensures InReserved(areas + [area], addr) <==> InReserved(areas, addr) || area.Contains(addr)
  {
    var all := areas + [area];
    assert all[|areas|] == area;
    assert forall i :: 0 <= i < |areas| ==> all[i] == areas[i];
  }

  lemma DefaultLockBytesAt(cc: CapabilityContainer, addr: int)
    requires cc.sizeField > 6
    ensures cc.IsDynamic()
    ensures DefaultDynamicLockArea(cc.DataAreaSize()).Contains(addr) <==> IsDefaultLockByte(cc.sizeField, addr)
  {
  }

  lemma {:induction false} LocksDescribe(ts: seq<Tlv>, addr: int)
    requires AllWellFormed(ts)
    ensures LockAreasOf(ts) == [] <==> forall t :: t in ts ==> !t.LockControl?
    ensures InLocks(LockAreasOf(ts), addr) <==> exists t :: t in ts && t.LockControl? && CoveredBy(t, addr)
  {
    if ts != [] {
      var init, last := ts[..|ts| - 1], ts[|ts| - 1];
      assert ts == init + [last];
      LocksDescribe(init, addr);
      if last.LockControl? {
        InLocksNext(LockAreasOf(init), LockAreaOf(last.lock), addr);
      } else {
        assert LockAreasOf(ts) == LockAreasOf(init);
      }
    }
  }

  lemma {:induction false} ReservedDescribe(ts: seq<Tlv>, addr: int)
    requires AllWellFormed(ts)
    ensures InReserved(ReservedAreasOf(ts), addr) <==> exists t :: t in ts && t.MemoryControl? && CoveredBy(t, addr)
  {
    if ts != [] {
      var init, last := ts[..|ts| - 1], ts[|ts| - 1];
      assert ts == init + [last];
      ReservedDescribe(init, addr);
      if last.MemoryControl? {
        InReservedNext(ReservedAreasOf(init), ReservedAreaOf(last.memory), addr);
      } else {
        assert ReservedAreasOf(ts) == ReservedAreasOf(init);
      }
    }
  }

  // ---- addresses ----

  /** The sector, block and offset of a linear address; none beyond sector 0xFE. */
  function AddressToSectorBlock(addr: nat): (r: Option<(byte, byte, byte)>)
    ensures r.Some? <==> addr < ADDRESS_SPACE_END
    ensures r.Some? ==>
      var (sector, block, offset) := r.value;
      sector <= MAX_SECTOR && offset < 4 && addr == Address(sector, block) + offset
  {
    var sector := addr / SECTOR_SIZE;
    if sector > MAX_SECTOR then
      None
    else
      var within := addr % SECTOR_SIZE;
      Some((sector, within / BLOCK_SIZE, within % BLOCK_SIZE))
  }

  /** The first address of a block. */
  function Address(sector: nat, block: nat): nat {
    sector * SECTOR_SIZE + block * BLOCK_SIZE
  }

  function SectorBlockToAddress(sector: byte, block: byte, offset: byte): Option<nat> {
    if sector > MAX_SECTOR then None else Some(Address(sector, block) + offset)
  }

  /** The two conversions are inverse on every address of the protocol, and only sector 0xFF has none. */
  lemma AddressRoundTrip(sector: byte, block: byte, offset: byte, addr: nat)
    requires offset < 4
    ensures sector <= MAX_SECTOR ==>
      AddressToSectorBlock(SectorBlockToAddress(sector, block, offset).value) == Some((sector, block, offset))
    ensures addr < ADDRESS_SPACE_END ==>
      var (s, b, o) := AddressToSectorBlock(addr).value; SectorBlockToAddress(s, b, o) == Some(addr)
  {
    var a := Address(sector, block) + offset;
    AddressParts(sector, block, offset, a);
    if sector <= MAX_SECTOR {
      assert AddressToSectorBlock(a) == Some((sector, block, offset));
    }
  }

  lemma AddressParts(sector: byte, block: byte, offset: byte, a: nat)
    requires offset < 4 && a == sector * 1024 + block * 4 + offset
    ensures a / 1024 == sector && a % 1024 / 4 == block && a % 1024 % 4 == offset
  {
    var within: nat := block * 4 + offset;
    assert within < 1024 && a == 1024 * sector + within;
    assert a / 1024 == sector && a % 1024 == within;
  }
}
