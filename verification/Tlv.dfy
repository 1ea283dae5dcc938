/** TLV blocks of the data area and the printer for them (src/type2/tlv.rs). */
module Tlv {
  import opened Basics
  import opened TlvLength

  const TLV_NULL: byte := 0x00
  const TLV_LOCK_CONTROL: byte := 0x01
  const TLV_MEMORY_CONTROL: byte := 0x02
  const TLV_NDEF_MESSAGE: byte := 0x03
  const TLV_PROPRIETARY: byte := 0xFD
  const TLV_TERMINATOR: byte := 0xFE

  /** One past the last addressable byte: 255 sectors of 1024 bytes. */
  const ADDRESS_SPACE_END: nat := 255 * 1024

  /** A control descriptor's range must lie inside the address space. */
  predicate AreaInAddressSpace(start: nat, size: nat) {
    start < ADDRESS_SPACE_END && start + size <= ADDRESS_SPACE_END
  }

  datatype LockControlValue = LockControlValue(
    pageAddr: byte,
    byteOffset: byte,
    sizeInBits: u16,
    bytesPerPage: byte,
    bytesLockedPerBit: byte)
  {
    function ByteAddress(): nat {
      ShiftLeft(pageAddr, bytesPerPage) + byteOffset
    }

    function LockByteCount(): nat {
      CeilDiv(sizeInBits, 8)
    }

    /** The values the three descriptor bytes can carry. */
    predicate WellFormed() {
      && pageAddr < 16 && byteOffset < 16
      && 1 <= sizeInBits <= 256
      && 1 <= bytesPerPage < 16 && 1 <= bytesLockedPerBit < 16
      && AreaInAddressSpace(ByteAddress(), LockByteCount())
    }

    static function FromBytes(b0: byte, b1: byte, b2: byte): (r: Result<LockControlValue, Type2Error>)
      ensures r.Ok? ==> r.value.WellFormed()
    {
      if b2 % 16 == 0 || b2 / 16 == 0 then
        Err(InvalidTlv)
      else
        var v := LockControlValue(b0 / 16, b0 % 16, if b1 == 0 then 256 else b1, b2 % 16, b2 / 16);
        if AreaInAddressSpace(v.ByteAddress(), v.LockByteCount()) then Ok(v) else Err(InvalidTlv)
    }

    /** Shifts and casts truncate to eight bits, as in the source. */
    function ToBytes(): (b: seq<byte>)
      ensures |b| == 3
    {
      [(pageAddr * 16) % 256 + byteOffset % 16,
       if sizeInBits == 256 then 0 else sizeInBits % 256,
       (bytesLockedPerBit * 16) % 256 + bytesPerPage % 16]
    }
  }

  datatype MemoryControlValue = MemoryControlValue(
    pageAddr: byte,
    byteOffset: byte,
    sizeInBytes: u16,
    bytesPerPage: byte)
  {
    function ByteAddress(): nat {
      ShiftLeft(pageAddr, bytesPerPage) + byteOffset
    }

    predicate WellFormed() {
      && pageAddr < 16 && byteOffset < 16
      && 1 <= sizeInBytes <= 256
      && 1 <= bytesPerPage < 16
      && AreaInAddressSpace(ByteAddress(), sizeInBytes)
    }

    static function FromBytes(b0: byte, b1: byte, b2: byte): (r: Result<MemoryControlValue, Type2Error>)
      ensures r.Ok? ==> r.value.WellFormed()
    {
      if b2 % 16 == 0 then
        Err(InvalidTlv)
      else
        var v := MemoryControlValue(b0 / 16, b0 % 16, if b1 == 0 then 256 else b1, b2 % 16);
        if AreaInAddressSpace(v.ByteAddress(), v.sizeInBytes) then Ok(v) else Err(InvalidTlv)
    }

    function ToBytes(): (b: seq<byte>)
      ensures |b| == 3
    {
      [(pageAddr * 16) % 256 + byteOffset % 16,
       if sizeInBytes == 256 then 0 else sizeInBytes % 256,
       bytesPerPage % 16]
    }
  }

  datatype Tlv =
    | Null
    | LockControl(lock: LockControlValue)
    | MemoryControl(memory: MemoryControlValue)
    | NdefMessage(message: seq<byte>)
    | Proprietary(value: seq<byte>)
    | Terminator
  {
    predicate IsControl() {
      LockControl? || MemoryControl?
    }

    /** Blocks that have an encoding: in-range descriptors and encodable value lengths. */
    predicate WellFormed() {
      match this
      case LockControl(v) => v.WellFormed()
      case MemoryControl(v) => v.WellFormed()
      case NdefMessage(d) => |d| <= MAX_TLV_LENGTH
      case Proprietary(d) => |d| <= MAX_TLV_LENGTH
      case _ => true
    }

    function ToBytes(): (r: Result<seq<byte>, Type2Error>)
      ensures WellFormed() ==> r.Ok? && r.value != []
    {
      match this
      case Null => Ok([TLV_NULL])
      case Terminator => Ok([TLV_TERMINATOR])
      case LockControl(v) => Ok([TLV_LOCK_CONTROL, 3] + v.ToBytes())
      case MemoryControl(v) => Ok([TLV_MEMORY_CONTROL, 3] + v.ToBytes())
      case NdefMessage(d) =>
        if |d| > MAX_TLV_LENGTH then Err(OutOfRange) else Ok([TLV_NDEF_MESSAGE] + LengthField(|d|) + d)
      case Proprietary(d) =>
        if |d| > MAX_TLV_LENGTH then Err(OutOfRange) else Ok([TLV_PROPRIETARY] + LengthField(|d|) + d)
    }
  }

  /** Printing fails for exactly the values no length field can declare. */
  lemma OversizedRefused(t: Tlv)
    ensures t.ToBytes() == Err(OutOfRange) <==>
      (t.NdefMessage? && |t.message| > 0xFFFE) || (t.Proprietary? && |t.value| > 0xFFFE)
    ensures t.ToBytes().Ok? || t.ToBytes() == Err(OutOfRange)
  {
  }

  /** Print-then-parse is the identity on exactly the well-formed lock descriptors. */
  lemma LockControlRoundTrip(v: LockControlValue)
    ensures var b := v.ToBytes(); LockControlValue.FromBytes(b[0], b[1], b[2]) == Ok(v) <==> v.WellFormed()
  {
    if v.WellFormed() {
      var b := v.ToBytes();
      Unpack(v.pageAddr, v.byteOffset, b[0]);
      Unpack(v.bytesLockedPerBit, v.bytesPerPage, b[2]);
      SizeByte(v.sizeInBits, b[1]);
    }
  }

  lemma MemoryControlRoundTrip(v: MemoryControlValue)
    ensures var b := v.ToBytes(); MemoryControlValue.FromBytes(b[0], b[1], b[2]) == Ok(v) <==> v.WellFormed()
  {
    if v.WellFormed() {
      var b := v.ToBytes();
      Unpack(v.pageAddr, v.byteOffset, b[0]);
      Unpack(0, v.bytesPerPage, b[2]);
      SizeByte(v.sizeInBytes, b[1]);
    }
  }

  /** Parse-then-print gives back the three bytes. */
  lemma LockControlPrintsBack(b0: byte, b1: byte, b2: byte)
    ensures var r := LockControlValue.FromBytes(b0, b1, b2); r.Ok? ==> r.value.ToBytes() == [b0, b1, b2]
  {
    Pack(b0);
    Pack(b2);
    var r := LockControlValue.FromBytes(b0, b1, b2);
    if r.Ok? {
      var b := r.value.ToBytes();
      assert b[0] == b0;
      assert b[1] == b1;
      assert b[2] == b2;
    }
  }

  /** For Memory Control the upper nibble of the last byte is forgotten. */
  lemma MemoryControlPrintsBack(b0: byte, b1: byte, b2: byte)
    ensures var r := MemoryControlValue.FromBytes(b0, b1, b2); r.Ok? ==> r.value.ToBytes() == [b0, b1, b2 % 16]
  {
    Pack(b0);
    Pack(b2);
  }

  /**
   What three bytes of a Lock Control TLV describe: `size` lock bits in the bytes from `start` up to `end`, if page size
   and bytes per lock bit have a value and the range lies below the reserved sector 0xFF.
   */
  lemma LockDescriptor(b0: byte, b1: byte, b2: byte, start: nat, size: nat, end: nat)
    requires start == b0 / 16 * ShiftLeft(1, b2 % 16) + b0 % 16
    requires size == if b1 == 0 then 256 else b1
    requires 8 * (end - start - 1) < size <= 8 * (end - start)
    ensures LockControlValue.FromBytes(b0, b1, b2) ==
      if b2 % 16 != 0 && b2 / 16 != 0 && end <= 255 * 1024
      then Ok(LockControlValue(b0 / 16, b0 % 16, size, b2 % 16, b2 / 16))
      else Err(InvalidTlv)
    ensures var r := LockControlValue.FromBytes(b0, b1, b2);
      r.Ok? ==> r.value.ByteAddress() == start && start + r.value.LockByteCount() == end
  {
    ShiftLeftMultiplies(b0 / 16, b2 % 16);
  }

  /** The same for the `size` bytes of a Memory Control TLV, where the upper nibble of the last byte is ignored. */
  lemma MemoryDescriptor(b0: byte, b1: byte, b2: byte, start: nat, size: nat)
    requires start == b0 / 16 * ShiftLeft(1, b2 % 16) + b0 % 16
    requires size == if b1 == 0 then 256 else b1
    ensures MemoryControlValue.FromBytes(b0, b1, b2) ==
      if b2 % 16 != 0 && start + size <= 255 * 1024
      then Ok(MemoryControlValue(b0 / 16, b0 % 16, size, b2 % 16))
      else Err(InvalidTlv)
    ensures var r := MemoryControlValue.FromBytes(b0, b1, b2);
      r.Ok? ==> r.value.ByteAddress() == start && r.value.sizeInBytes == size
  {
    ShiftLeftMultiplies(b0 / 16, b2 % 16);
  }

  /** Page 10 of 16 bytes: two lock bytes at address 160, one bit for every eight bytes. */
  lemma LockDescriptorAt160()
    ensures var r := LockControlValue.FromBytes(0xA0, 0x0C, 0x34);
      r.Ok? && r.value.ByteAddress() == 160 && r.value.LockByteCount() == 2 && r.value.bytesLockedPerBit == 3
  {
    PageSizes(4);
    LockDescriptor(0xA0, 0x0C, 0x34, 160, 12, 162);
  }

  lemma Unpack(hi: int, lo: int, b: int)
    requires 0 <= hi < 16 && 0 <= lo < 16 && b == (hi * 16) % 256 + lo % 16
    ensures b / 16 == hi && b % 16 == lo
  {
  }

  lemma Pack(b: int)
    requires 0 <= b < 256
    ensures (b / 16 * 16) % 256 + (b % 16) % 16 == b && (b % 16) % 16 == b % 16
  {
  }

  lemma SizeByte(size: int, b: int)
    requires 1 <= size <= 256 && b == if size == 256 then 0 else size % 256
    ensures size == if b == 0 then 256 else b
  {
  }

  /** The printer as the source runs it: it fills a buffer and checks the length before emitting anything. */
  method Print(t: Tlv) returns (r: Result<seq<byte>, Type2Error>)
    ensures r == t.ToBytes()
    ensures t.WellFormed() ==> r.Ok?
  {
    var out: seq<byte>;
    match t {
      case Null =>
        out := [TLV_NULL];
      case Terminator =>
        out := [TLV_TERMINATOR];
      case LockControl(v) =>
        out := [TLV_LOCK_CONTROL];
        out := out + [3];
        assert out == [TLV_LOCK_CONTROL, 3];
        out := out + v.ToBytes();
      case MemoryControl(v) =>
        out := [TLV_MEMORY_CONTROL];
        out := out + [3];
        assert out == [TLV_MEMORY_CONTROL, 3];
        out := out + v.ToBytes();
      case NdefMessage(d) =>
        if |d| > MAX_TLV_LENGTH {
          return Err(OutOfRange);
        }
        out := [TLV_NDEF_MESSAGE];
        var _, out' := EncodeLength(|d|, out);
        out := out' + d;
      case Proprietary(d) =>
        if |d| > MAX_TLV_LENGTH {
          return Err(OutOfRange);
        }
        out := [TLV_PROPRIETARY];
        var _, out' := EncodeLength(|d|, out);
        out := out' + d;
    }
    r := Ok(out);
  }
}
