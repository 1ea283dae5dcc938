/**
 What the NDEF detection, read and write procedures (sections 6.4.1 to 6.4.3 of T2TOP 1.1) compute from a
 tag's memory. `Reader.dfy` proves that the reader does this through any faults of the transport.
 */
module NdefProcedures {
  import opened Basics
  import opened TlvLength
  import opened Tlv
  import opened TlvParser
  import opened TlvScanner
  import opened Memory
  import opened UsableBytes

  // ---- layouts described by a tag never exhaust the address space ----

  function Controls(ts: seq<Tlv>): nat {
    if ts == [] then 0 else Controls(ts[..|ts| - 1]) + if ts[|ts| - 1].IsControl() then 1 else 0
  }

  lemma {:induction false} ControlsAppend(t: Option<Tlv>, ts: seq<Tlv>)
    ensures Controls(Listed(t) + ts) == Controls(ts) + if t.Some? && t.value.IsControl() then 1 else 0
  {
    var all := Listed(t) + ts;
    if ts == [] {
      assert all == Listed(t);
      assert t.Some? ==> Listed(t)[..0] == [];
    } else {
      assert all[..|all| - 1] == Listed(t) + ts[..|ts| - 1];
      ControlsAppend(t, ts[..|ts| - 1]);
    }
  }

  /** Parsed control TLVs are well-formed, and each took at least five bytes of the stream. */
  lemma {:induction false} ParsedControls(s: seq<byte>)
    requires Parse(s).Ok?
    ensures AllWellFormed(Parse(s).value)
    ensures 5 * Controls(Parse(s).value) <= |s|
  {
    if s != [] {
      var b := ParseBlock(s).value;
      if b.tlv != Some(Terminator) {
        ParsedControls(s[b.size..]);
        ControlsAppend(b.tlv, Parse(s[b.size..]).value);
      } else {
        assert [Terminator][..0] == [];
      }
    }
  }

  lemma {:induction false} ControlAreas(ts: seq<Tlv>)
    requires AllWellFormed(ts)
    ensures LockBytes(LockAreasOf(ts)) + ReservedBytes(ReservedAreasOf(ts)) <= 256 * Controls(ts)
  {
    if ts != [] {
      var init := ts[..|ts| - 1];
      ControlAreas(init);
      var last := ts[|ts| - 1];
      assert last.LockControl? || LockAreasOf(ts) == LockAreasOf(init);
      assert last.MemoryControl? || ReservedAreasOf(ts) == ReservedAreasOf(init);
      if last.LockControl? {
        LockBytesSnoc(LockAreasOf(init), LockAreaOf(last.lock));
      } else if last.MemoryControl? {
        ReservedBytesSnoc(ReservedAreasOf(init), ReservedAreaOf(last.memory));
      }
    }
  }

  lemma LockBytesSnoc(areas: seq<LockArea>, a: LockArea)
    ensures LockBytes(areas + [a]) == LockBytes(areas) + a.LockByteCount()
  {
    assert (areas + [a])[..|areas|] == areas;
  }

  lemma ReservedBytesSnoc(areas: seq<ReservedArea>, a: ReservedArea)
    ensures ReservedBytes(areas + [a]) == ReservedBytes(areas) + a.size
  {
    assert (areas + [a])[..|areas|] == areas;
  }

  /** A layout described by a tag: built from the TLVs of at most one data area. */
  predicate Described(ts: seq<Tlv>) {
    AllWellFormed(ts) && 5 * Controls(ts) <= 2040
  }

  /** Lookup bound: every u16 offset has an address in a described layout, with at most the areas in between. */
  lemma LookupBound(cc: CapabilityContainer, ts: seq<Tlv>, n: nat)
    requires Described(ts) && n < 0x1_0000
    ensures var layout := LayoutOf(cc, ts);
      && Select(layout, n).Some?
      && Select(layout, n).value <= DATA_START + n + LockBytes(layout.lockAreas) + ReservedBytes(layout.reservedAreas)
      && n < Rank(layout, ADDRESS_SPACE_END)
  {
    var layout := LayoutOf(cc, ts);
    AreasBounded(cc, ts);
    SkippedBytes(layout, ADDRESS_SPACE_END);
    SelectExact(layout, n);
    SkippedBytes(layout, Select(layout, n).value);
  }

  lemma AreasBounded(cc: CapabilityContainer, ts: seq<Tlv>)
    requires Described(ts)
    ensures var layout := LayoutOf(cc, ts);
      LockBytes(layout.lockAreas) + ReservedBytes(layout.reservedAreas) <= 104480
  {
    ControlAreas(ts);
    DefaultLockBytes(cc.DataAreaSize());
  }

  /** The default lock area has at most 32 bytes. */
  lemma DefaultLockBytes(size: u16)
    requires size <= 2040
    ensures LockBytes([DefaultDynamicLockArea(size)]) <= 32
  {
    var lock := DefaultDynamicLockArea(size);
    LockBytesSnoc([], lock);
    assert [] + [lock] == [lock];
  }

  // ---- detection and reading ----

  /** The Capability Container of a tag: block 3 of sector 0. */
  function CCOf(m: seq<byte>): Result<CapabilityContainer, Type2Error>
    requires IsMemory(m)
  {
    ParseCC(m[12..16])
  }

  /** The data area under a layout: its first `dataAreaSize` usable bytes, cut after the first Terminator tag. */
  function DataArea(layout: MemoryLayout, m: seq<byte>): (r: Result<seq<byte>, Type2Error>)
    requires IsMemory(m)
    ensures r.Ok? ==> |r.value| <= layout.dataAreaSize && r.value <= Stream(layout, m)
  {
    var s := Stream(layout, m);
    var area := s[..Min(|s|, layout.dataAreaSize)];
    match FirstFire(AtTag, area)
    case Some(k) => Ok(area[..k + 1])
    case None => if |s| < layout.dataAreaSize then Err(OutOfRange) else Ok(area)
  }

  /** The bytes are a complete data area: they end with the first Terminator tag, or there are as many as the size says. */
  predicate IsDataArea(layout: MemoryLayout, m: seq<byte>, bytes: seq<byte>)
    requires IsMemory(m)
  {
    && bytes <= Stream(layout, m) && |bytes| <= layout.dataAreaSize
    && match FirstFire(AtTag, bytes)
       case Some(k) => k == |bytes| - 1
       case None => |bytes| == layout.dataAreaSize
  }

  lemma CompleteArea(layout: MemoryLayout, m: seq<byte>, bytes: seq<byte>)
    requires IsMemory(m) && IsDataArea(layout, m, bytes)
    ensures DataArea(layout, m) == Ok(bytes)
  {
    var s := Stream(layout, m);
    var area := s[..Min(|s|, layout.dataAreaSize)];
    assert area[..|bytes|] == bytes;
    FirstFireIsLocal(AtTag, area, |bytes|);
    if |bytes| == layout.dataAreaSize {
      assert area == bytes;
    }
  }

  predicate HasControl(ts: seq<Tlv>) {
    exists i :: 0 <= i < |ts| && ts[i].IsControl()
  }

  /** The bytes a detection works on and the layout they were read with. */
  datatype View = View(layout: MemoryLayout, bytes: seq<byte>)

  /** Two-pass detection: the control TLVs of a first read shape the second one on a dynamic tag. */
  function ReadView(cc: CapabilityContainer, m: seq<byte>): Result<View, Type2Error>
    requires IsMemory(m)
  {
    var basic := LayoutOf(cc, []);
    var first :- DataArea(basic, m);
    var tlvs :- Parse(first);
    ParsedControls(first);
    if cc.IsDynamic() && HasControl(tlvs) then
      var full := LayoutOf(cc, tlvs);
      var bytes :- DataArea(full, m);
      Ok(View(full, bytes))
    else
      Ok(View(basic, first))
  }

  /** The layout of a detection is one the tag describes. */
  lemma ViewLayout(cc: CapabilityContainer, m: seq<byte>)
    requires IsMemory(m) && ReadView(cc, m).Ok?
    ensures var v := ReadView(cc, m).value; exists ts :: Described(ts) && v.layout == LayoutOf(cc, ts)
    ensures |ReadView(cc, m).value.bytes| <= cc.DataAreaSize()
    ensures ReadView(cc, m).value.bytes <= Stream(ReadView(cc, m).value.layout, m)
  {
    var basic := LayoutOf(cc, []);
    var first := DataArea(basic, m).value;
    ParsedControls(first);
    assert Described([]);
    assert Described(Parse(first).value);
  }

  /** The data area of a described layout can always be read. */
  lemma DescribedAreaReadable(cc: CapabilityContainer, ts: seq<Tlv>, m: seq<byte>)
    requires IsMemory(m) && Described(ts)
    ensures DataArea(LayoutOf(cc, ts), m).Ok?
  {
    LookupBound(cc, ts, cc.DataAreaSize());
  }

  /** The NDEF message a tag presents: empty if there is no NDEF Message TLV. */
  function NdefOf(m: seq<byte>): Result<seq<byte>, Type2Error>
    requires IsMemory(m)
  {
    var cc :- CCOf(m);
    if !cc.IsValid() then
      Err(InvalidMagic(0))
    else
      var view :- ReadView(cc, m);
      var tlvs :- Parse(view.bytes);
      Ok(FirstNdef(tlvs))
  }

  // ---- writing ----

  /** What write_ndef puts at the NDEF TLV: tag, a zero length, the message and a Terminator. */
  function Payload(d: seq<byte>): (p: seq<byte>)
    ensures |p| == 2 + LengthFieldSize(|d|) + |d|
    ensures p[0] == TLV_NDEF_MESSAGE
  {
    [TLV_NDEF_MESSAGE] + (if |d| < 0xFF then [0x00] else [0xFF, 0x00, 0x00]) + d + [TLV_TERMINATOR]
  }

  function LengthFieldSize(n: nat): nat {
    if n < 0xFF then 1 else 3
  }

  /** Where the message goes: the layout written through and the logical offset of the NDEF TLV. */
  datatype Plan = Plan(cc: CapabilityContainer, view: View, tlvs: seq<Tlv>, layout: MemoryLayout, offset: nat)

  /** The checks of write_ndef, in order; all of them come before the first WRITE. */
  function WritePlan(m: seq<byte>, d: seq<byte>): Result<Plan, Type2Error>
    requires IsMemory(m)
  {
    var cc :- CCOf(m);
    if !cc.IsValid() then
      Err(InvalidMagic(0))
    else if cc.writeAccess != Granted then
      Err(ReadOnly)
    else
      var view :- ReadView(cc, m);
      var tlvs :- Parse(view.bytes);
      ParsedControls(view.bytes);
      if |d| > MAX_TLV_LENGTH then
        Err(OutOfRange)
      else if SummedOffset(tlvs).None? then
        Err(InvalidTlv)
      else
        var offset := SummedOffset(tlvs).value;
        if offset + |Payload(d)| > cc.DataAreaSize() then
          Err(OutOfRange)
        else
          Ok(Plan(cc, view, tlvs, LayoutOf(cc, tlvs), offset))
  }

  /** The four bytes of block 3 that allow reading: magic number, major version 1 and read access. */
  predicate Readable(m: seq<byte>)
    requires IsMemory(m)
  {
    m[12] == 0xE1 && m[13] / 16 == 1 && m[15] / 16 == 0
  }

  /** Every other tag is refused, for reading and writing alike, with the error of the first condition that fails. */
  lemma UnreadableRefused(m: seq<byte>, d: seq<byte>)
    requires IsMemory(m) && !Readable(m)
    ensures NdefOf(m).Err? && WritePlan(m, d).Err? && NdefOf(m).error == WritePlan(m, d).error ==
      if m[12] != 0xE1 then InvalidMagic(m[12])
      else if m[13] / 16 > 1 then UnsupportedVersion(m[13] / 16, m[13] % 16)
      else InvalidMagic(0)
  {
    ContainerAccess(m);
  }

  lemma ContainerAccess(m: seq<byte>)
    requires IsMemory(m)
    ensures m[12] != 0xE1 ==> CCOf(m) == Err(InvalidMagic(m[12]))
    ensures m[12] == 0xE1 && m[13] / 16 > 1 ==> CCOf(m) == Err(UnsupportedVersion(m[13] / 16, m[13] % 16))
    ensures m[12] == 0xE1 && m[13] / 16 <= 1 ==>
      && CCOf(m).Ok? && CCOf(m).value.sizeField == m[14]
      && (CCOf(m).value.IsValid() <==> Readable(m))
      && (CCOf(m).value.writeAccess == Granted <==> m[15] % 16 == 0)
  {
    assert m[12..16] == [m[12], m[13], m[14], m[15]];
  }

  /** A readable tag can only fail to be read because its TLVs do not parse. */
  lemma ReadableRead(m: seq<byte>)
    requires IsMemory(m) && Readable(m)
    ensures CCOf(m).Ok?
    ensures var view := ReadView(CCOf(m).value, m);
      NdefOf(m) == if view.Ok? && Parse(view.value.bytes).Ok? then Ok(FirstNdef(Parse(view.value.bytes).value))
                   else Err(InvalidTlv)
  {
    ContainerAccess(m);
    ViewReadable(CCOf(m).value, m);
  }

  lemma ViewReadable(cc: CapabilityContainer, m: seq<byte>)
    requires IsMemory(m)
    ensures ReadView(cc, m).Err? ==> ReadView(cc, m).error == InvalidTlv
  {
    DescribedAreaReadable(cc, [], m);
    var first := DataArea(LayoutOf(cc, []), m).value;
    if Parse(first).Ok? {
      ParsedControls(first);
      DescribedAreaReadable(cc, Parse(first).value, m);
    }
  }

  /** A tag that can be read but whose write access nibble is not zero is read-only, whatever its data area holds. */
  lemma ReadOnlyRefused(m: seq<byte>, d: seq<byte>)
    requires IsMemory(m) && Readable(m)
    ensures WritePlan(m, d) == Err(ReadOnly) <==> m[15] % 16 != 0
  {
    ContainerAccess(m);
    ViewReadable(CCOf(m).value, m);
  }

  /** Only tags whose block 3 allows reading and writing are written to. */
  lemma PlannedIsWritable(m: seq<byte>, d: seq<byte>)
    requires IsMemory(m) && WritePlan(m, d).Ok?
    ensures m[12] == 0xE1 && m[13] / 16 == 1 && m[15] == 0
  {
    if Readable(m) {
      ReadOnlyRefused(m, d);
    } else {
      UnreadableRefused(m, d);
    }
  }

  /**
   The checks of a write on a writable tag: an unreadable tag or one without an NDEF TLV is refused as invalid, and
   exactly those messages are out of range that no length field can declare or that do not fit with tag, length field
   and Terminator behind the summed offset.
   */
  lemma RefusalsExact(m: seq<byte>, d: seq<byte>)
    requires IsMemory(m) && Readable(m) && m[15] == 0
    ensures NdefOf(m).Err? ==> WritePlan(m, d) == Err(InvalidTlv)
    ensures NdefOf(m).Ok? ==>
      var s := ReadView(CCOf(m).value, m).value.bytes;
      var offset := SummedOffset(Parse(s).value);
      && (WritePlan(m, d) == Err(OutOfRange) <==>
          || |d| > 0xFFFE
          || (offset.Some? && offset.value + 1 + (if |d| < 0xFF then 1 else 3) + |d| + 1 > 8 * (m[14] as int)))
      && (WritePlan(m, d) == Err(InvalidTlv) <==> |d| <= 0xFFFE && NdefPosition(s).None?)
      && (WritePlan(m, d).Err? ==> WritePlan(m, d).error in {OutOfRange, InvalidTlv})
  {
    ContainerAccess(m);
    ReadableRead(m);
    ReadOnlyRefused(m, d);
    if NdefOf(m).Ok? {
      OffsetExact(ReadView(CCOf(m).value, m).value.bytes);
    }
  }

  /** The payload lies inside the usable bytes of the data area, and all their addresses exist. */
  predicate Fits(layout: MemoryLayout, k: nat, d: seq<byte>) {
    && |d| <= MAX_TLV_LENGTH
    && k + |Payload(d)| <= layout.dataAreaSize <= 2040
    && layout.dataAreaSize < Rank(layout, ADDRESS_SPACE_END)
  }

  /** The capacity check is exact: a plan's payload has its place. */
  lemma PlanFits(m: seq<byte>, d: seq<byte>)
    requires IsMemory(m) && WritePlan(m, d).Ok?
    ensures var plan := WritePlan(m, d).value;
      Described(plan.tlvs) && plan.layout == LayoutOf(plan.cc, plan.tlvs) && Fits(plan.layout, plan.offset, d)
  {
    var plan := WritePlan(m, d).value;
    ViewLayout(plan.cc, m);
    ParsedControls(plan.view.bytes);
    LookupBound(plan.cc, plan.tlvs, plan.cc.DataAreaSize());
  }
}
