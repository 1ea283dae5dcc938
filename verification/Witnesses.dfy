/** Tags that show where the guarantees of reading and writing end. */
module Witnesses {
  import opened Basics
  import opened TlvLength
  import opened Tlv
  import opened TlvParser
  import opened Memory
  import opened UsableBytes
  import opened NdefProcedures
  import opened PageWrites
  import opened CrashSafety
  import opened RoundTrip
  import opened RoundTripExact
  import opened CutReads
  import opened WriteGuarantees
  import opened FormattedTag
  import opened RoundTripTags
  import opened StaticCuts
  import opened FormattedExact
  import opened FormattedCuts

  // ---- a cut that presents another message ----

  lemma BlankHasRoom(sizeField: byte, d: seq<byte>)
    requires sizeField > 0 && |d| < 0xFF && 3 + |d| <= BlankCC(sizeField).DataAreaSize()
    ensures HasRoom(BlankCC(sizeField), [], d)
  {
    BasicIsClear(BlankCC(sizeField));
  }

  /** A write to a blank tag is planned right behind the Capability Container, safely. */
  lemma BlankPlan(sizeField: byte, d: seq<byte>)
    requires sizeField > 0 && |d| < 0xFF && 3 + |d| <= BlankCC(sizeField).DataAreaSize()
    ensures WritePlan(BlankTag(sizeField), d).Ok? && PlannedSafely(BlankTag(sizeField), d)
    ensures var plan := WritePlan(BlankTag(sizeField), d).value;
      plan.cc == BlankCC(sizeField) && plan.layout == LayoutOf(BlankCC(sizeField), []) && plan.offset == 0
    ensures var layout := LayoutOf(BlankCC(sizeField), []);
      && IsWriteState(layout, 0, BlankTag(sizeField), d, WithPayload(layout, 0, BlankTag(sizeField), d))
      && Fits(layout, 0, d) && Clear(layout, |Payload(d)|)
  {
    var cc, m0 := BlankCC(sizeField), BlankTag(sizeField);
    BlankIsFormatted(sizeField);
    BlankHasRoom(sizeField, d);
    FormattedPlan(m0, cc, [], [], d);
    SafeOnFormatted(m0, cc, [], [], d);
    PlanFits(m0, d);
    assert IsCut(LayoutOf(cc, []), 0, |Payload(d)|, |Payload(d)|);
  }

  /** The message that hides its own header on a blank tag. */
  const MASKING: seq<byte> := [0x02, 0x03, 0x10, 0x07, 0x04, 0x03, 0x01, 0xAA]

  /** Cut off before its length is written, it leaves a tag that presents neither the old, an empty, nor this message. */
  lemma CutPresentsAnotherMessage()
    ensures WritePlan(BlankTag(12), MASKING).Ok? && PlannedSafely(BlankTag(12), MASKING)
    ensures NdefOf(BlankTag(12)) == Ok([])
    ensures var cut := WithPayload(LayoutOf(BlankCC(12), []), 0, BlankTag(12), MASKING);
      && IsWriteState(LayoutOf(BlankCC(12), []), 0, BlankTag(12), MASKING, cut)
      && NdefOf(cut) == Ok([0xAA])
  {
    var cc, layout := BlankCC(12), LayoutOf(BlankCC(12), []);
    BlankPlan(12, MASKING);
    BlankIsFormatted(12);
    FormattedPresents(BlankTag(12), cc, [], []);
    MaskingPresents(cc, BlankTag(12), layout, MASKING);
  }

  lemma MaskingPresents(cc: CapabilityContainer, m0: seq<byte>, layout: MemoryLayout, d: seq<byte>)
    requires Formatted(m0, cc, [], []) && cc == BlankCC(12) && layout == LayoutOf(cc, []) && d == MASKING
    requires Clear(layout, |Payload(d)|)
    ensures NdefOf(WithPayload(layout, 0, m0, d)) == Ok(SHOWN)
  {
    CutFront(cc, [], layout, 0, m0, d);
    MaskingShows(cc, WithPayload(layout, 0, m0, d), [], layout, MemoryControlValue(1, 0, 7, 4));
  }

  lemma MaskingShows(cc: CapabilityContainer, m: seq<byte>, ts: seq<Tlv>, layout: MemoryLayout, v: MemoryControlValue)
    requires IsMemory(m) && CCOf(m) == Ok(cc) && cc == BlankCC(12) && ts == [] && layout == LayoutOf(cc, ts)
    requires v == MemoryControlValue(1, 0, 7, 4) && m[16..16 + |Payload(MASKING)|] == Payload(MASKING)
    ensures NdefOf(m) == Ok(SHOWN)
  {
    LowAddresses(16);
    BasicIsClear(cc);
    MaskingBytes(m, v);
    MaskingFirstPass(cc, m, ts, v);
    MaskingSecondPass(cc, m, ts, v);
    HiddenPresents(cc, m, ts, v, [NdefMessage(SHOWN), Terminator]);
  }

  lemma MaskingSecondPass(cc: CapabilityContainer, m: seq<byte>, ts: seq<Tlv>, v: MemoryControlValue)
    requires IsMemory(m) && cc == BlankCC(12) && ts == [] && Describes(v, 16, 23) && m[23..27] == NdefBytes(SHOWN)
    ensures AllWellFormed(ts + [MemoryControl(v)])
    ensures DataArea(LayoutOf(cc, ts + [MemoryControl(v)]), m) == Ok(Format(ts, SHOWN))
  {
    BasicIsClear(cc);
    HidesAll(cc, ts, v, 16, 23);
    LongStream(cc, m, ts, v, 16, 23, 27);
    ShowsFormat(LayoutOf(cc, ts + [MemoryControl(v)]), m, ts);
  }

  lemma MaskingBytes(m: seq<byte>, v: MemoryControlValue)
    requires IsMemory(m) && v == MemoryControlValue(1, 0, 7, 4) && m[16..16 + |Payload(MASKING)|] == Payload(MASKING)
    ensures m[16..18] == ZeroHeader(8) && m[18..23] == Control(v) && m[23..27] == NdefBytes(SHOWN)
  {
    var p := Payload(MASKING);
    assert p == [0x03, 0x00, 0x02, 0x03, 0x10, 0x07, 0x04, 0x03, 0x01, 0xAA, 0xFE];
    SliceOfSlice(m, 16, 27, 0, 2);
    SliceOfSlice(m, 16, 27, 2, 7);
    SliceOfSlice(m, 16, 27, 7, 11);
    assert p[0..2] == ZeroHeader(8) && p[2..7] == Control(v) && p[7..11] == NdefBytes(SHOWN);
  }

  lemma MaskingFirstPass(cc: CapabilityContainer, m: seq<byte>, ts: seq<Tlv>, v: MemoryControlValue)
    requires IsMemory(m) && cc.sizeField == 12 && v.WellFormed() && ts == []
    requires m[16..18] == ZeroHeader(8) && m[18..23] == Control(v) && m[23..27] == NdefBytes(SHOWN)
    ensures FirstFinds(cc, m, ts + [NdefMessage([])] + ([MemoryControl(v)] + [NdefMessage(SHOWN), Terminator]))
  {
    var rest := m[27..112];
    Halves(m, 18, 23, 112);
    Halves(m, 23, 27, 112);
    ShownParses(rest);
    FirstBlock(MemoryControl(v), NdefBytes(SHOWN) + rest);
    ZeroLengthFirstPass(m, cc, ts, 8, 16, 18, 112, [MemoryControl(v)] + [NdefMessage(SHOWN), Terminator]);
  }

  lemma ShownParses(rest: seq<byte>)
    ensures Parse(NdefBytes(SHOWN) + rest) == Ok([NdefMessage(SHOWN), Terminator])
  {
    var t := [TLV_TERMINATOR] + rest;
    FirstBlock(Terminator, rest);
    FirstBlock(NdefMessage(SHOWN), t);
    assert NdefBytes(SHOWN) + rest == NdefMessage(SHOWN).ToBytes().value + t;
    assert [NdefMessage(SHOWN)] + [Terminator] == [NdefMessage(SHOWN), Terminator];
  }

  // ---- a cut that cannot be read ----

  const NO_TLVS: seq<byte> := [0x05, 0x09]

  /** A message whose bytes are no TLVs makes an interrupted tag unreadable instead of empty. */
  lemma CutDoesNotParse()
    ensures WritePlan(BlankTag(1), NO_TLVS).Ok? && PlannedSafely(BlankTag(1), NO_TLVS)
    ensures var cut := WithPayload(LayoutOf(BlankCC(1), []), 0, BlankTag(1), NO_TLVS);
      && IsWriteState(LayoutOf(BlankCC(1), []), 0, BlankTag(1), NO_TLVS, cut)
      && NdefOf(cut) == Err(InvalidTlv)
  {
    BlankPlan(1, NO_TLVS);
    BlankIsFormatted(1);
    NoTlvsPayload(BlankTag(1), BlankCC(1), LayoutOf(BlankCC(1), []), NO_TLVS);
  }

  lemma NoTlvsPayload(m0: seq<byte>, cc: CapabilityContainer, layout: MemoryLayout, d: seq<byte>)
    requires Formatted(m0, cc, [], []) && cc.sizeField == 1 && d == NO_TLVS
    requires Fits(layout, 0, d) && Clear(layout, |Payload(d)|)
    ensures NdefOf(WithPayload(layout, 0, m0, d)) == Err(InvalidTlv)
  {
    PayloadZeroLength(layout, 0, m0, d, |Payload(d)|);
    PayloadPart(layout, 0, m0, d, |Payload(d)|, |Payload(d)|);
    assert Payload(d)[..|Payload(d)|] == Payload(d);
    NoTlvsCut(m0, cc, WithPayload(layout, 0, m0, d));
  }

  lemma NoTlvsCut(m0: seq<byte>, cc: CapabilityContainer, cut: seq<byte>)
    requires Formatted(m0, cc, [], []) && cc.sizeField == 1
    requires IsMemory(cut) && ZeroLengthAt(m0, 0, 2, cut) && cut[16..21] == Payload(NO_TLVS)
    ensures NdefOf(cut) == Err(InvalidTlv)
  {
    NoTlvsBehind(cc, cut);
    UnreadableCut(m0, cc, [], [], NO_TLVS, cut, 0, 2);
  }

  lemma NoTlvsBehind(cc: CapabilityContainer, cut: seq<byte>)
    requires IsMemory(cut) && cc.sizeField == 1 && cut[16..21] == Payload(NO_TLVS)
    ensures 8 <= |Stream(LayoutOf(cc, []), cut)| && Behind(LayoutOf(cc, []), cut, 2).Err?
  {
    var rest, p := cut[18..24], cut[16..21];
    assert Payload(NO_TLVS) == [0x03, 0x00, 0x05, 0x09, 0xFE];
    assert rest[0] == p[2] && rest[1] == p[3];
    assert ParseBlock(rest) == Err(InvalidTlv);
    BehindInMemory(cc, cut, 2);
  }

  // ---- a write that misses its TLV ----

  /** A static tag is planned on the format it holds, wherever the areas it describes lie. */
  lemma StaticPlan(m: seq<byte>, cc: CapabilityContainer, ts: seq<Tlv>, d0: seq<byte>, d: seq<byte>)
    requires IsMemory(m) && CCOf(m) == Ok(cc) && Writable(cc) && !cc.IsDynamic()
    requires Leading(ts) && AllWellFormed(ts) && |d0| <= MAX_TLV_LENGTH && |Format(ts, d0)| <= cc.DataAreaSize()
    requires m[DATA_START..DATA_START + |Format(ts, d0)|] == Format(ts, d0)
    requires |d| <= MAX_TLV_LENGTH && |PrintAll(ts)| + |Payload(d)| <= cc.DataAreaSize()
    ensures WritePlan(m, d) == Ok(Plan(cc, View(LayoutOf(cc, []), Format(ts, d0)), ts + [NdefMessage(d0), Terminator],
                                       LayoutOf(cc, ts), |PrintAll(ts)|))
    ensures CanonicalPrefix(Format(ts, d0))
  {
    BasicIsClear(cc);
    ReadsFormat(LayoutOf(cc, []), m, ts, d0);
    FormatParses(ts, d0, Format(ts, d0));
    NoAreasAdded(cc, ts, d0);
    FormatPosition(ts, d0);
    OffsetExact(Format(ts, d0));
  }

  /** Memory Control for `size` bytes from address `a`. */
  function ControlFor(a: byte, size: byte): (t: Tlv)
    requires size > 0
    ensures t.WellFormed()
  {
    LowAddresses(a);
    MemoryControl(MemoryControlValue(a / 16, a % 16, size, 4))
  }

  lemma ControlledSkips(cc: CapabilityContainer, a: byte, size: byte, x: nat)
    requires size > 0
    ensures DATA_START <= x < DATA_START + cc.DataAreaSize() ==>
      (LayoutOf(cc, [ControlFor(a, size)]).IsSkip(x) <==> a <= x < a + size)
  {
    var t := ControlFor(a, size);
    LowAddresses(a);
    OneMoreArea(cc, [], t.memory, x);
    assert [] + [t] == [t];
    BasicIsClear(cc);
  }

  lemma ControlBytes(a: byte, size: byte)
    requires size > 0
    ensures PrintAll([ControlFor(a, size)]) == [TLV_MEMORY_CONTROL, 0x03, a, size, 0x04]
  {
    var t := ControlFor(a, size);
    Pack(a);
    assert t.memory.ToBytes() == [a, size, 0x04];
    PrintOne(t);
  }

  lemma PrintOne(t: Tlv)
    requires t.WellFormed()
    ensures PrintAll([t]) == t.ToBytes().value
  {
    assert [t][1..] == [];
  }

  /** A static tag whose Memory Control TLV describes the first byte of the data area. */
  function SelfReserved(sizeField: byte): (m: seq<byte>)
    requires 1 <= sizeField <= 6
    ensures IsMemory(m)
  {
    TagWith(BlankCC(sizeField), [0x02, 0x03, 0x10, 0x01, 0x04, 0x03, 0x00, 0xFE])
  }

  /** The NDEF TLV is at address 21, and the empty message is written to address 22. */
  lemma WriteMissesTlv(sizeField: byte)
    requires 1 <= sizeField <= 6
    ensures WritePlan(SelfReserved(sizeField), []).Ok? && NdefOf(SelfReserved(sizeField)) == Ok([])
    ensures var plan := WritePlan(SelfReserved(sizeField), []).value;
      && CanonicalPrefix(plan.view.bytes) && plan.offset == 5
      && TagAddress(SelfReserved(sizeField), []) == 21 && Select(plan.layout, 5) == Some(22)
  {
    var m, cc, ts := SelfReserved(sizeField), BlankCC(sizeField), [ControlFor(16, 1)];
    SelfReservedFormat(m, cc, ts);
    MissesTlv(m, cc, ts, LayoutOf(cc, ts));
    StaticPresents(m, cc, ts, []);
  }

  lemma MissesTlv(m: seq<byte>, cc: CapabilityContainer, ts: seq<Tlv>, layout: MemoryLayout)
    requires IsMemory(m) && Writable(cc) && 1 <= cc.sizeField <= 6 && ts == [ControlFor(16, 1)]
    requires layout == LayoutOf(cc, ts) && CCOf(m) == Ok(cc) && |PrintAll(ts)| == 5 && |Format(ts, [])| == 8
    requires m[DATA_START..DATA_START + |Format(ts, [])|] == Format(ts, [])
    ensures WritePlan(m, []).Ok?
    ensures var plan := WritePlan(m, []).value;
      && CanonicalPrefix(plan.view.bytes) && plan.offset == 5 && plan.layout == layout
      && TagAddress(m, []) == 21 && Select(layout, 5) == Some(22)
  {
    StaticPlan(m, cc, ts, [], []);
    SelfReservedTag(m, cc, ts);
    SelfReservedRank(cc, layout, 22);
    ControlledSkips(cc, 16, 1, 22);
    SelectOfRank(layout, 22);
  }

  lemma SelfReservedFormat(m: seq<byte>, cc: CapabilityContainer, ts: seq<Tlv>)
    requires 1 <= cc.sizeField <= 6 && cc == BlankCC(cc.sizeField)
    requires m == SelfReserved(cc.sizeField) && ts == [ControlFor(16, 1)]
    ensures CCOf(m) == Ok(cc) && |PrintAll(ts)| == 5 && |Format(ts, [])| == 8
    ensures m[DATA_START..DATA_START + |Format(ts, [])|] == Format(ts, [])
  {
    ControlBytes(16, 1);
    assert Format(ts, []) == [0x02, 0x03, 0x10, 0x01, 0x04, 0x03, 0x00, 0xFE];
    TagWithHolds(cc, Format(ts, []));
  }

  lemma StaticPresents(m: seq<byte>, cc: CapabilityContainer, ts: seq<Tlv>, d: seq<byte>)
    requires IsMemory(m) && CCOf(m) == Ok(cc) && Writable(cc) && !cc.IsDynamic()
    requires Leading(ts) && |d| <= MAX_TLV_LENGTH && |Format(ts, d)| <= cc.DataAreaSize()
    requires m[DATA_START..DATA_START + |Format(ts, d)|] == Format(ts, d)
    ensures NdefOf(m) == Ok(d)
  {
    BasicIsClear(cc);
    ReadsFormat(LayoutOf(cc, []), m, ts, d);
    FormatParses(ts, d, Format(ts, d));
    FirstNdefAfter(ts, [NdefMessage(d), Terminator]);
  }

  lemma SelfReservedTag(m: seq<byte>, cc: CapabilityContainer, ts: seq<Tlv>)
    requires IsMemory(m) && Leading(ts) && |PrintAll(ts)| == 5 && WritePlan(m, []).Ok? && cc.sizeField >= 1
    requires WritePlan(m, []).value.view == View(LayoutOf(cc, []), Format(ts, []))
    ensures TagAddress(m, []) == 21
  {
    FormatPosition(ts, []);
    BasicIsClear(cc);
    ClearAddress(LayoutOf(cc, []), 8, 5);
    RankInjective(LayoutOf(cc, []), 21, TagAddress(m, []));
  }

  lemma SelfReservedRank(cc: CapabilityContainer, layout: MemoryLayout, a: nat)
    requires layout == LayoutOf(cc, [ControlFor(16, 1)]) && 17 <= a <= DATA_START + cc.DataAreaSize()
    ensures Rank(layout, a) == a - 17
  {
    var blank := Zeros(ADDRESS_SPACE_END);
    forall x: nat | 16 <= x < a
      ensures layout.IsSkip(x) <==> x == 16
    {
      ControlledSkips(cc, 16, 1, x);
    }
    GatherSkipped(layout, blank, 16, 17);
    GatherUsable(layout, blank, 17, a);
  }

  /** Afterwards the tag presents bytes of the payload in place of the empty message. */
  lemma MissedWriteReadsWrong(sizeField: byte)
    requires 2 <= sizeField <= 6
    ensures NdefOf(AfterWrite(SelfReserved(sizeField), [])) == Ok([0x00, 0xFE, 0x00])
  {
    var m, cc, ts := SelfReserved(sizeField), BlankCC(sizeField), [ControlFor(16, 1)];
    var layout := LayoutOf(cc, ts);
    SelfReservedFormat(m, cc, ts);
    MissesTlv(m, cc, ts, layout);
    PlanFits(m, []);
    SameCC(layout, 5, m, []);
    MissedShows(m, cc, ts, layout, Written(layout, 5, m, []));
  }

  lemma MissedShows(m: seq<byte>, cc: CapabilityContainer, ts: seq<Tlv>, layout: MemoryLayout, m1: seq<byte>)
    requires cc == BlankCC(cc.sizeField) && 2 <= cc.sizeField <= 6 && m == SelfReserved(cc.sizeField)
    requires ts == [ControlFor(16, 1)] && layout == LayoutOf(cc, ts) && m1 == Written(layout, 5, m, [])
    requires IsMemory(m1) && CCOf(m1) == Ok(cc) && |PrintAll(ts)| == 5
    ensures NdefOf(m1) == Ok([0x00, 0xFE, 0x00])
  {
    var end, v: seq<byte> := DATA_START + cc.DataAreaSize(), [0x00, 0xFE, 0x00];
    SelfReservedBytes(m, cc, ts);
    forall a | DATA_START <= a < end
      ensures m1[a] == if a == 22 then 0x03 else if a == 23 then 0x00 else if a == 24 then 0xFE else m[a]
    {
      MissedByte(m, cc, layout, a);
    }
    SameSlice(m1, m, 16, 21);
    assert m1[23..26] == v;
    QuietBehind(m1, 26, end);
    ShowsPresents(m1, cc, ts, 5, v);
  }

  lemma SelfReservedBytes(m: seq<byte>, cc: CapabilityContainer, ts: seq<Tlv>)
    requires 1 <= cc.sizeField <= 6 && cc == BlankCC(cc.sizeField)
    requires m == SelfReserved(cc.sizeField) && ts == [ControlFor(16, 1)]
    ensures m[16..21] == PrintAll(ts) && m[21] == 0x03
    ensures forall a :: 24 <= a < ADDRESS_SPACE_END ==> m[a] == 0
  {
    var area := [0x02, 0x03, 0x10, 0x01, 0x04, 0x03, 0x00, 0xFE];
    ControlBytes(16, 1);
    TagWithHolds(cc, area);
    SliceOfSlice(m, 16, 24, 0, 5);
    assert area[0..5] == [0x02, 0x03, 0x10, 0x01, 0x04];
    ByteOfSlice(m, 16, 24, 5);
  }

  lemma MissedByte(m: seq<byte>, cc: CapabilityContainer, layout: MemoryLayout, a: nat)
    requires IsMemory(m) && layout == LayoutOf(cc, [ControlFor(16, 1)])
    requires DATA_START <= a < DATA_START + cc.DataAreaSize()
    ensures Written(layout, 5, m, [])[a] ==
      if a == 22 then 0x03 else if a == 23 then 0x00 else if a == 24 then 0xFE else m[a]
  {
    ControlledSkips(cc, 16, 1, a);
    assert Payload([]) == [0x03, 0x00, 0xFE] && LengthField(0) == [0x00];
    if a > 16 {
      SelfReservedRank(cc, layout, a);
    }
    ScatterAt(layout, m, 5, Payload([]), 3, a);
    ScatterAt(layout, WithPayload(layout, 5, m, []), 6, LengthField(0), 1, a);
  }

  // ---- a length byte in an area ----

  /** The old message of the tag below, and the new one. */
  const OLD: seq<byte> := [0xAA, 0xAA, 0xAA, 0xAA, 0xAA]

  const NEW: seq<byte> := [0x01, 0x02, 0x03, 0x04]

  /** A static tag that reserves the byte where its NDEF TLV has its length. */
  function ReservedLength(sizeField: byte): (m: seq<byte>)
    requires 2 <= sizeField <= 6
    ensures IsMemory(m)
  {
    TagWith(BlankCC(sizeField), [0x02, 0x03, 0x16, 0x01, 0x04, 0x03, 0x05] + OLD + [0xFE])
  }

  /**
   The payload goes to the NDEF TLV, and its length field is in one block; still a cut presents bytes of the payload, and
   the completed write another message.
   */
  lemma LengthInArea(sizeField: byte)
    requires 2 <= sizeField <= 6
    ensures var m := ReservedLength(sizeField);
      && WritePlan(m, NEW).Ok? && PlannedSafely(m, NEW) && CanonicalPrefix(WritePlan(m, NEW).value.view.bytes)
      && NdefOf(m) == Ok(OLD)
    ensures var m, layout := ReservedLength(sizeField), LayoutOf(BlankCC(sizeField), [ControlFor(22, 1)]);
      && WritePlan(m, NEW).value.layout == layout && WritePlan(m, NEW).value.offset == 5
      && IsWriteState(layout, 5, m, NEW, WithPayload(layout, 5, m, NEW))
      && NdefOf(WithPayload(layout, 5, m, NEW)) == Ok([0x00, 0x01, 0x02, 0x03, 0x04])
      && NdefOf(AfterWrite(m, NEW)) == Ok([0x04, 0x01, 0x02, 0x03, 0x04])
  {
    var m, cc, ts := ReservedLength(sizeField), BlankCC(sizeField), [ControlFor(22, 1)];
    ReservedLengthFormat(m, cc, ts);
    ReservedLengthPlan(m, cc, ts);
    StaticPresents(m, cc, ts, OLD);
    ReservedLengthCut(m, cc, ts, LayoutOf(cc, ts));
    ReservedLengthWritten(m, cc, ts, LayoutOf(cc, ts));
  }

  lemma ReservedLengthFormat(m: seq<byte>, cc: CapabilityContainer, ts: seq<Tlv>)
    requires 2 <= cc.sizeField <= 6 && cc == BlankCC(cc.sizeField)
    requires m == ReservedLength(cc.sizeField) && ts == [ControlFor(22, 1)]
    ensures CCOf(m) == Ok(cc) && |PrintAll(ts)| == 5 && |Format(ts, OLD)| == 13
    ensures m[DATA_START..DATA_START + |Format(ts, OLD)|] == Format(ts, OLD)
    ensures m[16..21] == PrintAll(ts) && m[21] == 0x03 && m[22] == 0x05 && m[28] == 0xFE
    ensures forall a :: 29 <= a < ADDRESS_SPACE_END ==> m[a] == 0
  {
    var area := [0x02, 0x03, 0x16, 0x01, 0x04, 0x03, 0x05] + OLD + [0xFE];
    ControlBytes(22, 1);
    assert Format(ts, OLD) == area;
    TagWithHolds(cc, area);
    SliceOfSlice(m, 16, 29, 0, 5);
    assert area[0..5] == [0x02, 0x03, 0x16, 0x01, 0x04];
    assert m[21] == m[16..29][5] && m[22] == m[16..29][6] && m[28] == m[16..29][12];
  }

  lemma ReservedLengthPlan(m: seq<byte>, cc: CapabilityContainer, ts: seq<Tlv>)
    requires IsMemory(m) && CCOf(m) == Ok(cc) && Writable(cc) && 2 <= cc.sizeField <= 6 && ts == [ControlFor(22, 1)]
    requires |PrintAll(ts)| == 5 && |Format(ts, OLD)| == 13
    requires m[DATA_START..DATA_START + |Format(ts, OLD)|] == Format(ts, OLD)
    ensures WritePlan(m, NEW).Ok? && PlannedSafely(m, NEW) && CanonicalPrefix(WritePlan(m, NEW).value.view.bytes)
    ensures WritePlan(m, NEW).value.layout == LayoutOf(cc, ts) && WritePlan(m, NEW).value.offset == 5
    ensures IsWriteState(LayoutOf(cc, ts), 5, m, NEW, WithPayload(LayoutOf(cc, ts), 5, m, NEW))
  {
    StaticPlan(m, cc, ts, OLD, NEW);
    PlanFits(m, NEW);
    StaticPositionExact(m, NEW);
    ReservedLengthSkips(cc, LayoutOf(cc, ts));
    assert Clear(LayoutOf(cc, ts), 6);
    assert IsCut(LayoutOf(cc, ts), 5, |Payload(NEW)|, |Payload(NEW)|);
  }

  lemma ReservedLengthSkips(cc: CapabilityContainer, layout: MemoryLayout)
    requires layout == LayoutOf(cc, [ControlFor(22, 1)])
    ensures forall x: nat :: DATA_START <= x < DATA_START + cc.DataAreaSize() ==> (layout.IsSkip(x) <==> x == 22)
  {
    forall x: nat | DATA_START <= x < DATA_START + cc.DataAreaSize()
      ensures layout.IsSkip(x) <==> x == 22
    {
      ControlledSkips(cc, 22, 1, x);
    }
  }

  lemma ReservedLengthRank(cc: CapabilityContainer, layout: MemoryLayout, a: nat)
    requires layout == LayoutOf(cc, [ControlFor(22, 1)]) && DATA_START <= a < DATA_START + cc.DataAreaSize()
    ensures Rank(layout, a) == if a <= 22 then a - 16 else a - 17
  {
    ReservedLengthSkips(cc, layout);
    if a <= 22 {
      ClearRank(layout, a);
    } else {
      ClearRank(layout, 22);
      RankNext(layout, 22);
      GatherUsable(layout, Zeros(ADDRESS_SPACE_END), 23, a);
    }
  }

  /** What the new bytes at the usable addresses from the tag on look like through the length byte that stays. */
  lemma ReservedLengthShows(m: seq<byte>, w: seq<byte>, cc: CapabilityContainer, ts: seq<Tlv>, b: byte)
    requires 2 <= cc.sizeField <= 6 && cc == BlankCC(cc.sizeField) && ts == [ControlFor(22, 1)]
    requires IsMemory(m) && IsMemory(w) && CCOf(w) == Ok(cc) && |PrintAll(ts)| == 5
    requires m[16..21] == PrintAll(ts) && m[21] == 0x03 && m[22] == 0x05
    requires forall a :: 29 <= a < ADDRESS_SPACE_END ==> m[a] == 0
    requires forall a :: DATA_START <= a < DATA_START + cc.DataAreaSize() ==> w[a] == ShownByte(m, b, a)
    ensures Shows(w, cc, ts, 5, [b, 0x01, 0x02, 0x03, 0x04])
  {
    SameSlice(w, m, 16, 21);
    ShownValue(m, w, b);
    QuietBehind(w, 28, DATA_START + cc.DataAreaSize());
  }

  lemma ShownValue(m: seq<byte>, w: seq<byte>, b: byte)
    requires |m| >= 28 && |w| >= 28 && forall a :: 23 <= a < 28 ==> w[a] == ShownByte(m, b, a)
    ensures w[23..28] == [b, 0x01, 0x02, 0x03, 0x04]
  {
  }

  lemma ReservedLengthCut(m: seq<byte>, cc: CapabilityContainer, ts: seq<Tlv>, layout: MemoryLayout)
    requires 2 <= cc.sizeField <= 6 && cc == BlankCC(cc.sizeField) && ts == [ControlFor(22, 1)]
    requires layout == LayoutOf(cc, ts) && IsMemory(m) && CCOf(m) == Ok(cc) && |PrintAll(ts)| == 5
    requires m[16..21] == PrintAll(ts) && m[21] == 0x03 && m[22] == 0x05
    requires forall a :: 29 <= a < ADDRESS_SPACE_END ==> m[a] == 0
    ensures NdefOf(WithPayload(layout, 5, m, NEW)) == Ok([0x00, 0x01, 0x02, 0x03, 0x04])
  {
    var w, end := WithPayload(layout, 5, m, NEW), DATA_START + cc.DataAreaSize();
    forall a | 12 <= a < end
      ensures w[a] == ShownByte(m, 0x00, a)
    {
      ReservedLengthCutByte(cc, layout, m, a);
    }
    SameSlice(w, m, 12, 16);
    ReservedLengthShows(m, w, cc, ts, 0x00);
    ShowsPresents(w, cc, ts, 5, [0x00, 0x01, 0x02, 0x03, 0x04]);
  }

  /** The memory with the payload, or the complete TLV, of the new message with the length `b` in it. */
  function ShownByte(m: seq<byte>, b: byte, a: nat): byte
    requires a < |m|
  {
    if a == 23 then b else if 24 <= a < 28 then a - 23 else if a == 28 then 0xFE else m[a]
  }

  lemma ReservedLengthCutByte(cc: CapabilityContainer, layout: MemoryLayout, m: seq<byte>, a: nat)
    requires layout == LayoutOf(cc, [ControlFor(22, 1)]) && IsMemory(m) && cc.sizeField >= 2
    requires 12 <= a < DATA_START + cc.DataAreaSize() && m[21] == 0x03
    ensures WithPayload(layout, 5, m, NEW)[a] == ShownByte(m, 0x00, a)
  {
    var p := Payload(NEW);
    assert p == [0x03, 0x00, 0x01, 0x02, 0x03, 0x04, 0xFE];
    ScatterAt(layout, m, 5, p, |p|, a);
    if DATA_START <= a {
      ReservedLengthSkips(cc, layout);
      ReservedLengthRank(cc, layout, a);
    }
  }

  lemma ReservedLengthWrittenByte(cc: CapabilityContainer, layout: MemoryLayout, m: seq<byte>, a: nat)
    requires layout == LayoutOf(cc, [ControlFor(22, 1)]) && IsMemory(m) && cc.sizeField >= 2
    requires DATA_START <= a < DATA_START + cc.DataAreaSize() && m[21] == 0x03
    ensures Written(layout, 5, m, NEW)[a] == ShownByte(m, 0x04, a)
  {
    assert NdefBytes(NEW) == [0x03, 0x04, 0x01, 0x02, 0x03, 0x04, 0xFE];
    WrittenByte(layout, 5, m, NEW, a);
    ReservedLengthSkips(cc, layout);
    ReservedLengthRank(cc, layout, a);
  }

  lemma ReservedLengthWritten(m: seq<byte>, cc: CapabilityContainer, ts: seq<Tlv>, layout: MemoryLayout)
    requires 2 <= cc.sizeField <= 6 && cc == BlankCC(cc.sizeField) && ts == [ControlFor(22, 1)]
    requires layout == LayoutOf(cc, ts) && IsMemory(m) && CCOf(m) == Ok(cc) && |PrintAll(ts)| == 5
    requires m[16..21] == PrintAll(ts) && m[21] == 0x03 && m[22] == 0x05
    requires forall a :: 29 <= a < ADDRESS_SPACE_END ==> m[a] == 0
    ensures IsMemory(Written(layout, 5, m, NEW))
    ensures NdefOf(Written(layout, 5, m, NEW)) == Ok([0x04, 0x01, 0x02, 0x03, 0x04])
  {
    var w := Written(layout, 5, m, NEW);
    SameCC(layout, 5, m, NEW);
    forall a | DATA_START <= a < DATA_START + cc.DataAreaSize()
      ensures w[a] == ShownByte(m, 0x04, a)
    {
      ReservedLengthWrittenByte(cc, layout, m, a);
    }
    ReservedLengthShows(m, w, cc, ts, 0x04);
    ShowsPresents(w, cc, ts, 5, [0x04, 0x01, 0x02, 0x03, 0x04]);
  }

  // ---- an area inside the value ----

  /** A dynamic tag with two reserved bytes at address 32, where a message of 20 bytes goes. */
  function ReservedInside(sizeField: byte): (m: seq<byte>)
    requires 7 <= sizeField
    ensures IsMemory(m)
  {
    TagWith(BlankCC(sizeField), [0x02, 0x03, 0x20, 0x02, 0x04, 0x03, 0x00, 0xFE])
  }

  /** It meets the conditions of the exact round trip, the message is written, and reading fails. */
  lemma AreaInsideValue(sizeField: byte)
    requires 7 <= sizeField
    ensures WritePlan(ReservedInside(sizeField), Tags(20)).Ok? && Found(ReservedInside(sizeField), Tags(20))
    ensures var plan := WritePlan(ReservedInside(sizeField), Tags(20)).value;
      && StrayEnd(plan.layout, plan.offset, 20, ReservedInside(sizeField))
      && !Clear(plan.layout, plan.offset + |Payload(Tags(20))|)
      && NdefOf(Written(plan.layout, plan.offset, ReservedInside(sizeField), Tags(20))).Err?
  {
    var m, cc, ts := ReservedInside(sizeField), BlankCC(sizeField), [ControlFor(32, 2)];
    ReservedInsideFormat(m, cc, ts);
    FormattedFaithful(m, cc, ts, [], Tags(20));
    FaithfulIsFound(m, Tags(20));
    ReservedInsideValue(m, cc, LayoutOf(cc, ts));
    BlockedFails(m, 20);
  }

  lemma ReservedInsideFormat(m: seq<byte>, cc: CapabilityContainer, ts: seq<Tlv>)
    requires 7 <= cc.sizeField && cc == BlankCC(cc.sizeField)
    requires m == ReservedInside(cc.sizeField) && ts == [ControlFor(32, 2)]
    ensures Formatted(m, cc, ts, []) && |PrintAll(ts)| == 5
  {
    ControlBytes(32, 2);
    assert Format(ts, []) == [0x02, 0x03, 0x20, 0x02, 0x04, 0x03, 0x00, 0xFE];
    forall a | DATA_START <= a < DATA_START + 8
      ensures !LayoutOf(cc, ts).IsSkip(a)
    {
      ControlledSkips(cc, 32, 2, a);
    }
    TagWithFormat(cc, ts, []);
  }

  /** On a formatted dynamic tag with control TLVs every plan is faithful: it writes through the layout it read with. */
  lemma FormattedFaithful(m: seq<byte>, cc: CapabilityContainer, ts: seq<Tlv>, d0: seq<byte>, d: seq<byte>)
    requires Formatted(m, cc, ts, d0) && cc.IsDynamic() && HasControl(ts)
    requires |d| <= MAX_TLV_LENGTH && |PrintAll(ts)| + |Payload(d)| <= cc.DataAreaSize()
    ensures WritePlan(m, d).Ok? && Faithful(m, d)
    ensures WritePlan(m, d).value.layout == LayoutOf(cc, ts) && WritePlan(m, d).value.offset == |PrintAll(ts)|
  {
    FormattedPlan(m, cc, ts, d0, d);
    FormattedView(m, cc, ts, d0);
    FormatPosition(ts, d0);
    PlanFits(m, d);
  }

  lemma ReservedInsideValue(m: seq<byte>, cc: CapabilityContainer, layout: MemoryLayout)
    requires IsMemory(m) && 7 <= cc.sizeField && layout == LayoutOf(cc, [ControlFor(32, 2)])
    ensures StrayEnd(layout, 5, 20, m) && !Clear(layout, 5 + |Payload(Tags(20))|)
  {
    forall a: nat | DATA_START <= a < DATA_START + 56
      ensures layout.IsSkip(a) <==> 32 <= a < 34
    {
      ControlledSkips(cc, 32, 2, a);
    }
    assert layout.IsSkip(32);
  }
}
