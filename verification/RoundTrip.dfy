/** What a completed NDEF write leaves on the tag, and when reading gives the message back. */
module RoundTrip {
  import opened Basics
  import opened TlvLength
  import opened Tlv
  import opened TlvParser
  import opened TlvScanner
  import opened Memory
  import opened UsableBytes
  import opened NdefProcedures
  import opened PageWrites
  import opened CrashSafety

  /** The bytes of a complete NDEF TLV and the Terminator behind it. */
  function NdefBytes(d: seq<byte>): (b: seq<byte>)
    requires |d| <= MAX_TLV_LENGTH
    ensures |b| == |Payload(d)|
  {
    [TLV_NDEF_MESSAGE] + LengthField(|d|) + d + [TLV_TERMINATOR]
  }

  /** A completed write is a splice of the NDEF TLV into the stream. */
  lemma WrittenStream(layout: MemoryLayout, k: nat, m0: seq<byte>, d: seq<byte>)
    requires IsMemory(m0) && Fits(layout, k, d)
    ensures IsMemory(Written(layout, k, m0, d))
    ensures Stream(layout, Written(layout, k, m0, d)) == Splice(Stream(layout, m0), k, NdefBytes(d))
  {
    LengthState(layout, k, m0, d, |LengthField(|d|)|);
    LengthOverPayload(Stream(layout, m0), k, d);
  }

  lemma NdefBytesParse(d: seq<byte>)
    requires |d| <= MAX_TLV_LENGTH
    ensures Parse(NdefBytes(d)) == Ok([NdefMessage(d), Terminator])
    ensures FirstFire(AtTag, NdefBytes(d)) == Some(|NdefBytes(d)| - 1)
  {
    var t := NdefMessage(d);
    var b := t.ToBytes().value;
    BlockRoundTrip(t, [TLV_TERMINATOR]);
    assert NdefBytes(d) == b + [TLV_TERMINATOR];
    assert NdefBytes(d)[|b|..] == [TLV_TERMINATOR];
    assert Parse([TLV_TERMINATOR]) == Ok([Terminator]);
    assert [t] + [Terminator] == [t, Terminator];
    ScanStep(NdefBytes(d), |b|);
    assert FirstFire(AtTag, [TLV_TERMINATOR]) == Some(0);
  }

  /** What a data area holds once the NDEF TLV is spliced in behind the TLVs before it. */
  lemma AreaParses(s: seq<byte>, k: nat, d: seq<byte>, t: seq<byte>)
    requires NdefPosition(s) == Some(k) && |d| <= MAX_TLV_LENGTH && t == s[..k] + NdefBytes(d)
    ensures Parse(t) == Ok(Before(s) + [NdefMessage(d), Terminator])
  {
    assert t[..k] == s[..k] && t[k..] == NdefBytes(d);
    NdefBytesParse(d);
    PrefixParses(s, t);
  }

  lemma PrefixKept(a: seq<byte>, b: seq<byte>)
    ensures (a + b)[..|a|] == a && (a + b)[|a|..] == b
  {
  }

  /** It ends with its first Terminator tag. */
  lemma AreaEnds(s: seq<byte>, k: nat, d: seq<byte>, t: seq<byte>)
    requires NdefPosition(s) == Some(k) && |d| <= MAX_TLV_LENGTH && t == s[..k] + NdefBytes(d)
    ensures FirstFire(AtTag, t) == Some(|t| - 1)
  {
    var b := NdefBytes(d);
    NdefBytesParse(d);
    PrefixKept(s[..k], b);
    PrefixScans(s, t, k);
    FiresBehind(t, k, b);
  }

  // ---- reading back a completed write ----

  /** One past the address of the payload's last byte. */
  ghost function PayloadEnd(layout: MemoryLayout, k: nat, d: seq<byte>): (hi: nat)
    requires Fits(layout, k, d)
    ensures hi <= ADDRESS_SPACE_END && Rank(layout, hi) == k + |Payload(d)|
  {
    SelectExact(layout, k + |Payload(d)| - 1);
    Select(layout, k + |Payload(d)| - 1).value + 1
  }

  /** A layout that skips what the written one skips, as far as the payload reaches, reads the new TLV back. */
  lemma AgreeingArea(read: MemoryLayout, layout: MemoryLayout, k: nat, m0: seq<byte>, d: seq<byte>, s: seq<byte>)
    requires IsMemory(m0) && Fits(layout, k, d) && read.dataAreaSize == layout.dataAreaSize
    requires NdefPosition(s) == Some(k) && s[..k] == Stream(layout, m0)[..k]
    requires AgreeBelow(read, layout, PayloadEnd(layout, k, d))
    ensures IsMemory(Written(layout, k, m0, d))
    ensures DataArea(read, Written(layout, k, m0, d)) == Ok(s[..k] + NdefBytes(d))
  {
    var hi, m1 := PayloadEnd(layout, k, d), Written(layout, k, m0, d);
    var t := s[..k] + NdefBytes(d);
    WrittenStream(layout, k, m0, d);
    GatherGrows(layout, m1, hi, ADDRESS_SPACE_END);
    assert Gather(layout, m1, hi) == t;
    AgreeingGather(read, layout, m1, hi);
    GatherGrows(read, m1, hi, ADDRESS_SPACE_END);
    AreaEnds(s, k, d, t);
    CompleteArea(read, m1, t);
  }

  // ---- where the NDEF TLV is ----

  /** No lock or reserved area of the layout meets the first `n` bytes of the data area. */
  predicate Clear(layout: MemoryLayout, n: nat) {
    forall a :: DATA_START <= a < DATA_START + n ==> !layout.IsSkip(a)
  }

  /** What a plan says about the bytes it was made from. */
  lemma PlanPosition(m0: seq<byte>, d: seq<byte>)
    requires IsMemory(m0) && WritePlan(m0, d).Ok?
    ensures var plan := WritePlan(m0, d).value;
      && plan.view.bytes <= Stream(plan.view.layout, m0)
      && NdefPosition(plan.view.bytes).Some? && plan.offset <= NdefPosition(plan.view.bytes).value
      && (plan.offset == NdefPosition(plan.view.bytes).value <==> CanonicalPrefix(plan.view.bytes))
  {
    PlanParsed(m0, d);
    var plan := WritePlan(m0, d).value;
    ViewLayout(plan.cc, m0);
    SummedPosition(plan.view.bytes, plan.tlvs, plan.offset);
  }

  lemma PlanParsed(m0: seq<byte>, d: seq<byte>)
    requires IsMemory(m0) && WritePlan(m0, d).Ok?
    ensures var plan := WritePlan(m0, d).value;
      && ReadView(plan.cc, m0) == Ok(plan.view) && Parse(plan.view.bytes) == Ok(plan.tlvs)
      && SummedOffset(plan.tlvs).Some? && SummedOffset(plan.tlvs).value == plan.offset
  {
    var cc := CCOf(m0).value;
    var view := ReadView(cc, m0).value;
    assert WritePlan(m0, d).value.cc == cc && WritePlan(m0, d).value.view == view;
  }

  lemma SummedPosition(s: seq<byte>, tlvs: seq<Tlv>, o: nat)
    requires Parse(s) == Ok(tlvs) && SummedOffset(tlvs).Some? && SummedOffset(tlvs).value == o
    ensures NdefPosition(s).Some? && o <= NdefPosition(s).value
    ensures o == NdefPosition(s).value <==> CanonicalPrefix(s)
  {
    OffsetExact(s);
  }

  /** The address of the NDEF TLV a write was planned on. */
  ghost function TagAddress(m0: seq<byte>, d: seq<byte>): (a: nat)
    requires IsMemory(m0) && WritePlan(m0, d).Ok?
    ensures var plan := WritePlan(m0, d).value;
      && NdefPosition(plan.view.bytes).Some? && IsNth(plan.view.layout, NdefPosition(plan.view.bytes).value, a)
      && m0[a] == TLV_NDEF_MESSAGE
  {
    var plan := WritePlan(m0, d).value;
    PlanPosition(m0, d);
    StreamIsSelected(plan.view.layout, m0, NdefPosition(plan.view.bytes).value);
    Select(plan.view.layout, NdefPosition(plan.view.bytes).value).value
  }

  /** The payload goes to the address of the NDEF TLV. */
  ghost predicate HitsTag(m0: seq<byte>, d: seq<byte>)
    requires IsMemory(m0) && WritePlan(m0, d).Ok?
  {
    Select(WritePlan(m0, d).value.layout, WritePlan(m0, d).value.offset) == Some(TagAddress(m0, d))
  }

  /**
   The payload goes to the address of the NDEF TLV if and only if that address is usable in the layout written through
   and has as many usable bytes below it as the summed offset says. When the layout is the one the TLVs were read
   with, this is so exactly for canonical prefixes.
   */
  lemma PositionExact(m0: seq<byte>, d: seq<byte>)
    requires IsMemory(m0) && WritePlan(m0, d).Ok?
    ensures var plan, a := WritePlan(m0, d).value, TagAddress(m0, d);
      && (HitsTag(m0, d) <==> Usable(plan.layout, a) && Rank(plan.layout, a) == plan.offset)
      && (CanonicalPrefix(plan.view.bytes) <==> Rank(plan.view.layout, a) == plan.offset)
      && (plan.layout == plan.view.layout ==> (HitsTag(m0, d) <==> CanonicalPrefix(plan.view.bytes)))
  {
    var plan, a := WritePlan(m0, d).value, TagAddress(m0, d);
    PlanPosition(m0, d);
    SelectedExactly(plan.layout, plan.offset, a);
  }

  lemma SelectedExactly(layout: MemoryLayout, n: nat, a: nat)
    requires a < ADDRESS_SPACE_END
    ensures Select(layout, n) == Some(a) <==> Usable(layout, a) && Rank(layout, a) == n
  {
    if Usable(layout, a) && Rank(layout, a) == n {
      SelectOfRank(layout, a);
    }
  }

  /**
   A static tag is read without areas and written with them: behind a canonical prefix the payload goes to the NDEF
   TLV if and only if no described area meets the bytes up to the TLV's tag.
   */
  lemma StaticPositionExact(m0: seq<byte>, d: seq<byte>)
    requires IsMemory(m0) && WritePlan(m0, d).Ok?
    requires var plan := WritePlan(m0, d).value; !plan.cc.IsDynamic() && CanonicalPrefix(plan.view.bytes)
    ensures var plan := WritePlan(m0, d).value; HitsTag(m0, d) <==> Clear(plan.layout, plan.offset + 1)
  {
    var plan, a := WritePlan(m0, d).value, TagAddress(m0, d);
    PositionExact(m0, d);
    StaticAddress(m0, d);
    ClearRankExact(plan.layout, a);
  }

  /** On a static tag the position in the data area is the address behind the data area's start. */
  lemma StaticAddress(m0: seq<byte>, d: seq<byte>)
    requires IsMemory(m0) && WritePlan(m0, d).Ok? && !WritePlan(m0, d).value.cc.IsDynamic()
    ensures Rank(WritePlan(m0, d).value.view.layout, TagAddress(m0, d)) == TagAddress(m0, d) - DATA_START
  {
    var plan, a := WritePlan(m0, d).value, TagAddress(m0, d);
    PlanParsed(m0, d);
    StaticView(plan.cc, m0, a);
    ClearRank(plan.view.layout, a);
  }

  /** A static tag is read with no areas at all. */
  lemma StaticView(cc: CapabilityContainer, m: seq<byte>, a: nat)
    requires IsMemory(m) && ReadView(cc, m).Ok? && !cc.IsDynamic()
    ensures DATA_START <= a ==> Clear(ReadView(cc, m).value.layout, a - DATA_START)
  {
  }

  lemma ClearRank(layout: MemoryLayout, a: nat)
    requires DATA_START <= a <= ADDRESS_SPACE_END && Clear(layout, a - DATA_START)
    ensures Rank(layout, a) == a - DATA_START
  {
    GatherContiguous(layout, Zeros(ADDRESS_SPACE_END), a);
  }

  /** All addresses below count as usable exactly if none is skipped. */
  lemma ClearRankExact(layout: MemoryLayout, a: nat)
    requires DATA_START <= a <= ADDRESS_SPACE_END
    ensures Rank(layout, a) == a - DATA_START <==> Clear(layout, a - DATA_START)
  {
    if Clear(layout, a - DATA_START) {
      ClearRank(layout, a);
    } else {
      var x :| DATA_START <= x < a && layout.IsSkip(x);
      SkipLowersRank(layout, x, a);
    }
  }

  /** At the tag the written stream holds the NDEF TLV's tag. */
  lemma TagInStream(m0: seq<byte>, d: seq<byte>)
    requires IsMemory(m0) && WritePlan(m0, d).Ok? && HitsTag(m0, d)
    ensures var plan := WritePlan(m0, d).value;
      plan.offset < |Stream(plan.layout, m0)| && Stream(plan.layout, m0)[plan.offset] == TLV_NDEF_MESSAGE
  {
    var plan := WritePlan(m0, d).value;
    SelectExact(plan.layout, plan.offset);
    StreamIsSelected(plan.layout, m0, plan.offset);
  }

  /** The prefix is canonical, and the layouts read with and written through agree up to the NDEF TLV's tag. */
  ghost predicate Found(m0: seq<byte>, d: seq<byte>)
    requires IsMemory(m0) && WritePlan(m0, d).Ok?
  {
    var plan := WritePlan(m0, d).value;
    CanonicalPrefix(plan.view.bytes) && AgreeBelow(plan.view.layout, plan.layout, TagAddress(m0, d) + 1)
  }

  /** Then the stream read from and the one written to share the prefix and the tag. */
  lemma TruePosition(m0: seq<byte>, d: seq<byte>)
    requires IsMemory(m0) && WritePlan(m0, d).Ok? && Found(m0, d)
    ensures HitsTag(m0, d)
    ensures var plan := WritePlan(m0, d).value;
      && NdefPosition(plan.view.bytes) == Some(plan.offset)
      && plan.offset < |Stream(plan.layout, m0)|
      && plan.view.bytes[..plan.offset] == Stream(plan.layout, m0)[..plan.offset]
      && Stream(plan.layout, m0)[plan.offset] == TLV_NDEF_MESSAGE
  {
    var plan, a := WritePlan(m0, d).value, TagAddress(m0, d);
    PlanPosition(m0, d);
    AgreeingPosition(plan.view.layout, plan.layout, m0, plan.view.bytes, plan.offset, a);
    TagInStream(m0, d);
  }

  lemma AgreeingPosition(l1: MemoryLayout, l2: MemoryLayout, m: seq<byte>, bytes: seq<byte>, k: nat, a: nat)
    requires IsMemory(m) && bytes <= Stream(l1, m) && k < |bytes|
    requires IsNth(l1, k, a) && AgreeBelow(l1, l2, a + 1)
    ensures Select(l2, k) == Some(a) && k < |Stream(l2, m)| && bytes[..k] == Stream(l2, m)[..k]
  {
    assert l1.IsSkip(a) == l2.IsSkip(a);
    AgreeingGather(l1, l2, m, a);
    SelectOfRank(l2, a);
    RankNext(l2, a);
    SharedPrefix(l1, l2, m, a + 1, bytes, k);
  }

  /** The layouts agree further, up to the payload's end. */
  ghost predicate Faithful(m0: seq<byte>, d: seq<byte>)
    requires IsMemory(m0) && WritePlan(m0, d).Ok?
  {
    var plan := WritePlan(m0, d).value;
    && CanonicalPrefix(plan.view.bytes)
    && Fits(plan.layout, plan.offset, d)
    && AgreeBelow(plan.view.layout, plan.layout, PayloadEnd(plan.layout, plan.offset, d))
  }

  lemma FaithfulIsFound(m0: seq<byte>, d: seq<byte>)
    requires IsMemory(m0) && WritePlan(m0, d).Ok? && Faithful(m0, d)
    ensures Found(m0, d)
  {
    var plan, a := WritePlan(m0, d).value, TagAddress(m0, d);
    PlanPosition(m0, d);
    BelowEnd(plan.view.layout, plan.layout, m0, PayloadEnd(plan.layout, plan.offset, d), plan.offset, a);
  }

  lemma BelowEnd(l1: MemoryLayout, l2: MemoryLayout, m: seq<byte>, hi: nat, k: nat, a: nat)
    requires IsMemory(m) && hi <= ADDRESS_SPACE_END && AgreeBelow(l1, l2, hi) && IsNth(l1, k, a) && k < Rank(l2, hi)
    ensures a < hi
  {
    AgreeingGather(l1, l2, m, hi);
    if hi <= a {
      RankMonotone(l1, hi, a);
      assert false;
    }
  }

  lemma SharedPrefix(l1: MemoryLayout, l2: MemoryLayout, m: seq<byte>, hi: nat, bytes: seq<byte>, k: nat)
    requires IsMemory(m) && hi <= ADDRESS_SPACE_END && AgreeBelow(l1, l2, hi)
    requires bytes <= Stream(l1, m) && k < |bytes| && k < Rank(l2, hi)
    ensures Rank(l2, hi) <= |Stream(l2, m)|
    ensures bytes[..k] == Stream(l2, m)[..k] && bytes[k] == Stream(l2, m)[k]
  {
    AgreeingGather(l1, l2, m, hi);
    GatherGrows(l1, m, hi, ADDRESS_SPACE_END);
    GatherGrows(l2, m, hi, ADDRESS_SPACE_END);
    var g := Gather(l2, m, hi);
    assert bytes[k] == Stream(l1, m)[k] == g[k] == Stream(l2, m)[k];
    assert bytes[..k] == Stream(l1, m)[..k] == g[..k] == Stream(l2, m)[..k];
  }

  /**
   Same-layout round trip: after a completed write the data area, read with the layout written through, holds the
   TLVs before the NDEF TLV, the new message and a Terminator, even with lock or reserved areas inside the value.
   */
  lemma SameLayoutRoundTrip(m0: seq<byte>, d: seq<byte>)
    requires IsMemory(m0) && WritePlan(m0, d).Ok? && Found(m0, d)
    ensures var plan := WritePlan(m0, d).value;
      var m1 := Written(plan.layout, plan.offset, m0, d);
      && DataArea(plan.layout, m1).Ok?
      && NdefPosition(plan.view.bytes).Some?
      && Parse(DataArea(plan.layout, m1).value) == Ok(Before(plan.view.bytes) + [NdefMessage(d), Terminator])
  {
    var plan := WritePlan(m0, d).value;
    PlanFits(m0, d);
    TruePosition(m0, d);
    AgreeingArea(plan.layout, plan.layout, plan.offset, m0, d, plan.view.bytes);
    AreaParses(plan.view.bytes, plan.offset, d, plan.view.bytes[..plan.offset] + NdefBytes(d));
  }

  /** No cut of a write to the NDEF TLV's address with the length field in one block tears the message. */
  lemma PlannedWriteIsCrashSafe(m0: seq<byte>, d: seq<byte>)
    requires IsMemory(m0) && WritePlan(m0, d).Ok? && HitsTag(m0, d)
    requires var plan := WritePlan(m0, d).value;
      plan.offset + 3 < Rank(plan.layout, ADDRESS_SPACE_END) && LengthInOneBlock(plan.layout, plan.offset, |d|)
    ensures var plan := WritePlan(m0, d).value; CrashSafe(plan.layout, plan.offset, m0, d)
  {
    var plan := WritePlan(m0, d).value;
    PlanFits(m0, d);
    TagInStream(m0, d);
    CrashConsistency(plan.layout, plan.offset, m0, d);
  }

  // ---- the two-pass read after a write ----

  /** Writing never touches the Capability Container. */
  lemma SameCC(layout: MemoryLayout, k: nat, m0: seq<byte>, d: seq<byte>)
    requires IsMemory(m0) && |d| <= MAX_TLV_LENGTH
    ensures var m1 := Written(layout, k, m0, d); IsMemory(m1) && CCOf(m1) == CCOf(m0)
  {
    var m1, f := WithPayload(layout, k, m0, d), LengthField(|d|);
    forall a | 12 <= a < 16
      ensures Written(layout, k, m0, d)[a] == m0[a]
    {
      ScatterAt(layout, m0, k, Payload(d), |Payload(d)|, a);
      ScatterAt(layout, m1, k + 1, f, |f|, a);
    }
    assert Written(layout, k, m0, d)[12..16] == m0[12..16];
  }

  lemma ViewBytes(cc: CapabilityContainer, m: seq<byte>)
    requires IsMemory(m) && ReadView(cc, m).Ok?
    ensures var v := ReadView(cc, m).value;
      v.layout.dataAreaSize == cc.DataAreaSize() && DataArea(v.layout, m) == Ok(v.bytes)
  {
  }

  /** What a plan says about the tag it was made for. */
  lemma PlanFacts(m0: seq<byte>, d: seq<byte>)
    requires IsMemory(m0) && WritePlan(m0, d).Ok?
    ensures var plan := WritePlan(m0, d).value;
      && CCOf(m0) == Ok(plan.cc) && plan.cc.IsValid()
      && Parse(plan.view.bytes) == Ok(plan.tlvs) && AllWellFormed(plan.tlvs)
      && plan.layout == LayoutOf(plan.cc, plan.tlvs)
      && Fits(plan.layout, plan.offset, d)
  {
    PlanFits(m0, d);
  }

  /** A tag whose detection ends with a layout that agrees below the payload's end presents the message. */
  lemma PresentsMessage(cc: CapabilityContainer, layout: MemoryLayout, k: nat, m0: seq<byte>, d: seq<byte>,
                        s: seq<byte>, view: View)
    requires IsMemory(m0) && CCOf(m0) == Ok(cc) && cc.IsValid()
    requires Fits(layout, k, d) && layout.dataAreaSize == cc.DataAreaSize()
    requires NdefPosition(s) == Some(k) && s[..k] == Stream(layout, m0)[..k]
    requires var m1 := Written(layout, k, m0, d); IsMemory(m1) && ReadView(cc, m1) == Ok(view)
    requires AgreeBelow(view.layout, layout, PayloadEnd(layout, k, d))
    ensures NdefOf(Written(layout, k, m0, d)) == Ok(d)
  {
    SameCC(layout, k, m0, d);
    ViewBytes(cc, Written(layout, k, m0, d));
    AgreeingArea(view.layout, layout, k, m0, d, s);
    AreaParses(s, k, d, s[..k] + NdefBytes(d));
    FirstNdefAfter(Before(s), [NdefMessage(d), Terminator]);
  }

  /** Whenever a later detection ends up with a layout that agrees below the payload's end, it returns the message. */
  lemma ReadBack(m0: seq<byte>, d: seq<byte>, view: View)
    requires IsMemory(m0) && WritePlan(m0, d).Ok? && Found(m0, d) && |d| <= MAX_TLV_LENGTH
    requires var plan := WritePlan(m0, d).value;
      var m1 := Written(plan.layout, plan.offset, m0, d);
      && IsMemory(m1) && ReadView(plan.cc, m1) == Ok(view) && Fits(plan.layout, plan.offset, d)
      && AgreeBelow(view.layout, plan.layout, PayloadEnd(plan.layout, plan.offset, d))
    ensures var plan := WritePlan(m0, d).value; NdefOf(Written(plan.layout, plan.offset, m0, d)) == Ok(d)
  {
    var plan := WritePlan(m0, d).value;
    PlanFacts(m0, d);
    TruePosition(m0, d);
    PresentsMessage(plan.cc, plan.layout, plan.offset, m0, d, plan.view.bytes, view);
  }

  lemma ClearEnd(layout: MemoryLayout, k: nat, d: seq<byte>)
    requires Fits(layout, k, d) && Clear(layout, k + |Payload(d)|)
    ensures PayloadEnd(layout, k, d) == DATA_START + k + |Payload(d)|
  {
    var n := k + |Payload(d)|;
    var blank := Zeros(ADDRESS_SPACE_END);
    GatherContiguous(layout, blank, DATA_START + n - 1);
    SelectOfRank(layout, DATA_START + n - 1);
  }

  /** The default lock area lies behind the data area. */
  lemma BasicIsClear(cc: CapabilityContainer)
    ensures Clear(LayoutOf(cc, []), cc.DataAreaSize())
  {
  }

  /** Fewer TLVs describe fewer areas; only the default lock area can come in their place. */
  lemma {:induction false} AreasOfPrefix(ts: seq<Tlv>, n: nat)
    requires AllWellFormed(ts) && n <= |ts|
    ensures AllWellFormed(ts[..n])
    ensures LockAreasOf(ts[..n]) <= LockAreasOf(ts) && ReservedAreasOf(ts[..n]) <= ReservedAreasOf(ts)
  {
    if n < |ts| {
      AreasOfPrefix(ts[..|ts| - 1], n);
      assert ts[..|ts| - 1][..n] == ts[..n];
    } else {
      assert ts[..n] == ts;
    }
  }

  lemma ClearPrefix(cc: CapabilityContainer, ts: seq<Tlv>, n: nat, size: nat)
    requires AllWellFormed(ts) && n <= |ts| && size <= cc.DataAreaSize() && Clear(LayoutOf(cc, ts), size)
    ensures AllWellFormed(ts[..n]) && Clear(LayoutOf(cc, ts[..n]), size)
  {
    AreasOfPrefix(ts, n);
    var all, fewer := LayoutOf(cc, ts), LayoutOf(cc, ts[..n]);
    forall a | DATA_START <= a < DATA_START + size
      ensures !fewer.IsSkip(a)
    {
      assert forall i :: 0 <= i < |LockAreasOf(ts[..n])| ==> LockAreasOf(ts[..n])[i] == LockAreasOf(ts)[i];
      assert forall i :: 0 <= i < |fewer.reservedAreas| ==> fewer.reservedAreas[i] == all.reservedAreas[i];
      assert !all.IsSkip(a);
    }
  }

  lemma NoAreasAdded(cc: CapabilityContainer, ts: seq<Tlv>, d: seq<byte>)
    requires AllWellFormed(ts)
    ensures AllWellFormed(ts + [NdefMessage(d), Terminator])
    ensures LayoutOf(cc, ts + [NdefMessage(d), Terminator]) == LayoutOf(cc, ts)
  {
    var ts1 := ts + [NdefMessage(d)];
    var ts2 := ts + [NdefMessage(d), Terminator];
    assert ts2[..|ts2| - 1] == ts1 && ts1[..|ts1| - 1] == ts;
    assert LockAreasOf(ts1) == LockAreasOf(ts) && ReservedAreasOf(ts1) == ReservedAreasOf(ts);
    assert LockAreasOf(ts2) == LockAreasOf(ts1) && ReservedAreasOf(ts2) == ReservedAreasOf(ts1);
  }

  /** The TLVs describe the same areas. */
  predicate SameAreas(a: seq<Tlv>, b: seq<Tlv>) {
    && AllWellFormed(a) && AllWellFormed(b)
    && LockAreasOf(a) == LockAreasOf(b) && ReservedAreasOf(a) == ReservedAreasOf(b)
  }

  /** TLVs that describe nothing add no areas. */
  lemma {:induction false} NoAreasFrom(ts: seq<Tlv>, more: seq<Tlv>)
    requires AllWellFormed(ts) && !HasControl(more)
    ensures SameAreas(ts + more, ts)
  {
    if more == [] {
      assert ts + more == ts;
    } else {
      var init, last := more[..|more| - 1], more[|more| - 1];
      NoControlInit(more, init);
      NoAreasFrom(ts, init);
      NoAreaInLast(ts, more, init, last);
    }
  }

  lemma NoAreaInLast(ts: seq<Tlv>, more: seq<Tlv>, init: seq<Tlv>, last: Tlv)
    requires !HasControl(more) && more == init + [last] && SameAreas(ts + init, ts)
    ensures SameAreas(ts + more, ts)
  {
    assert more[|init|] == last;
    SnocAreas(ts + init, last);
    assert ts + more == ts + init + [last];
  }

  lemma NoControlInit(more: seq<Tlv>, init: seq<Tlv>)
    requires !HasControl(more) && init <= more
    ensures !HasControl(init)
  {
    forall i | 0 <= i < |init|
      ensures !init[i].IsControl()
    {
      assert init[i] == more[i];
    }
  }

  /** They do not change the layout. */
  lemma NothingDescribed(cc: CapabilityContainer, ts: seq<Tlv>, more: seq<Tlv>)
    requires AllWellFormed(ts) && !HasControl(more)
    ensures AllWellFormed(ts + more) && LayoutOf(cc, ts + more) == LayoutOf(cc, ts)
    ensures LockAreasOf(ts + more) == LockAreasOf(ts) && ReservedAreasOf(ts + more) == ReservedAreasOf(ts)
  {
    NoAreasFrom(ts, more);
  }

  /** The areas of one more TLV. */
  lemma SnocAreas(a: seq<Tlv>, t: Tlv)
    requires AllWellFormed(a) && (t.IsControl() ==> t.WellFormed())
    ensures AllWellFormed(a + [t])
    ensures LockAreasOf(a + [t]) == LockAreasOf(a) + (if t.LockControl? then [LockAreaOf(t.lock)] else [])
    ensures ReservedAreasOf(a + [t]) == ReservedAreasOf(a) + (if t.MemoryControl? then [ReservedAreaOf(t.memory)] else [])
  {
    assert (a + [t])[..|a + [t]| - 1] == a;
  }

  /** The TLVs before the NDEF TLV come first in the parse. */
  lemma BeforeIsPrefix(s: seq<byte>)
    requires Parse(s).Ok? && NdefPosition(s).Some?
    ensures var n := |Before(s)|; n <= |Parse(s).value| && Parse(s).value[..n] == Before(s)
  {
    PrefixParses(s, s);
  }

  /** With no area before the payload's end, both passes of a later detection see the new TLV. */
  lemma ClearView(cc: CapabilityContainer, layout: MemoryLayout, k: nat, m0: seq<byte>, d: seq<byte>, s: seq<byte>)
    requires IsMemory(m0) && Fits(layout, k, d) && layout.dataAreaSize == cc.DataAreaSize()
    requires NdefPosition(s) == Some(k) && s[..k] == Stream(layout, m0)[..k]
    requires Clear(layout, k + |Payload(d)|)
    requires AllWellFormed(Before(s)) && Clear(LayoutOf(cc, Before(s)), k + |Payload(d)|)
    ensures var m1 := Written(layout, k, m0, d);
      && IsMemory(m1) && ReadView(cc, m1).Ok?
      && AgreeBelow(ReadView(cc, m1).value.layout, layout, PayloadEnd(layout, k, d))
  {
    var m1 := Written(layout, k, m0, d);
    var t := s[..k] + NdefBytes(d);
    var basic := LayoutOf(cc, []);
    BasicIsClear(cc);
    ClearEnd(layout, k, d);
    AgreeingArea(basic, layout, k, m0, d, s);
    AreaParses(s, k, d, t);
    NoAreasAdded(cc, Before(s), d);
    AgreeingArea(LayoutOf(cc, Before(s)), layout, k, m0, d, s);
    ParsedControls(t);
  }

  /** The NDEF TLV is found where the write goes, and no area meets the bytes up to the payload's end. */
  ghost predicate Unobstructed(m0: seq<byte>, d: seq<byte>)
    requires IsMemory(m0) && WritePlan(m0, d).Ok?
  {
    var plan := WritePlan(m0, d).value;
    Found(m0, d) && Clear(plan.layout, plan.offset + |Payload(d)|)
  }

  /**
   End-to-end round trip: if the TLVs before the NDEF TLV are known and canonical and no lock or reserved area meets
   the bytes up to the payload's end, a completed write is read back by the two-pass procedure exactly.
   */
  lemma EndToEnd(m0: seq<byte>, d: seq<byte>)
    requires IsMemory(m0) && WritePlan(m0, d).Ok? && Unobstructed(m0, d)
    ensures var plan := WritePlan(m0, d).value;
      |d| <= MAX_TLV_LENGTH && IsMemory(Written(plan.layout, plan.offset, m0, d))
      && NdefOf(Written(plan.layout, plan.offset, m0, d)) == Ok(d)
  {
    var plan := WritePlan(m0, d).value;
    PlanFacts(m0, d);
    TruePosition(m0, d);
    ClearRoundTrip(plan.cc, plan.tlvs, plan.layout, plan.offset, m0, d, plan.view.bytes);
  }

  lemma ClearRoundTrip(cc: CapabilityContainer, tlvs: seq<Tlv>, layout: MemoryLayout, k: nat, m0: seq<byte>,
                       d: seq<byte>, s: seq<byte>)
    requires IsMemory(m0) && CCOf(m0) == Ok(cc) && cc.IsValid()
    requires Parse(s) == Ok(tlvs) && AllWellFormed(tlvs) && layout == LayoutOf(cc, tlvs) && Fits(layout, k, d)
    requires NdefPosition(s) == Some(k) && s[..k] == Stream(layout, m0)[..k]
    requires Clear(layout, k + |Payload(d)|)
    ensures IsMemory(Written(layout, k, m0, d)) && NdefOf(Written(layout, k, m0, d)) == Ok(d)
  {
    BeforeIsPrefix(s);
    ClearPrefix(cc, tlvs, |Before(s)|, k + |Payload(d)|);
    ClearView(cc, layout, k, m0, d, s);
    PresentsMessage(cc, layout, k, m0, d, s, ReadView(cc, Written(layout, k, m0, d)).value);
  }
}
