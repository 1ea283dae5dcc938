/**
 Tags as they are formatted in practice: canonical TLVs, an NDEF TLV and a Terminator, with all described areas behind
 them. On these every condition of the write guarantees is met, and writing keeps the format.
 */
module FormattedTag {
  import opened Basics
  import opened TlvLength
  import opened Tlv
  import opened TlvParser
  import opened TlvScanner
  import opened Memory
  import opened UsableBytes
  import opened NdefProcedures
  import opened PageWrites
  import opened CrashSafety
  import opened RoundTrip
  import opened WriteGuarantees

  /** TLVs that can stand before the NDEF TLV. */
  predicate Leading(ts: seq<Tlv>) {
    forall t :: t in ts ==> t.WellFormed() && !t.NdefMessage? && t != Terminator
  }

  lemma PrintedSize(t: Tlv)
    requires t.WellFormed()
    ensures |t.ToBytes().value| == CanonicalSize(t)
  {
  }

  lemma PrintedParses(t: Tlv, b: seq<byte>, rest: seq<byte>, s: seq<byte>)
    requires t.WellFormed() && b == t.ToBytes().value && s == b + rest
    ensures s != [] && ParseBlock(s) == Ok(Block(Some(t), |b|)) && rest == s[|b|..] && CanonicalSize(t) == |b|
  {
    BlockRoundTrip(t, rest);
    PrintedSize(t);
    PrefixKept(b, rest);
  }

  /** A printed block in front of a stream moves the NDEF TLV. */
  lemma PrintedPosition(t: Tlv, b: seq<byte>, rest: seq<byte>, s: seq<byte>, p: nat, p1: nat)
    requires t.WellFormed() && !t.NdefMessage? && t != Terminator
    requires b == t.ToBytes().value && s == b + rest && NdefIsAt(rest, p) && p1 == |b| + p
    ensures NdefIsAt(s, p1)
  {
    PrintedParses(t, b, rest, s);
    PositionStep(s, Block(Some(t), |b|), rest);
  }

  lemma PrintedBefore(t: Tlv, b: seq<byte>, rest: seq<byte>, s: seq<byte>)
    requires t.WellFormed() && !t.NdefMessage? && t != Terminator
    requires b == t.ToBytes().value && s == b + rest
    requires NdefPosition(rest).Some? && NdefPosition(s).Some?
    ensures Before(s) == [t] + Before(rest)
  {
    PrintedParses(t, b, rest, s);
    ListedInFront(s, t, |b|, rest);
  }

  lemma PrintedCanonical(t: Tlv, b: seq<byte>, rest: seq<byte>, s: seq<byte>)
    requires t.WellFormed() && !t.NdefMessage? && t != Terminator
    requires b == t.ToBytes().value && s == b + rest && CanonicalPrefix(rest)
    ensures CanonicalPrefix(s)
  {
    PrintedParses(t, b, rest, s);
    CanonicalStep(s, Block(Some(t), |b|), rest);
  }

  lemma NdefAlone(d: seq<byte>)
    requires |d| <= MAX_TLV_LENGTH
    ensures NdefPosition(NdefBytes(d)) == Some(0) && Before(NdefBytes(d)) == [] && CanonicalPrefix(NdefBytes(d))
  {
    assert NdefBytes(d) == NdefMessage(d).ToBytes().value + [TLV_TERMINATOR];
    BlockRoundTrip(NdefMessage(d), [TLV_TERMINATOR]);
  }

  /** Behind printed TLVs the parser finds an NDEF TLV right where they end. */
  lemma {:induction false} PrintedPrefix(ts: seq<Tlv>, b: seq<byte>)
    requires Leading(ts) && NdefIsAt(b, 0)
    ensures NdefIsAt(PrintAll(ts) + b, |PrintAll(ts)|)
  {
    if ts == [] {
      assert PrintAll(ts) + b == b;
    } else {
      var b0, tail := ts[0].ToBytes().value, PrintAll(ts[1..]);
      PrintedPrefix(ts[1..], b);
      FirstPrinted(ts, b, b0, tail);
      PrintedPosition(ts[0], b0, tail + b, PrintAll(ts) + b, |tail|, |PrintAll(ts)|);
    }
  }

  /** They are what it lists before it. */
  lemma {:induction false} PrintedPrefixListed(ts: seq<Tlv>, b: seq<byte>)
    requires Leading(ts) && NdefPosition(b) == Some(0) && Before(b) == []
    requires NdefPosition(PrintAll(ts) + b).Some?
    ensures Before(PrintAll(ts) + b) == ts
  {
    if ts == [] {
      assert PrintAll(ts) + b == b;
    } else {
      var b0, tail := ts[0].ToBytes().value, PrintAll(ts[1..]);
      PrintedPrefix(ts[1..], b);
      PrintedPrefixListed(ts[1..], b);
      FirstPrinted(ts, b, b0, tail);
      PrintedBefore(ts[0], b0, tail + b, PrintAll(ts) + b);
    }
  }

  /** And all of it is canonical. */
  lemma {:induction false} PrintedPrefixCanonical(ts: seq<Tlv>, b: seq<byte>)
    requires Leading(ts) && CanonicalPrefix(b)
    ensures CanonicalPrefix(PrintAll(ts) + b)
  {
    if ts == [] {
      assert PrintAll(ts) + b == b;
    } else {
      var b0, tail := ts[0].ToBytes().value, PrintAll(ts[1..]);
      PrintedPrefixCanonical(ts[1..], b);
      FirstPrinted(ts, b, b0, tail);
      PrintedCanonical(ts[0], b0, tail + b, PrintAll(ts) + b);
    }
  }

  lemma FirstPrinted(ts: seq<Tlv>, b: seq<byte>, b0: seq<byte>, tail: seq<byte>)
    requires Leading(ts) && ts != [] && b0 == ts[0].ToBytes().value && tail == PrintAll(ts[1..])
    ensures PrintAll(ts) == b0 + tail && PrintAll(ts) + b == b0 + (tail + b)
  {
    Associative(b0, tail, b);
  }

  lemma Associative(a: seq<byte>, b: seq<byte>, c: seq<byte>)
    ensures a + b + c == a + (b + c)
  {
  }

  lemma FormatPosition(ts: seq<Tlv>, d: seq<byte>)
    requires Leading(ts) && |d| <= MAX_TLV_LENGTH
    ensures var s := Format(ts, d);
      NdefPosition(s) == Some(|PrintAll(ts)|) && Before(s) == ts && CanonicalPrefix(s)
  {
    NdefAlone(d);
    PrintedPrefix(ts, NdefBytes(d));
    PrintedPrefixListed(ts, NdefBytes(d));
    PrintedPrefixCanonical(ts, NdefBytes(d));
  }

  /** The bytes a formatted tag starts its data area with. */
  function Format(ts: seq<Tlv>, d: seq<byte>): seq<byte>
    requires Leading(ts) && |d| <= MAX_TLV_LENGTH
  {
    PrintAll(ts) + NdefBytes(d)
  }

  /** The format as one stream with the NDEF TLV at `k`. */
  lemma FormatShape(ts: seq<Tlv>, d: seq<byte>, s: seq<byte>, k: nat)
    requires Leading(ts) && |d| <= MAX_TLV_LENGTH && s == Format(ts, d) && k == |PrintAll(ts)|
    ensures k <= |s| && s == s[..k] + NdefBytes(d)
    ensures NdefPosition(s) == Some(k) && Before(s) == ts
  {
    FormatPosition(ts, d);
    PrefixKept(PrintAll(ts), NdefBytes(d));
  }

  /** A stream in which the parser finds an NDEF TLV right behind the leading TLVs. */
  lemma LeadingFound(ts: seq<Tlv>, k: nat) returns (s: seq<byte>)
    requires Leading(ts) && k == |PrintAll(ts)|
    ensures NdefPosition(s) == Some(k) && k <= |s| && s[..k] == PrintAll(ts) && Before(s) == ts
  {
    s := Format(ts, []);
    FormatShape(ts, [], s, k);
    PrefixKept(PrintAll(ts), NdefBytes([]));
  }

  lemma FormatParses(ts: seq<Tlv>, d: seq<byte>, s: seq<byte>)
    requires Leading(ts) && |d| <= MAX_TLV_LENGTH && s == Format(ts, d)
    ensures Parse(s) == Ok(ts + [NdefMessage(d), Terminator])
  {
    FormatShape(ts, d, s, |PrintAll(ts)|);
    AreaParses(s, |PrintAll(ts)|, d, s);
  }

  lemma FormatEnds(ts: seq<Tlv>, d: seq<byte>, s: seq<byte>)
    requires Leading(ts) && |d| <= MAX_TLV_LENGTH && s == Format(ts, d)
    ensures FirstFire(AtTag, s) == Some(|s| - 1)
  {
    FormatShape(ts, d, s, |PrintAll(ts)|);
    AreaEnds(s, |PrintAll(ts)|, d, s);
  }

  /** The layout of printed TLVs that fit on a tag has enough usable bytes. */
  lemma LayoutReadable(cc: CapabilityContainer, ts: seq<Tlv>, m: seq<byte>)
    requires IsMemory(m) && Leading(ts) && AllWellFormed(ts) && |Format(ts, [])| <= 2040
    ensures cc.DataAreaSize() < |Stream(LayoutOf(cc, ts), m)|
  {
    FormatParses(ts, [], Format(ts, []));
    ParsedControls(Format(ts, []));
    NoAreasAdded(cc, ts, []);
    LookupBound(cc, ts + [NdefMessage([]), Terminator], cc.DataAreaSize());
  }

  /** The tag can be written, holds `ts`, the message `d` and a Terminator, and no area `ts` describes meets them. */
  predicate Formatted(m: seq<byte>, cc: CapabilityContainer, ts: seq<Tlv>, d: seq<byte>) {
    && IsMemory(m) && CCOf(m) == Ok(cc) && cc.IsValid() && cc.writeAccess == Granted
    && Leading(ts) && AllWellFormed(ts) && |d| <= MAX_TLV_LENGTH
    && |Format(ts, d)| <= cc.DataAreaSize()
    && m[DATA_START..DATA_START + |Format(ts, d)|] == Format(ts, d)
    && Clear(LayoutOf(cc, ts), |Format(ts, d)|)
  }

  /** A layout that is clear up to the format's end reads exactly the format. */
  lemma ReadsFormat(layout: MemoryLayout, m: seq<byte>, ts: seq<Tlv>, d: seq<byte>)
    requires IsMemory(m) && Leading(ts) && |d| <= MAX_TLV_LENGTH
    requires |Format(ts, d)| <= layout.dataAreaSize <= 2040
    requires m[DATA_START..DATA_START + |Format(ts, d)|] == Format(ts, d)
    requires Clear(layout, |Format(ts, d)|)
    ensures DataArea(layout, m) == Ok(Format(ts, d))
  {
    var s := Format(ts, d);
    FormatEnds(ts, d, s);
    GatherContiguous(layout, m, DATA_START + |s|);
    GatherGrows(layout, m, DATA_START + |s|, ADDRESS_SPACE_END);
    CompleteArea(layout, m, s);
  }

  /** Detection of a formatted tag: the format, under the described layout or the basic one. */
  lemma FormattedView(m: seq<byte>, cc: CapabilityContainer, ts: seq<Tlv>, d: seq<byte>)
    requires Formatted(m, cc, ts, d)
    ensures ReadView(cc, m).Ok? && ReadView(cc, m).value.bytes == Format(ts, d)
    ensures ReadView(cc, m).value.layout == LayoutOf(cc, []) || ReadView(cc, m).value.layout == LayoutOf(cc, ts)
    ensures cc.IsDynamic() && HasControl(ts) ==> ReadView(cc, m).value.layout == LayoutOf(cc, ts)
  {
    var tlvs := ts + [NdefMessage(d), Terminator];
    BasicIsClear(cc);
    ReadsFormat(LayoutOf(cc, []), m, ts, d);
    ReadsFormat(LayoutOf(cc, ts), m, ts, d);
    FormatParses(ts, d, Format(ts, d));
    NoAreasAdded(cc, ts, d);
    assert HasControl(ts) ==> HasControl(tlvs) by {
      if i :| 0 <= i < |ts| && ts[i].IsControl() {
        assert tlvs[i] == ts[i];
      }
    }
  }

  /** What a formatted tag presents. */
  lemma FormattedPresents(m: seq<byte>, cc: CapabilityContainer, ts: seq<Tlv>, d: seq<byte>)
    requires Formatted(m, cc, ts, d)
    ensures NdefOf(m) == Ok(d)
  {
    FormattedView(m, cc, ts, d);
    FormatParses(ts, d, Format(ts, d));
    FirstNdefAfter(ts, [NdefMessage(d), Terminator]);
  }

  /** A plan for a formatted tag: exactly the messages that fit get one, at the end of the leading TLVs. */
  lemma FormattedPlan(m: seq<byte>, cc: CapabilityContainer, ts: seq<Tlv>, d0: seq<byte>, d: seq<byte>)
    requires Formatted(m, cc, ts, d0)
    ensures ReadView(cc, m).Ok?
    ensures WritePlan(m, d) ==
      if |d| > MAX_TLV_LENGTH || |PrintAll(ts)| + |Payload(d)| > cc.DataAreaSize() then Err(OutOfRange)
      else Ok(Plan(cc, ReadView(cc, m).value, ts + [NdefMessage(d0), Terminator], LayoutOf(cc, ts), |PrintAll(ts)|))
  {
    FormattedView(m, cc, ts, d0);
    FormatParses(ts, d0, Format(ts, d0));
    NoAreasAdded(cc, ts, d0);
    FormatPosition(ts, d0);
    OffsetExact(Format(ts, d0));
  }

  /** The message fits and none of the described areas meets its place. */
  predicate HasRoom(cc: CapabilityContainer, ts: seq<Tlv>, d: seq<byte>)
    requires Leading(ts) && AllWellFormed(ts)
  {
    && |d| <= MAX_TLV_LENGTH && |PrintAll(ts)| + |Payload(d)| <= cc.DataAreaSize()
    && Clear(LayoutOf(cc, ts), |PrintAll(ts)| + |Payload(d)|)
  }

  /** Writing keeps the format: same leading TLVs, new message. */
  lemma WriteKeepsFormat(m: seq<byte>, cc: CapabilityContainer, ts: seq<Tlv>, d0: seq<byte>, d: seq<byte>)
    requires Formatted(m, cc, ts, d0) && HasRoom(cc, ts, d)
    ensures Formatted(AfterWrite(m, d), cc, ts, d)
  {
    var layout, k := LayoutOf(cc, ts), |PrintAll(ts)|;
    FormattedPlan(m, cc, ts, d0, d);
    PlanFits(m, d);
    KeepsFormat(m, cc, ts, d0, d, layout, k);
  }

  lemma KeepsFormat(m: seq<byte>, cc: CapabilityContainer, ts: seq<Tlv>, d0: seq<byte>, d: seq<byte>,
                    layout: MemoryLayout, k: nat)
    requires Formatted(m, cc, ts, d0) && HasRoom(cc, ts, d)
    requires layout == LayoutOf(cc, ts) && k == |PrintAll(ts)| && Fits(layout, k, d)
    ensures Formatted(Written(layout, k, m, d), cc, ts, d)
  {
    SameCC(layout, k, m, d);
    FormatWritten(layout, k, m, ts, d0, d);
  }

  lemma FormatWritten(layout: MemoryLayout, k: nat, m: seq<byte>, ts: seq<Tlv>, d0: seq<byte>, d: seq<byte>)
    requires IsMemory(m) && Leading(ts) && k == |PrintAll(ts)| && |d0| <= MAX_TLV_LENGTH && Fits(layout, k, d)
    requires |Format(ts, d0)| <= 2040 && m[DATA_START..DATA_START + |Format(ts, d0)|] == Format(ts, d0)
    requires Clear(layout, |Format(ts, d0)|) && Clear(layout, k + |Payload(d)|)
    ensures Written(layout, k, m, d)[DATA_START..DATA_START + |Format(ts, d)|] == Format(ts, d)
  {
    PrefixKept(PrintAll(ts), NdefBytes(d0));
    assert |Format(ts, d)| == k + |NdefBytes(d)|;
    WrittenStart(layout, k, m, d, Format(ts, d0));
  }

  /** A write to a clear place leaves what was in front of it, then the NDEF TLV. */
  lemma WrittenStart(layout: MemoryLayout, k: nat, m: seq<byte>, d: seq<byte>, s: seq<byte>)
    requires IsMemory(m) && |d| <= MAX_TLV_LENGTH && Fits(layout, k, d)
    requires k <= |s| <= 2040 && m[DATA_START..DATA_START + |s|] == s && Clear(layout, |s|)
    requires k + |NdefBytes(d)| <= 2040 && Clear(layout, k + |NdefBytes(d)|)
    ensures var m1 := Written(layout, k, m, d);
      m1[DATA_START..DATA_START + k + |NdefBytes(d)|] == s[..k] + NdefBytes(d)
  {
    var m1, n := Written(layout, k, m, d), k + |NdefBytes(d)|;
    WrittenStream(layout, k, m, d);
    SameStart(layout, m, s, k);
    SpliceStarts(Stream(layout, m), k, NdefBytes(d), s[..k]);
    GatherContiguous(layout, m1, DATA_START + n);
    GatherGrows(layout, m1, DATA_START + n, ADDRESS_SPACE_END);
  }

  lemma SpliceStarts(s: seq<byte>, k: nat, data: seq<byte>, front: seq<byte>)
    requires k + |data| <= |s| && front == s[..k]
    ensures Splice(s, k, data)[..k + |data|] == front + data
  {
  }

  lemma SameStart(layout: MemoryLayout, m: seq<byte>, s: seq<byte>, k: nat)
    requires IsMemory(m) && k <= |s| <= 2040 && m[DATA_START..DATA_START + |s|] == s && Clear(layout, |s|)
    ensures |s| <= |Stream(layout, m)| && Stream(layout, m)[..k] == s[..k]
  {
    GatherContiguous(layout, m, DATA_START + |s|);
    GatherGrows(layout, m, DATA_START + |s|, ADDRESS_SPACE_END);
    assert Stream(layout, m)[..k] == Stream(layout, m)[..|s|][..k];
  }

  // ---- any number of writes ----

  ghost function AfterWrites(m: seq<byte>, ds: seq<seq<byte>>): (m': seq<byte>)
    requires IsMemory(m)
    ensures IsMemory(m')
  {
    if ds == [] then m else AfterWrite(AfterWrites(m, ds[..|ds| - 1]), ds[|ds| - 1])
  }

  /** After any sequence of writes a formatted tag presents the last message, and is still formatted. */
  lemma {:induction false} RepeatedWrites(m: seq<byte>, cc: CapabilityContainer, ts: seq<Tlv>,
                                        d0: seq<byte>, ds: seq<seq<byte>>)
    requires Formatted(m, cc, ts, d0)
    requires forall i :: 0 <= i < |ds| ==> HasRoom(cc, ts, ds[i])
    ensures var last := if ds == [] then d0 else ds[|ds| - 1];
      Formatted(AfterWrites(m, ds), cc, ts, last) && NdefOf(AfterWrites(m, ds)) == Ok(last)
  {
    if ds == [] {
      FormattedPresents(m, cc, ts, d0);
    } else {
      var init, d := ds[..|ds| - 1], ds[|ds| - 1];
      RepeatedWrites(m, cc, ts, d0, init);
      var before := if init == [] then d0 else init[|init| - 1];
      WriteKeepsFormat(AfterWrites(m, init), cc, ts, before, d);
      FormattedPresents(AfterWrites(m, ds), cc, ts, d);
    }
  }

  // ---- the write guarantees on formatted tags ----

  /** Clear layouts agree up to a tag in front of their areas. */
  lemma ClearAgree(l1: MemoryLayout, l2: MemoryLayout, k: nat, a: nat, n: nat)
    requires IsNth(l1, k, a) && Clear(l1, n) && Clear(l2, n) && k < n && DATA_START + n <= ADDRESS_SPACE_END
    ensures a == DATA_START + k && AgreeBelow(l1, l2, a + 1)
  {
    assert Clear(l1, k);
    ClearRank(l1, DATA_START + k);
    RankInjective(l1, DATA_START + k, a);
  }

  /** A message with room is written to a formatted tag under all conditions of the round trip. */
  lemma FormattedIsUnobstructed(m: seq<byte>, cc: CapabilityContainer, ts: seq<Tlv>, d0: seq<byte>, d: seq<byte>)
    requires Formatted(m, cc, ts, d0) && HasRoom(cc, ts, d)
    ensures WritePlan(m, d).Ok? && Unobstructed(m, d)
  {
    var k := |PrintAll(ts)|;
    FormattedPlan(m, cc, ts, d0, d);
    FormattedView(m, cc, ts, d0);
    FormatPosition(ts, d0);
    BasicIsClear(cc);
    ClearAgree(ReadView(cc, m).value.layout, LayoutOf(cc, ts), k, TagAddress(m, d), k + |Payload(d)|);
  }

  // ---- there are such tags ----

  /** A Capability Container a tag can carry that lets it be read and written. */
  predicate Writable(cc: CapabilityContainer) {
    cc.IsValid() && cc.versionMinor < 16 && cc.writeAccess == Granted
  }

  /** A tag with a Capability Container and the start of a data area, and zeros elsewhere. */
  function TagWith(cc: CapabilityContainer, area: seq<byte>): (m: seq<byte>)
    requires Writable(cc) && |area| <= cc.DataAreaSize()
    ensures IsMemory(m)
  {
    Zeros(12) + [0xE1, 0x10 + cc.versionMinor, cc.sizeField, 0x00] + area + Zeros(ADDRESS_SPACE_END - 16 - |area|)
  }

  lemma TagWithHolds(cc: CapabilityContainer, area: seq<byte>)
    requires Writable(cc) && |area| <= cc.DataAreaSize()
    ensures CCOf(TagWith(cc, area)) == Ok(cc)
    ensures TagWith(cc, area)[DATA_START..DATA_START + |area|] == area
    ensures forall i :: DATA_START + |area| <= i < ADDRESS_SPACE_END ==> TagWith(cc, area)[i] == 0
  {
    assert TagWith(cc, area)[12..16] == [0xE1, 0x10 + cc.versionMinor, cc.sizeField, 0x00];
  }

  /** Every format that fits in front of the areas it describes is the format of a tag. */
  lemma TagWithFormat(cc: CapabilityContainer, ts: seq<Tlv>, d: seq<byte>)
    requires Writable(cc) && Leading(ts) && AllWellFormed(ts) && |d| <= MAX_TLV_LENGTH
    requires |Format(ts, d)| <= cc.DataAreaSize() && Clear(LayoutOf(cc, ts), |Format(ts, d)|)
    ensures Formatted(TagWith(cc, Format(ts, d)), cc, ts, d)
  {
    TagWithHolds(cc, Format(ts, d));
  }

  function BlankCC(sizeField: byte): CapabilityContainer {
    CapabilityContainer(1, 0, sizeField, Granted, Granted)
  }

  /** A blank tag with an empty message, for every size of the data area. */
  function BlankTag(sizeField: byte): (m: seq<byte>)
    requires sizeField > 0
    ensures IsMemory(m)
  {
    TagWith(BlankCC(sizeField), [TLV_NDEF_MESSAGE, 0x00, TLV_TERMINATOR])
  }

  lemma BlankIsFormatted(sizeField: byte)
    requires sizeField > 0
    ensures Formatted(BlankTag(sizeField), BlankCC(sizeField), [], [])
  {
    assert Format([], []) == [TLV_NDEF_MESSAGE, 0x00, TLV_TERMINATOR];
    BasicIsClear(BlankCC(sizeField));
    TagWithFormat(BlankCC(sizeField), [], []);
  }
}
