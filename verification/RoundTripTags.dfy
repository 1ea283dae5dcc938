/** Exactly when all tags that hold the same leading TLVs give back all messages of a length. */
module RoundTripTags {
  import opened Basics
  import opened TlvLength
  import opened Tlv
  import opened TlvParser
  import opened TlvScanner
  import opened Memory
  import opened UsableBytes
  import opened NdefProcedures
  import opened PageWrites
  import opened CrashSafety
  import opened RoundTrip
  import opened RoundTripExact
  import opened WriteGuarantees
  import opened FormattedTag

  // ---- tags that hold given TLVs ----

  /** Detection finds the leading TLVs `ts`, read from the start of the data area, and behind them an NDEF TLV. */
  predicate Finds(cc: CapabilityContainer, ts: seq<Tlv>, view: View)
    requires Leading(ts) && AllWellFormed(ts)
  {
    && NdefIsAt(view.bytes, |PrintAll(ts)|) && Before(view.bytes) == ts && CanonicalPrefix(view.bytes)
    && Parse(view.bytes).Ok? && AllWellFormed(Parse(view.bytes).value)
    && LayoutOf(cc, Parse(view.bytes).value) == LayoutOf(cc, ts)
    && Clear(view.layout, |PrintAll(ts)| + 1)
  }

  /** A tag with this container on which detection finds `ts`; only the TLVs of `ts` describe areas. */
  ghost predicate Holds(m: seq<byte>, cc: CapabilityContainer, ts: seq<Tlv>) {
    && IsMemory(m) && CCOf(m) == Ok(cc) && Leading(ts) && AllWellFormed(ts) && ReadView(cc, m).Ok?
    && forall view :: ReadView(cc, m) == Ok(view) ==> Finds(cc, ts, view)
  }

  lemma HoldsFinds(m: seq<byte>, cc: CapabilityContainer, ts: seq<Tlv>)
    requires Holds(m, cc, ts)
    ensures Finds(cc, ts, ReadView(cc, m).value)
  {
  }

  /** Messages of `n` bytes fit behind the leading TLVs. */
  predicate Fitting(cc: CapabilityContainer, ts: seq<Tlv>, n: nat)
    requires Leading(ts)
  {
    n <= MAX_TLV_LENGTH && ValueOffset(|PrintAll(ts)|, n) + n + 1 <= cc.DataAreaSize()
  }

  /** No area that the leading TLVs describe meets the bytes up to the end of the payload of such a message. */
  predicate ClearUpToEnd(cc: CapabilityContainer, ts: seq<Tlv>, n: nat)
    requires Leading(ts) && AllWellFormed(ts)
  {
    Clear(LayoutOf(cc, ts), ValueOffset(|PrintAll(ts)|, n) + n + 1)
  }

  lemma HoldsPlan(m: seq<byte>, cc: CapabilityContainer, ts: seq<Tlv>, d: seq<byte>)
    requires Holds(m, cc, ts) && Writable(cc) && Fitting(cc, ts, |d|)
    ensures WritePlan(m, d).Ok?
    ensures var plan := WritePlan(m, d).value;
      && plan.cc == cc && plan.view == ReadView(cc, m).value
      && plan.layout == LayoutOf(cc, ts) && plan.offset == |PrintAll(ts)|
    ensures Fits(LayoutOf(cc, ts), |PrintAll(ts)|, d)
  {
    var bytes := ReadView(cc, m).value.bytes;
    HoldsFinds(m, cc, ts);
    OffsetExact(bytes);
    PlanFits(m, d);
  }

  /** What is in front of the NDEF TLV, in the memory. */
  lemma HoldsFront(m: seq<byte>, cc: CapabilityContainer, ts: seq<Tlv>, s: seq<byte>, k: nat)
    requires Holds(m, cc, ts) && s == ReadView(cc, m).value.bytes && k == |PrintAll(ts)|
    ensures NdefPosition(s) == Some(k) && k < |s| && DATA_START + k < |m| && s[..k] == m[DATA_START..DATA_START + k]
  {
    HoldsFinds(m, cc, ts);
    ViewInStream(cc, m);
    NdefAtTag(s, k);
    FrontInMemory(ReadView(cc, m).value.layout, m, s, k);
  }

  /** The NDEF TLV's tag in the memory. */
  lemma HoldsTag(m: seq<byte>, cc: CapabilityContainer, ts: seq<Tlv>, k: nat)
    requires Holds(m, cc, ts) && k == |PrintAll(ts)|
    ensures DATA_START + k < |m| && m[DATA_START + k] == TLV_NDEF_MESSAGE
  {
    HoldsFinds(m, cc, ts);
    ViewInStream(cc, m);
    NdefAtTag(ReadView(cc, m).value.bytes, k);
    ByteInMemory(ReadView(cc, m).value.layout, m, ReadView(cc, m).value.bytes, k);
  }

  lemma ViewInStream(cc: CapabilityContainer, m: seq<byte>)
    requires IsMemory(m) && ReadView(cc, m).Ok?
    ensures ReadView(cc, m).value.bytes <= Stream(ReadView(cc, m).value.layout, m)
    ensures |ReadView(cc, m).value.bytes| <= 2040
  {
    ViewLayout(cc, m);
  }

  lemma FrontInMemory(layout: MemoryLayout, m: seq<byte>, s: seq<byte>, k: nat)
    requires IsMemory(m) && s <= Stream(layout, m) && k <= |s| <= 2040 && Clear(layout, k)
    ensures s[..k] == m[DATA_START..DATA_START + k]
  {
    ClearStart(layout, m, k);
  }

  lemma ByteInMemory(layout: MemoryLayout, m: seq<byte>, s: seq<byte>, k: nat)
    requires IsMemory(m) && s <= Stream(layout, m) && k < |s| <= 2040 && Clear(layout, k + 1)
    ensures s[k] == m[DATA_START + k]
  {
    assert Clear(layout, k);
    ClearRank(layout, DATA_START + k);
    GatherAt(layout, m, ADDRESS_SPACE_END, DATA_START + k);
  }

  lemma NdefAtTag(s: seq<byte>, k: nat)
    requires NdefIsAt(s, k)
    ensures k < |s| && s[k] == TLV_NDEF_MESSAGE && NdefPosition(s) == Some(k)
  {
  }

  /** The plan of such a tag finds the NDEF TLV where it writes, if no area comes before it. */
  lemma HoldsFound(m: seq<byte>, cc: CapabilityContainer, ts: seq<Tlv>, d: seq<byte>)
    requires Holds(m, cc, ts) && Writable(cc) && Fitting(cc, ts, |d|) && Clear(LayoutOf(cc, ts), |PrintAll(ts)| + 1)
    ensures WritePlan(m, d).Ok? && Found(m, d)
  {
    var k := |PrintAll(ts)|;
    HoldsPlan(m, cc, ts, d);
    HoldsFinds(m, cc, ts);
    ClearAgree(ReadView(cc, m).value.layout, LayoutOf(cc, ts), k, TagAddress(m, d), k + 1);
  }

  // ---- streams that start with given TLVs ----

  /** Printed leading TLVs in front of a stream that starts with its NDEF TLV. */
  lemma LeadingStream(ts: seq<Tlv>, b: seq<byte>, s: seq<byte>)
    requires Leading(ts) && s == PrintAll(ts) + b
    requires NdefPosition(b) == Some(0) && Before(b) == [] && CanonicalPrefix(b) && Parse(b).Ok?
    ensures NdefIsAt(s, |PrintAll(ts)|) && Before(s) == ts && CanonicalPrefix(s)
    ensures Parse(s) == Ok(ts + Parse(b).value)
  {
    PrintedPrefix(ts, b);
    PrintedPrefixListed(ts, b);
    PrintedPrefixCanonical(ts, b);
    PrefixKept(PrintAll(ts), b);
    PrefixParses(s, s);
  }

  /** An NDEF TLV in front of bytes that parse. */
  lemma NdefFirst(v: seq<byte>, rest: seq<byte>, b: seq<byte>)
    requires |v| <= MAX_TLV_LENGTH && b == NdefMessage(v).ToBytes().value + rest && Parse(rest).Ok?
    ensures NdefPosition(b) == Some(0) && Before(b) == [] && CanonicalPrefix(b)
    ensures Parse(b) == Ok([NdefMessage(v)] + Parse(rest).value)
  {
    BlockRoundTrip(NdefMessage(v), rest);
    FirstBlock(NdefMessage(v), rest);
  }

  /** Nothing but Nulls and Terminators. */
  predicate Quiet(s: seq<byte>) {
    forall i :: 0 <= i < |s| ==> s[i] == TLV_NULL || s[i] == TLV_TERMINATOR
  }

  lemma {:induction false} QuietParses(s: seq<byte>)
    requires Quiet(s)
    ensures Parse(s).Ok? && !HasControl(Parse(s).value) && AllWellFormed(Parse(s).value)
  {
    if s != [] && s[0] == TLV_NULL {
      QuietParses(s[1..]);
      NoControlAppended([Null], Parse(s[1..]).value);
    }
  }

  lemma NoControlAppended(a: seq<Tlv>, b: seq<Tlv>)
    requires !HasControl(a) && !HasControl(b)
    ensures !HasControl(a + b)
  {
    forall i | 0 <= i < |a + b|
      ensures !(a + b)[i].IsControl()
    {
      assert (a + b)[i] == if i < |a| then a[i] else b[i - |a|];
    }
  }

  /** The leading TLVs, an NDEF TLV, and quiet bytes. */
  predicate Starts(s: seq<byte>, ts: seq<Tlv>, v: seq<byte>, rest: seq<byte>)
    requires Leading(ts) && |v| <= MAX_TLV_LENGTH
  {
    s == PrintAll(ts) + (NdefMessage(v).ToBytes().value + rest) && Quiet(rest)
  }

  lemma StartsParses(s: seq<byte>, ts: seq<Tlv>, v: seq<byte>, rest: seq<byte>)
    requires Leading(ts) && |v| <= MAX_TLV_LENGTH && Starts(s, ts, v, rest)
    ensures NdefIsAt(s, |PrintAll(ts)|) && Before(s) == ts && CanonicalPrefix(s)
    ensures Parse(rest).Ok? && !HasControl(Parse(rest).value)
    ensures Parse(s) == Ok(ts + ([NdefMessage(v)] + Parse(rest).value))
  {
    var b := NdefMessage(v).ToBytes().value + rest;
    QuietParses(rest);
    NdefFirst(v, rest, b);
    LeadingStream(ts, b, s);
  }

  /** Detection on a stream that starts so. */
  lemma StartsFinds(cc: CapabilityContainer, s: seq<byte>, ts: seq<Tlv>, v: seq<byte>, rest: seq<byte>,
                    layout: MemoryLayout)
    requires Leading(ts) && AllWellFormed(ts) && |v| <= MAX_TLV_LENGTH && Starts(s, ts, v, rest)
    requires Clear(layout, |PrintAll(ts)| + 1)
    ensures Finds(cc, ts, View(layout, s))
    ensures HasControl(Parse(s).value) <==> HasControl(ts)
  {
    StartsParses(s, ts, v, rest);
    var more := [NdefMessage(v)] + Parse(rest).value;
    NoControlAppended([NdefMessage(v)], Parse(rest).value);
    NothingDescribed(cc, ts, more);
    ControlKept(ts, more);
  }

  lemma ControlKept(a: seq<Tlv>, b: seq<Tlv>)
    requires !HasControl(b)
    ensures HasControl(a + b) <==> HasControl(a)
  {
    if HasControl(a) {
      var i :| 0 <= i < |a| && a[i].IsControl();
      assert (a + b)[i].IsControl();
    } else {
      NoControlAppended(a, b);
    }
  }

  // ---- data areas that start with given TLVs ----

  /** The scanner cannot fire before the quiet bytes. */
  lemma StartsScans(s: seq<byte>, ts: seq<Tlv>, v: seq<byte>, rest: seq<byte>, q: nat)
    requires Leading(ts) && |v| <= MAX_TLV_LENGTH && Starts(s, ts, v, rest) && q == |s| - |rest|
    ensures Reaches(AtTag, s, q)
  {
    var k, b := |PrintAll(ts)|, NdefMessage(v).ToBytes().value;
    StartsParses(s, ts, v, rest);
    PrefixScans(s, s, k);
    PrefixKept(PrintAll(ts), b + rest);
    NdefScans(v, rest, b);
    ReachFurther(s, k, q);
  }

  lemma NdefScans(v: seq<byte>, rest: seq<byte>, b: seq<byte>)
    requires |v| <= MAX_TLV_LENGTH && b == NdefMessage(v).ToBytes().value
    ensures Reaches(AtTag, b + rest, |b|)
  {
    BlockRoundTrip(NdefMessage(v), rest);
    ScanStep(b + rest, |b|);
  }

  /** A data area that starts so still does when it is cut off behind its first Terminator tag. */
  lemma StartsCut(s: seq<byte>, ts: seq<Tlv>, v: seq<byte>, rest: seq<byte>) returns (rest': seq<byte>)
    requires Leading(ts) && |v| <= MAX_TLV_LENGTH && Starts(s, ts, v, rest)
    ensures var s' := if FirstFire(AtTag, s).Some? then s[..FirstFire(AtTag, s).value + 1] else s;
      Starts(s', ts, v, rest')
  {
    rest' := rest;
    if FirstFire(AtTag, s).Some? {
      var q, f := |s| - |rest|, FirstFire(AtTag, s).value;
      StartsScans(s, ts, v, rest, q);
      rest' := rest[..f + 1 - q];
      var b := NdefMessage(v).ToBytes().value;
      assert s[..f + 1] == PrintAll(ts) + (b + rest');
    }
  }

  /** Detection with a layout under which the data area starts so. */
  lemma AreaFinds(cc: CapabilityContainer, layout: MemoryLayout, m: seq<byte>, ts: seq<Tlv>, v: seq<byte>, rest: seq<byte>)
    requires IsMemory(m) && Leading(ts) && AllWellFormed(ts) && |v| <= MAX_TLV_LENGTH && Clear(layout, |PrintAll(ts)| + 1)
    requires layout.dataAreaSize <= |Stream(layout, m)|
    requires Starts(Stream(layout, m)[..layout.dataAreaSize], ts, v, rest)
    ensures DataArea(layout, m).Ok? && Finds(cc, ts, View(layout, DataArea(layout, m).value))
    ensures HasControl(Parse(DataArea(layout, m).value).value) <==> HasControl(ts)
  {
    var s := Stream(layout, m)[..layout.dataAreaSize];
    var rest' := StartsCut(s, ts, v, rest);
    AreaIsCut(layout, m, s);
    StartsFinds(cc, DataArea(layout, m).value, ts, v, rest', layout);
  }

  lemma AreaIsCut(layout: MemoryLayout, m: seq<byte>, s: seq<byte>)
    requires IsMemory(m) && layout.dataAreaSize <= |Stream(layout, m)| && s == Stream(layout, m)[..layout.dataAreaSize]
    ensures DataArea(layout, m) ==
      Ok(if FirstFire(AtTag, s).Some? then s[..FirstFire(AtTag, s).value + 1] else s)
  {
  }

  /** A tag holds `ts` if both passes find it. */
  lemma BothPassesHold(cc: CapabilityContainer, m: seq<byte>, ts: seq<Tlv>)
    requires IsMemory(m) && CCOf(m) == Ok(cc) && Leading(ts) && AllWellFormed(ts)
    requires DataArea(LayoutOf(cc, []), m).Ok? && Finds(cc, ts, View(LayoutOf(cc, []), DataArea(LayoutOf(cc, []), m).value))
    requires HasControl(Parse(DataArea(LayoutOf(cc, []), m).value).value) <==> HasControl(ts)
    requires cc.IsDynamic() && HasControl(ts) ==>
      DataArea(LayoutOf(cc, ts), m).Ok? && Finds(cc, ts, View(LayoutOf(cc, ts), DataArea(LayoutOf(cc, ts), m).value))
    ensures Holds(m, cc, ts)
  {
  }

  /** The data area as it lies in the memory starts so. */
  lemma MemoryFinds(cc: CapabilityContainer, m: seq<byte>, ts: seq<Tlv>, v: seq<byte>, q: nat)
    requires IsMemory(m) && Leading(ts) && AllWellFormed(ts) && |v| <= MAX_TLV_LENGTH
    requires q == |PrintAll(ts)| + |NdefMessage(v).ToBytes().value| <= cc.DataAreaSize()
    requires m[DATA_START..DATA_START + q] == PrintAll(ts) + NdefMessage(v).ToBytes().value
    requires Quiet(m[DATA_START + q..DATA_START + cc.DataAreaSize()])
    ensures var basic := LayoutOf(cc, []);
      && DataArea(basic, m).Ok? && Finds(cc, ts, View(basic, DataArea(basic, m).value))
      && (HasControl(Parse(DataArea(basic, m).value).value) <==> HasControl(ts))
  {
    var basic, size := LayoutOf(cc, []), cc.DataAreaSize();
    BasicIsClear(cc);
    ClearStart(basic, m, size);
    MemoryStarts(m, ts, v, DATA_START + q, DATA_START + size);
    AreaFinds(cc, basic, m, ts, v, m[DATA_START + q..DATA_START + size]);
  }

  lemma MemoryStarts(m: seq<byte>, ts: seq<Tlv>, v: seq<byte>, mid: nat, end: nat)
    requires Leading(ts) && |v| <= MAX_TLV_LENGTH && DATA_START <= mid <= end <= |m|
    requires m[DATA_START..mid] == PrintAll(ts) + NdefMessage(v).ToBytes().value && Quiet(m[mid..end])
    ensures Starts(m[DATA_START..end], ts, v, m[mid..end])
  {
    assert m[DATA_START..end] == m[DATA_START..mid] + m[mid..end];
    AssociativeBytes(PrintAll(ts), NdefMessage(v).ToBytes().value, m[mid..end]);
  }

  lemma AssociativeBytes(a: seq<byte>, b: seq<byte>, c: seq<byte>)
    ensures a + b + c == a + (b + c)
  {
  }

  /** The data area read through a layout starts so, if its header is clear and quiet bytes are visible behind it. */
  lemma StreamFinds(cc: CapabilityContainer, layout: MemoryLayout, m: seq<byte>, ts: seq<Tlv>, c: byte, k: nat)
    requires IsMemory(m) && Leading(ts) && AllWellFormed(ts) && k == |PrintAll(ts)| && c < 0xFF
    requires k + 2 + c <= layout.dataAreaSize <= |Stream(layout, m)| && layout.dataAreaSize <= 2040
    requires Clear(layout, k + 2)
    requires m[DATA_START..DATA_START + k] == PrintAll(ts)
    requires m[DATA_START + k] == TLV_NDEF_MESSAGE && m[DATA_START + k + 1] == c
    requires forall a :: DATA_START + k + 2 <= a < ADDRESS_SPACE_END && Usable(layout, a) ==>
      m[a] == TLV_NULL || m[a] == TLV_TERMINATOR
    ensures DataArea(layout, m).Ok? && Finds(cc, ts, View(layout, DataArea(layout, m).value))
  {
    var s := Stream(layout, m)[..layout.dataAreaSize];
    FrontInMemory(layout, m, s, k + 2);
    VisibleQuiet(layout, m, k + 2, s);
    StreamStarts(s, m, PrintAll(ts), k, c);
    ShortNdef(s[k + 2..k + 2 + c], c);
    AreaFinds(cc, layout, m, ts, s[k + 2..k + 2 + c], s[k + 2 + c..]);
  }

  lemma ShortNdef(v: seq<byte>, c: byte)
    requires |v| == c < 0xFF
    ensures NdefMessage(v).ToBytes().value == [TLV_NDEF_MESSAGE, c] + v
  {
  }

  /** Behind a clear start the stream shows what the usable addresses behind it hold. */
  lemma VisibleQuiet(layout: MemoryLayout, m: seq<byte>, n: nat, s: seq<byte>)
    requires IsMemory(m) && s <= Stream(layout, m) && n <= |s| <= 2040 && Clear(layout, n)
    requires forall a :: DATA_START + n <= a < ADDRESS_SPACE_END && Usable(layout, a) ==>
      m[a] == TLV_NULL || m[a] == TLV_TERMINATOR
    ensures forall i :: n <= i < |s| ==> s[i] == TLV_NULL || s[i] == TLV_TERMINATOR
  {
    ClearRank(layout, DATA_START + n);
    forall i | n <= i < |s|
      ensures s[i] == TLV_NULL || s[i] == TLV_TERMINATOR
    {
      StreamIsSelected(layout, m, i);
      SelectAbove(layout, i, DATA_START + n);
    }
  }

  lemma StreamStarts(s: seq<byte>, m: seq<byte>, front: seq<byte>, k: nat, c: byte)
    requires k == |front| && k + 2 + c <= |s| && DATA_START + k + 2 <= |m|
    requires s[..k + 2] == m[DATA_START..DATA_START + k + 2] && m[DATA_START..DATA_START + k] == front
    requires m[DATA_START + k] == TLV_NDEF_MESSAGE && m[DATA_START + k + 1] == c
    ensures s == front + ([TLV_NDEF_MESSAGE, c] + s[k + 2..k + 2 + c] + s[k + 2 + c..])
  {
    assert s[..k] == m[DATA_START..DATA_START + k + 2][..k] == front;
    assert s[k] == s[..k + 2][k] == m[DATA_START + k] && s[k + 1] == s[..k + 2][k + 1] == m[DATA_START + k + 1];
    assert s == s[..k] + ([s[k], s[k + 1]] + s[k + 2..k + 2 + c] + s[k + 2 + c..]);
  }

  // ---- areas behind a clear header ----

  /** The byte that an area shows at `a`: a control tag, or a Terminator in its place. */
  function Stray(layout: MemoryLayout, m: seq<byte>, a: nat, b: byte): (m': seq<byte>)
    requires a < |m|
    ensures |m'| == |m|
  {
    if layout.IsSkip(a) then m[a := b] else m
  }

  /** Bytes in areas behind the format. */
  function Strayed(layout: MemoryLayout, m: seq<byte>, a: nat): (m': seq<byte>)
    requires a + 1 < |m|
    ensures |m'| == |m|
    ensures forall i :: 0 <= i < |m| && (i < a || a + 1 < i || !layout.IsSkip(i)) ==> m'[i] == m[i]
    ensures layout.IsSkip(a) ==> m'[a] == TLV_LOCK_CONTROL
    ensures layout.IsSkip(a + 1) ==> m'[a + 1] == TLV_TERMINATOR
  {
    Stray(layout, Stray(layout, m, a, TLV_LOCK_CONTROL), a + 1, TLV_TERMINATOR)
  }

  lemma StrayedCC(layout: MemoryLayout, m: seq<byte>, a: nat)
    requires IsMemory(m) && DATA_START <= a && a + 1 < |m|
    ensures CCOf(Strayed(layout, m, a)) == CCOf(m)
  {
    assert Strayed(layout, m, a)[12..16] == m[12..16];
  }

  lemma StrayedFront(layout: MemoryLayout, m: seq<byte>, a: nat, lo: nat, hi: nat)
    requires lo <= hi <= a && a + 1 < |m|
    ensures Strayed(layout, m, a)[lo..hi] == m[lo..hi]
  {
  }

  /** A tag with an empty message and a Terminator in the memory, and control tags in the areas at `a`. */
  lemma StrayedFormatHolds(cc: CapabilityContainer, ts: seq<Tlv>, a: nat)
    requires Writable(cc) && Leading(ts) && AllWellFormed(ts) && |Format(ts, [])| <= cc.DataAreaSize()
    requires DATA_START + |Format(ts, [])| <= a && a + 1 < ADDRESS_SPACE_END
    requires Clear(LayoutOf(cc, ts), |PrintAll(ts)| + 2)
    ensures Holds(Strayed(LayoutOf(cc, ts), TagWith(cc, Format(ts, [])), a), cc, ts)
  {
    var layout, s := LayoutOf(cc, ts), Format(ts, []);
    TagWithHolds(cc, s);
    StrayedCC(layout, TagWith(cc, s), a);
    StrayedFront(layout, TagWith(cc, s), a, DATA_START, DATA_START + |s|);
    FormatHolds(cc, Strayed(layout, TagWith(cc, s), a), ts, |PrintAll(ts)|);
  }

  /** A format in the memory with nothing visible behind it. */
  lemma FormatHolds(cc: CapabilityContainer, m: seq<byte>, ts: seq<Tlv>, k: nat)
    requires IsMemory(m) && CCOf(m) == Ok(cc) && Leading(ts) && AllWellFormed(ts) && k == |PrintAll(ts)|
    requires k + 3 <= cc.DataAreaSize() && Clear(LayoutOf(cc, ts), k + 2)
    requires m[DATA_START..DATA_START + k + 3] == Format(ts, [])
    requires forall a :: DATA_START + k + 3 <= a < ADDRESS_SPACE_END && Usable(LayoutOf(cc, ts), a) ==> m[a] == TLV_NULL
    ensures Holds(m, cc, ts)
  {
    BasicIsClear(cc);
    ReadsFormat(LayoutOf(cc, []), m, ts, []);
    FormatStarts(ts, Format(ts, []));
    StartsFinds(cc, Format(ts, []), ts, [], [TLV_TERMINATOR], LayoutOf(cc, []));
    FormatVisible(cc, m, ts, k);
    BothPassesHold(cc, m, ts);
  }

  lemma FormatStarts(ts: seq<Tlv>, s: seq<byte>)
    requires Leading(ts) && s == Format(ts, [])
    ensures Starts(s, ts, [], [TLV_TERMINATOR])
  {
  }

  lemma FormatVisible(cc: CapabilityContainer, m: seq<byte>, ts: seq<Tlv>, k: nat)
    requires Leading(ts) && AllWellFormed(ts) && k == |PrintAll(ts)| && k + 3 <= cc.DataAreaSize()
    requires IsMemory(m) && m[DATA_START..DATA_START + k + 3] == Format(ts, []) && Clear(LayoutOf(cc, ts), k + 2)
    requires forall a :: DATA_START + k + 3 <= a < ADDRESS_SPACE_END && Usable(LayoutOf(cc, ts), a) ==> m[a] == TLV_NULL
    ensures var layout := LayoutOf(cc, ts);
      DataArea(layout, m).Ok? && Finds(cc, ts, View(layout, DataArea(layout, m).value))
  {
    var layout := LayoutOf(cc, ts);
    FormatBytes(m, ts, k);
    LayoutReadable(cc, ts, m);
    StreamFinds(cc, layout, m, ts, 0, k);
  }

  lemma FormatBytes(m: seq<byte>, ts: seq<Tlv>, k: nat)
    requires Leading(ts) && k == |PrintAll(ts)| && DATA_START + k + 3 <= |m|
    requires m[DATA_START..DATA_START + k + 3] == Format(ts, [])
    ensures m[DATA_START..DATA_START + k] == PrintAll(ts)
    ensures m[DATA_START + k] == TLV_NDEF_MESSAGE && m[DATA_START + k + 1] == 0 && m[DATA_START + k + 2] == TLV_TERMINATOR
  {
    var f := m[DATA_START..DATA_START + k + 3];
    assert f == PrintAll(ts) + [TLV_NDEF_MESSAGE, 0x00, TLV_TERMINATOR];
    assert m[DATA_START + k] == f[k] && m[DATA_START + k + 1] == f[k + 1] && m[DATA_START + k + 2] == f[k + 2];
    SliceOfSlice(m, DATA_START, DATA_START + k + 3, 0, k);
    assert f[..k] == PrintAll(ts);
  }

  /** For the empty message: an area right behind the header, shown as a message of one byte. */
  lemma StrayedEmptyHolds(cc: CapabilityContainer, ts: seq<Tlv>, k: nat)
    requires Writable(cc) && Leading(ts) && AllWellFormed(ts) && k == |PrintAll(ts)| && k + 3 <= cc.DataAreaSize()
    requires Clear(LayoutOf(cc, ts), k + 2) && LayoutOf(cc, ts).IsSkip(DATA_START + k + 2)
    ensures var m0 := TagWith(cc, PrintAll(ts) + [TLV_NDEF_MESSAGE, 0x01]);
      Holds(Strayed(LayoutOf(cc, ts), m0, DATA_START + k + 2), cc, ts)
  {
    var layout, s, a := LayoutOf(cc, ts), PrintAll(ts) + [TLV_NDEF_MESSAGE, 0x01], DATA_START + k + 2;
    TagWithHolds(cc, s);
    StrayedCC(layout, TagWith(cc, s), a);
    StrayedFront(layout, TagWith(cc, s), a, DATA_START, a);
    EmptyHolds(cc, Strayed(layout, TagWith(cc, s), a), ts, k);
  }

  lemma EmptyHolds(cc: CapabilityContainer, m: seq<byte>, ts: seq<Tlv>, k: nat)
    requires IsMemory(m) && CCOf(m) == Ok(cc) && Leading(ts) && AllWellFormed(ts) && k == |PrintAll(ts)|
    requires k + 3 <= cc.DataAreaSize() && Clear(LayoutOf(cc, ts), k + 2) && LayoutOf(cc, ts).IsSkip(DATA_START + k + 2)
    requires m[DATA_START..DATA_START + k + 2] == PrintAll(ts) + [TLV_NDEF_MESSAGE, 0x01]
    requires m[DATA_START + k + 2] == TLV_LOCK_CONTROL
    requires forall a :: DATA_START + k + 3 <= a < ADDRESS_SPACE_END ==> m[a] == TLV_NULL || m[a] == TLV_TERMINATOR
    ensures Holds(m, cc, ts)
  {
    HeaderBytes(m, PrintAll(ts), k, 0x01);
    OneByteStarts(m, ts, k);
    QuietBehind(m, DATA_START + k + 3, DATA_START + cc.DataAreaSize());
    MemoryFinds(cc, m, ts, [TLV_LOCK_CONTROL], k + 3);
    LayoutReadable(cc, ts, m);
    StreamFinds(cc, LayoutOf(cc, ts), m, ts, 1, k);
    BothPassesHold(cc, m, ts);
  }

  lemma HeaderBytes(m: seq<byte>, front: seq<byte>, k: nat, c: byte)
    requires k == |front| && DATA_START + k + 2 <= |m|
    requires m[DATA_START..DATA_START + k + 2] == front + [TLV_NDEF_MESSAGE, c]
    ensures m[DATA_START..DATA_START + k] == front
    ensures m[DATA_START + k] == TLV_NDEF_MESSAGE && m[DATA_START + k + 1] == c
  {
    var f := m[DATA_START..DATA_START + k + 2];
    assert m[DATA_START + k] == f[k] && m[DATA_START + k + 1] == f[k + 1];
    SliceOfSlice(m, DATA_START, DATA_START + k + 2, 0, k);
    assert f[..k] == front;
  }

  lemma OneByteStarts(m: seq<byte>, ts: seq<Tlv>, k: nat)
    requires Leading(ts) && k == |PrintAll(ts)| && DATA_START + k + 3 <= |m|
    requires m[DATA_START..DATA_START + k] == PrintAll(ts)
    requires m[DATA_START + k] == TLV_NDEF_MESSAGE && m[DATA_START + k + 1] == 1
    requires m[DATA_START + k + 2] == TLV_LOCK_CONTROL
    ensures m[DATA_START..DATA_START + k + 3] == PrintAll(ts) + NdefMessage([TLV_LOCK_CONTROL]).ToBytes().value
  {
    ShortNdef([TLV_LOCK_CONTROL], 1);
    assert m[DATA_START..DATA_START + k + 3] ==
      m[DATA_START..DATA_START + k] + [m[DATA_START + k], m[DATA_START + k + 1], m[DATA_START + k + 2]];
  }

  lemma QuietBehind(m: seq<byte>, lo: nat, hi: nat)
    requires lo <= hi <= |m| && forall a :: lo <= a < hi ==> m[a] == TLV_NULL || m[a] == TLV_TERMINATOR
    ensures Quiet(m[lo..hi])
  {
  }

  /** A tag that holds `ts` and whose areas are such that a message of `n` bytes is not read back. */
  lemma ObstructedTag(cc: CapabilityContainer, ts: seq<Tlv>, n: nat) returns (m: seq<byte>)
    requires Writable(cc) && Leading(ts) && AllWellFormed(ts) && Fitting(cc, ts, n)
    requires Clear(LayoutOf(cc, ts), ValueOffset(|PrintAll(ts)|, n))
    requires !ClearUpToEnd(cc, ts, n)
    ensures Holds(m, cc, ts) && StrayEnd(LayoutOf(cc, ts), |PrintAll(ts)|, n, m)
    ensures DATA_START + |PrintAll(ts)| <= |m| && m[DATA_START..DATA_START + |PrintAll(ts)|] == PrintAll(ts)
  {
    var k := |PrintAll(ts)|;
    if n == 0 {
      LastSkipped(LayoutOf(cc, ts), DATA_START + k + 2);
      m := ObstructedEmpty(cc, ts, k);
    } else {
      m := ObstructedFormat(cc, ts, n, k);
    }
  }

  lemma ObstructedEmpty(cc: CapabilityContainer, ts: seq<Tlv>, k: nat) returns (m: seq<byte>)
    requires Writable(cc) && Leading(ts) && AllWellFormed(ts) && k == |PrintAll(ts)| && k + 3 <= cc.DataAreaSize()
    requires Clear(LayoutOf(cc, ts), k + 2) && LayoutOf(cc, ts).IsSkip(DATA_START + k + 2)
    ensures Holds(m, cc, ts) && StrayEnd(LayoutOf(cc, ts), k, 0, m)
    ensures DATA_START + k <= |m| && m[DATA_START..DATA_START + k] == PrintAll(ts)
  {
    var back := [TLV_NDEF_MESSAGE, 0x01];
    StrayedEmptyHolds(cc, ts, k);
    m := StrayedTag(cc, ts, PrintAll(ts) + back, back, k, 0, DATA_START + k + 2);
  }

  lemma ObstructedFormat(cc: CapabilityContainer, ts: seq<Tlv>, n: nat, k: nat) returns (m: seq<byte>)
    requires Writable(cc) && Leading(ts) && AllWellFormed(ts) && Fitting(cc, ts, n) && n > 0 && k == |PrintAll(ts)|
    requires Clear(LayoutOf(cc, ts), ValueOffset(k, n))
    ensures Holds(m, cc, ts) && StrayEnd(LayoutOf(cc, ts), k, n, m)
    ensures DATA_START + k <= |m| && m[DATA_START..DATA_START + k] == PrintAll(ts)
  {
    var a := DATA_START + ValueOffset(k, n) + n;
    StrayedFormatHolds(cc, ts, a);
    m := StrayedTag(cc, ts, Format(ts, []), NdefBytes([]), k, n, a);
  }

  lemma StrayedTag(cc: CapabilityContainer, ts: seq<Tlv>, area: seq<byte>, back: seq<byte>, k: nat, n: nat, a: nat)
    returns (m: seq<byte>)
    requires Writable(cc) && Leading(ts) && AllWellFormed(ts) && k == |PrintAll(ts)| && area == PrintAll(ts) + back
    requires |area| <= cc.DataAreaSize() && DATA_START + |area| <= a && a + 1 < ADDRESS_SPACE_END
    requires a == DATA_START + ValueOffset(k, n) + n && Clear(LayoutOf(cc, ts), ValueOffset(k, n))
    ensures m == Strayed(LayoutOf(cc, ts), TagWith(cc, area), a) && StrayEnd(LayoutOf(cc, ts), k, n, m)
    ensures DATA_START + k <= |m| && m[DATA_START..DATA_START + k] == PrintAll(ts)
  {
    m := Strayed(LayoutOf(cc, ts), TagWith(cc, area), a);
    StrayedEnd(LayoutOf(cc, ts), k, n, TagWith(cc, area), a);
    TagWithHolds(cc, area);
    StrayedFront(LayoutOf(cc, ts), TagWith(cc, area), a, DATA_START, DATA_START + |area|);
    SliceOfSlice(m, DATA_START, DATA_START + |area|, 0, k);
    PrefixKept(PrintAll(ts), back);
  }

  lemma StrayedEnd(layout: MemoryLayout, k: nat, n: nat, m: seq<byte>, a: nat)
    requires IsMemory(m) && a == DATA_START + ValueOffset(k, n) + n && a + 1 < |m| && Clear(layout, ValueOffset(k, n))
    ensures StrayEnd(layout, k, n, Strayed(layout, m, a))
  {
  }

  lemma LastSkipped(layout: MemoryLayout, a: nat)
    requires DATA_START <= a && Clear(layout, a - DATA_START) && !Clear(layout, a - DATA_START + 1)
    ensures layout.IsSkip(a)
  {
  }

  // ---- what a static tag presents ----

  /** A static tag presents the NDEF TLV as it lies in the memory, if what is behind it parses. */
  lemma StaticShows(m: seq<byte>, cc: CapabilityContainer, s: seq<byte>, k: nat, mid: nat, v: seq<byte>, rest: seq<byte>)
    requires IsMemory(m) && CCOf(m) == Ok(cc) && cc.IsValid() && !cc.IsDynamic()
    requires DATA_START + k + 2 <= mid <= DATA_START + cc.DataAreaSize() && NdefPosition(s) == Some(k)
    requires s[..k] == m[DATA_START..DATA_START + k]
    requires m[DATA_START + k] == TLV_NDEF_MESSAGE && m[DATA_START + k + 1] == |v| < 0xFF
    requires v == m[DATA_START + k + 2..mid] && rest == m[mid..DATA_START + cc.DataAreaSize()]
    ensures NdefOf(m) == if Parse(rest).Ok? then Ok(v) else Err(InvalidTlv)
  {
    var raw := m[DATA_START..DATA_START + cc.DataAreaSize()];
    HeaderAndValue(m, DATA_START, DATA_START + k, mid, DATA_START + cc.DataAreaSize());
    ShortNdef(v, |v|);
    ShownParse(s, k, v, rest, raw);
    StaticParse(m, cc, raw);
  }

  lemma HeaderAndValue(m: seq<byte>, lo: nat, at: nat, mid: nat, hi: nat)
    requires lo <= at && at + 2 <= mid <= hi <= |m|
    ensures m[lo..hi] == m[lo..at] + ([m[at], m[at + 1]] + m[at + 2..mid] + m[mid..hi])
  {
  }

  lemma ShownParse(s: seq<byte>, k: nat, v: seq<byte>, rest: seq<byte>, raw: seq<byte>)
    requires NdefPosition(s) == Some(k) && |v| < 0xFF && raw == s[..k] + (NdefMessage(v).ToBytes().value + rest)
    ensures Parse(rest).Ok? ==> Parse(raw).Ok? && FirstNdef(Parse(raw).value) == v
    ensures Parse(rest).Err? ==> Parse(raw) == Err(InvalidTlv)
  {
    var u := NdefMessage(v).ToBytes().value + rest;
    FirstBlock(NdefMessage(v), rest);
    PrefixKept(s[..k], u);
    PrefixShows(s, raw, k, Parse(u));
  }

  /** The message does not depend on the TLVs in front of it. */
  lemma PrefixShows(s: seq<byte>, raw: seq<byte>, k: nat, r: Result<seq<Tlv>, Type2Error>)
    requires k <= |raw| && NdefPosition(s) == Some(k) && s[..k] == raw[..k] && r == Parse(raw[k..])
    ensures r.Err? ==> Parse(raw) == Err(InvalidTlv)
    ensures r.Ok? ==> Parse(raw).Ok? && FirstNdef(Parse(raw).value) == FirstNdef(r.value)
  {
    PrefixParses(s, raw);
    if r.Ok? {
      FirstNdefAfter(Before(s), r.value);
    }
  }

  /** An NDEF TLV that ends behind the data area makes a static tag unreadable. */
  lemma StaticTooLong(m: seq<byte>, cc: CapabilityContainer, s: seq<byte>, k: nat, n: nat)
    requires IsMemory(m) && CCOf(m) == Ok(cc) && cc.IsValid() && !cc.IsDynamic()
    requires k + 2 <= cc.DataAreaSize() < k + 2 + n && NdefPosition(s) == Some(k)
    requires s[..k] == m[DATA_START..DATA_START + k]
    requires m[DATA_START + k] == TLV_NDEF_MESSAGE && m[DATA_START + k + 1] == n < 0xFF
    ensures NdefOf(m) == Err(InvalidTlv)
  {
    var lo, hi := DATA_START, DATA_START + cc.DataAreaSize();
    var u := [m[lo + k], m[lo + k + 1]] + m[lo + k + 2..hi];
    HeaderAndRest(m, lo, lo + k, hi);
    TooLong(u, n);
    PrefixKept(m[lo..lo + k], u);
    PrefixShows(s, m[lo..hi], k, Parse(u));
    StaticParse(m, cc, m[lo..hi]);
  }

  lemma HeaderAndRest(m: seq<byte>, lo: nat, at: nat, hi: nat)
    requires lo <= at && at + 2 <= hi <= |m|
    ensures m[lo..hi] == m[lo..at] + ([m[at], m[at + 1]] + m[at + 2..hi])
  {
  }

  lemma TooLong(u: seq<byte>, n: nat)
    requires 2 <= |u| < 2 + n && u[0] == TLV_NDEF_MESSAGE && u[1] == n < 0xFF
    ensures Parse(u) == Err(InvalidTlv)
  {
    assert ParseLength(u, 1) == Ok((n, 1));
  }

  /** The one pass over a static tag parses the data area as it lies in the memory. */
  lemma StaticParse(m: seq<byte>, cc: CapabilityContainer, raw: seq<byte>)
    requires IsMemory(m) && CCOf(m) == Ok(cc) && cc.IsValid() && !cc.IsDynamic()
    requires raw == m[DATA_START..DATA_START + cc.DataAreaSize()]
    ensures NdefOf(m) == if Parse(raw).Ok? then Ok(FirstNdef(Parse(raw).value)) else Err(InvalidTlv)
  {
    BasicIsClear(cc);
    ClearStart(LayoutOf(cc, []), m, cc.DataAreaSize());
    AreaParse(LayoutOf(cc, []), m, raw);
  }

  // ---- areas in front of the value on a static tag ----

  /** With an area up to the length byte, the tag and what is in front of it are not written over. */
  lemma ObstructedFront(layout: MemoryLayout, k: nat, m: seq<byte>, d: seq<byte>)
    requires IsMemory(m) && |d| <= MAX_TLV_LENGTH && DATA_START + k + 2 <= ADDRESS_SPACE_END
    requires !Clear(layout, k + 2) && m[DATA_START + k] == TLV_NDEF_MESSAGE
    ensures var m1 := Written(layout, k, m, d);
      && m1[DATA_START..DATA_START + k] == m[DATA_START..DATA_START + k]
      && m1[DATA_START + k] == TLV_NDEF_MESSAGE
      && (m1[DATA_START + k + 1] == m[DATA_START + k + 1] ||
          (m1[DATA_START + k + 1] == TLV_NDEF_MESSAGE && Usable(layout, DATA_START + k + 1)
           && Rank(layout, DATA_START + k + 1) == k))
  {
    KeptFront(layout, k, m, d);
    ObstructedLength(layout, k, m, d, DATA_START + k + 1);
  }

  /** A write at `k` keeps what is in front of that place, and an NDEF tag there. */
  lemma KeptFront(layout: MemoryLayout, k: nat, m: seq<byte>, d: seq<byte>)
    requires IsMemory(m) && |d| <= MAX_TLV_LENGTH && DATA_START + k < ADDRESS_SPACE_END
    requires m[DATA_START + k] == TLV_NDEF_MESSAGE
    ensures var m1 := Written(layout, k, m, d);
      |m1| == |m| && m1[DATA_START..DATA_START + k] == m[DATA_START..DATA_START + k]
      && m1[DATA_START + k] == TLV_NDEF_MESSAGE
  {
    var m1, at := Written(layout, k, m, d), DATA_START + k;
    forall a | DATA_START <= a <= at
      ensures m1[a] == if a < at then m[a] else TLV_NDEF_MESSAGE
    {
      RankMonotone(layout, DATA_START, a);
      WrittenByte(layout, k, m, d, a);
    }
    SameSlice(m1, m, DATA_START, at);
  }

  lemma SameSlice(m1: seq<byte>, m: seq<byte>, lo: nat, hi: nat)
    requires lo <= hi <= |m| == |m1| && forall a :: lo <= a < hi ==> m1[a] == m[a]
    ensures m1[lo..hi] == m[lo..hi]
  {
  }

  lemma ObstructedLength(layout: MemoryLayout, k: nat, m: seq<byte>, d: seq<byte>, a: nat)
    requires IsMemory(m) && |d| <= MAX_TLV_LENGTH && a == DATA_START + k + 1 && a < ADDRESS_SPACE_END
    requires !Clear(layout, k + 2)
    ensures var b := Written(layout, k, m, d)[a];
      b == m[a] || (b == TLV_NDEF_MESSAGE && Usable(layout, a) && Rank(layout, a) == k)
  {
    var x :| DATA_START <= x <= a && layout.IsSkip(x);
    WrittenByte(layout, k, m, d, a);
    if x < a {
      SkipLowersRank(layout, x, a);
    }
  }

  /** A tag with an NDEF TLV of `c` zeros behind the leading TLVs, and zeros up to the end. */
  function ZeroTag(cc: CapabilityContainer, ts: seq<Tlv>, c: byte): (m: seq<byte>)
    requires Writable(cc) && Leading(ts) && |PrintAll(ts)| + 2 <= cc.DataAreaSize()
    ensures IsMemory(m)
  {
    TagWith(cc, PrintAll(ts) + [TLV_NDEF_MESSAGE, c])
  }

  lemma ZeroTagBytes(cc: CapabilityContainer, ts: seq<Tlv>, c: byte, k: nat)
    requires Writable(cc) && Leading(ts) && k == |PrintAll(ts)| && k + 2 <= cc.DataAreaSize()
    ensures var m := ZeroTag(cc, ts, c);
      && CCOf(m) == Ok(cc) && m[DATA_START..DATA_START + k] == PrintAll(ts)
      && m[DATA_START + k] == TLV_NDEF_MESSAGE && m[DATA_START + k + 1] == c
      && forall a :: DATA_START + k + 2 <= a < ADDRESS_SPACE_END ==> m[a] == 0
  {
    TagWithHolds(cc, PrintAll(ts) + [TLV_NDEF_MESSAGE, c]);
    HeaderBytes(ZeroTag(cc, ts, c), PrintAll(ts), k, c);
  }

  /** A static tag holds the leading TLVs if they are in the memory, and behind them a TLV and quiet bytes. */
  lemma StaticHolds(cc: CapabilityContainer, m: seq<byte>, ts: seq<Tlv>, k: nat, v: seq<byte>)
    requires IsMemory(m) && CCOf(m) == Ok(cc) && !cc.IsDynamic() && Leading(ts) && AllWellFormed(ts)
    requires k == |PrintAll(ts)| && k + 2 + |v| <= cc.DataAreaSize() && |v| < 0xFF
    requires m[DATA_START..DATA_START + k] == PrintAll(ts)
    requires m[DATA_START + k] == TLV_NDEF_MESSAGE && m[DATA_START + k + 1] == |v|
    requires m[DATA_START + k + 2..DATA_START + k + 2 + |v|] == v
    requires Quiet(m[DATA_START + k + 2 + |v|..DATA_START + cc.DataAreaSize()])
    ensures Holds(m, cc, ts)
  {
    var lo, at, mid := DATA_START, DATA_START + k, DATA_START + k + 2 + |v|;
    HeaderAndRest(m, lo, at, mid);
    ShortNdef(v, |v|);
    MemoryFinds(cc, m, ts, v, k + 2 + |v|);
    BothPassesHold(cc, m, ts);
  }

  lemma ZeroTagHolds(cc: CapabilityContainer, ts: seq<Tlv>, c: byte, k: nat)
    requires Writable(cc) && !cc.IsDynamic() && Leading(ts) && AllWellFormed(ts) && k == |PrintAll(ts)|
    requires k + 2 + c <= cc.DataAreaSize() && c < 0xFF
    ensures Holds(ZeroTag(cc, ts, c), cc, ts)
  {
    var m := ZeroTag(cc, ts, c);
    ZeroTagBytes(cc, ts, c, k);
    QuietBehind(m, DATA_START + k + 2 + c, DATA_START + cc.DataAreaSize());
    StaticHolds(cc, m, ts, k, m[DATA_START + k + 2..DATA_START + k + 2 + c]);
  }

  /** What a static tag with another length byte, or another first byte, presents is not the message. */
  lemma ShowsOther(m: seq<byte>, cc: CapabilityContainer, s: seq<byte>, k: nat, d: seq<byte>, n: nat)
    requires IsMemory(m) && CCOf(m) == Ok(cc) && cc.IsValid() && !cc.IsDynamic()
    requires k + 2 <= cc.DataAreaSize() && NdefPosition(s) == Some(k) && s[..k] == m[DATA_START..DATA_START + k]
    requires m[DATA_START + k] == TLV_NDEF_MESSAGE && m[DATA_START + k + 1] == n < 0xFF
    requires n != |d| || (|d| > 0 && m[DATA_START + k + 2] != d[0])
    ensures NdefOf(m) != Ok(d)
  {
    if k + 2 + n <= cc.DataAreaSize() {
      var lo, mid := DATA_START + k + 2, DATA_START + k + 2 + n;
      StaticShows(m, cc, s, k, mid, m[lo..mid], m[mid..DATA_START + cc.DataAreaSize()]);
    } else {
      StaticTooLong(m, cc, s, k, n);
    }
  }

  /** On some static tag with an area up to the length byte, a message is not read back. */
  lemma StaticObstructed(cc: CapabilityContainer, ts: seq<Tlv>, n: nat) returns (m: seq<byte>)
    requires Writable(cc) && !cc.IsDynamic() && Leading(ts) && AllWellFormed(ts) && Fitting(cc, ts, n)
    requires !Clear(LayoutOf(cc, ts), |PrintAll(ts)| + 2)
    ensures Holds(m, cc, ts) && !GivesBack(LayoutOf(cc, ts), |PrintAll(ts)|, m, Tags(n))
  {
    var c: byte := if n == 0 then 1 else 0;
    m := ZeroTag(cc, ts, c);
    ZeroTagHolds(cc, ts, c, |PrintAll(ts)|);
    ZeroTagObstructed(cc, ts, LayoutOf(cc, ts), |PrintAll(ts)|, n, c);
  }

  lemma ZeroTagObstructed(cc: CapabilityContainer, ts: seq<Tlv>, layout: MemoryLayout, k: nat, n: nat, c: byte)
    requires Writable(cc) && !cc.IsDynamic() && Leading(ts) && AllWellFormed(ts) && Fitting(cc, ts, n)
    requires k == |PrintAll(ts)| && c == (if n == 0 then 1 else 0) && !Clear(layout, k + 2)
    ensures !GivesBack(layout, k, ZeroTag(cc, ts, c), Tags(n))
  {
    var m := ZeroTag(cc, ts, c);
    ZeroTagBytes(cc, ts, c, k);
    ObstructedShows(cc, ts, layout, k, m, n, Written(layout, k, m, Tags(n)));
  }

  lemma ObstructedShows(cc: CapabilityContainer, ts: seq<Tlv>, layout: MemoryLayout, k: nat, m: seq<byte>, n: nat,
                        m1: seq<byte>)
    requires IsMemory(m) && CCOf(m) == Ok(cc) && cc.IsValid() && !cc.IsDynamic() && Leading(ts) && k == |PrintAll(ts)|
    requires n <= MAX_TLV_LENGTH && m1 == Written(layout, k, m, Tags(n)) && IsMemory(m1)
    requires k + 2 <= cc.DataAreaSize() && !Clear(layout, k + 2) && m[DATA_START..DATA_START + k] == PrintAll(ts)
    requires m[DATA_START + k] == TLV_NDEF_MESSAGE && m[DATA_START + k + 1] == (if n == 0 then 1 else 0)
    requires m[DATA_START + k + 2] == 0
    ensures !GivesBack(layout, k, m, Tags(n))
  {
    SameCC(layout, k, m, Tags(n));
    ObstructedFront(layout, k, m, Tags(n));
    if n == 3 && m1[DATA_START + k + 1] == 3 {
      SecondByte(layout, k, m);
    }
    var s := LeadingFound(ts, k);
    ShowsOther(m1, cc, s, k, Tags(n), m1[DATA_START + k + 1]);
  }

  lemma SecondByte(layout: MemoryLayout, k: nat, m: seq<byte>)
    requires IsMemory(m) && DATA_START + k + 2 < ADDRESS_SPACE_END && m[DATA_START + k + 2] == 0
    requires Usable(layout, DATA_START + k + 1) && Rank(layout, DATA_START + k + 1) == k
    ensures Written(layout, k, m, Tags(3))[DATA_START + k + 2] != Tags(3)[0]
  {
    WrittenByte(layout, k, m, Tags(3), DATA_START + k + 2);
    RankNext(layout, DATA_START + k + 1);
  }

  // ---- the round trip is exact ----

  /** After a completed write the tag presents the message. */
  ghost predicate GivesBack(layout: MemoryLayout, k: nat, m: seq<byte>, d: seq<byte>)
    requires IsMemory(m) && |d| <= MAX_TLV_LENGTH
  {
    NdefOf(Written(layout, k, m, d)) == Ok(d)
  }

  /** What write_ndef leaves. */
  lemma AfterWriteTo(cc: CapabilityContainer, ts: seq<Tlv>, m: seq<byte>, d: seq<byte>)
    requires Holds(m, cc, ts) && Writable(cc) && Fitting(cc, ts, |d|)
    ensures WritePlan(m, d).Ok? && AfterWrite(m, d) == Written(LayoutOf(cc, ts), |PrintAll(ts)|, m, d)
  {
    HoldsPlan(m, cc, ts, d);
  }

  /** All tags that hold `ts` give back all messages of `n` bytes. */
  ghost predicate AllReadBack(cc: CapabilityContainer, ts: seq<Tlv>, n: nat) {
    forall m, d: seq<byte> :: Holds(m, cc, ts) && |d| == n ==> IsReadBack(m, d)
  }

  ghost predicate IsReadBack(m: seq<byte>, d: seq<byte>)
    requires IsMemory(m)
  {
    NdefOf(AfterWrite(m, d)) == Ok(d)
  }

  /** A tag that does not give back a message. */
  lemma NotAllReadBack(cc: CapabilityContainer, ts: seq<Tlv>, m: seq<byte>, d: seq<byte>)
    requires Holds(m, cc, ts) && Writable(cc) && Fitting(cc, ts, |d|) && !GivesBack(LayoutOf(cc, ts), |PrintAll(ts)|, m, d)
    ensures !AllReadBack(cc, ts, |d|)
  {
    AfterWriteTo(cc, ts, m, d);
    assert !IsReadBack(m, d);
  }

  lemma ClearReadBack(cc: CapabilityContainer, ts: seq<Tlv>, m: seq<byte>, d: seq<byte>)
    requires Holds(m, cc, ts) && Writable(cc) && Fitting(cc, ts, |d|)
    requires ClearUpToEnd(cc, ts, |d|)
    ensures IsReadBack(m, d)
  {
    HoldsPlan(m, cc, ts, d);
    HoldsFound(m, cc, ts, d);
    EndToEnd(m, d);
  }

  /**
   The round trip is exact: all tags that hold `ts` give back all messages of `n` bytes if and only if no area meets the
   bytes up to the payload's end. On static tags this needs no other condition; on dynamic tags, no area in the header.
   */
  lemma TagsRoundTripExact(cc: CapabilityContainer, ts: seq<Tlv>, n: nat)
    requires Writable(cc) && Leading(ts) && AllWellFormed(ts) && Fitting(cc, ts, n)
    requires cc.IsDynamic() ==> Clear(LayoutOf(cc, ts), ValueOffset(|PrintAll(ts)|, n))
    ensures AllReadBack(cc, ts, n) <==> ClearUpToEnd(cc, ts, n)
  {
    if ClearUpToEnd(cc, ts, n) {
      ClearAllReadBack(cc, ts, n);
    } else {
      ObstructedNotReadBack(cc, ts, n);
    }
  }

  lemma ClearAllReadBack(cc: CapabilityContainer, ts: seq<Tlv>, n: nat)
    requires Writable(cc) && Leading(ts) && AllWellFormed(ts) && Fitting(cc, ts, n)
    requires ClearUpToEnd(cc, ts, n)
    ensures AllReadBack(cc, ts, n)
  {
    forall m, d: seq<byte> | Holds(m, cc, ts) && |d| == n
      ensures IsReadBack(m, d)
    {
      ClearReadBack(cc, ts, m, d);
    }
  }

  lemma ObstructedNotReadBack(cc: CapabilityContainer, ts: seq<Tlv>, n: nat)
    requires Writable(cc) && Leading(ts) && AllWellFormed(ts) && Fitting(cc, ts, n)
    requires cc.IsDynamic() ==> Clear(LayoutOf(cc, ts), ValueOffset(|PrintAll(ts)|, n))
    requires !ClearUpToEnd(cc, ts, n)
    ensures !AllReadBack(cc, ts, n)
  {
    var m := FailingTag(cc, ts, n);
    NotAllReadBack(cc, ts, m, Tags(n));
  }

  lemma FailingTag(cc: CapabilityContainer, ts: seq<Tlv>, n: nat) returns (m: seq<byte>)
    requires Writable(cc) && Leading(ts) && AllWellFormed(ts) && Fitting(cc, ts, n)
    requires cc.IsDynamic() ==> Clear(LayoutOf(cc, ts), ValueOffset(|PrintAll(ts)|, n))
    requires !ClearUpToEnd(cc, ts, n)
    ensures Holds(m, cc, ts) && !GivesBack(LayoutOf(cc, ts), |PrintAll(ts)|, m, Tags(n))
  {
    if Clear(LayoutOf(cc, ts), ValueOffset(|PrintAll(ts)|, n)) {
      m := ObstructedTag(cc, ts, n);
      ObstructedFails(cc, ts, n, m);
    } else {
      m := StaticObstructed(cc, ts, n);
    }
  }

  lemma ObstructedFails(cc: CapabilityContainer, ts: seq<Tlv>, n: nat, m: seq<byte>)
    requires Leading(ts) && AllWellFormed(ts) && Fitting(cc, ts, n) && IsMemory(m) && CCOf(m) == Ok(cc)
    requires DATA_START + |PrintAll(ts)| <= |m| && m[DATA_START..DATA_START + |PrintAll(ts)|] == PrintAll(ts)
    requires StrayEnd(LayoutOf(cc, ts), |PrintAll(ts)|, n, m)
    requires !ClearUpToEnd(cc, ts, n)
    ensures !GivesBack(LayoutOf(cc, ts), |PrintAll(ts)|, m, Tags(n))
  {
    TlvsFit(cc, ts, m, Tags(n));
    ObstructedAt(cc, ts, LayoutOf(cc, ts), |PrintAll(ts)|, n, m);
  }

  lemma ObstructedAt(cc: CapabilityContainer, ts: seq<Tlv>, layout: MemoryLayout, k: nat, n: nat, m: seq<byte>)
    requires IsMemory(m) && CCOf(m) == Ok(cc) && Leading(ts) && k == |PrintAll(ts)| && DATA_START + k <= |m|
    requires m[DATA_START..DATA_START + k] == PrintAll(ts)
    requires Fits(layout, k, Tags(n)) && layout.dataAreaSize == cc.DataAreaSize()
    requires StrayEnd(layout, k, n, m) && !Clear(layout, ValueOffset(k, n) + n + 1)
    ensures !GivesBack(layout, k, m, Tags(n))
  {
    var s := LeadingFound(ts, k);
    AreaInsideValueUnreadable(cc, layout, k, m, n, s);
  }

  lemma TlvsFit(cc: CapabilityContainer, ts: seq<Tlv>, m: seq<byte>, d: seq<byte>)
    requires Leading(ts) && AllWellFormed(ts) && IsMemory(m) && Fitting(cc, ts, |d|)
    ensures Fits(LayoutOf(cc, ts), |PrintAll(ts)|, d)
  {
    LayoutReadable(cc, ts, m);
  }
}
