/** What a read returns after a cut-off write to a formatted tag: on static tags nothing but whole messages. */
module FormattedCuts {
  import opened Basics
  import opened TlvLength
  import opened Tlv
  import opened TlvParser
  import opened Memory
  import opened UsableBytes
  import opened NdefProcedures
  import opened PageWrites
  import opened CrashSafety
  import opened RoundTrip
  import opened RoundTripExact
  import opened CutReads
  import opened FormattedTag
  import opened FormattedExact

  lemma FormattedStaticCuts(m0: seq<byte>, cc: CapabilityContainer, ts: seq<Tlv>, d0: seq<byte>, d: seq<byte>)
    requires Formatted(m0, cc, ts, d0) && HasRoom(cc, ts, d) && !cc.IsDynamic()
    ensures AlwaysWhole(m0, d)
  {
    SafeOnFormatted(m0, cc, ts, d0, d);
    FormattedPlan(m0, cc, ts, d0, d);
    var plan := WritePlan(m0, d).value;
    forall m | IsMemory(m) && IsWriteState(plan.layout, plan.offset, m0, d, m)
      ensures PresentsWhole(m0, d, m)
    {
      CutPresents(m0, d, m);
      StaticCutPresents(m0, d, m);
    }
  }

  // ---- what a control TLV can describe ----

  /** The descriptor is for the addresses from `lo` up to `hi`. */
  predicate Describes(v: MemoryControlValue, lo: nat, hi: nat) {
    v.WellFormed() && v.ByteAddress() == lo && lo + v.sizeInBytes == hi
  }

  lemma ShiftSmall(page: nat)
    ensures ShiftLeft(page, 4) == 16 * page && ShiftLeft(page, 7) == 128 * page
  {
    assert ShiftLeft(page, 1) == 2 * page;
    assert ShiftLeft(page, 2) == 4 * page;
    assert ShiftLeft(page, 3) == 8 * page;
    assert ShiftLeft(page, 5) == 32 * page;
    assert ShiftLeft(page, 6) == 64 * page;
  }

  /** All addresses of one byte can be described. */
  lemma LowAddresses(a: byte)
    ensures ShiftLeft(a / 16, 4) + a % 16 == a
  {
    ShiftSmall(a / 16);
  }

  /** Close before every place in the data area an area can start. */
  lemma Reachable(k: nat) returns (page: byte, exponent: byte, offset: byte, lo: nat)
    requires k <= 2032
    ensures page < 16 && offset < 16 && 1 <= exponent < 16 && lo == ShiftLeft(page, exponent) + offset
    ensures DATA_START <= lo <= DATA_START + k <= lo + 113
  {
    var a := DATA_START + k;
    if a < 256 {
      page, exponent, offset, lo := a / 16, 4, a % 16, a;
    } else {
      page, exponent := Min(15, a / 128), 7;
      offset := Min(15, a - 128 * page);
      lo := 128 * page + offset;
    }
    ShiftSmall(page);
  }

  /** A descriptor for `hi - lo` bytes, with `lo` close before the place `k` in the data area. */
  lemma HideFrom(k: nat, size: nat) returns (v: MemoryControlValue, lo: nat)
    requires k <= 2032 && size <= 256 - 113 && size > 0
    ensures DATA_START <= lo <= DATA_START + k <= lo + 113 && Describes(v, lo, DATA_START + k + size)
  {
    var page, exponent, offset, start := Reachable(k);
    lo := start;
    v := MemoryControlValue(page, offset, DATA_START + k + size - lo, exponent);
  }

  lemma OneMoreArea(cc: CapabilityContainer, ts: seq<Tlv>, v: MemoryControlValue, a: int)
    requires AllWellFormed(ts) && v.WellFormed()
    ensures AllWellFormed(ts + [MemoryControl(v)])
    ensures LayoutOf(cc, ts + [MemoryControl(v)]).IsSkip(a) <==>
            LayoutOf(cc, ts).IsSkip(a) || ReservedAreaOf(v).Contains(a)
  {
    var all, area := ts + [MemoryControl(v)], ReservedAreaOf(v);
    assert all[..|all| - 1] == ts && all[|all| - 1] == MemoryControl(v);
    var fewer, more := ReservedAreasOf(ts), ReservedAreasOf(all);
    assert more == fewer + [area] && LockAreasOf(all) == LockAreasOf(ts);
    assert forall i :: 0 <= i < |fewer| ==> more[i] == fewer[i];
    assert more[|fewer|] == area;
  }

  // ---- the two passes over a hidden header ----

  /** The message shown once the header is hidden. */
  const SHOWN: seq<byte> := [0xAA]

  function Control(v: MemoryControlValue): (b: seq<byte>)
    ensures |b| == 5
  {
    [TLV_MEMORY_CONTROL, 0x03] + v.ToBytes()
  }

  /** What the first pass finds behind byte `h` is in the memory there. */
  lemma BehindInMemory(cc: CapabilityContainer, m: seq<byte>, h: nat)
    requires IsMemory(m) && h <= cc.DataAreaSize()
    ensures cc.DataAreaSize() <= |Stream(LayoutOf(cc, []), m)|
    ensures Behind(LayoutOf(cc, []), m, h) == Parse(m[DATA_START + h..DATA_START + cc.DataAreaSize()])
  {
    var basic, size := LayoutOf(cc, []), cc.DataAreaSize();
    BasicIsClear(cc);
    ClearStart(basic, m, size);
    assert Stream(basic, m)[h..size] == Stream(basic, m)[..size][h..];
    assert m[DATA_START..DATA_START + size][h..] == m[DATA_START + h..DATA_START + size];
  }

  lemma Halves(s: seq<byte>, lo: nat, mid: nat, hi: nat)
    requires lo <= mid <= hi <= |s|
    ensures s[lo..hi] == s[lo..mid] + s[mid..hi]
  {
  }

  /** The first pass lists these TLVs. */
  predicate FirstFinds(cc: CapabilityContainer, m: seq<byte>, tlvs: seq<Tlv>)
    requires IsMemory(m)
  {
    FirstPass(cc, m) == Ok(tlvs)
  }

  /** The first pass over a zero length: the leading TLVs, the empty message, and what is behind. */
  lemma ZeroLengthFirstPass(m: seq<byte>, cc: CapabilityContainer, ts: seq<Tlv>, n: nat, at: nat, h: nat, end: nat,
                            behind: seq<Tlv>)
    requires IsMemory(m) && Leading(ts) && at == DATA_START + |PrintAll(ts)| && h == at + 1 + LengthFieldSize(n)
    requires h <= end == DATA_START + cc.DataAreaSize() && m[DATA_START..at] == PrintAll(ts)
    requires m[at..h] == ZeroHeader(n) && Parse(m[h..end]) == Ok(behind)
    ensures FirstFinds(cc, m, ts + [NdefMessage([])] + behind)
  {
    var s := LeadingFound(ts, |PrintAll(ts)|);
    ZeroLengthFrom(cc, m, s, |PrintAll(ts)|, n, at, h, end, behind);
  }

  lemma ZeroLengthFrom(cc: CapabilityContainer, m: seq<byte>, s: seq<byte>, k: nat, n: nat, at: nat, h: nat, end: nat,
                       behind: seq<Tlv>)
    requires IsMemory(m) && at == DATA_START + k && h == at + 1 + LengthFieldSize(n)
    requires h <= end == DATA_START + cc.DataAreaSize()
    requires NdefPosition(s) == Some(k) && s[..k] == m[DATA_START..at]
    requires m[at..h] == ZeroHeader(n) && Parse(m[h..end]) == Ok(behind)
    ensures FirstFinds(cc, m, Before(s) + [NdefMessage([])] + behind)
  {
    HeaderIsZero(m, k, n, at, h);
    BehindFrom(cc, m, ValueOffset(k, n), h, end);
    ZeroLengthFinds(cc, m, s, k, n, behind);
  }

  lemma HeaderIsZero(m: seq<byte>, k: nat, n: nat, at: nat, h: nat)
    requires IsMemory(m) && at == DATA_START + k && h == at + 1 + LengthFieldSize(n) <= |m| && m[at..h] == ZeroHeader(n)
    ensures ZeroLengthAt(m, k, n, m) && h == DATA_START + ValueOffset(k, n)
  {
  }

  lemma BehindFrom(cc: CapabilityContainer, m: seq<byte>, o: nat, h: nat, end: nat)
    requires IsMemory(m) && h == DATA_START + o && h <= end == DATA_START + cc.DataAreaSize()
    ensures cc.DataAreaSize() <= |Stream(LayoutOf(cc, []), m)|
    ensures Behind(LayoutOf(cc, []), m, o) == Parse(m[h..end])
  {
    BehindInMemory(cc, m, o);
  }

  lemma ZeroLengthFinds(cc: CapabilityContainer, m: seq<byte>, s: seq<byte>, k: nat, n: nat, behind: seq<Tlv>)
    requires IsMemory(m) && ValueOffset(k, n) <= cc.DataAreaSize() <= |Stream(LayoutOf(cc, []), m)|
    requires ZeroLengthAt(m, k, n, m) && NdefPosition(s) == Some(k) && s[..k] == m[DATA_START..DATA_START + k]
    requires Behind(LayoutOf(cc, []), m, ValueOffset(k, n)) == Ok(behind)
    ensures FirstFinds(cc, m, Before(s) + [NdefMessage([])] + behind)
  {
    BasicIsClear(cc);
    ClearPass(LayoutOf(cc, []), m, k, n, m, s);
  }

  /** A control TLV and a Terminator. */
  lemma ControlParses(v: MemoryControlValue, rest: seq<byte>)
    requires v.WellFormed()
    ensures Parse(Control(v) + ([TLV_TERMINATOR] + rest)) == Ok([MemoryControl(v)] + [Terminator])
  {
    FirstBlock(Terminator, rest);
    FirstBlock(MemoryControl(v), [TLV_TERMINATOR] + rest);
  }

  lemma ControlInMemory(m: seq<byte>, lo: nat, hi: nat, v: MemoryControlValue)
    requires lo + 6 <= hi <= |m| && v.WellFormed() && m[lo..lo + 5] == Control(v) && m[lo + 5] == TLV_TERMINATOR
    ensures Parse(m[lo..hi]) == Ok([MemoryControl(v)] + [Terminator])
  {
    Halves(m, lo, lo + 5, hi);
    assert m[lo + 5..hi] == [m[lo + 5]] + m[lo + 6..hi];
    ControlParses(v, m[lo + 6..hi]);
  }

  /** The layout that the TLVs of the first pass describe. */
  lemma HidingLayout(cc: CapabilityContainer, ts: seq<Tlv>, v: MemoryControlValue, more: seq<Tlv>)
    requires AllWellFormed(ts) && v.WellFormed() && !HasControl(more)
    ensures var all := ts + [NdefMessage([])] + ([MemoryControl(v)] + more);
      && AllWellFormed(all) && AllWellFormed(ts + [MemoryControl(v)]) && HasControl(all)
      && LayoutOf(cc, all) == LayoutOf(cc, ts + [MemoryControl(v)])
  {
    var front, t := ts + [NdefMessage([])], MemoryControl(v);
    NothingDescribed(cc, ts, [NdefMessage([])]);
    SnocAreas(front, t);
    SnocAreas(ts, t);
    NothingDescribed(cc, front + [t], more);
    assert front + ([t] + more) == front + [t] + more;
    assert (front + [t] + more)[|front|] == t;
  }

  /** The second pass skips the header and presents the message behind it. */
  lemma HiddenPresents(cc: CapabilityContainer, m: seq<byte>, ts: seq<Tlv>, v: MemoryControlValue, more: seq<Tlv>)
    requires IsMemory(m) && CCOf(m) == Ok(cc) && cc.IsValid() && cc.IsDynamic() && Leading(ts) && AllWellFormed(ts)
    requires v.WellFormed() && !HasControl(more) && AllWellFormed(ts + [MemoryControl(v)])
    requires FirstFinds(cc, m, ts + [NdefMessage([])] + ([MemoryControl(v)] + more))
    requires DataArea(LayoutOf(cc, ts + [MemoryControl(v)]), m) == Ok(Format(ts, SHOWN))
    ensures NdefOf(m) == Ok(SHOWN)
  {
    HidingLayout(cc, ts, v, more);
    FormatParses(ts, SHOWN, Format(ts, SHOWN));
    FirstNdefAfter(ts, [NdefMessage(SHOWN), Terminator]);
  }

  /** The stream under a layout starts with the leading TLVs and the shown message. */
  predicate ShowsBehind(layout: MemoryLayout, m: seq<byte>, ts: seq<Tlv>)
    requires IsMemory(m) && Leading(ts)
  {
    Format(ts, SHOWN) <= Stream(layout, m)
  }

  /** A layout under which the stream starts with a format has it as its data area. */
  lemma ShowsFormat(layout: MemoryLayout, m: seq<byte>, ts: seq<Tlv>)
    requires IsMemory(m) && Leading(ts) && ShowsBehind(layout, m, ts)
    requires |Format(ts, SHOWN)| <= layout.dataAreaSize
    ensures DataArea(layout, m) == Ok(Format(ts, SHOWN))
  {
    FormatEnds(ts, SHOWN, Format(ts, SHOWN));
    CompleteArea(layout, m, Format(ts, SHOWN));
  }

  lemma {:induction false} GatherSkipped(layout: MemoryLayout, m: seq<byte>, lo: nat, hi: nat)
    requires DATA_START <= lo <= hi <= |m| && forall a :: lo <= a < hi ==> layout.IsSkip(a)
    ensures Gather(layout, m, hi) == Gather(layout, m, lo)
    decreases hi
  {
    if lo < hi {
      GatherSkipped(layout, m, lo, hi - 1);
    }
  }

  lemma {:induction false} GatherUsable(layout: MemoryLayout, m: seq<byte>, lo: nat, hi: nat)
    requires DATA_START <= lo <= hi <= |m| && forall a :: lo <= a < hi ==> !layout.IsSkip(a)
    ensures Gather(layout, m, hi) == Gather(layout, m, lo) + m[lo..hi]
    decreases hi
  {
    if lo < hi {
      GatherUsable(layout, m, lo, hi - 1);
      assert m[lo..hi] == m[lo..hi - 1] + [m[hi - 1]];
    }
  }

  /** A layout that hides the bytes from `lo` to `mid`, and nothing else around, shows what is behind them at `lo`. */
  lemma GatherAround(layout: MemoryLayout, m: seq<byte>, lo: nat, mid: nat, hi: nat)
    requires IsMemory(m) && DATA_START <= lo <= mid <= hi <= ADDRESS_SPACE_END
    requires forall a :: DATA_START <= a < lo ==> !layout.IsSkip(a)
    requires forall a :: lo <= a < mid ==> layout.IsSkip(a)
    requires forall a :: mid <= a < hi ==> !layout.IsSkip(a)
    ensures Gather(layout, m, hi) == m[DATA_START..lo] + m[mid..hi]
  {
    GatherContiguous(layout, m, lo);
    GatherSkipped(layout, m, lo, mid);
    GatherUsable(layout, m, mid, hi);
  }

  /** The addresses skipped once the descriptor is seen. */
  lemma HidingSkips(cc: CapabilityContainer, ts: seq<Tlv>, v: MemoryControlValue, lo: nat, hi: nat)
    requires AllWellFormed(ts) && Describes(v, lo, hi)
    ensures AllWellFormed(ts + [MemoryControl(v)])
    ensures forall a: nat :: LayoutOf(cc, ts + [MemoryControl(v)]).IsSkip(a) <==> LayoutOf(cc, ts).IsSkip(a) || lo <= a < hi
  {
    OneMoreArea(cc, ts, v, 0);
    forall a: nat
      ensures LayoutOf(cc, ts + [MemoryControl(v)]).IsSkip(a) <==> LayoutOf(cc, ts).IsSkip(a) || lo <= a < hi
    {
      OneMoreArea(cc, ts, v, a);
      assert ReservedAreaOf(v).Contains(a) <==> lo <= a < hi;
    }
  }

  /** The layout skips all these addresses. */
  predicate Hidden(full: MemoryLayout, lo: nat, hi: nat) {
    forall a: nat :: lo <= a < hi ==> full.IsSkip(a)
  }

  lemma HidesAll(cc: CapabilityContainer, ts: seq<Tlv>, v: MemoryControlValue, lo: nat, hi: nat)
    requires AllWellFormed(ts) && Describes(v, lo, hi)
    ensures AllWellFormed(ts + [MemoryControl(v)]) && Hidden(LayoutOf(cc, ts + [MemoryControl(v)]), lo, hi)
  {
    HidingSkips(cc, ts, v, lo, hi);
  }

  /** What must be visible behind the hidden bytes: the end of the leading TLVs that is hidden, and the shown TLV. */
  function Visible(ts: seq<Tlv>, p: nat): (b: seq<byte>)
    requires Leading(ts) && p <= |PrintAll(ts)|
    ensures |b| == |PrintAll(ts)| - p + 4
    ensures PrintAll(ts)[..p] + b == Format(ts, SHOWN)
  {
    PrintAll(ts)[p..] + NdefBytes(SHOWN)
  }

  /** A formatted tag starts with its leading TLVs. */
  lemma LeadingBytes(m: seq<byte>, ts: seq<Tlv>, d: seq<byte>)
    requires IsMemory(m) && Leading(ts) && |d| <= MAX_TLV_LENGTH && DATA_START + |Format(ts, d)| <= |m|
    requires m[DATA_START..DATA_START + |Format(ts, d)|] == Format(ts, d)
    ensures m[DATA_START..DATA_START + |PrintAll(ts)|] == PrintAll(ts)
  {
    var k := |PrintAll(ts)|;
    PrefixKept(PrintAll(ts), NdefBytes(d));
    assert m[DATA_START..DATA_START + k] == m[DATA_START..DATA_START + |Format(ts, d)|][..k];
  }

  /** The format as the parser sees it, and as the memory holds it. */
  lemma FormatInMemory(m: seq<byte>, ts: seq<Tlv>, d: seq<byte>, s: seq<byte>, k: nat)
    requires IsMemory(m) && Leading(ts) && |d| <= MAX_TLV_LENGTH && s == Format(ts, d) && k == |PrintAll(ts)|
    requires DATA_START + |s| <= |m| && m[DATA_START..DATA_START + |s|] == s
    ensures NdefPosition(s) == Some(k) && s[..k] == m[DATA_START..DATA_START + k]
  {
    FormatShape(ts, d, s, k);
    SliceOfSlice(m, DATA_START, DATA_START + |s|, 0, k);
    assert s[0..k] == s[..k];
  }

  /** While the length is zero and the bytes behind it do not parse as TLVs, the tag cannot be read. */
  lemma UnreadableCut(m0: seq<byte>, cc: CapabilityContainer, ts: seq<Tlv>, d0: seq<byte>, d: seq<byte>, m: seq<byte>,
                      k: nat, h: nat)
    requires Formatted(m0, cc, ts, d0) && k == |PrintAll(ts)| && h == ValueOffset(k, |d|) <= cc.DataAreaSize()
    requires IsMemory(m) && ZeroLengthAt(m0, k, |d|, m)
    requires cc.DataAreaSize() <= |Stream(LayoutOf(cc, []), m)|
    requires Behind(LayoutOf(cc, []), m, h).Err?
    ensures NdefOf(m) == Err(InvalidTlv)
  {
    FormatInMemory(m0, ts, d0, Format(ts, d0), k);
    UnparsedBehind(cc, m0, k, |d|, m, Format(ts, d0));
  }

  // ---- a long message that hides its header and shows its own bytes ----

  /** Control TLV, Terminator, the bytes to be shown, and Terminators up to `n` bytes. */
  function LongHiding(v: MemoryControlValue, visible: seq<byte>, n: nat): (d: seq<byte>)
    requires 4 <= |visible| && 5 + |visible| <= n
    ensures |d| == n
  {
    Control(v) + [TLV_TERMINATOR] + visible[..|visible| - 1] + seq(n - 5 - |visible|, i => TLV_TERMINATOR)
  }

  lemma LongPayload(v: MemoryControlValue, visible: seq<byte>, n: nat)
    requires 4 <= |visible| && 5 + |visible| <= n && visible[|visible| - 1] == TLV_TERMINATOR
    ensures ZeroHeader(n) + (Control(v) + ([TLV_TERMINATOR] + visible)) <= Payload(LongHiding(v, visible, n))
  {
    var d := LongHiding(v, visible, n);
    var b := Control(v) + ([TLV_TERMINATOR] + visible);
    assert Payload(d) == ZeroHeader(n) + (d + [TLV_TERMINATOR]);
    assert (d + [TLV_TERMINATOR])[..|b|] == b;
  }

  lemma ByteOfSlice(s: seq<byte>, lo: nat, hi: nat, i: nat)
    requires lo <= hi <= |s| && i < hi - lo
    ensures s[lo..hi][i] == s[lo + i]
  {
  }

  /** In the memory: header, control TLV, Terminator, and the bytes to be shown. */
  lemma LongInMemory(m: seq<byte>, at: nat, h: nat, hi: nat, end: nat, v: MemoryControlValue, visible: seq<byte>, n: nat,
                     payload: seq<byte>)
    requires at + |payload| <= |m| && m[at..at + |payload|] == payload
    requires ZeroHeader(n) + (Control(v) + ([TLV_TERMINATOR] + visible)) <= payload
    requires h == at + 1 + LengthFieldSize(n) && hi == h + 6 && end == hi + |visible|
    ensures end <= |m| && m[at..h] == ZeroHeader(n) && m[h..h + 5] == Control(v) && m[h + 5] == TLV_TERMINATOR
    ensures m[hi..end] == visible
  {
    var b := ZeroHeader(n) + (Control(v) + ([TLV_TERMINATOR] + visible));
    SliceOfSlice(m, at, at + |payload|, 0, |b|);
    PartsOf(m[at..end], ZeroHeader(n), Control(v), TLV_TERMINATOR, visible);
    SliceOfSlice(m, at, end, 0, h - at);
    SliceOfSlice(m, at, end, h - at, h + 5 - at);
    SliceOfSlice(m, at, end, hi - at, end - at);
    ByteOfSlice(m, at, end, h + 5 - at);
  }

  /** A sequence taken apart again. */
  lemma PartsOf(s: seq<byte>, a: seq<byte>, b: seq<byte>, c: byte, d: seq<byte>)
    requires s == a + (b + ([c] + d))
    ensures s[0..|a|] == a && s[|a|..|a| + |b|] == b && s[|a| + |b|] == c && s[|a| + |b| + 1..|s|] == d
  {
  }

  /** The stream of the second pass over such a memory. */
  lemma LongStream(cc: CapabilityContainer, m: seq<byte>, ts: seq<Tlv>, v: MemoryControlValue, lo: nat, hi: nat, end: nat)
    requires IsMemory(m) && Leading(ts) && AllWellFormed(ts) && Describes(v, lo, hi)
    requires AllWellFormed(ts + [MemoryControl(v)])
    requires DATA_START <= lo <= DATA_START + |PrintAll(ts)| <= hi <= end <= ADDRESS_SPACE_END
    requires Clear(LayoutOf(cc, ts), end - DATA_START)
    requires m[DATA_START..DATA_START + |PrintAll(ts)|] == PrintAll(ts)
    requires m[hi..end] == Visible(ts, lo - DATA_START)
    ensures ShowsBehind(LayoutOf(cc, ts + [MemoryControl(v)]), m, ts)
  {
    HidingSkips(cc, ts, v, lo, hi);
    FrontOfTlvs(m, ts, lo - DATA_START);
    VisibleStream(LayoutOf(cc, ts + [MemoryControl(v)]), m, ts, lo, hi, end);
  }

  lemma FrontOfTlvs(m: seq<byte>, ts: seq<Tlv>, p: nat)
    requires Leading(ts) && p <= |PrintAll(ts)| && DATA_START + |PrintAll(ts)| <= |m|
    requires m[DATA_START..DATA_START + |PrintAll(ts)|] == PrintAll(ts)
    ensures m[DATA_START..DATA_START + p] == PrintAll(ts)[..p]
  {
    SliceOfSlice(m, DATA_START, DATA_START + |PrintAll(ts)|, 0, p);
  }

  lemma VisibleStream(full: MemoryLayout, m: seq<byte>, ts: seq<Tlv>, lo: nat, hi: nat, end: nat)
    requires IsMemory(m) && Leading(ts) && DATA_START <= lo <= DATA_START + |PrintAll(ts)| && lo <= hi <= end <= |m|
    requires forall a :: DATA_START <= a < lo ==> !full.IsSkip(a)
    requires forall a :: lo <= a < hi ==> full.IsSkip(a)
    requires forall a :: hi <= a < end ==> !full.IsSkip(a)
    requires m[DATA_START..lo] == PrintAll(ts)[..lo - DATA_START] && m[hi..end] == Visible(ts, lo - DATA_START)
    ensures ShowsBehind(full, m, ts)
  {
    GatherAround(full, m, lo, hi, end);
    GatherGrows(full, m, end, ADDRESS_SPACE_END);
  }

  // ---- a short message that hides itself and shows old bytes ----

  /** A control TLV and Terminators up to `n` bytes. */
  function ShortHiding(v: MemoryControlValue, n: nat): (d: seq<byte>)
    requires 5 <= n
    ensures |d| == n
  {
    Control(v) + seq(n - 5, i => TLV_TERMINATOR)
  }

  lemma ShortPayload(v: MemoryControlValue, n: nat)
    requires 5 <= n
    ensures ZeroHeader(n) + (Control(v) + [TLV_TERMINATOR]) <= Payload(ShortHiding(v, n))
  {
    var d := ShortHiding(v, n);
    var b := Control(v) + [TLV_TERMINATOR];
    assert Payload(d) == ZeroHeader(n) + (d + [TLV_TERMINATOR]);
    assert (d + [TLV_TERMINATOR])[..6] == b;
  }

  lemma ShortInMemory(m: seq<byte>, at: nat, h: nat, v: MemoryControlValue, n: nat, payload: seq<byte>)
    requires at + |payload| <= |m| && m[at..at + |payload|] == payload
    requires ZeroHeader(n) + (Control(v) + [TLV_TERMINATOR]) <= payload && h == at + 1 + LengthFieldSize(n)
    ensures h + 6 <= |m| && m[at..h] == ZeroHeader(n) && m[h..h + 5] == Control(v) && m[h + 5] == TLV_TERMINATOR
  {
    assert [TLV_TERMINATOR] + [] == [TLV_TERMINATOR];
    LongInMemory(m, at, h, h + 6, h + 6, v, [], n, payload);
  }

  /** A formatted tag with the bytes to be shown at the first addresses behind the hidden ones. */
  ghost function ShowingTag(cc: CapabilityContainer, ts: seq<Tlv>, v: MemoryControlValue, lo: nat): (m: seq<byte>)
    requires Writable(cc) && Leading(ts) && AllWellFormed(ts) && AllWellFormed(ts + [MemoryControl(v)])
    requires |Format(ts, [])| <= cc.DataAreaSize() && DATA_START <= lo <= DATA_START + |PrintAll(ts)|
    ensures IsMemory(m)
  {
    var visible := Visible(ts, lo - DATA_START);
    Scatter(LayoutOf(cc, ts + [MemoryControl(v)]), TagWith(cc, Format(ts, [])), lo - DATA_START, visible, |visible|)
  }

  /** Below the hidden bytes and inside them nothing is changed. */
  lemma ShowingKept(layout: MemoryLayout, m: seq<byte>, lo: nat, hi: nat, data: seq<byte>, a: nat)
    requires IsMemory(m) && DATA_START <= lo && a < hi <= ADDRESS_SPACE_END
    requires forall x: nat :: lo <= x < hi ==> layout.IsSkip(x)
    ensures Scatter(layout, m, lo - DATA_START, data, |data|)[a] == m[a]
  {
    ScatterAt(layout, m, lo - DATA_START, data, |data|, a);
    if DATA_START <= a < lo {
      RankMonotone(layout, DATA_START, a);
      if Rank(layout, a) >= lo - DATA_START {
        assert false;
      }
    }
  }

  lemma ShowingFormatted(cc: CapabilityContainer, ts: seq<Tlv>, v: MemoryControlValue, lo: nat, hi: nat)
    requires Writable(cc) && Leading(ts) && AllWellFormed(ts) && Describes(v, lo, hi)
    requires AllWellFormed(ts + [MemoryControl(v)])
    requires |Format(ts, [])| <= cc.DataAreaSize() && Clear(LayoutOf(cc, ts), |Format(ts, [])|)
    requires DATA_START <= lo <= DATA_START + |PrintAll(ts)| && DATA_START + |Format(ts, [])| <= hi <= ADDRESS_SPACE_END
    ensures Formatted(ShowingTag(cc, ts, v, lo), cc, ts, [])
  {
    var m0, m, e := TagWith(cc, Format(ts, [])), ShowingTag(cc, ts, v, lo), DATA_START + |Format(ts, [])|;
    TagWithFormat(cc, ts, []);
    HidingSkips(cc, ts, v, lo, hi);
    forall a | 0 <= a < e
      ensures m[a] == m0[a]
    {
      ShowingKept(LayoutOf(cc, ts + [MemoryControl(v)]), m0, lo, hi, Visible(ts, lo - DATA_START), a);
    }
    SamePrefix(m0, m, e);
    FrontKept(m0, m, e);
  }

  lemma SamePrefix(m0: seq<byte>, m: seq<byte>, e: nat)
    requires e <= |m0| == |m| && forall a :: 0 <= a < e ==> m[a] == m0[a]
    ensures m[..e] == m0[..e]
  {
  }

  /** The stream of the second pass over it. */
  lemma ShowingStream(cc: CapabilityContainer, ts: seq<Tlv>, v: MemoryControlValue, lo: nat, hi: nat)
    requires Writable(cc) && Leading(ts) && AllWellFormed(ts) && Describes(v, lo, hi)
    requires AllWellFormed(ts + [MemoryControl(v)]) && |PrintAll(ts)| + 8 <= cc.DataAreaSize()
    requires DATA_START <= lo <= DATA_START + |PrintAll(ts)| && Clear(LayoutOf(cc, ts), |PrintAll(ts)|)
    ensures ShowsBehind(LayoutOf(cc, ts + [MemoryControl(v)]), ShowingTag(cc, ts, v, lo), ts)
  {
    var full, m0, p := LayoutOf(cc, ts + [MemoryControl(v)]), TagWith(cc, Format(ts, [])), lo - DATA_START;
    ClearBefore(cc, ts, v, lo, hi);
    FullReadable(cc, ts, v, m0);
    FrontOfTag(cc, ts, p);
    ScatterShows(full, m0, p, Visible(ts, p), PrintAll(ts)[..p], Format(ts, SHOWN));
  }

  lemma ClearBefore(cc: CapabilityContainer, ts: seq<Tlv>, v: MemoryControlValue, lo: nat, hi: nat)
    requires AllWellFormed(ts) && Describes(v, lo, hi) && AllWellFormed(ts + [MemoryControl(v)])
    requires DATA_START <= lo && Clear(LayoutOf(cc, ts), lo - DATA_START)
    ensures Clear(LayoutOf(cc, ts + [MemoryControl(v)]), lo - DATA_START)
  {
    HidingSkips(cc, ts, v, lo, hi);
  }

  lemma FrontOfTag(cc: CapabilityContainer, ts: seq<Tlv>, p: nat)
    requires Writable(cc) && Leading(ts) && |Format(ts, [])| <= cc.DataAreaSize() && p <= |PrintAll(ts)|
    ensures PrintAll(ts)[..p] == TagWith(cc, Format(ts, []))[DATA_START..DATA_START + p]
  {
    TagWithHolds(cc, Format(ts, []));
    FrontOfFormat(TagWith(cc, Format(ts, [])), ts, p);
  }

  /** Bytes scattered behind a clear start follow it in the stream. */
  lemma ScatterShows(full: MemoryLayout, m0: seq<byte>, p: nat, data: seq<byte>, front: seq<byte>, f: seq<byte>)
    requires IsMemory(m0) && DATA_START + p <= |m0| && Clear(full, p) && p + |data| <= |Stream(full, m0)|
    requires front == m0[DATA_START..DATA_START + p] && f == front + data
    ensures f <= Stream(full, Scatter(full, m0, p, data, |data|))
  {
    ClearStart(full, m0, p);
    SpliceLaw(full, m0, p, data, |data|);
    assert data[..|data|] == data;
    SpliceShows(Stream(full, m0), p, data, front, f);
  }

  lemma SpliceShows(s: seq<byte>, p: nat, data: seq<byte>, front: seq<byte>, f: seq<byte>)
    requires p + |data| <= |s| && front == s[..p] && f == front + data
    ensures f <= Splice(s, p, data)
  {
    SpliceStarts(s, p, data, front);
  }

  lemma FrontOfFormat(m: seq<byte>, ts: seq<Tlv>, p: nat)
    requires Leading(ts) && p <= |PrintAll(ts)| && DATA_START + |Format(ts, [])| <= |m|
    requires m[DATA_START..DATA_START + |Format(ts, [])|] == Format(ts, [])
    ensures m[DATA_START..DATA_START + p] == PrintAll(ts)[..p]
  {
    SliceOfSlice(m, DATA_START, DATA_START + |Format(ts, [])|, 0, p);
    assert Format(ts, [])[0..p] == PrintAll(ts)[..p];
  }

  lemma FullReadable(cc: CapabilityContainer, ts: seq<Tlv>, v: MemoryControlValue, m: seq<byte>)
    requires IsMemory(m) && Leading(ts) && AllWellFormed(ts) && v.WellFormed() && |PrintAll(ts)| + 8 <= cc.DataAreaSize()
    requires AllWellFormed(ts + [MemoryControl(v)])
    ensures cc.DataAreaSize() < |Stream(LayoutOf(cc, ts + [MemoryControl(v)]), m)|
  {
    PrintSnoc(ts, MemoryControl(v));
    LayoutReadable(cc, ts + [MemoryControl(v)], m);
  }

  lemma LeadingTail(ts: seq<Tlv>)
    requires Leading(ts) && ts != []
    ensures Leading(ts[1..])
  {
    assert forall t :: t in ts[1..] ==> t in ts;
  }

  lemma {:induction false} PrintSnoc(ts: seq<Tlv>, t: Tlv)
    requires Leading(ts) && Leading([t])
    ensures Leading(ts + [t]) && PrintAll(ts + [t]) == PrintAll(ts) + t.ToBytes().value
  {
    if ts == [] {
      assert [] + [t] == [t] && [t][1..] == [];
    } else {
      LeadingTail(ts);
      PrintSnoc(ts[1..], t);
      assert (ts + [t])[1..] == ts[1..] + [t];
      Associative(ts[0].ToBytes().value, PrintAll(ts[1..]), t.ToBytes().value);
    }
  }

  /** Streams agree when the usable addresses do. */
  lemma {:induction false} GatherSame(layout: MemoryLayout, m: seq<byte>, m': seq<byte>, hi: nat)
    requires hi <= |m| == |m'| && forall a :: DATA_START <= a < hi && !layout.IsSkip(a) ==> m'[a] == m[a]
    ensures Gather(layout, m', hi) == Gather(layout, m, hi)
  {
    if hi > DATA_START {
      GatherSame(layout, m, m', hi - 1);
    }
  }

  /** A payload inside the hidden bytes changes nothing that the second pass sees. */
  lemma HiddenWrite(layout: MemoryLayout, full: MemoryLayout, k: nat, m0: seq<byte>, d: seq<byte>, lo: nat)
    requires IsMemory(m0) && lo <= DATA_START + k && DATA_START + k + |Payload(d)| <= ADDRESS_SPACE_END
    requires Clear(layout, k + |Payload(d)|) && Hidden(full, lo, DATA_START + k + |Payload(d)|)
    ensures Stream(full, WithPayload(layout, k, m0, d)) == Stream(full, m0)
  {
    var m, e := WithPayload(layout, k, m0, d), DATA_START + k + |Payload(d)|;
    ClearRank(layout, e);
    forall a | DATA_START <= a < ADDRESS_SPACE_END && !full.IsSkip(a)
      ensures m[a] == m0[a]
    {
      ScatterAt(layout, m0, k, Payload(d), |Payload(d)|, a);
      if a < lo {
        ClearRank(layout, a);
      } else {
        RankMonotone(layout, e, a);
      }
    }
    GatherSame(full, m0, m, ADDRESS_SPACE_END);
  }

  lemma HiddenShows(ts: seq<Tlv>, layout: MemoryLayout, full: MemoryLayout, k: nat, m0: seq<byte>, d: seq<byte>, lo: nat)
    requires IsMemory(m0) && lo <= DATA_START + k && DATA_START + k + |Payload(d)| <= ADDRESS_SPACE_END
    requires Clear(layout, k + |Payload(d)|) && Hidden(full, lo, DATA_START + k + |Payload(d)|)
    requires Leading(ts) && ShowsBehind(full, m0, ts)
    ensures ShowsBehind(full, WithPayload(layout, k, m0, d), ts)
  {
    HiddenWrite(layout, full, k, m0, d, lo);
  }

  // ---- exactly the static tags ----

  /** A state of a write that presents the message shown by its hidden header. */
  ghost predicate ShowsCut(cc: CapabilityContainer, ts: seq<Tlv>, m0: seq<byte>, d: seq<byte>, m: seq<byte>)
    requires Leading(ts) && AllWellFormed(ts)
  {
    && IsMemory(m) && |d| <= MAX_TLV_LENGTH && m == WithPayload(LayoutOf(cc, ts), |PrintAll(ts)|, m0, d)
    && NdefOf(m) == Ok(SHOWN)
  }

  /** The memory of such a cut: leading TLVs, zero length, control TLV, Terminator. */
  predicate HoldsHiding(m: seq<byte>, ts: seq<Tlv>, n: nat, v: MemoryControlValue, at: nat, h: nat) {
    && IsMemory(m) && Leading(ts) && at == DATA_START + |PrintAll(ts)| && h == at + 1 + LengthFieldSize(n)
    && h + 6 <= |m| && v.WellFormed() && m[DATA_START..at] == PrintAll(ts)
    && m[at..h] == ZeroHeader(n) && m[h..h + 5] == Control(v) && m[h + 5] == TLV_TERMINATOR
  }

  lemma HidingFirstPass(cc: CapabilityContainer, m: seq<byte>, ts: seq<Tlv>, n: nat, v: MemoryControlValue, at: nat, h: nat)
    requires HoldsHiding(m, ts, n, v, at, h) && h + 6 <= DATA_START + cc.DataAreaSize()
    ensures FirstFinds(cc, m, ts + [NdefMessage([])] + ([MemoryControl(v)] + [Terminator]))
  {
    var end := DATA_START + cc.DataAreaSize();
    ControlInMemory(m, h, end, v);
    ZeroLengthFirstPass(m, cc, ts, n, at, h, end, [MemoryControl(v)] + [Terminator]);
  }

  /** Both passes together. */
  lemma HidingPresents(cc: CapabilityContainer, m: seq<byte>, ts: seq<Tlv>, n: nat, v: MemoryControlValue, at: nat, h: nat)
    requires HoldsHiding(m, ts, n, v, at, h) && h + 6 <= DATA_START + cc.DataAreaSize()
    requires CCOf(m) == Ok(cc) && cc.IsValid() && cc.IsDynamic() && AllWellFormed(ts)
    requires AllWellFormed(ts + [MemoryControl(v)])
    requires ShowsBehind(LayoutOf(cc, ts + [MemoryControl(v)]), m, ts)
    ensures NdefOf(m) == Ok(SHOWN)
  {
    HidingFirstPass(cc, m, ts, n, v, at, h);
    ShowsFormat(LayoutOf(cc, ts + [MemoryControl(v)]), m, ts);
    TerminatorOnly();
    HiddenPresents(cc, m, ts, v, [Terminator]);
  }

  lemma TerminatorOnly()
    ensures !HasControl([Terminator])
  {
  }

  /** A memory with this container, the leading TLVs, and a payload behind them. */
  predicate CutHolds(m: seq<byte>, cc: CapabilityContainer, ts: seq<Tlv>, at: nat, payload: seq<byte>) {
    && IsMemory(m) && CCOf(m) == Ok(cc) && Leading(ts) && at == DATA_START + |PrintAll(ts)| && at + |payload| <= |m|
    && m[DATA_START..at] == PrintAll(ts) && m[at..at + |payload|] == payload
  }

  /** The front and the container of a cut are those of the tag. */
  lemma CutFront(cc: CapabilityContainer, ts: seq<Tlv>, layout: MemoryLayout, k: nat, m0: seq<byte>, d: seq<byte>)
    requires Formatted(m0, cc, ts, []) && k == |PrintAll(ts)| && Clear(layout, k + |Payload(d)|)
    requires DATA_START + k + |Payload(d)| <= ADDRESS_SPACE_END
    ensures CutHolds(WithPayload(layout, k, m0, d), cc, ts, DATA_START + k, Payload(d))
  {
    var m, at := WithPayload(layout, k, m0, d), DATA_START + k;
    PayloadPart(layout, k, m0, d, |Payload(d)|, |Payload(d)|);
    assert Payload(d)[..|Payload(d)|] == Payload(d);
    LeadingBytes(m0, ts, []);
    FrontKept(m0, m, at);
  }

  lemma FrontKept(m0: seq<byte>, m: seq<byte>, at: nat)
    requires IsMemory(m0) && IsMemory(m) && DATA_START <= at <= |m| && m[..at] == m0[..at]
    ensures CCOf(m) == CCOf(m0) && m[DATA_START..at] == m0[DATA_START..at]
  {
    assert m[12..16] == m[..at][12..16] == m0[..at][12..16] == m0[12..16];
    assert m[DATA_START..at] == m[..at][DATA_START..] == m0[..at][DATA_START..] == m0[DATA_START..at];
  }

  /** A message long enough to bring along what it shows. */
  lemma LongCut(cc: CapabilityContainer, ts: seq<Tlv>, n: nat, v: MemoryControlValue, k: nat, lo: nat)
    returns (m0: seq<byte>, d: seq<byte>, m: seq<byte>)
    requires Writable(cc) && cc.IsDynamic() && Leading(ts) && AllWellFormed(ts) && HasRoom(cc, ts, Zeros(n))
    requires k == |PrintAll(ts)| && DATA_START <= lo <= DATA_START + k && 9 + DATA_START + k - lo <= n
    requires Describes(v, lo, DATA_START + ValueOffset(k, n) + 6)
    ensures Formatted(m0, cc, ts, []) && |d| == n && ShowsCut(cc, ts, m0, d, m)
  {
    var layout, visible := LayoutOf(cc, ts), Visible(ts, lo - DATA_START);
    d := LongHiding(v, visible, n);
    m0 := TagWith(cc, Format(ts, []));
    m := WithPayload(layout, k, m0, d);
    TagWithFormat(cc, ts, []);
    LongWritten(cc, ts, layout, n, v, k, lo, DATA_START + ValueOffset(k, n), m0, d);
  }

  lemma LongWritten(cc: CapabilityContainer, ts: seq<Tlv>, layout: MemoryLayout, n: nat, v: MemoryControlValue, k: nat,
                    lo: nat, h: nat, m0: seq<byte>, d: seq<byte>)
    requires Formatted(m0, cc, ts, []) && cc.IsDynamic() && k == |PrintAll(ts)| && layout == LayoutOf(cc, ts)
    requires DATA_START <= lo <= DATA_START + k && 9 + DATA_START + k - lo <= n
    requires d == LongHiding(v, Visible(ts, lo - DATA_START), n)
    requires Clear(layout, k + |Payload(d)|) && k + |Payload(d)| <= cc.DataAreaSize()
    requires h == DATA_START + ValueOffset(k, n) && Describes(v, lo, h + 6)
    ensures NdefOf(WithPayload(layout, k, m0, d)) == Ok(SHOWN)
  {
    CutFront(cc, ts, layout, k, m0, d);
    LongPayload(v, Visible(ts, lo - DATA_START), n);
    LongShows(cc, ts, n, v, DATA_START + k, lo, h, WithPayload(layout, k, m0, d), Payload(d));
  }

  lemma LongShows(cc: CapabilityContainer, ts: seq<Tlv>, n: nat, v: MemoryControlValue, at: nat, lo: nat, h: nat,
                  m: seq<byte>, payload: seq<byte>)
    requires CutHolds(m, cc, ts, at, payload) && cc.IsValid() && cc.IsDynamic() && AllWellFormed(ts)
    requires DATA_START <= lo <= at && at + |payload| <= DATA_START + cc.DataAreaSize()
    requires Clear(LayoutOf(cc, ts), |PrintAll(ts)| + |payload|)
    requires h == at + 1 + LengthFieldSize(n) && Describes(v, lo, h + 6)
    requires ZeroHeader(n) + (Control(v) + ([TLV_TERMINATOR] + Visible(ts, lo - DATA_START))) <= payload
    ensures NdefOf(m) == Ok(SHOWN)
  {
    var visible := Visible(ts, lo - DATA_START);
    var hi, end := h + 6, h + 6 + |visible|;
    LongInMemory(m, at, h, hi, end, v, visible, n, payload);
    LongVisible(cc, m, ts, v, lo, at, hi, end, |PrintAll(ts)| + |payload|);
    HidingPresents(cc, m, ts, n, v, at, h);
  }

  lemma LongVisible(cc: CapabilityContainer, m: seq<byte>, ts: seq<Tlv>, v: MemoryControlValue, lo: nat, at: nat, hi: nat,
                    end: nat, clear: nat)
    requires IsMemory(m) && Leading(ts) && AllWellFormed(ts) && Describes(v, lo, hi)
    requires at == DATA_START + |PrintAll(ts)| && DATA_START <= lo <= at <= hi <= end <= DATA_START + clear <= |m|
    requires Clear(LayoutOf(cc, ts), clear) && m[DATA_START..at] == PrintAll(ts)
    requires m[hi..end] == Visible(ts, lo - DATA_START)
    ensures AllWellFormed(ts + [MemoryControl(v)])
    ensures ShowsBehind(LayoutOf(cc, ts + [MemoryControl(v)]), m, ts)
  {
    HidingSkips(cc, ts, v, lo, hi);
    LongStream(cc, m, ts, v, lo, hi, end);
  }

  /** A message that fits into one area together with its header. */
  lemma ShortCut(cc: CapabilityContainer, ts: seq<Tlv>, n: nat, v: MemoryControlValue, k: nat, lo: nat)
    returns (m0: seq<byte>, d: seq<byte>, m: seq<byte>)
    requires Writable(cc) && cc.IsDynamic() && Leading(ts) && AllWellFormed(ts) && 5 <= n && HasRoom(cc, ts, Zeros(n))
    requires k == |PrintAll(ts)| && DATA_START <= lo <= DATA_START + k
    requires Describes(v, lo, DATA_START + k + |Payload(Zeros(n))|)
    ensures Formatted(m0, cc, ts, []) && |d| == n && ShowsCut(cc, ts, m0, d, m)
  {
    var layout, hi := LayoutOf(cc, ts), DATA_START + k + |Payload(Zeros(n))|;
    d := ShortHiding(v, n);
    HidesAll(cc, ts, v, lo, hi);
    m0 := ShowingTag(cc, ts, v, lo);
    m := WithPayload(layout, k, m0, d);
    ShowingFormatted(cc, ts, v, lo, hi);
    ShowingStream(cc, ts, v, lo, hi);
    ShortWritten(cc, ts, layout, n, v, k, lo, hi, m0);
  }

  lemma ShortWritten(cc: CapabilityContainer, ts: seq<Tlv>, layout: MemoryLayout, n: nat, v: MemoryControlValue, k: nat,
                     lo: nat, hi: nat, m0: seq<byte>)
    requires Formatted(m0, cc, ts, []) && cc.IsDynamic() && 5 <= n && k == |PrintAll(ts)| && layout == LayoutOf(cc, ts)
    requires Clear(layout, k + |Payload(ShortHiding(v, n))|) && k + |Payload(ShortHiding(v, n))| <= cc.DataAreaSize()
    requires lo <= DATA_START + k && hi == DATA_START + k + |Payload(ShortHiding(v, n))| && Describes(v, lo, hi)
    requires AllWellFormed(ts + [MemoryControl(v)])
    requires ShowsBehind(LayoutOf(cc, ts + [MemoryControl(v)]), m0, ts)
    ensures NdefOf(WithPayload(layout, k, m0, ShortHiding(v, n))) == Ok(SHOWN)
  {
    var d := ShortHiding(v, n);
    HidesAll(cc, ts, v, lo, hi);
    CutFront(cc, ts, layout, k, m0, d);
    HiddenShows(ts, layout, LayoutOf(cc, ts + [MemoryControl(v)]), k, m0, d, lo);
    ShortPayload(v, n);
    ShortShows(cc, ts, n, v, DATA_START + k, WithPayload(layout, k, m0, d), Payload(d));
  }

  lemma ShortShows(cc: CapabilityContainer, ts: seq<Tlv>, n: nat, v: MemoryControlValue, at: nat, m: seq<byte>,
                   payload: seq<byte>)
    requires CutHolds(m, cc, ts, at, payload) && cc.IsValid() && cc.IsDynamic() && AllWellFormed(ts)
    requires at + |payload| <= DATA_START + cc.DataAreaSize() && v.WellFormed()
    requires ZeroHeader(n) + (Control(v) + [TLV_TERMINATOR]) <= payload
    requires AllWellFormed(ts + [MemoryControl(v)])
    requires ShowsBehind(LayoutOf(cc, ts + [MemoryControl(v)]), m, ts)
    ensures NdefOf(m) == Ok(SHOWN)
  {
    var h := at + 1 + LengthFieldSize(n);
    ShortInMemory(m, at, h, v, n, payload);
    HidingPresents(cc, m, ts, n, v, at, h);
  }

  /** On every dynamic format a message of five bytes or more can hide its own header while its length is zero. */
  lemma HidingCut(cc: CapabilityContainer, ts: seq<Tlv>, n: nat) returns (m0: seq<byte>, d: seq<byte>, m: seq<byte>)
    requires Writable(cc) && cc.IsDynamic() && Leading(ts) && AllWellFormed(ts) && 5 <= n && HasRoom(cc, ts, Zeros(n))
    ensures Formatted(m0, cc, ts, []) && |d| == n && ShowsCut(cc, ts, m0, d, m)
  {
    var k := |PrintAll(ts)|;
    if n < 122 {
      var v, lo := HideFrom(k, |Payload(Zeros(n))|);
      m0, d, m := ShortCut(cc, ts, n, v, k, lo);
    } else {
      var v, lo := HideFrom(k, 7 + LengthFieldSize(n));
      m0, d, m := LongCut(cc, ts, n, v, k, lo);
    }
  }

  /** No cut of a message of `n` bytes on a tag formatted with `ts` presents another message. */
  ghost predicate AllFormattedWhole(cc: CapabilityContainer, ts: seq<Tlv>, n: nat) {
    forall m0, d0, d: seq<byte> :: Formatted(m0, cc, ts, d0) && |d| == n ==> AlwaysWhole(m0, d)
  }

  lemma ShowsCutNotWhole(cc: CapabilityContainer, ts: seq<Tlv>, m0: seq<byte>, d: seq<byte>, m: seq<byte>)
    requires Formatted(m0, cc, ts, []) && HasRoom(cc, ts, d) && 5 <= |d| && ShowsCut(cc, ts, m0, d, m)
    ensures !AlwaysWhole(m0, d)
  {
    FormattedPresents(m0, cc, ts, []);
    FormattedPlan(m0, cc, ts, [], d);
    assert IsCut(LayoutOf(cc, ts), |PrintAll(ts)|, |Payload(d)|, |Payload(d)|);
    assert !PresentsWhole(m0, d, m);
  }

  /**
   On all tags formatted with `ts`, every cut of every message of `n` bytes, from five on, presents the old message, an
   empty one, the new one or an error if and only if the tags are static.
   */
  lemma CutsExact(cc: CapabilityContainer, ts: seq<Tlv>, n: nat)
    requires Writable(cc) && Leading(ts) && AllWellFormed(ts) && HasRoom(cc, ts, Zeros(n)) && 5 <= n
    ensures AllFormattedWhole(cc, ts, n) <==> !cc.IsDynamic()
  {
    if cc.IsDynamic() {
      var m0, d, m := HidingCut(cc, ts, n);
      ShowsCutNotWhole(cc, ts, m0, d, m);
    } else {
      forall m0, d0, d: seq<byte> | Formatted(m0, cc, ts, d0) && |d| == n
        ensures AlwaysWhole(m0, d)
      {
        FormattedStaticCuts(m0, cc, ts, d0, d);
      }
    }
  }
}
