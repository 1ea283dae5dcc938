/** Exactly when no cut of a write to a static tag presents anything but the old, an empty or the new message. */
module StaticCuts {
  import opened Basics
  import opened TlvLength
  import opened Tlv
  import opened TlvParser
  import opened Memory
  import opened UsableBytes
  import opened NdefProcedures
  import opened PageWrites
  import opened CrashSafety
  import opened RoundTrip
  import opened RoundTripExact
  import opened CutReads
  import opened FormattedTag
  import opened RoundTripTags

  // ---- the conditions ----

  /** No area meets header or value of a message of `n` bytes. */
  predicate ValueIsClear(cc: CapabilityContainer, ts: seq<Tlv>, n: nat)
    requires Leading(ts) && AllWellFormed(ts)
  {
    Clear(LayoutOf(cc, ts), ValueOffset(|PrintAll(ts)|, n) + n)
  }

  /** The areas leave nothing of the data area behind the NDEF TLV's tag, so a write changes nothing a read sees. */
  predicate NothingVisible(layout: MemoryLayout, k: nat) {
    forall a :: DATA_START + k < a < DATA_START + layout.dataAreaSize ==> layout.IsSkip(a)
  }

  // ---- a clear value ----

  /** A complete write with a clear value presents the new message, or cannot be read. */
  lemma ClearValueWritten(cc: CapabilityContainer, layout: MemoryLayout, k: nat, m0: seq<byte>, d: seq<byte>, s: seq<byte>)
    requires IsMemory(m0) && CCOf(m0) == Ok(cc) && cc.IsValid() && !cc.IsDynamic()
    requires Fits(layout, k, d) && layout.dataAreaSize == cc.DataAreaSize() && Clear(layout, ValueOffset(k, |d|) + |d|)
    requires NdefPosition(s) == Some(k) && s[..k] == m0[DATA_START..DATA_START + k]
    ensures IsMemory(Written(layout, k, m0, d))
    ensures NdefOf(Written(layout, k, m0, d)) == Ok(d) || NdefOf(Written(layout, k, m0, d)).Err?
  {
    var m1, at, mid := Written(layout, k, m0, d), DATA_START + k, DATA_START + k + 2 + |d|;
    SameCC(layout, k, m0, d);
    WrittenPart(layout, k, m0, d, 2 + |d|);
    ShortHeader(d, m1, at);
    StaticShows(m1, cc, s, k, mid, d, m1[mid..DATA_START + cc.DataAreaSize()]);
  }

  lemma ShortHeader(d: seq<byte>, m: seq<byte>, at: nat)
    requires |d| < 0xFF && at + 2 + |d| <= |m| && m[at..at + 2 + |d|] == NdefBytes(d)[..2 + |d|]
    ensures m[at] == TLV_NDEF_MESSAGE && m[at + 1] == |d| && m[at + 2..at + 2 + |d|] == d
  {
    var b := m[at..at + 2 + |d|];
    assert b == [TLV_NDEF_MESSAGE, |d|] + d;
    assert m[at] == b[0] && m[at + 1] == b[1];
    SliceOfSlice(m, at, at + 2 + |d|, 2, 2 + |d|);
    assert b[2..2 + |d|] == d;
  }

  lemma ClearValueCut(cc: CapabilityContainer, layout: MemoryLayout, k: nat, m0: seq<byte>, d: seq<byte>, s: seq<byte>,
                      m: seq<byte>)
    requires IsMemory(m0) && IsMemory(m) && CCOf(m0) == Ok(cc) && cc.IsValid() && !cc.IsDynamic()
    requires Fits(layout, k, d) && layout.dataAreaSize == cc.DataAreaSize() && Clear(layout, ValueOffset(k, |d|) + |d|)
    requires NdefPosition(s) == Some(k) && s[..k] == m0[DATA_START..DATA_START + k]
    requires m0[DATA_START + k] == TLV_NDEF_MESSAGE && IsWriteState(layout, k, m0, d, m)
    ensures PresentsWhole(m0, d, m)
  {
    assert Clear(layout, ValueOffset(k, |d|)) && Clear(layout, k + 1) && Clear(layout, k);
    ClearRank(layout, DATA_START + k);
    GatherAt(layout, m0, ADDRESS_SPACE_END, DATA_START + k);
    CutStates(layout, k, m0, d, m);
    if m == Written(layout, k, m0, d) {
      ClearValueWritten(cc, layout, k, m0, d, s);
    } else if m != m0 {
      StaticHeaderStands(cc, m, ValueOffset(k, |d|));
      ZeroLengthPresents(cc, m0, k, |d|, m, s);
    }
  }

  // ---- nothing visible ----

  /** The tag keeps its place in every state of a write. */
  lemma TagKept(layout: MemoryLayout, k: nat, m0: seq<byte>, d: seq<byte>, m: seq<byte>)
    requires IsMemory(m0) && |d| <= MAX_TLV_LENGTH && IsWriteState(layout, k, m0, d, m)
    requires DATA_START + k < ADDRESS_SPACE_END && Clear(layout, k + 1) && m0[DATA_START + k] == TLV_NDEF_MESSAGE
    ensures |m| == |m0| && m[DATA_START + k] == TLV_NDEF_MESSAGE
  {
    var a, f := DATA_START + k, LengthField(|d|);
    assert Clear(layout, k);
    ClearRank(layout, a);
    if IsPrefixState(layout, m0, k, Payload(d), m) {
      var p: nat :| IsCut(layout, k, |Payload(d)|, p) && m == Scatter(layout, m0, k, Payload(d), p);
      ScatterAt(layout, m0, k, Payload(d), p, a);
    } else {
      var m1 := WithPayload(layout, k, m0, d);
      var q: nat :| IsCut(layout, k + 1, |f|, q) && m == Scatter(layout, m1, k + 1, f, q);
      ScatterAt(layout, m0, k, Payload(d), |Payload(d)|, a);
      ScatterAt(layout, m1, k + 1, f, q, a);
    }
  }

  /** No byte that a read of a static tag sees differs. */
  lemma SameVisible(cc: CapabilityContainer, layout: MemoryLayout, k: nat, m0: seq<byte>, d: seq<byte>, m: seq<byte>)
    requires IsMemory(m0) && |d| <= MAX_TLV_LENGTH && IsWriteState(layout, k, m0, d, m)
    requires layout.dataAreaSize == cc.DataAreaSize() && k < cc.DataAreaSize()
    requires Clear(layout, k + 1) && NothingVisible(layout, k) && m0[DATA_START + k] == TLV_NDEF_MESSAGE
    ensures |m| == |m0|
    ensures m[..DATA_START + cc.DataAreaSize()] == m0[..DATA_START + cc.DataAreaSize()]
  {
    TagKept(layout, k, m0, d, m);
    WriteFrame(layout, k, m0, d, m);
    forall a | 0 <= a < DATA_START + cc.DataAreaSize()
      ensures m[a] == m0[a]
    {
      if DATA_START <= a < DATA_START + k {
        ClearRank(layout, a);
      }
      assert a != DATA_START + k ==> !InPayload(layout, k, d, a);
    }
  }

  lemma SameStaticRead(cc: CapabilityContainer, m0: seq<byte>, m: seq<byte>)
    requires IsMemory(m0) && IsMemory(m) && CCOf(m0) == Ok(cc) && cc.IsValid() && !cc.IsDynamic()
    requires m[..DATA_START + cc.DataAreaSize()] == m0[..DATA_START + cc.DataAreaSize()]
    ensures NdefOf(m) == NdefOf(m0)
  {
    var hi := DATA_START + cc.DataAreaSize();
    assert m[12..16] == m[..hi][12..16] == m0[..hi][12..16] == m0[12..16];
    assert m[DATA_START..hi] == m[..hi][DATA_START..] == m0[..hi][DATA_START..] == m0[DATA_START..hi];
    StaticParse(m, cc, m[DATA_START..hi]);
    StaticParse(m0, cc, m0[DATA_START..hi]);
  }

  // ---- an area over the length byte ----

  /** The first usable address behind `lo`, if one comes before `hi`: everything up to it is skipped. */
  lemma FirstUsable(layout: MemoryLayout, lo: nat, hi: nat) returns (u: nat)
    requires DATA_START <= lo < hi && exists a :: lo <= a < hi && !layout.IsSkip(a)
    ensures lo <= u < hi && !layout.IsSkip(u) && forall a :: lo <= a < u ==> layout.IsSkip(a)
  {
    u := lo;
    while layout.IsSkip(u)
      invariant lo <= u < hi && forall a :: lo <= a < u ==> layout.IsSkip(a)
      decreases hi - u
    {
      u := u + 1;
    }
  }

  lemma {:induction false} RankSkipped(layout: MemoryLayout, lo: nat, hi: nat)
    requires DATA_START <= lo <= hi && forall a :: lo <= a < hi ==> layout.IsSkip(a)
    ensures Rank(layout, hi) == Rank(layout, lo)
    decreases hi
  {
    if lo < hi {
      RankSkipped(layout, lo, hi - 1);
    }
  }

  /** Zeros and a last byte. */
  function Ending(c: nat, b: byte): (v: seq<byte>)
    requires c > 0
    ensures |v| == c
  {
    Zeros(c - 1) + [b]
  }

  /** A static tag whose length byte lies in an area and shows a value that ends on the first usable byte. */
  function CoveredTag(cc: CapabilityContainer, ts: seq<Tlv>, c: byte, b: byte): (m: seq<byte>)
    requires Writable(cc) && Leading(ts) && 0 < c < 0xFF && |PrintAll(ts)| + 2 + c <= cc.DataAreaSize()
    ensures IsMemory(m)
  {
    TagWith(cc, PrintAll(ts) + ([TLV_NDEF_MESSAGE, c] + Ending(c, b)))
  }

  /** What the memory of such a tag holds, and what it presents. */
  predicate Shows(m: seq<byte>, cc: CapabilityContainer, ts: seq<Tlv>, k: nat, v: seq<byte>) {
    && IsMemory(m) && CCOf(m) == Ok(cc) && k + 2 + |v| <= cc.DataAreaSize() && |v| < 0xFF
    && Leading(ts) && k == |PrintAll(ts)| && m[DATA_START..DATA_START + k] == PrintAll(ts)
    && m[DATA_START + k] == TLV_NDEF_MESSAGE && m[DATA_START + k + 1] == |v|
    && m[DATA_START + k + 2..DATA_START + k + 2 + |v|] == v
    && Quiet(m[DATA_START + k + 2 + |v|..DATA_START + cc.DataAreaSize()])
  }

  /** The same with the places named. */
  lemma MakeShows(m: seq<byte>, cc: CapabilityContainer, ts: seq<Tlv>, at: nat, mid: nat, v: seq<byte>)
    requires IsMemory(m) && CCOf(m) == Ok(cc) && Leading(ts) && |v| < 0xFF
    requires at == DATA_START + |PrintAll(ts)| && mid == at + 2 + |v| <= DATA_START + cc.DataAreaSize()
    requires m[DATA_START..at] == PrintAll(ts) && m[at] == TLV_NDEF_MESSAGE && m[at + 1] == |v| && m[at + 2..mid] == v
    requires forall a :: mid <= a < ADDRESS_SPACE_END ==> m[a] == TLV_NULL || m[a] == TLV_TERMINATOR
    ensures Shows(m, cc, ts, |PrintAll(ts)|, v)
  {
    QuietBehind(m, mid, DATA_START + cc.DataAreaSize());
  }

  lemma ShowsPresents(m: seq<byte>, cc: CapabilityContainer, ts: seq<Tlv>, k: nat, v: seq<byte>)
    requires Shows(m, cc, ts, k, v) && cc.IsValid() && !cc.IsDynamic()
    ensures NdefOf(m) == Ok(v)
  {
    var mid := DATA_START + k + 2 + |v|;
    var s := LeadingFound(ts, k);
    QuietParses(m[mid..DATA_START + cc.DataAreaSize()]);
    StaticShows(m, cc, s, k, mid, v, m[mid..DATA_START + cc.DataAreaSize()]);
  }

  lemma ShowsHolds(m: seq<byte>, cc: CapabilityContainer, ts: seq<Tlv>, k: nat, v: seq<byte>)
    requires Shows(m, cc, ts, k, v) && !cc.IsDynamic() && AllWellFormed(ts)
    ensures Holds(m, cc, ts)
  {
    StaticHolds(cc, m, ts, k, v);
  }

  lemma CoveredShows(cc: CapabilityContainer, ts: seq<Tlv>, c: byte, b: byte, k: nat)
    requires Writable(cc) && Leading(ts) && k == |PrintAll(ts)| && 0 < c < 0xFF && k + 2 + c <= cc.DataAreaSize()
    ensures Shows(CoveredTag(cc, ts, c, b), cc, ts, k, Ending(c, b))
    ensures forall a :: DATA_START + k + 2 <= a < ADDRESS_SPACE_END && a != DATA_START + k + 1 + c ==>
      CoveredTag(cc, ts, c, b)[a] == 0
    ensures CoveredTag(cc, ts, c, b)[DATA_START + k + 1 + c] == b
  {
    var v, at := Ending(c, b), DATA_START + k;
    var area := PrintAll(ts) + ([TLV_NDEF_MESSAGE, c] + v);
    var m := CoveredTag(cc, ts, c, b);
    TagWithHolds(cc, area);
    SliceOfSlice(m, DATA_START, DATA_START + |area|, 0, k);
    SliceOfSlice(m, DATA_START, DATA_START + |area|, k, k + 2 + c);
    PrefixKept(PrintAll(ts), [TLV_NDEF_MESSAGE, c] + v);
    assert area[k..k + 2 + c] == area[k..];
    ThreeBytes(m, at, c, v);
    CoveredRest(m, at + 2, v, b, c);
    MakeShows(m, cc, ts, at, at + 2 + c, v);
  }

  lemma ThreeBytes(m: seq<byte>, at: nat, c: byte, v: seq<byte>)
    requires |v| == c && at + 2 + c <= |m| && m[at..at + 2 + c] == [TLV_NDEF_MESSAGE, c] + v
    ensures m[at] == TLV_NDEF_MESSAGE && m[at + 1] == c && m[at + 2..at + 2 + c] == v
  {
    var b := m[at..at + 2 + c];
    assert m[at] == b[0] && m[at + 1] == b[1];
    SliceOfSlice(m, at, at + 2 + c, 2, 2 + c);
    assert b[2..2 + c] == v;
  }

  lemma CoveredRest(m: seq<byte>, lo: nat, v: seq<byte>, b: byte, c: nat)
    requires 0 < c && v == Ending(c, b) && lo + c <= |m| && m[lo..lo + c] == v
    ensures m[lo + c - 1] == b && forall a :: lo <= a < lo + c - 1 ==> m[a] == 0
  {
    assert m[lo + c - 1] == v[c - 1];
    forall a | lo <= a < lo + c - 1
      ensures m[a] == 0
    {
      assert m[a] == v[a - lo];
    }
  }

  /** The length of the written message shows up as the last byte of the covered value. */
  lemma CoveredWrite(cc: CapabilityContainer, ts: seq<Tlv>, layout: MemoryLayout, k: nat, m: seq<byte>, n: nat, u: nat)
    requires IsMemory(m) && CCOf(m) == Ok(cc) && Leading(ts) && k == |PrintAll(ts)| && n < 0xFF
    requires DATA_START + k + 1 < u < DATA_START + cc.DataAreaSize() && u < DATA_START + k + 0x100
    requires Clear(layout, k + 1) && (forall a :: DATA_START + k < a < u ==> layout.IsSkip(a)) && !layout.IsSkip(u)
    requires Shows(m, cc, ts, k, Ending(u - DATA_START - k - 1, m[u]))
    requires forall a :: DATA_START + k + 2 <= a < ADDRESS_SPACE_END && a != u ==> m[a] == 0
    ensures Shows(Written(layout, k, m, Zeros(n)), cc, ts, k, Ending(u - DATA_START - k - 1, n))
  {
    var m1, at, c := Written(layout, k, m, Zeros(n)), DATA_START + k, u - DATA_START - k - 1;
    SameCC(layout, k, m, Zeros(n));
    CoveredMemory(layout, k, m, n, u, at, c);
    MakeShows(m1, cc, ts, at, at + 2 + c, Ending(c, n));
  }

  lemma CoveredMemory(layout: MemoryLayout, k: nat, m: seq<byte>, n: nat, u: nat, at: nat, c: nat)
    requires IsMemory(m) && n < 0xFF && at == DATA_START + k && 0 < c && u == at + 1 + c < ADDRESS_SPACE_END
    requires Clear(layout, k + 1) && (forall a :: at < a < u ==> layout.IsSkip(a)) && !layout.IsSkip(u)
    requires m[at] == TLV_NDEF_MESSAGE && forall a :: at + 2 <= a < ADDRESS_SPACE_END && a != u ==> m[a] == 0
    ensures var m1 := Written(layout, k, m, Zeros(n));
      && |m1| == |m| && m1[DATA_START..at] == m[DATA_START..at] && m1[at] == m[at] && m1[at + 1] == m[at + 1]
      && m1[at + 2..at + 2 + c] == Ending(c, n)
      && forall a :: at + 2 + c <= a < ADDRESS_SPACE_END ==> m1[a] == TLV_NULL || m1[a] == TLV_TERMINATOR
  {
    CoveredRank(layout, k, u);
    CoveredBytes(layout, k, m, n, u);
    CoveredSlices(m, Written(layout, k, m, Zeros(n)), at, c, n);
  }

  lemma CoveredSlices(m: seq<byte>, m1: seq<byte>, at: nat, c: nat, n: byte)
    requires 0 < c && DATA_START <= at && at + 2 + c <= |m| == |m1|
    requires forall a :: DATA_START <= a < at + 1 + c ==> m1[a] == m[a]
    requires (forall a :: at + 2 <= a < at + 1 + c ==> m[a] == 0) && m1[at + 1 + c] == n
    ensures m1[DATA_START..at] == m[DATA_START..at] && m1[at + 2..at + 2 + c] == Ending(c, n)
  {
    var v := m1[at + 2..at + 2 + c];
    forall i | 0 <= i < c
      ensures v[i] == Ending(c, n)[i]
    {
      assert v[i] == m1[at + 2 + i];
    }
  }

  lemma CoveredRank(layout: MemoryLayout, k: nat, u: nat)
    requires DATA_START + k + 1 < u < ADDRESS_SPACE_END && Clear(layout, k + 1)
    requires (forall a :: DATA_START + k < a < u ==> layout.IsSkip(a)) && !layout.IsSkip(u)
    ensures Rank(layout, DATA_START + k) == k && Rank(layout, u) == k + 1
  {
    assert Clear(layout, k);
    ClearRank(layout, DATA_START + k);
    ClearRank(layout, DATA_START + k + 1);
    RankSkipped(layout, DATA_START + k + 1, u);
  }

  /** The memory after the write, byte by byte. */
  lemma CoveredBytes(layout: MemoryLayout, k: nat, m: seq<byte>, n: nat, u: nat)
    requires IsMemory(m) && n < 0xFF && DATA_START + k + 1 < u < ADDRESS_SPACE_END && Clear(layout, k + 1)
    requires (forall a :: DATA_START + k < a < u ==> layout.IsSkip(a)) && !layout.IsSkip(u)
    requires Rank(layout, DATA_START + k) == k && Rank(layout, u) == k + 1 && m[DATA_START + k] == TLV_NDEF_MESSAGE
    requires forall a :: DATA_START + k + 2 <= a < ADDRESS_SPACE_END && a != u ==> m[a] == 0
    ensures var m1 := Written(layout, k, m, Zeros(n));
      && |m1| == |m| && (forall a :: DATA_START <= a < u ==> m1[a] == m[a]) && m1[u] == n
      && (forall a :: u < a < ADDRESS_SPACE_END ==> m1[a] == TLV_NULL || m1[a] == TLV_TERMINATOR)
  {
    var m1 := Written(layout, k, m, Zeros(n));
    forall a | DATA_START <= a < u
      ensures m1[a] == m[a]
    {
      if a < DATA_START + k {
        ClearRank(layout, a);
      }
      WrittenByte(layout, k, m, Zeros(n), a);
    }
    WrittenByte(layout, k, m, Zeros(n), u);
    forall a | u < a < ADDRESS_SPACE_END
      ensures m1[a] == TLV_NULL || m1[a] == TLV_TERMINATOR
    {
      RankStrict(layout, u, a);
      WrittenByte(layout, k, m, Zeros(n), a);
    }
  }

  /** With the length byte in an area, a completed write presents neither the old, an empty nor the new message. */
  lemma CoveredCut(cc: CapabilityContainer, ts: seq<Tlv>, n: nat, k: nat) returns (m: seq<byte>)
    requires Writable(cc) && !cc.IsDynamic() && Leading(ts) && AllWellFormed(ts) && k == |PrintAll(ts)| && n < 0xF0
    requires Clear(LayoutOf(cc, ts), k + 1) && LayoutOf(cc, ts).IsSkip(DATA_START + k + 1)
    requires !NothingVisible(LayoutOf(cc, ts), k)
    ensures Holds(m, cc, ts) && NotWhole(m, Zeros(n), Written(LayoutOf(cc, ts), k, m, Zeros(n)))
  {
    var layout := LayoutOf(cc, ts);
    var u := FirstUsable(layout, DATA_START + k + 1, DATA_START + cc.DataAreaSize());
    var c := u - DATA_START - k - 1;
    m := CoveredTag(cc, ts, c, n + 1);
    CoveredShows(cc, ts, c, n + 1, k);
    ShowsHolds(m, cc, ts, k, Ending(c, n + 1));
    CoveredWrite(cc, ts, layout, k, m, n, u);
    CoveredPresents(cc, ts, k, m, Written(layout, k, m, Zeros(n)), n, c);
  }

  /** The state presents a message that is neither the old nor the new one nor empty. */
  predicate NotWhole(m0: seq<byte>, d: seq<byte>, m: seq<byte>) {
    IsMemory(m0) && IsMemory(m) && !PresentsWhole(m0, d, m)
  }

  lemma CoveredPresents(cc: CapabilityContainer, ts: seq<Tlv>, k: nat, m: seq<byte>, m1: seq<byte>, n: nat, c: nat)
    requires cc.IsValid() && !cc.IsDynamic() && 0 < c && n + 1 < 0x100
    requires Shows(m, cc, ts, k, Ending(c, n + 1)) && Shows(m1, cc, ts, k, Ending(c, n))
    ensures NotWhole(m, Zeros(n), m1)
  {
    ShowsPresents(m, cc, ts, k, Ending(c, n + 1));
    ShowsPresents(m1, cc, ts, k, Ending(c, n));
    assert Ending(c, n)[c - 1] == n && Ending(c, n + 1)[c - 1] == n + 1;
  }

  // ---- an area inside the value ----

  /** A static tag with an empty message and a byte that shows at `x`. */
  function MarkedTag(cc: CapabilityContainer, ts: seq<Tlv>, x: nat): (m: seq<byte>)
    requires Writable(cc) && Leading(ts) && |Format(ts, [])| <= cc.DataAreaSize()
    requires DATA_START + |PrintAll(ts)| + 2 <= x < ADDRESS_SPACE_END
    ensures IsMemory(m)
  {
    var m0 := TagWith(cc, Format(ts, []));
    if x == DATA_START + |PrintAll(ts)| + 2 then m0 else m0[x := 0xAA]
  }

  lemma MarkedBytes(cc: CapabilityContainer, ts: seq<Tlv>, x: nat, k: nat)
    requires Writable(cc) && Leading(ts) && k == |PrintAll(ts)| && k + 3 <= cc.DataAreaSize()
    requires DATA_START + k + 2 <= x < ADDRESS_SPACE_END
    ensures var m := MarkedTag(cc, ts, x);
      && CCOf(m) == Ok(cc) && m[DATA_START..DATA_START + k + 3] == Format(ts, [])
      && m[x] != 0 && forall a :: DATA_START + k + 3 <= a < ADDRESS_SPACE_END && a != x ==> m[a] == 0
  {
    var m0, m := TagWith(cc, Format(ts, [])), MarkedTag(cc, ts, x);
    TagWithHolds(cc, Format(ts, []));
    FormatBytes(m0, ts, k);
    assert m[12..16] == m0[12..16];
    assert m[DATA_START..DATA_START + k + 3] == m0[DATA_START..DATA_START + k + 3];
  }

  lemma MarkedHolds(cc: CapabilityContainer, m: seq<byte>, ts: seq<Tlv>, k: nat)
    requires IsMemory(m) && CCOf(m) == Ok(cc) && cc.IsValid() && !cc.IsDynamic() && Leading(ts) && AllWellFormed(ts)
    requires k == |PrintAll(ts)| && k + 3 <= cc.DataAreaSize() && m[DATA_START..DATA_START + k + 3] == Format(ts, [])
    ensures Holds(m, cc, ts) && NdefOf(m) == Ok([])
  {
    BasicIsClear(cc);
    ReadsFormat(LayoutOf(cc, []), m, ts, []);
    FormatStarts(ts, Format(ts, []));
    StartsFinds(cc, Format(ts, []), ts, [], [TLV_TERMINATOR], LayoutOf(cc, []));
    BothPassesHold(cc, m, ts);
    FormatParses(ts, [], Format(ts, []));
    FirstNdefAfter(ts, [NdefMessage([]), Terminator]);
  }

  /** The memory after a write of zeros, from the value on. */
  lemma MarkedWrite(layout: MemoryLayout, k: nat, m: seq<byte>, n: nat, x: nat)
    requires IsMemory(m) && n < 0xFF && Clear(layout, k + 2) && DATA_START + k + 2 <= x < DATA_START + k + 2 + n
    requires DATA_START + k + 3 + n <= ADDRESS_SPACE_END && layout.IsSkip(x)
    requires m[x] != 0 && forall a :: DATA_START + k + 3 <= a < ADDRESS_SPACE_END && a != x ==> m[a] == 0
    ensures var m1 := Written(layout, k, m, Zeros(n));
      && |m1| == |m| && m1[x] != 0
      && forall a :: DATA_START + k + 2 + n <= a < ADDRESS_SPACE_END ==> m1[a] == TLV_NULL || m1[a] == TLV_TERMINATOR
  {
    UntouchedByte(layout, k, m, Zeros(n), x);
    ClearRank(layout, DATA_START + k + 2);
    forall a | DATA_START + k + 2 + n <= a < ADDRESS_SPACE_END
      ensures var m1 := Written(layout, k, m, Zeros(n)); m1[a] == TLV_NULL || m1[a] == TLV_TERMINATOR
    {
      RankMonotone(layout, DATA_START + k + 2, a);
      WrittenByte(layout, k, m, Zeros(n), a);
    }
  }

  /** With an area inside the value, a completed write presents neither the old, an empty nor the new message. */
  lemma MarkedCut(cc: CapabilityContainer, ts: seq<Tlv>, n: nat, k: nat, x: nat) returns (m: seq<byte>)
    requires Writable(cc) && !cc.IsDynamic() && Leading(ts) && AllWellFormed(ts) && k == |PrintAll(ts)| && n < 0xF0
    requires k + 3 + n <= cc.DataAreaSize() && Clear(LayoutOf(cc, ts), k + 2)
    requires DATA_START + k + 2 <= x < DATA_START + k + 2 + n && LayoutOf(cc, ts).IsSkip(x)
    ensures Holds(m, cc, ts) && NotWhole(m, Zeros(n), Written(LayoutOf(cc, ts), k, m, Zeros(n)))
  {
    var layout := LayoutOf(cc, ts);
    m := MarkedTag(cc, ts, x);
    MarkedBytes(cc, ts, x, k);
    MarkedHolds(cc, m, ts, k);
    MarkedWrite(layout, k, m, n, x);
    FormatBytes(m, ts, k);
    MarkedPresents(cc, ts, layout, k, m, n, x);
  }

  lemma MarkedPresents(cc: CapabilityContainer, ts: seq<Tlv>, layout: MemoryLayout, k: nat, m: seq<byte>, n: nat, x: nat)
    requires IsMemory(m) && CCOf(m) == Ok(cc) && cc.IsValid() && !cc.IsDynamic() && Leading(ts) && k == |PrintAll(ts)|
    requires k + 3 + n <= cc.DataAreaSize() && n < 0xFF && Clear(layout, k + 2)
    requires DATA_START + k + 2 <= x < DATA_START + k + 2 + n && NdefOf(m) == Ok([])
    requires m[DATA_START..DATA_START + k] == PrintAll(ts)
    requires var m1 := Written(layout, k, m, Zeros(n));
      && |m1| == |m| && m1[x] != 0
      && forall a :: DATA_START + k + 2 + n <= a < ADDRESS_SPACE_END ==> m1[a] == TLV_NULL || m1[a] == TLV_TERMINATOR
    ensures NotWhole(m, Zeros(n), Written(layout, k, m, Zeros(n)))
  {
    var m1, at := Written(layout, k, m, Zeros(n)), DATA_START + k;
    SameCC(layout, k, m, Zeros(n));
    WrittenPart(layout, k, m, Zeros(n), 2);
    TwoBytes(m1, at, n);
    var v := MarkedValue(m1, at + 2, n, x);
    MakeShows(m1, cc, ts, at, at + 2 + n, v);
    ShowsPresents(m1, cc, ts, k, v);
  }

  lemma MarkedValue(m: seq<byte>, lo: nat, n: nat, x: nat) returns (v: seq<byte>)
    requires lo <= x < lo + n <= |m| && m[x] != 0
    ensures v == m[lo..lo + n] && v != Zeros(n) && v != [] && |v| == n
  {
    v := m[lo..lo + n];
    assert v[x - lo] == m[x];
  }

  lemma TwoBytes(m: seq<byte>, at: nat, n: nat)
    requires n < 0xFF && at + 2 <= |m| && m[at..at + 2] == NdefBytes(Zeros(n))[..2]
    ensures m[at] == TLV_NDEF_MESSAGE && m[at + 1] == n
  {
    var b := m[at..at + 2];
    assert m[at] == b[0] && m[at + 1] == b[1];
  }

  // ---- the condition is exact ----

  /** No cut of a message of `n` bytes on a tag that holds `ts` presents another message. */
  ghost predicate AllCutsWhole(cc: CapabilityContainer, ts: seq<Tlv>, n: nat) {
    forall m, d: seq<byte> :: Holds(m, cc, ts) && |d| == n ==> AlwaysWhole(m, d)
  }

  /** The plan-free form of a write to a tag that holds `ts`. */
  lemma WholeOnTag(cc: CapabilityContainer, ts: seq<Tlv>, m: seq<byte>, d: seq<byte>)
    requires Holds(m, cc, ts) && Writable(cc) && Fitting(cc, ts, |d|)
    ensures AlwaysWhole(m, d) <==> CutsPresentWhole(LayoutOf(cc, ts), |PrintAll(ts)|, m, d)
  {
    HoldsPlan(m, cc, ts, d);
  }

  lemma NotAlwaysWhole(layout: MemoryLayout, k: nat, m: seq<byte>, d: seq<byte>)
    requires |d| <= MAX_TLV_LENGTH && NotWhole(m, d, Written(layout, k, m, d))
    ensures !CutsPresentWhole(layout, k, m, d)
  {
    var f := LengthField(|d|);
    assert IsCut(layout, k + 1, |f|, |f|);
    assert IsWriteState(layout, k, m, d, Written(layout, k, m, d));
  }

  /** A tag and a message of zeros with a cut that presents another message. */
  lemma NotWholeTag(cc: CapabilityContainer, ts: seq<Tlv>, n: nat, k: nat) returns (m: seq<byte>)
    requires Writable(cc) && !cc.IsDynamic() && Leading(ts) && AllWellFormed(ts) && Fitting(cc, ts, n)
    requires k == |PrintAll(ts)| && Clear(LayoutOf(cc, ts), k + 1)
    requires !ValueIsClear(cc, ts, n) && !NothingVisible(LayoutOf(cc, ts), k)
    ensures Holds(m, cc, ts) && NotWhole(m, Zeros(n), Written(LayoutOf(cc, ts), k, m, Zeros(n)))
  {
    if LayoutOf(cc, ts).IsSkip(DATA_START + k + 1) {
      m := CoveredCut(cc, ts, n, k);
    } else {
      var x :| DATA_START <= x < DATA_START + k + 2 + n && LayoutOf(cc, ts).IsSkip(x);
      m := MarkedCut(cc, ts, n, k, x);
    }
  }

  lemma SomeCutNotWhole(cc: CapabilityContainer, ts: seq<Tlv>, n: nat)
    requires Writable(cc) && !cc.IsDynamic() && Leading(ts) && AllWellFormed(ts) && Fitting(cc, ts, n)
    requires Clear(LayoutOf(cc, ts), |PrintAll(ts)| + 1)
    requires !ValueIsClear(cc, ts, n) && !NothingVisible(LayoutOf(cc, ts), |PrintAll(ts)|)
    ensures !AllCutsWhole(cc, ts, n)
  {
    var m := NotWholeTag(cc, ts, n, |PrintAll(ts)|);
    NotAlwaysWhole(LayoutOf(cc, ts), |PrintAll(ts)|, m, Zeros(n));
    WholeOnTag(cc, ts, m, Zeros(n));
  }

  lemma WholeIfClear(cc: CapabilityContainer, ts: seq<Tlv>, m: seq<byte>, d: seq<byte>)
    requires Holds(m, cc, ts) && Writable(cc) && !cc.IsDynamic() && Fitting(cc, ts, |d|) && ValueIsClear(cc, ts, |d|)
    ensures CutsPresentWhole(LayoutOf(cc, ts), |PrintAll(ts)|, m, d)
  {
    var layout, k, s := LayoutOf(cc, ts), |PrintAll(ts)|, ReadView(cc, m).value.bytes;
    HoldsFront(m, cc, ts, s, k);
    HoldsTag(m, cc, ts, k);
    TlvsFit(cc, ts, m, d);
    forall m1 | IsMemory(m1) && IsWriteState(layout, k, m, d, m1)
      ensures PresentsWhole(m, d, m1)
    {
      ClearValueCut(cc, layout, k, m, d, s, m1);
    }
  }

  lemma WholeIfInvisible(cc: CapabilityContainer, ts: seq<Tlv>, m: seq<byte>, d: seq<byte>)
    requires Holds(m, cc, ts) && Writable(cc) && !cc.IsDynamic() && Fitting(cc, ts, |d|)
    requires Clear(LayoutOf(cc, ts), |PrintAll(ts)| + 1) && NothingVisible(LayoutOf(cc, ts), |PrintAll(ts)|)
    ensures CutsPresentWhole(LayoutOf(cc, ts), |PrintAll(ts)|, m, d)
  {
    var layout, k := LayoutOf(cc, ts), |PrintAll(ts)|;
    HoldsTag(m, cc, ts, k);
    forall m1 | IsMemory(m1) && IsWriteState(layout, k, m, d, m1)
      ensures PresentsWhole(m, d, m1)
    {
      SameVisible(cc, layout, k, m, d, m1);
      SameStaticRead(cc, m, m1);
    }
  }

  lemma AllWhole(cc: CapabilityContainer, ts: seq<Tlv>, n: nat)
    requires Writable(cc) && !cc.IsDynamic() && Leading(ts) && AllWellFormed(ts) && Fitting(cc, ts, n)
    requires Clear(LayoutOf(cc, ts), |PrintAll(ts)| + 1)
    requires ValueIsClear(cc, ts, n) || NothingVisible(LayoutOf(cc, ts), |PrintAll(ts)|)
    ensures AllCutsWhole(cc, ts, n)
  {
    forall m, d: seq<byte> | Holds(m, cc, ts) && |d| == n
      ensures AlwaysWhole(m, d)
    {
      if ValueIsClear(cc, ts, n) {
        WholeIfClear(cc, ts, m, d);
      } else {
        WholeIfInvisible(cc, ts, m, d);
      }
      WholeOnTag(cc, ts, m, d);
    }
  }

  /**
   On static tags that hold `ts`, with no area up to the NDEF TLV's tag, every cut of every message of `n` bytes presents
   the old message, an empty one, the new one or an error if and only if no area meets header or value, or the areas
   leave nothing of the data area behind the tag.
   */
  lemma StaticCutsExact(cc: CapabilityContainer, ts: seq<Tlv>, n: nat)
    requires Writable(cc) && !cc.IsDynamic() && Leading(ts) && AllWellFormed(ts) && Fitting(cc, ts, n)
    requires Clear(LayoutOf(cc, ts), |PrintAll(ts)| + 1)
    ensures AllCutsWhole(cc, ts, n) <==>
            ValueIsClear(cc, ts, n) || NothingVisible(LayoutOf(cc, ts), |PrintAll(ts)|)
  {
    if ValueIsClear(cc, ts, n) || NothingVisible(LayoutOf(cc, ts), |PrintAll(ts)|) {
      AllWhole(cc, ts, n);
    } else {
      SomeCutNotWhole(cc, ts, n);
    }
  }
}
