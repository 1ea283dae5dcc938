/** When the two-pass read gives back every message of a given length: exactly when no area lies in its way. */
module RoundTripExact {
  import opened Basics
  import opened TlvLength
  import opened Tlv
  import opened TlvParser
  import opened TlvScanner
  import opened Memory
  import opened UsableBytes
  import opened NdefProcedures
  import opened PageWrites
  import opened CrashSafety
  import opened RoundTrip

  /** A message of Lock Control tags: none of its bytes starts a TLV that parses. */
  function Tags(n: nat): (d: seq<byte>)
    ensures |d| == n && forall i :: 0 <= i < n ==> d[i] == TLV_LOCK_CONTROL
  {
    seq(n, i => TLV_LOCK_CONTROL)
  }

  /** Logical offset of the first message byte. */
  function ValueOffset(k: nat, n: nat): nat {
    k + 1 + LengthFieldSize(n)
  }

  /** Cutting a data area off where the scanner fires does not change its parse. */
  lemma AreaParse(layout: MemoryLayout, m: seq<byte>, raw: seq<byte>)
    requires IsMemory(m) && raw <= Stream(layout, m) && |raw| == layout.dataAreaSize
    ensures DataArea(layout, m).Ok? && Parse(DataArea(layout, m).value) == Parse(raw)
  {
    var s := Stream(layout, m);
    assert s[..Min(|s|, layout.dataAreaSize)] == raw;
    if FirstFire(AtTag, raw).Some? {
      ScannerAgrees(raw);
      assert DataArea(layout, m) == Ok(raw[..FirstFire(AtTag, raw).value + 1]);
    } else {
      assert DataArea(layout, m) == Ok(raw);
    }
  }

  /** The first pass reads the raw data area; if that does not parse, detection fails. */
  lemma FirstPassFails(cc: CapabilityContainer, m: seq<byte>, raw: seq<byte>)
    requires IsMemory(m) && raw == m[DATA_START..DATA_START + cc.DataAreaSize()]
    requires Parse(raw).Err?
    ensures ReadView(cc, m) == Err(InvalidTlv)
  {
    BasicIsClear(cc);
    ClearStart(LayoutOf(cc, []), m, cc.DataAreaSize());
    AreaParse(LayoutOf(cc, []), m, raw);
  }

  /** Two bytes that start no TLV: a control tag, and a length other than three if there is one. */
  predicate IsStray(rest: seq<byte>) {
    && rest != [] && rest[0] == TLV_LOCK_CONTROL
    && (|rest| > 1 ==> rest[1] == TLV_LOCK_CONTROL || rest[1] == TLV_TERMINATOR)
  }

  /** An NDEF TLV followed by a stray control tag does not parse. */
  lemma StrayTag(value: seq<byte>, rest: seq<byte>)
    requires |value| <= MAX_TLV_LENGTH && IsStray(rest)
    ensures Parse([TLV_NDEF_MESSAGE] + LengthField(|value|) + value + rest).Err?
  {
    var t := NdefMessage(value);
    var b := t.ToBytes().value;
    BlockRoundTrip(t, rest);
    assert (b + rest)[|b|..] == rest;
    assert ParseBlock(rest) == Err(InvalidTlv);
  }

  lemma StrayTagBehind(s: seq<byte>, k: nat, value: seq<byte>, rest: seq<byte>, raw: seq<byte>)
    requires NdefPosition(s) == Some(k) && |value| <= MAX_TLV_LENGTH && IsStray(rest)
    requires raw == s[..k] + ([TLV_NDEF_MESSAGE] + LengthField(|value|) + value + rest)
    ensures Parse(raw).Err?
  {
    StrayTag(value, rest);
    PrefixKept(s[..k], [TLV_NDEF_MESSAGE] + LengthField(|value|) + value + rest);
    PrefixParses(s, raw);
  }

  lemma FourParts(s: seq<byte>, a: nat, b: nat, c: nat, d: nat, e: nat)
    requires a <= b <= c <= d <= e <= |s|
    ensures s[a..e] == s[a..b] + (s[b..c] + s[c..d] + s[d..e])
  {
  }

  /** The physical bytes up to the first skipped one are the logical ones. */
  lemma ClearStart(layout: MemoryLayout, m: seq<byte>, n: nat)
    requires IsMemory(m) && DATA_START + n <= ADDRESS_SPACE_END && Clear(layout, n)
    ensures n <= |Stream(layout, m)| && m[DATA_START..DATA_START + n] == Stream(layout, m)[..n]
  {
    GatherContiguous(layout, m, DATA_START + n);
    GatherGrows(layout, m, DATA_START + n, ADDRESS_SPACE_END);
  }

  /** Behind a clear start, an address above a skipped one has fewer usable bytes below it than addresses. */
  lemma SkippedBefore(layout: MemoryLayout, h: nat, a: nat)
    requires DATA_START + h <= a < ADDRESS_SPACE_END && Clear(layout, h) && !Clear(layout, a - DATA_START)
    ensures h <= Rank(layout, a) < a - DATA_START
  {
    var blank := Zeros(ADDRESS_SPACE_END);
    GatherContiguous(layout, blank, DATA_START + h);
    RankMonotone(layout, DATA_START + h, a);
    var x :| DATA_START <= x < a && layout.IsSkip(x);
    SkipLowersRank(layout, x, a);
  }

  // ---- a completed write in memory ----

  /** A completed write puts the NDEF TLV's bytes to their usable addresses and nothing elsewhere. */
  lemma WrittenByte(layout: MemoryLayout, k: nat, m0: seq<byte>, d: seq<byte>, a: nat)
    requires IsMemory(m0) && |d| <= MAX_TLV_LENGTH && a < ADDRESS_SPACE_END
    ensures Written(layout, k, m0, d)[a] ==
      if Usable(layout, a) && k <= Rank(layout, a) < k + |NdefBytes(d)| then NdefBytes(d)[Rank(layout, a) - k] else m0[a]
  {
    var f := LengthField(|d|);
    ScatterAt(layout, m0, k, Payload(d), |Payload(d)|, a);
    ScatterAt(layout, WithPayload(layout, k, m0, d), k + 1, f, |f|, a);
  }

  /** As far as no area comes, the bytes of the new TLV lie in the memory in order. */
  lemma WrittenPart(layout: MemoryLayout, k: nat, m0: seq<byte>, d: seq<byte>, q: nat)
    requires IsMemory(m0) && |d| <= MAX_TLV_LENGTH && q <= |NdefBytes(d)| && DATA_START + k + q <= ADDRESS_SPACE_END
    requires Clear(layout, k + q)
    ensures var m1, lo := Written(layout, k, m0, d), DATA_START + k;
      m1[DATA_START..lo] == m0[DATA_START..lo] && m1[lo..lo + q] == NdefBytes(d)[..q]
  {
    var m1, lo := Written(layout, k, m0, d), DATA_START + k;
    forall a | DATA_START <= a < lo + q
      ensures m1[a] == if a < lo then m0[a] else NdefBytes(d)[a - lo]
    {
      ClearRank(layout, a);
      WrittenByte(layout, k, m0, d, a);
    }
    HeaderSlice(m1, lo, NdefBytes(d), q);
  }

  /** Up to the first area behind it, the header of the new TLV is in the memory as it is. */
  lemma WrittenHeader(layout: MemoryLayout, k: nat, m0: seq<byte>, d: seq<byte>)
    requires IsMemory(m0) && |d| <= MAX_TLV_LENGTH && DATA_START + k + |Payload(d)| <= ADDRESS_SPACE_END
    requires Clear(layout, ValueOffset(k, |d|))
    ensures var m1, lo := Written(layout, k, m0, d), DATA_START + k;
      && m1[DATA_START..lo] == m0[DATA_START..lo]
      && m1[lo..DATA_START + ValueOffset(k, |d|)] == [TLV_NDEF_MESSAGE] + LengthField(|d|)
  {
    WrittenPart(layout, k, m0, d, 1 + LengthFieldSize(|d|));
    assert NdefBytes(d)[..1 + LengthFieldSize(|d|)] == [TLV_NDEF_MESSAGE] + LengthField(|d|);
  }

  lemma HeaderSlice(m: seq<byte>, lo: nat, b: seq<byte>, h: nat)
    requires h <= |b| && lo + h <= |m| && forall a :: lo <= a < lo + h ==> m[a] == b[a - lo]
    ensures m[lo..lo + h] == b[..h]
  {
  }

  // ---- an area inside the value ----

  /**
   The header is clear, and where an uninterrupted value would end an area holds control tags. What areas hold is not
   written, so this can be so on any tag whose areas come no earlier.
   */
  predicate StrayEnd(layout: MemoryLayout, k: nat, n: nat, m: seq<byte>)
    requires IsMemory(m)
  {
    && Clear(layout, ValueOffset(k, n))
    && var end := DATA_START + ValueOffset(k, n) + n;
    && (end < |m| && layout.IsSkip(end) ==> m[end] == TLV_LOCK_CONTROL)
    && (end + 1 < |m| && layout.IsSkip(end + 1) ==> m[end + 1] == TLV_LOCK_CONTROL || m[end + 1] == TLV_TERMINATOR)
  }

  /** Behind an area, a usable address where an uninterrupted value would end still gets a byte of the message. */
  lemma DisplacedByte(layout: MemoryLayout, k: nat, m0: seq<byte>, n: nat, a: nat)
    requires IsMemory(m0) && n <= MAX_TLV_LENGTH && a < ADDRESS_SPACE_END && Usable(layout, a)
    requires ValueOffset(k, n) <= Rank(layout, a) <= ValueOffset(k, n) + n
    ensures Written(layout, k, m0, Tags(n))[a] ==
      if Rank(layout, a) < ValueOffset(k, n) + n then TLV_LOCK_CONTROL else TLV_TERMINATOR
  {
    WrittenByte(layout, k, m0, Tags(n), a);
  }

  lemma UntouchedByte(layout: MemoryLayout, k: nat, m0: seq<byte>, d: seq<byte>, a: nat)
    requires IsMemory(m0) && |d| <= MAX_TLV_LENGTH && a < ADDRESS_SPACE_END && layout.IsSkip(a)
    ensures Written(layout, k, m0, d)[a] == m0[a]
  {
    WrittenByte(layout, k, m0, d, a);
  }

  /** Where an uninterrupted value would end follows a control tag. */
  lemma StrayFirst(layout: MemoryLayout, k: nat, m0: seq<byte>, n: nat, a: nat)
    requires IsMemory(m0) && n <= MAX_TLV_LENGTH && StrayEnd(layout, k, n, m0)
    requires a == DATA_START + ValueOffset(k, n) + n && a < ADDRESS_SPACE_END
    requires !Clear(layout, a + 1 - DATA_START)
    ensures Written(layout, k, m0, Tags(n))[a] == TLV_LOCK_CONTROL
  {
    if layout.IsSkip(a) {
      UntouchedByte(layout, k, m0, Tags(n), a);
    } else {
      SkippedBefore(layout, ValueOffset(k, n), a);
      DisplacedByte(layout, k, m0, n, a);
    }
  }

  /** And behind it nothing that makes it a control TLV. */
  lemma StraySecond(layout: MemoryLayout, k: nat, m0: seq<byte>, n: nat, a: nat)
    requires IsMemory(m0) && n <= MAX_TLV_LENGTH && StrayEnd(layout, k, n, m0)
    requires a == DATA_START + ValueOffset(k, n) + n + 1 && a < ADDRESS_SPACE_END && !Clear(layout, a - DATA_START)
    ensures var b := Written(layout, k, m0, Tags(n))[a]; b == TLV_LOCK_CONTROL || b == TLV_TERMINATOR
  {
    if layout.IsSkip(a) {
      UntouchedByte(layout, k, m0, Tags(n), a);
    } else {
      SkippedBefore(layout, ValueOffset(k, n), a);
      DisplacedByte(layout, k, m0, n, a);
    }
  }

  /** An area up to the message's end shifts that end: the first pass runs into bytes of the message. */
  lemma AreaInsideValueUnreadable(cc: CapabilityContainer, layout: MemoryLayout, k: nat, m0: seq<byte>, n: nat,
                                  s: seq<byte>)
    requires IsMemory(m0) && CCOf(m0) == Ok(cc) && Fits(layout, k, Tags(n)) && layout.dataAreaSize == cc.DataAreaSize()
    requires NdefPosition(s) == Some(k) && s[..k] == m0[DATA_START..DATA_START + k]
    requires StrayEnd(layout, k, n, m0) && !Clear(layout, ValueOffset(k, n) + n + 1)
    ensures var m1 := Written(layout, k, m0, Tags(n));
      IsMemory(m1) && ReadView(cc, m1) == Err(InvalidTlv) && NdefOf(m1).Err?
  {
    WrittenStray(layout, k, m0, n);
    WrittenStrayRead(cc, m0, Written(layout, k, m0, Tags(n)), s, k, n);
  }

  lemma WrittenStrayRead(cc: CapabilityContainer, m0: seq<byte>, m: seq<byte>, s: seq<byte>, k: nat, n: nat)
    requires IsMemory(m0) && StrayAt(m0, m, k, n) && CCOf(m0) == Ok(cc)
    requires ValueOffset(k, n) + n < cc.DataAreaSize() && NdefPosition(s) == Some(k)
    requires s[..k] == m0[DATA_START..DATA_START + k]
    ensures ReadView(cc, m) == Err(InvalidTlv) && NdefOf(m).Err?
  {
    StrayRead(cc, m, s, k, n);
  }

  /** The container and the TLVs of `m0`, a header for `n` bytes at `k`, and a stray control tag behind them. */
  predicate StrayAt(m0: seq<byte>, m: seq<byte>, k: nat, n: nat)
    requires IsMemory(m0)
  {
    && HoldsStray(m, n, DATA_START + k, DATA_START + ValueOffset(k, n), DATA_START + ValueOffset(k, n) + n)
    && m[DATA_START..DATA_START + k] == m0[DATA_START..DATA_START + k] && CCOf(m) == CCOf(m0)
  }

  /** A header at `at` for `n` bytes from `lo` on, and a stray control tag behind them. */
  predicate HoldsStray(m: seq<byte>, n: nat, at: nat, lo: nat, mid: nat) {
    && IsMemory(m) && n <= MAX_TLV_LENGTH && DATA_START <= at <= lo <= mid && mid == lo + n && mid + 1 < |m|
    && m[at..lo] == [TLV_NDEF_MESSAGE] + LengthField(n)
    && m[mid] == TLV_LOCK_CONTROL && (m[mid + 1] == TLV_LOCK_CONTROL || m[mid + 1] == TLV_TERMINATOR)
  }

  lemma WrittenStray(layout: MemoryLayout, k: nat, m0: seq<byte>, n: nat)
    requires IsMemory(m0) && Fits(layout, k, Tags(n)) && StrayEnd(layout, k, n, m0)
    requires !Clear(layout, ValueOffset(k, n) + n + 1)
    ensures StrayAt(m0, Written(layout, k, m0, Tags(n)), k, n)
  {
    var mid := DATA_START + ValueOffset(k, n) + n;
    SameCC(layout, k, m0, Tags(n));
    WrittenHeader(layout, k, m0, Tags(n));
    StrayFirst(layout, k, m0, n, mid);
    StraySecond(layout, k, m0, n, mid + 1);
  }

  lemma StrayRead(cc: CapabilityContainer, m: seq<byte>, s: seq<byte>, k: nat, n: nat)
    requires HoldsStray(m, n, DATA_START + k, DATA_START + ValueOffset(k, n), DATA_START + ValueOffset(k, n) + n)
    requires CCOf(m) == Ok(cc) && ValueOffset(k, n) + n < cc.DataAreaSize()
    requires NdefPosition(s) == Some(k) && s[..k] == m[DATA_START..DATA_START + k]
    ensures ReadView(cc, m) == Err(InvalidTlv) && NdefOf(m).Err?
  {
    var at, lo, hi := DATA_START + k, DATA_START + ValueOffset(k, n), DATA_START + cc.DataAreaSize();
    StrayArea(m, s, k, n, at, lo, lo + n, hi);
    FirstPassFails(cc, m, m[DATA_START..hi]);
    UnreadableView(cc, m);
  }

  lemma UnreadableView(cc: CapabilityContainer, m: seq<byte>)
    requires IsMemory(m) && CCOf(m) == Ok(cc) && ReadView(cc, m) == Err(InvalidTlv)
    ensures NdefOf(m).Err?
  {
  }

  lemma StrayArea(m: seq<byte>, s: seq<byte>, k: nat, n: nat, at: nat, lo: nat, mid: nat, hi: nat)
    requires HoldsStray(m, n, at, lo, mid) && mid < hi <= |m|
    requires NdefPosition(s) == Some(k) && s[..k] == m[DATA_START..at]
    ensures Parse(m[DATA_START..hi]).Err?
  {
    FourParts(m, DATA_START, at, lo, mid, hi);
    StrayTagBehind(s, k, m[lo..mid], m[mid..hi], m[DATA_START..hi]);
  }

  lemma SliceOfSlice(s: seq<byte>, lo: nat, hi: nat, a: nat, b: nat)
    requires lo <= hi <= |s| && a <= b <= hi - lo
    ensures s[lo..hi][a..b] == s[lo + a..lo + b]
  {
    forall i | 0 <= i < b - a
      ensures s[lo..hi][a..b][i] == s[lo + a..lo + b][i]
    {
      assert s[lo..hi][a..b][i] == s[lo..hi][a + i] == s[lo + (a + i)];
    }
  }

  // ---- the condition is exact ----

  /** A later read returns the message. */
  ghost predicate ReadsBack(m0: seq<byte>, d: seq<byte>)
    requires IsMemory(m0) && WritePlan(m0, d).Ok? && |d| <= MAX_TLV_LENGTH
  {
    var plan := WritePlan(m0, d).value;
    NdefOf(Written(plan.layout, plan.offset, m0, d)) == Ok(d)
  }

  /** A plan depends on the message's length only. */
  lemma SamePlan(m0: seq<byte>, d1: seq<byte>, d2: seq<byte>)
    requires IsMemory(m0) && |d1| == |d2|
    ensures WritePlan(m0, d1) == WritePlan(m0, d2)
    ensures WritePlan(m0, d1).Ok? ==> TagAddress(m0, d1) == TagAddress(m0, d2)
  {
    PlanOfLength(m0, d1, d2);
    if WritePlan(m0, d1).Ok? {
      RankInjective(WritePlan(m0, d1).value.view.layout, TagAddress(m0, d1), TagAddress(m0, d2));
    }
  }

  lemma PlanOfLength(m0: seq<byte>, d1: seq<byte>, d2: seq<byte>)
    requires IsMemory(m0) && |d1| == |d2|
    ensures WritePlan(m0, d1) == WritePlan(m0, d2)
  {
    assert |Payload(d1)| == |Payload(d2)|;
  }

  lemma ClearReadsBack(m0: seq<byte>, d: seq<byte>)
    requires IsMemory(m0) && WritePlan(m0, Tags(|d|)).Ok? && Found(m0, Tags(|d|)) && |d| <= MAX_TLV_LENGTH
    requires var plan := WritePlan(m0, Tags(|d|)).value; Clear(plan.layout, plan.offset + |Payload(d)|)
    ensures WritePlan(m0, d).Ok? && ReadsBack(m0, d)
  {
    SamePlan(m0, Tags(|d|), d);
    EndToEnd(m0, d);
  }

  lemma BlockedFails(m0: seq<byte>, n: nat)
    requires IsMemory(m0) && WritePlan(m0, Tags(n)).Ok? && Found(m0, Tags(n)) && n <= MAX_TLV_LENGTH
    requires var plan := WritePlan(m0, Tags(n)).value;
      StrayEnd(plan.layout, plan.offset, n, m0) && !Clear(plan.layout, plan.offset + |Payload(Tags(n))|)
    ensures var plan := WritePlan(m0, Tags(n)).value; NdefOf(Written(plan.layout, plan.offset, m0, Tags(n))).Err?
  {
    var plan := WritePlan(m0, Tags(n)).value;
    PlanFacts(m0, Tags(n));
    TruePosition(m0, Tags(n));
    ClearStart(plan.layout, m0, plan.offset);
    AreaInsideValueUnreadable(plan.cc, plan.layout, plan.offset, m0, n, plan.view.bytes);
  }

  /**
   The round trip is exact: on a tag whose NDEF TLV is found where the write goes, with no area in the header of the
   TLV and control tags in the areas around the end of an uninterrupted value, all messages of `n` bytes are read back
   if and only if no lock or reserved area meets the bytes up to the payload's end.
   */
  lemma RoundTripExact(m0: seq<byte>, n: nat)
    requires IsMemory(m0) && n <= MAX_TLV_LENGTH && WritePlan(m0, Tags(n)).Ok? && Found(m0, Tags(n))
    requires StrayEnd(WritePlan(m0, Tags(n)).value.layout, WritePlan(m0, Tags(n)).value.offset, n, m0)
    ensures var plan := WritePlan(m0, Tags(n)).value;
      Clear(plan.layout, plan.offset + |Payload(Tags(n))|) <==>
      forall d: seq<byte> :: |d| == n ==> WritePlan(m0, d).Ok? && ReadsBack(m0, d)
  {
    var plan := WritePlan(m0, Tags(n)).value;
    if Clear(plan.layout, plan.offset + |Payload(Tags(n))|) {
      forall d: seq<byte> | |d| == n
        ensures WritePlan(m0, d).Ok? && ReadsBack(m0, d)
      {
        ClearReadsBack(m0, d);
      }
    } else {
      BlockedFails(m0, n);
      assert !ReadsBack(m0, Tags(n));
    }
  }
}
