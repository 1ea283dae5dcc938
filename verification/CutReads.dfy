/**
 What read_ndef returns from a tag whose write was cut off. With the length still zero, the bytes behind it, message
 bytes among them, are parsed as TLVs, and control TLVs among these shape the second pass of the read.
 */
module CutReads {
  import opened Basics
  import opened TlvLength
  import opened Tlv
  import opened TlvParser
  import opened Memory
  import opened UsableBytes
  import opened NdefProcedures
  import opened PageWrites
  import opened CrashSafety
  import opened RoundTrip
  import opened RoundTripExact

  // ---- the states of a write to a clear place ----

  /** The tag of `m0` with its NDEF TLV at `k` set to a zero length, in a field for `n` bytes. */
  predicate ZeroLengthAt(m0: seq<byte>, k: nat, n: nat, m: seq<byte>)
    requires IsMemory(m0) && IsMemory(m)
  {
    && DATA_START + ValueOffset(k, n) <= ADDRESS_SPACE_END && CCOf(m) == CCOf(m0)
    && m[DATA_START..DATA_START + k] == m0[DATA_START..DATA_START + k]
    && m[DATA_START + k..DATA_START + ValueOffset(k, n)] == ZeroHeader(n)
  }

  /** The first `p` bytes of the payload in memory. */
  lemma PayloadInPlace(layout: MemoryLayout, k: nat, m0: seq<byte>, d: seq<byte>, p: nat, q: nat, a: nat)
    requires IsMemory(m0) && q <= p <= |Payload(d)| && Clear(layout, k + q)
    requires a < DATA_START + k + q <= ADDRESS_SPACE_END
    ensures Scatter(layout, m0, k, Payload(d), p)[a] ==
      if DATA_START + k <= a then Payload(d)[a - DATA_START - k] else m0[a]
  {
    ScatterAt(layout, m0, k, Payload(d), p, a);
    if DATA_START <= a {
      ClearRank(layout, a);
    }
  }

  /** As far as no area comes, written bytes of the payload lie in the memory in order. */
  lemma PayloadPart(layout: MemoryLayout, k: nat, m0: seq<byte>, d: seq<byte>, p: nat, q: nat)
    requires IsMemory(m0) && q <= p <= |Payload(d)| && Clear(layout, k + q) && DATA_START + k + q <= ADDRESS_SPACE_END
    ensures var m, lo := Scatter(layout, m0, k, Payload(d), p), DATA_START + k;
      m[..lo] == m0[..lo] && m[lo..lo + q] == Payload(d)[..q]
  {
    var m, lo := Scatter(layout, m0, k, Payload(d), p), DATA_START + k;
    forall a | 0 <= a < lo
      ensures m[..lo][a] == m0[..lo][a]
    {
      PayloadInPlace(layout, k, m0, d, p, q, a);
    }
    forall i | 0 <= i < q
      ensures m[lo..lo + q][i] == Payload(d)[..q][i]
    {
      PayloadInPlace(layout, k, m0, d, p, q, lo + i);
    }
  }

  /** Once the length field of the payload is written to a clear header, the length is zero. */
  lemma PayloadZeroLength(layout: MemoryLayout, k: nat, m0: seq<byte>, d: seq<byte>, p: nat)
    requires IsMemory(m0) && Fits(layout, k, d) && Clear(layout, ValueOffset(k, |d|))
    requires 1 + LengthFieldSize(|d|) <= p <= |Payload(d)|
    ensures ZeroLengthAt(m0, k, |d|, Scatter(layout, m0, k, Payload(d), p))
  {
    var h := 1 + LengthFieldSize(|d|);
    PayloadPart(layout, k, m0, d, p, h);
    PayloadHeader(d);
    HeaderWritten(m0, Scatter(layout, m0, k, Payload(d), p), k, Payload(d), h, |d|);
  }

  lemma HeaderWritten(m0: seq<byte>, m: seq<byte>, k: nat, payload: seq<byte>, p: nat, n: nat)
    requires IsMemory(m0) && IsMemory(m) && 1 + LengthFieldSize(n) <= p <= |payload|
    requires DATA_START + k + p <= |m| && m[..DATA_START + k] == m0[..DATA_START + k]
    requires m[DATA_START + k..DATA_START + k + p] == payload[..p] && payload[..1 + LengthFieldSize(n)] == ZeroHeader(n)
    ensures ZeroLengthAt(m0, k, n, m)
  {
    var lo, c := DATA_START + k, 1 + LengthFieldSize(n);
    assert m[12..16] == m[..lo][12..16] == m0[..lo][12..16];
    assert m[DATA_START..lo] == m[..lo][DATA_START..] == m0[..lo][DATA_START..];
    assert m[lo..lo + c] == m[lo..lo + p][..c] == payload[..p][..c] == payload[..c];
  }

  /** With a clear header and its length field in one block, a write's states are: old, zero length, complete. */
  lemma CutStates(layout: MemoryLayout, k: nat, m0: seq<byte>, d: seq<byte>, m: seq<byte>)
    requires IsMemory(m0) && IsMemory(m) && Fits(layout, k, d) && Clear(layout, ValueOffset(k, |d|))
    requires Stream(layout, m0)[k] == TLV_NDEF_MESSAGE
    requires k + 3 < Rank(layout, ADDRESS_SPACE_END) && LengthInOneBlock(layout, k, |d|)
    requires IsWriteState(layout, k, m0, d, m)
    ensures m == m0 || ZeroLengthAt(m0, k, |d|, m) || m == Written(layout, k, m0, d)
  {
    PageInsideField(layout, k);
    if IsPrefixState(layout, m0, k, Payload(d), m) {
      var p: nat :| IsCut(layout, k, |Payload(d)|, p) && m == Scatter(layout, m0, k, Payload(d), p);
      if p <= 1 {
        TagOnlyState(layout, k, m0, d, p);
      } else {
        PayloadZeroLength(layout, k, m0, d, p);
      }
    } else {
      var m1, f := WithPayload(layout, k, m0, d), LengthField(|d|);
      var q: nat :| IsCut(layout, k + 1, |f|, q) && m == Scatter(layout, m1, k + 1, f, q);
      assert IsCut(layout, k, |Payload(d)|, |Payload(d)|);
      assert PageStartsAfter(layout, k + 1, q) ==> PageStartsAfter(layout, k, q + 1);
    }
  }

  // ---- reading a zero length ----

  /** The TLVs the first pass of a read finds. */
  function FirstPass(cc: CapabilityContainer, m: seq<byte>): Result<seq<Tlv>, Type2Error>
    requires IsMemory(m)
  {
    var bytes :- DataArea(LayoutOf(cc, []), m);
    Parse(bytes)
  }

  /** The first pass finds control TLVs, and the read goes over the tag again. */
  predicate SecondPass(cc: CapabilityContainer, m: seq<byte>)
    requires IsMemory(m)
  {
    FirstPass(cc, m).Ok? && cc.IsDynamic() && HasControl(FirstPass(cc, m).value)
  }

  /** The layout of the second pass. */
  function SecondLayout(cc: CapabilityContainer, m: seq<byte>): MemoryLayout
    requires IsMemory(m) && FirstPass(cc, m).Ok?
  {
    ParsedControls(DataArea(LayoutOf(cc, []), m).value);
    LayoutOf(cc, FirstPass(cc, m).value)
  }

  /** No area that the first pass finds described meets the first `h` bytes of the data area. */
  predicate HeaderStands(cc: CapabilityContainer, m: seq<byte>, h: nat)
    requires IsMemory(m)
  {
    SecondPass(cc, m) ==> Clear(SecondLayout(cc, m), h)
  }

  /** The parse of the data area from its byte `h` on. */
  function Behind(layout: MemoryLayout, m: seq<byte>, h: nat): Result<seq<Tlv>, Type2Error>
    requires IsMemory(m) && h <= layout.dataAreaSize <= |Stream(layout, m)|
  {
    Parse(Stream(layout, m)[h..layout.dataAreaSize])
  }

  /** One pass that skips nothing up to the zero length: the old TLVs, an empty message, and what is behind. */
  lemma ClearPass(layout: MemoryLayout, m0: seq<byte>, k: nat, n: nat, m: seq<byte>, s: seq<byte>)
    requires IsMemory(m0) && IsMemory(m) && ZeroLengthAt(m0, k, n, m)
    requires NdefPosition(s) == Some(k) && s[..k] == m0[DATA_START..DATA_START + k]
    requires ValueOffset(k, n) <= layout.dataAreaSize <= |Stream(layout, m)| && Clear(layout, ValueOffset(k, n))
    ensures DataArea(layout, m).Ok?
    ensures Parse(DataArea(layout, m).value) ==
      Then(Before(s) + [NdefMessage([])], Behind(layout, m, ValueOffset(k, n)))
  {
    var h, raw := ValueOffset(k, n), Stream(layout, m)[..layout.dataAreaSize];
    ClearStart(layout, m, h);
    AreaParse(layout, m, raw);
    assert raw[..h] == m[DATA_START..DATA_START + h];
    SplitHeader(raw, m, k, h);
    ZeroLengthParses(s, raw, k, h, n);
    assert raw[h..] == Stream(layout, m)[h..layout.dataAreaSize];
  }

  lemma SplitHeader(raw: seq<byte>, m: seq<byte>, k: nat, h: nat)
    requires k <= h <= |raw| && DATA_START + h <= |m| && raw[..h] == m[DATA_START..DATA_START + h]
    ensures raw[..k] == m[DATA_START..DATA_START + k] && raw[k..h] == m[DATA_START + k..DATA_START + h]
  {
    assert raw[..k] == raw[..h][..k];
    assert raw[k..h] == raw[..h][k..];
  }

  /** The bytes behind the zero length parse, in the second pass, too, if there is one. */
  predicate BehindParses(cc: CapabilityContainer, m: seq<byte>, h: nat)
    requires IsMemory(m) && h <= cc.DataAreaSize()
  {
    && cc.DataAreaSize() <= |Stream(LayoutOf(cc, []), m)|
    && Behind(LayoutOf(cc, []), m, h).Ok?
    && (SecondPass(cc, m) ==>
        && cc.DataAreaSize() <= |Stream(SecondLayout(cc, m), m)|
        && Behind(SecondLayout(cc, m), m, h).Ok?)
  }

  /** The streams of both passes are long enough. */
  lemma PassesComplete(cc: CapabilityContainer, m: seq<byte>)
    requires IsMemory(m)
    ensures cc.DataAreaSize() <= |Stream(LayoutOf(cc, []), m)|
    ensures FirstPass(cc, m).Ok? ==> cc.DataAreaSize() <= |Stream(SecondLayout(cc, m), m)|
  {
    LookupBound(cc, [], cc.DataAreaSize());
    if FirstPass(cc, m).Ok? {
      ParsedControls(DataArea(LayoutOf(cc, []), m).value);
      LookupBound(cc, FirstPass(cc, m).value, cc.DataAreaSize());
    }
  }

  /**
   While the length is zero and no area described behind it meets the header, the tag presents an empty message if the
   bytes behind the header parse, and cannot be read otherwise.
   */
  lemma ZeroLengthPresents(cc: CapabilityContainer, m0: seq<byte>, k: nat, n: nat, m: seq<byte>, s: seq<byte>)
    requires IsMemory(m0) && IsMemory(m) && CCOf(m0) == Ok(cc) && cc.IsValid()
    requires ValueOffset(k, n) <= cc.DataAreaSize() && ZeroLengthAt(m0, k, n, m)
    requires NdefPosition(s) == Some(k) && s[..k] == m0[DATA_START..DATA_START + k]
    requires HeaderStands(cc, m, ValueOffset(k, n))
    ensures NdefOf(m) == if BehindParses(cc, m, ValueOffset(k, n)) then Ok([]) else Err(InvalidTlv)
  {
    var h, basic := ValueOffset(k, n), LayoutOf(cc, []);
    PassesComplete(cc, m);
    BasicIsClear(cc);
    ClearPass(basic, m0, k, n, m, s);
    EmptyFirst(Before(s), Behind(basic, m, h));
    if SecondPass(cc, m) {
      var full := SecondLayout(cc, m);
      ClearPass(full, m0, k, n, m, s);
      EmptyFirst(Before(s), Behind(full, m, h));
    }
  }

  /** If what is behind does not parse in the first pass, there is no other. */
  lemma UnparsedBehind(cc: CapabilityContainer, m0: seq<byte>, k: nat, n: nat, m: seq<byte>, s: seq<byte>)
    requires IsMemory(m0) && IsMemory(m) && CCOf(m0) == Ok(cc) && cc.IsValid()
    requires ValueOffset(k, n) <= cc.DataAreaSize() && ZeroLengthAt(m0, k, n, m)
    requires NdefPosition(s) == Some(k) && s[..k] == m0[DATA_START..DATA_START + k]
    requires cc.DataAreaSize() <= |Stream(LayoutOf(cc, []), m)|
    requires Behind(LayoutOf(cc, []), m, ValueOffset(k, n)).Err?
    ensures NdefOf(m) == Err(InvalidTlv)
  {
    BasicIsClear(cc);
    ClearPass(LayoutOf(cc, []), m0, k, n, m, s);
  }

  lemma EmptyFirst(before: seq<Tlv>, r: Result<seq<Tlv>, Type2Error>)
    requires forall t :: t in before ==> !t.NdefMessage?
    ensures r.Ok? ==> FirstNdef(Then(before + [NdefMessage([])], r).value) == []
  {
    if r.Ok? {
      var rest := [NdefMessage([])] + r.value;
      assert before + [NdefMessage([])] + r.value == before + rest;
      FirstNdefAfter(before, rest);
    }
  }

  /** On a static tag there is one pass only, and the header always stands. */
  lemma StaticHeaderStands(cc: CapabilityContainer, m: seq<byte>, h: nat)
    requires IsMemory(m) && !cc.IsDynamic()
    ensures HeaderStands(cc, m, h)
  {
  }

  /** Without control TLVs behind the zero length the second pass has the layout of the TLVs before it. */
  lemma NoControlBehind(cc: CapabilityContainer, m0: seq<byte>, k: nat, n: nat, m: seq<byte>, s: seq<byte>)
    requires IsMemory(m0) && IsMemory(m)
    requires ValueOffset(k, n) <= cc.DataAreaSize() && ZeroLengthAt(m0, k, n, m)
    requires NdefPosition(s) == Some(k) && s[..k] == m0[DATA_START..DATA_START + k]
    requires AllWellFormed(Before(s)) && Clear(LayoutOf(cc, Before(s)), ValueOffset(k, n))
    requires cc.DataAreaSize() <= |Stream(LayoutOf(cc, []), m)|
    requires var behind := Behind(LayoutOf(cc, []), m, ValueOffset(k, n)); behind.Ok? ==> !HasControl(behind.value)
    ensures HeaderStands(cc, m, ValueOffset(k, n))
  {
    var behind := Behind(LayoutOf(cc, []), m, ValueOffset(k, n));
    BasicIsClear(cc);
    ClearPass(LayoutOf(cc, []), m0, k, n, m, s);
    if behind.Ok? {
      EmptyNdefDescribesNothing(cc, Before(s), behind.value);
    }
  }

  lemma EmptyNdefDescribesNothing(cc: CapabilityContainer, ts: seq<Tlv>, more: seq<Tlv>)
    requires AllWellFormed(ts) && !HasControl(more)
    ensures var all := ts + [NdefMessage([])] + more; AllWellFormed(all) && LayoutOf(cc, all) == LayoutOf(cc, ts)
  {
    var one := [NdefMessage([])];
    assert !HasControl(one);
    NothingDescribed(cc, ts, one);
    NothingDescribed(cc, ts + one, more);
  }

  // ---- every cut of a planned write ----

  /**
   What a state of a write presents: the old message, the whole new one or, while the length is zero and the header
   stands, an empty message or a parse error, as the bytes behind the header decide.
   */
  ghost predicate PresentsCut(m0: seq<byte>, d: seq<byte>, m: seq<byte>)
    requires IsMemory(m0) && WritePlan(m0, d).Ok?
  {
    var plan := WritePlan(m0, d).value;
    var h := ValueOffset(plan.offset, |d|);
    && IsMemory(m) && h <= plan.cc.DataAreaSize()
    && (|| m == m0
        || NdefOf(m) == Ok(d)
        || (&& ZeroLengthAt(m0, plan.offset, |d|, m)
            && (HeaderStands(plan.cc, m, h) ==>
                NdefOf(m) == if BehindParses(plan.cc, m, h) then Ok([]) else Err(InvalidTlv))))
  }

  /** The state presents the old message, an empty one, the new one or an error. */
  predicate PresentsWhole(m0: seq<byte>, d: seq<byte>, m: seq<byte>)
    requires IsMemory(m0) && IsMemory(m)
  {
    NdefOf(m).Err? || NdefOf(m) == NdefOf(m0) || NdefOf(m) == Ok([]) || NdefOf(m) == Ok(d)
  }

  /** Every cut of a write presents one of these. */
  ghost predicate CutsPresentWhole(layout: MemoryLayout, k: nat, m0: seq<byte>, d: seq<byte>)
    requires IsMemory(m0) && |d| <= MAX_TLV_LENGTH
  {
    forall m :: IsMemory(m) && IsWriteState(layout, k, m0, d, m) ==> PresentsWhole(m0, d, m)
  }

  /** The write is planned, and every cut of it presents one of these. */
  ghost predicate AlwaysWhole(m0: seq<byte>, d: seq<byte>)
    requires IsMemory(m0)
  {
    && WritePlan(m0, d).Ok? && |d| <= MAX_TLV_LENGTH
    && CutsPresentWhole(WritePlan(m0, d).value.layout, WritePlan(m0, d).value.offset, m0, d)
  }

  /** Every state of a write to a clear place with its length field in one block presents one of these. */
  lemma CutPresents(m0: seq<byte>, d: seq<byte>, m: seq<byte>)
    requires IsMemory(m0) && IsMemory(m) && WritePlan(m0, d).Ok? && Unobstructed(m0, d) && |d| <= MAX_TLV_LENGTH
    requires var plan := WritePlan(m0, d).value;
      && plan.offset + 3 < Rank(plan.layout, ADDRESS_SPACE_END) && LengthInOneBlock(plan.layout, plan.offset, |d|)
      && IsWriteState(plan.layout, plan.offset, m0, d, m)
    ensures PresentsCut(m0, d, m)
  {
    var plan := WritePlan(m0, d).value;
    var k, h := plan.offset, ValueOffset(plan.offset, |d|);
    PlanFacts(m0, d);
    TruePosition(m0, d);
    CutStates(plan.layout, k, m0, d, m);
    if m == Written(plan.layout, k, m0, d) {
      EndToEnd(m0, d);
    } else if m != m0 && HeaderStands(plan.cc, m, h) {
      ClearStart(plan.layout, m0, k);
      ZeroLengthPresents(plan.cc, m0, k, |d|, m, plan.view.bytes);
    }
  }

  /** On a static tag every cut presents the old message, an empty one or the new one, or does not parse. */
  lemma StaticCutPresents(m0: seq<byte>, d: seq<byte>, m: seq<byte>)
    requires IsMemory(m0) && WritePlan(m0, d).Ok? && PresentsCut(m0, d, m)
    requires !WritePlan(m0, d).value.cc.IsDynamic()
    ensures NdefOf(m) == NdefOf(m0) || NdefOf(m) == Ok([]) || NdefOf(m) == Ok(d) || NdefOf(m) == Err(InvalidTlv)
  {
    var plan := WritePlan(m0, d).value;
    StaticHeaderStands(plan.cc, m, ValueOffset(plan.offset, |d|));
  }
}
