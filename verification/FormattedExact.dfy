/** Exactly when writing to formatted tags is crash safe, in memory and for a later read. */
module FormattedExact {
  import opened Basics
  import opened TlvLength
  import opened Tlv
  import opened TlvParser
  import opened Memory
  import opened UsableBytes
  import opened NdefProcedures
  import opened PageWrites
  import opened CrashSafety
  import opened RoundTrip
  import opened RoundTripExact
  import opened WriteGuarantees
  import opened FormattedTag

  // ---- torn lengths ----

  lemma ClearAddress(layout: MemoryLayout, n: nat, i: nat)
    requires i < n && DATA_START + n <= ADDRESS_SPACE_END && Clear(layout, n)
    ensures Select(layout, i) == Some(DATA_START + i)
  {
    assert Clear(layout, i);
    ClearRank(layout, DATA_START + i);
    SelectOfRank(layout, DATA_START + i);
  }

  /** On a clear place a three-byte field lies in one block exactly if the NDEF tag is a block's first or last byte. */
  lemma ClearLengthField(layout: MemoryLayout, k: nat, d: seq<byte>)
    requires Fits(layout, k, d) && Clear(layout, k + |Payload(d)|)
    ensures k + 3 < Rank(layout, ADDRESS_SPACE_END)
    ensures LengthInOneBlock(layout, k, |d|) <==> |d| < 0xFF || k % 4 == 0 || k % 4 == 3
  {
    if |d| >= 0xFF {
      ClearAddress(layout, k + |Payload(d)|, k + 1);
      ClearAddress(layout, k + |Payload(d)|, k + 3);
      FieldInBlock(k);
    }
  }

  lemma FieldInBlock(k: nat)
    ensures (DATA_START + k + 1) / 4 == (DATA_START + k + 3) / 4 <==> k % 4 == 0 || k % 4 == 3
  {
  }

  /** The write is planned, and no cut of it tears the NDEF TLV. */
  ghost predicate NeverTorn(m: seq<byte>, d: seq<byte>)
    requires IsMemory(m)
  {
    && WritePlan(m, d).Ok? && |d| <= MAX_TLV_LENGTH
    && CrashSafe(WritePlan(m, d).value.layout, WritePlan(m, d).value.offset, m, d)
  }

  lemma SafeOnFormatted(m: seq<byte>, cc: CapabilityContainer, ts: seq<Tlv>, d0: seq<byte>, d: seq<byte>)
    requires Formatted(m, cc, ts, d0) && HasRoom(cc, ts, d)
    requires |d| < 0xFF || |PrintAll(ts)| % 4 == 0 || |PrintAll(ts)| % 4 == 3
    ensures WritePlan(m, d).Ok? && PlannedSafely(m, d) && Unobstructed(m, d) && NeverTorn(m, d)
  {
    FormattedPlan(m, cc, ts, d0, d);
    FormattedIsUnobstructed(m, cc, ts, d0, d);
    TruePosition(m, d);
    PlanFits(m, d);
    ClearLengthField(LayoutOf(cc, ts), |PrintAll(ts)|, d);
    PlannedWriteIsCrashSafe(m, d);
  }

  /** The stream of a formatted tag starts with its format. */
  lemma FormatInStream(layout: MemoryLayout, m: seq<byte>, ts: seq<Tlv>, d0: seq<byte>)
    requires IsMemory(m) && Leading(ts) && |d0| <= MAX_TLV_LENGTH && |Format(ts, d0)| <= 2040
    requires m[DATA_START..DATA_START + |Format(ts, d0)|] == Format(ts, d0) && Clear(layout, |Format(ts, d0)|)
    ensures Format(ts, d0) <= Stream(layout, m)
  {
    ClearStart(layout, m, |Format(ts, d0)|);
  }

  /** The old message whose header is the trap. */
  const TRAPPED: seq<byte> := [0x00, 0x05]

  lemma TrapInFormat(ts: seq<Tlv>, s: seq<byte>)
    requires Leading(ts) && Format(ts, TRAPPED) <= s
    ensures |PrintAll(ts)| + 4 <= |s| && s[|PrintAll(ts)|..|PrintAll(ts)| + 4] == TRAP
  {
    var k, f := |PrintAll(ts)|, Format(ts, TRAPPED);
    PrefixKept(PrintAll(ts), NdefBytes(TRAPPED));
    assert NdefBytes(TRAPPED) == TRAP + [TLV_TERMINATOR];
    assert s[k..k + 4] == f[k..k + 4] == f[k..][..4];
  }

  /** A formatted tag on which a length field across two blocks tears every message. */
  lemma TornOnFormatted(cc: CapabilityContainer, ts: seq<Tlv>, d: seq<byte>) returns (m: seq<byte>)
    requires Writable(cc) && Leading(ts) && AllWellFormed(ts) && HasRoom(cc, ts, d)
    requires |d| >= 0xFF && |PrintAll(ts)| % 4 != 0 && |PrintAll(ts)| % 4 != 3
    ensures Formatted(m, cc, ts, TRAPPED) && !NeverTorn(m, d)
  {
    m := TagWith(cc, Format(ts, TRAPPED));
    TagWithFormat(cc, ts, TRAPPED);
    TornFormat(cc, ts, d, m, LayoutOf(cc, ts), |PrintAll(ts)|);
    TornPlan(cc, ts, m, d);
  }

  lemma TornFormat(cc: CapabilityContainer, ts: seq<Tlv>, d: seq<byte>, m: seq<byte>, layout: MemoryLayout, k: nat)
    requires Formatted(m, cc, ts, TRAPPED) && HasRoom(cc, ts, d) && layout == LayoutOf(cc, ts) && k == |PrintAll(ts)|
    requires |d| >= 0xFF && k % 4 != 0 && k % 4 != 3
    ensures !CrashSafe(layout, k, m, d)
  {
    FormattedFits(cc, ts, m, d);
    FormatInStream(layout, m, ts, TRAPPED);
    TrapInFormat(ts, Stream(layout, m));
    TornField(layout, k, m, d);
  }

  /** A message with room fits behind the leading TLVs. */
  lemma FormattedFits(cc: CapabilityContainer, ts: seq<Tlv>, m: seq<byte>, d: seq<byte>)
    requires IsMemory(m) && Leading(ts) && AllWellFormed(ts) && HasRoom(cc, ts, d)
    ensures Fits(LayoutOf(cc, ts), |PrintAll(ts)|, d)
  {
    LayoutReadable(cc, ts, m);
  }

  lemma TornPlan(cc: CapabilityContainer, ts: seq<Tlv>, m: seq<byte>, d: seq<byte>)
    requires Formatted(m, cc, ts, TRAPPED) && HasRoom(cc, ts, d)
    requires !CrashSafe(LayoutOf(cc, ts), |PrintAll(ts)|, m, d)
    ensures !NeverTorn(m, d)
  {
    FormattedPlan(m, cc, ts, TRAPPED, d);
  }

  /** On a clear place a length field across two blocks tears every message that replaces a trapped one. */
  lemma TornField(layout: MemoryLayout, k: nat, m: seq<byte>, d: seq<byte>)
    requires IsMemory(m) && Fits(layout, k, d) && Clear(layout, k + |Payload(d)|)
    requires |d| >= 0xFF && k % 4 != 0 && k % 4 != 3 && Stream(layout, m)[k..k + 4] == TRAP
    ensures !CrashSafe(layout, k, m, d)
  {
    ClearLengthField(layout, k, d);
    PageInsideField(layout, k);
    TornLength(layout, k, m, d, if PageStartsAfter(layout, k, 2) then 2 else 3);
  }

  /**
   Crash safety is exact: messages of `n` bytes are never torn on any tag formatted with the leading TLVs `ts` if and
   only if they have a one-byte length field or the NDEF tag behind `ts` is the first or the last byte of a block.
   */
  lemma CrashSafetyExact(cc: CapabilityContainer, ts: seq<Tlv>, n: nat)
    requires Writable(cc) && Leading(ts) && AllWellFormed(ts) && HasRoom(cc, ts, Zeros(n))
    ensures (forall m, d0, d: seq<byte> :: Formatted(m, cc, ts, d0) && |d| == n ==> NeverTorn(m, d)) <==>
            n < 0xFF || |PrintAll(ts)| % 4 == 0 || |PrintAll(ts)| % 4 == 3
  {
    if n < 0xFF || |PrintAll(ts)| % 4 == 0 || |PrintAll(ts)| % 4 == 3 {
      forall m, d0, d: seq<byte> | Formatted(m, cc, ts, d0) && |d| == n
        ensures NeverTorn(m, d)
      {
        SafeOnFormatted(m, cc, ts, d0, d);
      }
    } else {
      var m := TornOnFormatted(cc, ts, Zeros(n));
    }
  }
}
