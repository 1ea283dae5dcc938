/**
 Crash consistency of the NDEF write (section 6.4.3 of T2TOP 1.1): what a tag holds when the write is cut off after any
 number of its WRITEs, and exactly when that is never a torn mix.
 */
module CrashSafety {
  import opened Basics
  import opened TlvLength
  import opened Tlv
  import opened TlvParser
  import opened Memory
  import opened UsableBytes
  import opened NdefProcedures
  import opened PageWrites

  // ---- frame ----

  /** The address belongs to the payload of a write at logical offset `k`. */
  predicate InPayload(layout: MemoryLayout, k: nat, d: seq<byte>, a: nat) {
    Usable(layout, a) && k <= Rank(layout, a) < k + |Payload(d)|
  }

  /**
   No state of a write differs from the old memory outside the payload: lock and reserved bytes, the rest of each page
   and all other sectors are kept.
   */
  lemma WriteFrame(layout: MemoryLayout, k: nat, m0: seq<byte>, d: seq<byte>, m: seq<byte>)
    requires IsMemory(m0) && |d| <= MAX_TLV_LENGTH && IsWriteState(layout, k, m0, d, m)
    ensures |m| == |m0|
    ensures forall a :: 0 <= a < |m0| && !InPayload(layout, k, d, a) ==> m[a] == m0[a]
  {
    var m1, f := WithPayload(layout, k, m0, d), LengthField(|d|);
    forall a | 0 <= a < |m0| && !InPayload(layout, k, d, a)
      ensures |m| == |m0| && m[a] == m0[a]
    {
      if IsPrefixState(layout, m0, k, Payload(d), m) {
        var p: nat :| IsCut(layout, k, |Payload(d)|, p) && m == Scatter(layout, m0, k, Payload(d), p);
        ScatterAt(layout, m0, k, Payload(d), p, a);
      } else {
        var q: nat :| IsCut(layout, k + 1, |f|, q) && m == Scatter(layout, m1, k + 1, f, q);
        ScatterAt(layout, m0, k, Payload(d), |Payload(d)|, a);
        ScatterAt(layout, m1, k + 1, f, q, a);
      }
    }
  }

  // ---- the states as streams ----

  /** The stream after the first `p` bytes of the payload. */
  function PayloadStream(s: seq<byte>, k: nat, d: seq<byte>, p: nat): seq<byte>
    requires k + |Payload(d)| <= |s| && p <= |Payload(d)|
  {
    Splice(s, k, Payload(d)[..p])
  }

  /** The stream after the payload and the first `q` bytes of the length field. */
  function LengthStream(s: seq<byte>, k: nat, d: seq<byte>, q: nat): seq<byte>
    requires |d| <= MAX_TLV_LENGTH && k + |Payload(d)| <= |s| && q <= |LengthField(|d|)|
  {
    Splice(Splice(s, k, Payload(d)), k + 1, LengthField(|d|)[..q])
  }

  lemma PayloadState(layout: MemoryLayout, k: nat, m0: seq<byte>, d: seq<byte>, p: nat)
    requires IsMemory(m0) && Fits(layout, k, d) && p <= |Payload(d)|
    ensures Stream(layout, Scatter(layout, m0, k, Payload(d), p)) == PayloadStream(Stream(layout, m0), k, d, p)
  {
    SpliceLaw(layout, m0, k, Payload(d), p);
  }

  lemma LengthState(layout: MemoryLayout, k: nat, m0: seq<byte>, d: seq<byte>, q: nat)
    requires IsMemory(m0) && Fits(layout, k, d) && q <= |LengthField(|d|)|
    ensures Stream(layout, Scatter(layout, WithPayload(layout, k, m0, d), k + 1, LengthField(|d|), q))
         == LengthStream(Stream(layout, m0), k, d, q)
  {
    PayloadState(layout, k, m0, d, |Payload(d)|);
    assert Payload(d)[..|Payload(d)|] == Payload(d);
    SpliceLaw(layout, WithPayload(layout, k, m0, d), k + 1, LengthField(|d|), q);
  }

  /** With nothing but the tag written, the memory is the old one. */
  lemma TagOnlyState(layout: MemoryLayout, k: nat, m0: seq<byte>, d: seq<byte>, p: nat)
    requires IsMemory(m0) && Fits(layout, k, d) && p <= 1 && Stream(layout, m0)[k] == TLV_NDEF_MESSAGE
    ensures Scatter(layout, m0, k, Payload(d), p) == m0
  {
    if p == 1 {
      StreamIsSelected(layout, m0, k);
      assert Scatter(layout, m0, k, Payload(d), 0) == m0;
    }
  }

  /** An NDEF TLV with the message `v` and a length field of `c` bytes at offset `k`. */
  predicate HoldsNdef(s: seq<byte>, k: nat, c: nat, v: seq<byte>) {
    && k + 1 + c + |v| <= |s| && s[k] == TLV_NDEF_MESSAGE && ParseLength(s, k + 1) == Ok((|v|, c))
    && s[k + 1 + c..k + 1 + c + |v|] == v
  }

  /** It is there in every stream with the same bytes up to its end. */
  lemma NdefIsLocal(s: seq<byte>, t: seq<byte>, k: nat, c: nat, v: seq<byte>, e: nat)
    requires HoldsNdef(s, k, c, v) && k + 1 + c + |v| <= e <= |s| && e <= |t| && s[..e] == t[..e]
    ensures HoldsNdef(t, k, c, v)
  {
    assert forall i :: 0 <= i < e ==> s[i] == s[..e][i] == t[..e][i] == t[i];
    var lo, hi := k + 1 + c, k + 1 + c + |v|;
    assert t[lo..hi] == t[..e][lo..hi] == s[..e][lo..hi] == s[lo..hi];
  }

  lemma SplicedByte(s: seq<byte>, k: nat, data: seq<byte>, i: nat)
    requires k + |data| <= |s| && i < |data|
    ensures Splice(s, k, data)[k + i] == data[i]
  {
  }

  /** With the whole length field zero, the message is empty. */
  lemma ZeroLength(s: seq<byte>, k: nat, d: seq<byte>, p: nat)
    requires k + |Payload(d)| <= |s| && 1 + LengthFieldSize(|d|) <= p <= |Payload(d)|
    ensures HoldsNdef(PayloadStream(s, k, d, p), k, LengthFieldSize(|d|), [])
  {
    var t, data := PayloadStream(s, k, d, p), Payload(d)[..p];
    SplicedByte(s, k, data, 0);
    SplicedByte(s, k, data, 1);
    if |d| >= 0xFF {
      SplicedByte(s, k, data, 2);
      SplicedByte(s, k, data, 3);
    }
    EmptyNdef(t, k, LengthFieldSize(|d|));
  }

  lemma EmptyNdef(t: seq<byte>, k: nat, c: nat)
    requires c == 1 || c == 3
    requires k + 1 + c <= |t| && t[k] == TLV_NDEF_MESSAGE
    requires if c == 1 then t[k + 1] == 0 else t[k + 1] == 0xFF && t[k + 2] == 0 && t[k + 3] == 0
    ensures HoldsNdef(t, k, c, [])
  {
    assert ParseLength(t, k + 1) == Ok((0, c));
    assert t[k + 1 + c..k + 1 + c] == [];
  }

  /** Writing the length field over the payload's zero length gives the complete TLV. */
  lemma LengthOverPayload(s: seq<byte>, k: nat, d: seq<byte>)
    requires |d| <= MAX_TLV_LENGTH && k + |Payload(d)| <= |s|
    ensures LengthStream(s, k, d, |LengthField(|d|)|)
         == Splice(s, k, [TLV_NDEF_MESSAGE] + LengthField(|d|) + d + [TLV_TERMINATOR])
  {
    var f := LengthField(|d|);
    assert f[..|f|] == f;
    var s1 := Splice(s, k, Payload(d));
    assert s1[..k + 1] == s[..k] + [TLV_NDEF_MESSAGE];
    assert s1[k + 1 + |f|..] == d + [TLV_TERMINATOR] + s[k + |Payload(d)|..];
  }

  /** With the whole length field written, the message is the new one, complete. */
  lemma FullLength(s: seq<byte>, k: nat, d: seq<byte>)
    requires |d| <= MAX_TLV_LENGTH && k + |Payload(d)| <= |s|
    ensures HoldsNdef(LengthStream(s, k, d, |LengthField(|d|)|), k, LengthFieldSize(|d|), d)
  {
    var f := LengthField(|d|);
    var before, after := s[..k] + [TLV_NDEF_MESSAGE], d + [TLV_TERMINATOR] + s[k + |Payload(d)|..];
    var t := LengthStream(s, k, d, |f|);
    LengthOverPayload(s, k, d);
    assert t == before + f + after;
    LengthRoundTrip(before, |d|, after);
    assert t[k] == TLV_NDEF_MESSAGE;
    assert t[k + 1 + |f|..k + 1 + |f| + |d|] == d;
  }

  // ---- crash consistency ----

  /** The NDEF TLV holds the old message intact, an empty one, or the whole new one. */
  predicate Consistent(s0: seq<byte>, k: nat, d: seq<byte>, s: seq<byte>) {
    || NdefAt(s, k) == NdefAt(s0, k)
    || NdefAt(s, k) == Some([])
    || NdefAt(s, k) == Some(d)
  }

  /** Every state a write can be cut off in is consistent. */
  ghost predicate CrashSafe(layout: MemoryLayout, k: nat, m0: seq<byte>, d: seq<byte>)
    requires IsMemory(m0) && |d| <= MAX_TLV_LENGTH
  {
    forall m :: IsMemory(m) && IsWriteState(layout, k, m0, d, m) ==>
      Consistent(Stream(layout, m0), k, d, Stream(layout, m))
  }

  /** The length field of a message of `n` bytes at offset `k` lies in one block; a one-byte field always does. */
  ghost predicate LengthInOneBlock(layout: MemoryLayout, k: nat, n: nat)
    requires k + 3 < Rank(layout, ADDRESS_SPACE_END)
  {
    n < 0xFF || Select(layout, k + 1).value / 4 == Select(layout, k + 3).value / 4
  }

  /** A page starts inside the three-byte length field exactly if the field is not in one block. */
  lemma PageInsideField(layout: MemoryLayout, k: nat)
    requires k + 3 < Rank(layout, ADDRESS_SPACE_END)
    ensures (PageStartsAfter(layout, k, 2) || PageStartsAfter(layout, k, 3))
       <==> Select(layout, k + 1).value / 4 != Select(layout, k + 3).value / 4
  {
    var a, c := Select(layout, k + 1).value, Select(layout, k + 3).value;
    if p: nat :| 2 <= p <= 3 && PageStartsAfter(layout, k, p) {
      var b: nat :| b % 4 == 0 && Rank(layout, b) == k + p;
      PageBetween(layout, a, b, c);
    }
    if a / 4 != c / 4 {
      var b := c / 4 * 4;
      FieldAcrossPages(layout, k, a, b, c);
    }
  }

  lemma PageBetween(layout: MemoryLayout, a: nat, b: nat, c: nat)
    requires b % 4 == 0 && Rank(layout, a) < Rank(layout, b) <= Rank(layout, c) && Usable(layout, c)
    ensures a / 4 < c / 4
  {
    if b <= a {
      RankMonotone(layout, b, a);
    }
    if c < b {
      RankStrict(layout, c, b);
    }
    AcrossPage(a, b, c);
  }

  lemma AcrossPage(a: nat, b: nat, c: nat)
    requires a < b <= c && b % 4 == 0
    ensures a / 4 < c / 4
  {
  }

  lemma FieldAcrossPages(layout: MemoryLayout, k: nat, a: nat, b: nat, c: nat)
    requires IsNth(layout, k + 1, a) && IsNth(layout, k + 3, c) && b == c / 4 * 4 && a / 4 != c / 4
    ensures PageStartsAfter(layout, k, 2) || PageStartsAfter(layout, k, 3)
  {
    if c < a {
      RankMonotone(layout, c, a);
    }
    assert a < b <= c;
    RankStrict(layout, a, b);
    RankMonotone(layout, b, c);
    assert b % 4 == 0;
  }

  /** With the tag at its place and the length field in one block, a state holds the old memory, no or the whole message. */
  lemma CutContents(layout: MemoryLayout, k: nat, m0: seq<byte>, d: seq<byte>, m: seq<byte>)
    requires IsMemory(m0) && IsMemory(m) && Fits(layout, k, d)
    requires Stream(layout, m0)[k] == TLV_NDEF_MESSAGE
    requires k + 3 < Rank(layout, ADDRESS_SPACE_END) && LengthInOneBlock(layout, k, |d|)
    requires IsWriteState(layout, k, m0, d, m)
    ensures var c := LengthFieldSize(|d|);
      m == m0 || HoldsNdef(Stream(layout, m), k, c, []) || HoldsNdef(Stream(layout, m), k, c, d)
  {
    PageInsideField(layout, k);
    if IsPrefixState(layout, m0, k, Payload(d), m) {
      var p: nat :| IsCut(layout, k, |Payload(d)|, p) && m == Scatter(layout, m0, k, Payload(d), p);
      if p <= 1 {
        TagOnlyState(layout, k, m0, d, p);
      } else {
        PayloadState(layout, k, m0, d, p);
        ZeroLength(Stream(layout, m0), k, d, p);
      }
    } else {
      var m1 := WithPayload(layout, k, m0, d);
      var q: nat :| IsCut(layout, k + 1, |LengthField(|d|)|, q) && m == Scatter(layout, m1, k + 1, LengthField(|d|), q);
      assert IsCut(layout, k, |Payload(d)|, |Payload(d)|);
      assert PageStartsAfter(layout, k + 1, q) ==> PageStartsAfter(layout, k, q + 1);
      LengthState(layout, k, m0, d, q);
      FullLength(Stream(layout, m0), k, d);
    }
  }

  /** Crash consistency: with the tag at its place and the length field in one block, no cut leaves a torn mix. */
  lemma CrashConsistency(layout: MemoryLayout, k: nat, m0: seq<byte>, d: seq<byte>)
    requires IsMemory(m0) && Fits(layout, k, d)
    requires Stream(layout, m0)[k] == TLV_NDEF_MESSAGE
    requires k + 3 < Rank(layout, ADDRESS_SPACE_END) && LengthInOneBlock(layout, k, |d|)
    ensures CrashSafe(layout, k, m0, d)
  {
    forall m | IsMemory(m) && IsWriteState(layout, k, m0, d, m)
      ensures Consistent(Stream(layout, m0), k, d, Stream(layout, m))
    {
      CutConsistent(layout, k, m0, d, m);
    }
  }

  lemma CutConsistent(layout: MemoryLayout, k: nat, m0: seq<byte>, d: seq<byte>, m: seq<byte>)
    requires IsMemory(m0) && IsMemory(m) && Fits(layout, k, d)
    requires Stream(layout, m0)[k] == TLV_NDEF_MESSAGE
    requires k + 3 < Rank(layout, ADDRESS_SPACE_END) && LengthInOneBlock(layout, k, |d|)
    requires IsWriteState(layout, k, m0, d, m)
    ensures Consistent(Stream(layout, m0), k, d, Stream(layout, m))
  {
    CutContents(layout, k, m0, d, m);
    if m != m0 {
      HeldConsistent(Stream(layout, m0), k, LengthFieldSize(|d|), d, Stream(layout, m));
    }
  }

  lemma HeldConsistent(s0: seq<byte>, k: nat, c: nat, d: seq<byte>, s: seq<byte>)
    requires HoldsNdef(s, k, c, []) || HoldsNdef(s, k, c, d)
    ensures Consistent(s0, k, d, s)
  {
  }

  // ---- a length field across two blocks ----

  /** The old header of a message of two bytes that, half overwritten, declares five bytes. */
  const TRAP: seq<byte> := [TLV_NDEF_MESSAGE, 0x02, 0x00, 0x05]

  function Zeros(n: nat): (s: seq<byte>)
    ensures |s| == n && forall i :: 0 <= i < n ==> s[i] == 0
  {
    seq(n, i => 0)
  }

  lemma TrapStream(s: seq<byte>, k: nat, d: seq<byte>, p: nat)
    requires k + |Payload(d)| <= |s| && |d| >= 0xFF && 2 <= p <= 3 && s[k..k + 4] == TRAP
    ensures NdefAt(s, k).Some? && |NdefAt(s, k).value| == 2
    ensures NdefAt(PayloadStream(s, k, d, p), k).Some? && |NdefAt(PayloadStream(s, k, d, p), k).value| == 5
  {
    var h := s[k..k + 4];
    assert s[k] == h[0] && s[k + 1] == h[1] && s[k + 2] == h[2] && s[k + 3] == h[3];
    assert s[k] == TRAP[0] && s[k + 1] == TRAP[1] && s[k + 2] == TRAP[2] && s[k + 3] == TRAP[3];
    var t := PayloadStream(s, k, d, p);
    assert t[k] == Payload(d)[0] && t[k + 1] == Payload(d)[1];
    assert t[k + 2] == 0 && t[k + 3] == 5;
  }

  /** A page boundary inside the length field tears every message that replaces such a one. */
  lemma TornLength(layout: MemoryLayout, k: nat, m0: seq<byte>, d: seq<byte>, p: nat)
    requires IsMemory(m0) && Fits(layout, k, d) && |d| >= 0xFF
    requires 2 <= p <= 3 && PageStartsAfter(layout, k, p)
    requires Stream(layout, m0)[k..k + 4] == TRAP
    ensures !CrashSafe(layout, k, m0, d)
  {
    TrapStream(Stream(layout, m0), k, d, p);
    var m := Scatter(layout, m0, k, Payload(d), p);
    PayloadState(layout, k, m0, d, p);
    assert IsCut(layout, k, |Payload(d)|, p);
    assert IsWriteState(layout, k, m0, d, m);
    assert !Consistent(Stream(layout, m0), k, d, Stream(layout, m));
  }

  // ---- parsing a zero length ----

  /** Tag and zero length of the payload of a message of `n` bytes. */
  function ZeroHeader(n: nat): (h: seq<byte>)
    ensures |h| == 1 + LengthFieldSize(n)
  {
    [TLV_NDEF_MESSAGE] + if n < 0xFF then [0x00] else [0xFF, 0x00, 0x00]
  }

  lemma PayloadHeader(d: seq<byte>)
    ensures Payload(d)[..1 + LengthFieldSize(|d|)] == ZeroHeader(|d|)
  {
  }

  /** While the length is zero the bytes behind it, the message's own, are parsed as TLVs. */
  lemma ZeroLengthParses(s: seq<byte>, t: seq<byte>, k: nat, h: nat, n: nat)
    requires NdefPosition(s) == Some(k) && h == k + 1 + LengthFieldSize(n) <= |t| && s[..k] == t[..k]
    requires t[k..h] == ZeroHeader(n)
    ensures Parse(t) == Then(Before(s) + [NdefMessage([])], Parse(t[h..]))
  {
    InThree(t, k, h);
    EmptyNdefBehind(s, k, n, t[h..], t);
  }

  lemma InThree(t: seq<byte>, k: nat, h: nat)
    requires k <= h <= |t|
    ensures t == t[..k] + (t[k..h] + t[h..])
  {
  }

  lemma EmptyNdefBehind(s: seq<byte>, k: nat, n: nat, rest: seq<byte>, t: seq<byte>)
    requires NdefPosition(s) == Some(k) && t == s[..k] + (ZeroHeader(n) + rest)
    ensures Parse(t) == Then(Before(s) + [NdefMessage([])], Parse(rest))
  {
    var u := ZeroHeader(n) + rest;
    assert t[..k] == s[..k] && t[k..] == u;
    PrefixParses(s, t);
    EmptyNdefBlock(n, rest);
    ThenLaws(Parse(rest), Before(s), [NdefMessage([])]);
  }

  lemma EmptyNdefBlock(n: nat, rest: seq<byte>)
    ensures Parse(ZeroHeader(n) + rest) == Then([NdefMessage([])], Parse(rest))
  {
    var u := ZeroHeader(n) + rest;
    EmptyNdefHeader(u, n);
    assert u[1 + LengthFieldSize(n)..] == rest;
    assert Listed(Some(NdefMessage([]))) == [NdefMessage([])];
  }

  lemma EmptyNdefHeader(u: seq<byte>, n: nat)
    requires 1 + LengthFieldSize(n) <= |u|
    requires forall i :: 0 <= i <= LengthFieldSize(n) ==> u[i] == ZeroHeader(n)[i]
    ensures ParseBlock(u) == Ok(Block(Some(NdefMessage([])), 1 + LengthFieldSize(n)))
  {
    var c := LengthFieldSize(n);
    assert ParseLength(u, 1) == Ok((0, c));
    assert u[1 + c..1 + c] == [];
  }

  lemma {:induction false} FirstNdefAfter(before: seq<Tlv>, rest: seq<Tlv>)
    requires forall t :: t in before ==> !t.NdefMessage?
    ensures FirstNdef(before + rest) == FirstNdef(rest)
  {
    if before == [] {
      assert before + rest == rest;
    } else {
      assert (before + rest)[1..] == before[1..] + rest;
      FirstNdefAfter(before[1..], rest);
    }
  }
}
