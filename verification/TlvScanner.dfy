/** The byte-at-a-time Terminator scanner (src/type2/reader.rs) and its agreement with the parser. */
module TlvScanner {
  import opened Basics
  import opened TlvLength
  import opened Tlv
  import opened TlvParser

  datatype ScanState =
    | AtTag
    | AtLength
    | AtLengthMsb
    | AtLengthLsb(msb: byte)
    | InValue(remaining: u16)

  /** The state after a byte that is not a Terminator tag. */
  function NextState(st: ScanState, b: byte): ScanState {
    match st
    case AtTag => if b == TLV_NULL then AtTag else AtLength
    case AtLength => if b == 0xFF then AtLengthMsb else if b == 0 then AtTag else InValue(b)
    case AtLengthMsb => AtLengthLsb(b)
    case AtLengthLsb(msb) => if BigEndian(msb, b) == 0 then AtTag else InValue(BigEndian(msb, b))
    case InValue(remaining) => if remaining <= 1 then AtTag else InValue(remaining - 1)
  }

  predicate Fires(st: ScanState, b: byte) {
    st == AtTag && b == TLV_TERMINATOR
  }

  class Scanner {
    var state: ScanState

    constructor ()
      ensures state == AtTag
    {
      state := AtTag;
    }

    method Feed(b: byte) returns (fired: bool)
      modifies this
      ensures fired == Fires(old(state), b)
      ensures state == if fired then old(state) else NextState(old(state), b)
    {
      match state {
        case AtTag =>
          if b == TLV_TERMINATOR {
            return true;
          } else if b != TLV_NULL {
            state := AtLength;
          }
        case AtLength =>
          if b == 0xFF {
            state := AtLengthMsb;
          } else if b == 0 {
            state := AtTag;
          } else {
            state := InValue(b);
          }
        case AtLengthMsb =>
          state := AtLengthLsb(b);
        case AtLengthLsb(msb) =>
          var len := BigEndian(msb, b);
          state := if len == 0 then AtTag else InValue(len);
        case InValue(remaining) =>
          state := if remaining <= 1 then AtTag else InValue(remaining - 1);
      }
      return false;
    }
  }

  /** Where the scanner, started in `st`, first fires on a stream. */
  function FirstFire(st: ScanState, s: seq<byte>): (k: Option<nat>)
    ensures k.Some? ==> k.value < |s| && s[k.value] == TLV_TERMINATOR
    decreases |s|
  {
    if s == [] then
      None
    else if Fires(st, s[0]) then
      Some(0)
    else
      Shifted(FirstFire(NextState(st, s[0]), s[1..]), 1)
  }

  function Shifted(k: Option<nat>, n: nat): Option<nat> {
    if k.Some? then Some(k.value + n) else None
  }

  /** The state after a stream on which the scanner has not fired. */
  function StateAfter(st: ScanState, s: seq<byte>): ScanState
    decreases |s|
  {
    if s == [] then st else StateAfter(NextState(st, s[0]), s[1..])
  }

  /** Feeding one more byte. */
  lemma {:induction false} FeedNext(st: ScanState, s: seq<byte>, b: byte)
    requires FirstFire(st, s) == None
    ensures StateAfter(st, s + [b]) == NextState(StateAfter(st, s), b)
    ensures FirstFire(st, s + [b]) == if Fires(StateAfter(st, s), b) then Some(|s|) else None
    decreases |s|
  {
    if s == [] {
      assert [b][1..] == [];
      assert s + [b] == [b];
    } else {
      FeedNext(NextState(st, s[0]), s[1..], b);
      assert (s + [b])[1..] == s[1..] + [b];
    }
  }

  /** Firing is decided by the bytes up to the firing position. */
  lemma {:induction false} FirstFireIsLocal(st: ScanState, s: seq<byte>, n: nat)
    requires n <= |s|
    ensures FirstFire(st, s[..n]) ==
      if FirstFire(st, s).Some? && FirstFire(st, s).value < n then FirstFire(st, s) else None
    decreases |s|
  {
    if n > 0 && !Fires(st, s[0]) {
      assert s[..n][1..] == s[1..][..n - 1];
      FirstFireIsLocal(NextState(st, s[0]), s[1..], n - 1);
    }
  }

  // ---- the scanner steps over exactly one block at a time ----

  /** The scanner's position `n` bytes further on, back at a tag, if the stream reaches it. */
  function FireAfter(s: seq<byte>, n: nat): Option<nat> {
    if |s| < n then None else Shifted(FirstFire(AtTag, s[n..]), n)
  }

  /** Started in `st`, the scanner goes to a tag `n` bytes further on without firing. */
  predicate Reaches(st: ScanState, s: seq<byte>, n: nat) {
    FirstFire(st, s) == FireAfter(s, n)
  }

  /** One byte, and then from the next state on. */
  lemma ReachStep(st: ScanState, s: seq<byte>, next: ScanState, n: nat, n1: nat)
    requires s != [] && !Fires(st, s[0]) && next == NextState(st, s[0])
    requires Reaches(next, s[1..], n) && n1 == n + 1
    ensures Reaches(st, s, n1)
  {
    if |s| >= n1 {
      assert s[1..][n..] == s[n1..];
    }
  }

  lemma ReachNow(s: seq<byte>)
    ensures Reaches(AtTag, s, 0)
  {
    assert s[0..] == s;
  }

  lemma {:induction false} ScanValue(s: seq<byte>, n: nat)
    requires 1 <= n < 0x1_0000
    ensures Reaches(InValue(n), s, n)
  {
    if s != [] {
      if n == 1 {
        ReachNow(s[1..]);
        ReachStep(InValue(1), s, AtTag, 0, 1);
      } else {
        ScanValue(s[1..], n - 1);
        ReachStep(InValue(n), s, InValue(n - 1), n - 1, n);
      }
    }
  }

  /** The state in front of a value of `len` bytes. */
  function ValueState(len: u16): ScanState {
    if len == 0 then AtTag else InValue(len)
  }

  lemma ScanRest(s: seq<byte>, len: u16)
    ensures Reaches(ValueState(len), s, len)
  {
    if len > 0 {
      ScanValue(s, len);
    } else {
      ReachNow(s);
    }
  }

  predicate HasLength(tag: byte) {
    tag != TLV_NULL && tag != TLV_TERMINATOR
  }

  lemma ScanShortLength(s: seq<byte>, len: nat)
    requires s != [] && s[0] < 0xFF && len == s[0]
    ensures Reaches(AtLength, s, 1 + len)
  {
    ScanRest(s[1..], len);
    ReachStep(AtLength, s, ValueState(len), len, 1 + len);
  }

  lemma ScanLsb(msb: byte, s: seq<byte>, len: nat)
    requires s != [] && len == BigEndian(msb, s[0])
    ensures Reaches(AtLengthLsb(msb), s, 1 + len)
  {
    ScanRest(s[1..], len);
    ReachStep(AtLengthLsb(msb), s, ValueState(len), len, 1 + len);
  }

  lemma ScanMsb(s: seq<byte>, len: nat)
    requires |s| >= 2 && len == BigEndian(s[0], s[1])
    ensures Reaches(AtLengthMsb, s, 2 + len)
  {
    ScanLsb(s[0], s[1..], len);
    ReachStep(AtLengthMsb, s, AtLengthLsb(s[0]), 1 + len, 2 + len);
  }

  lemma ScanLongLength(s: seq<byte>, len: nat)
    requires |s| >= 3 && s[0] == 0xFF && len == BigEndian(s[1], s[2])
    ensures Reaches(AtLength, s, 3 + len)
  {
    ScanMsb(s[1..], len);
    ReachStep(AtLength, s, AtLengthMsb, 2 + len, 3 + len);
  }

  /** A length field that is cut off never fires. */
  lemma ScanShort(s: seq<byte>)
    requires |s| == 0 || (s[0] == 0xFF && |s| < 3)
    ensures FirstFire(AtLength, s).None?
  {
    if |s| == 2 {
      assert s[1..][1..] == [];
      assert FirstFire(AtLengthMsb, s[1..]).None?;
    }
  }

  /** From a tag with a length field the scanner goes to the tag after that block's value, if the stream reaches it. */
  lemma ScanBlock(s: seq<byte>)
    requires s != [] && HasLength(s[0])
    ensures ParseLength(s, 1).Err? ==> FirstFire(AtTag, s).None?
    ensures ParseLength(s, 1).Ok? ==>
      Reaches(AtTag, s, 1 + ParseLength(s, 1).value.1 + ParseLength(s, 1).value.0)
  {
    if ParseLength(s, 1).Err? {
      ScanNoField(s);
    } else {
      ScanField(s, ParseLength(s, 1).value.0, ParseLength(s, 1).value.1);
    }
  }

  lemma ScanNoField(s: seq<byte>)
    requires s != [] && HasLength(s[0]) && ParseLength(s, 1).Err?
    ensures FirstFire(AtTag, s).None?
  {
    ScanShort(s[1..]);
  }

  lemma ScanField(s: seq<byte>, len: nat, consumed: nat)
    requires s != [] && HasLength(s[0]) && ParseLength(s, 1).Ok? && ParseLength(s, 1).value == (len, consumed)
    ensures Reaches(AtTag, s, 1 + consumed + len)
  {
    if s[1] < 0xFF {
      ScanShortLength(s[1..], len);
      ReachStep(AtTag, s, AtLength, 1 + len, 1 + 1 + len);
    } else {
      ScanLongLength(s[1..], len);
      ReachStep(AtTag, s, AtLength, 3 + len, 1 + 3 + len);
    }
  }

  /** A block with a length field that is cut off after its end parses, or fails, as it does in the whole stream. */
  lemma BlockInPrefix(s: seq<byte>, n: nat)
    requires s != [] && HasLength(s[0])
    requires ParseLength(s, 1).Ok?
    requires 1 + ParseLength(s, 1).value.1 + ParseLength(s, 1).value.0 <= n <= |s|
    ensures ParseBlock(s[..n]) == ParseBlock(s)
  {
    var t := s[..n];
    var (len, consumed) := ParseLength(s, 1).value;
    var v := 1 + consumed;
    assert ParseLength(t, 1) == ParseLength(s, 1);
    SliceOfPrefix(s, n, v, v + len);
  }

  lemma SliceOfPrefix(s: seq<byte>, n: nat, a: nat, b: nat)
    requires a <= b <= n <= |s|
    ensures s[..n][a..b] == s[a..b]
  {
  }

  lemma KnownBlockSize(s: seq<byte>)
    requires s != [] && HasLength(s[0]) && ParseBlock(s).Ok?
    ensures ParseLength(s, 1).Ok?
    ensures ParseBlock(s).value.size == 1 + ParseLength(s, 1).value.1 + ParseLength(s, 1).value.0
    ensures ParseBlock(s).value.tlv != Some(Terminator)
  {
  }

  /** The scanner steps over every block the parser accepts. */
  lemma ScanStep(s: seq<byte>, n: nat)
    requires s != [] && ParseBlock(s).Ok? && ParseBlock(s).value.tlv != Some(Terminator) && n == ParseBlock(s).value.size
    ensures Reaches(AtTag, s, n)
  {
    if HasLength(s[0]) {
      ScanBlock(s);
      KnownBlockSize(s);
    }
  }

  /** Both streams have the same first `k` bytes, and an NDEF TLV follows in the first. */
  predicate SharesPrefix(s: seq<byte>, t: seq<byte>, k: nat) {
    NdefIsAt(s, k) && k <= |t| && s[..k] == t[..k]
  }

  /** Up to the NDEF TLV the scanner goes the parser's way, whatever replaces the stream from there on. */
  lemma {:induction false} PrefixScans(s: seq<byte>, t: seq<byte>, k: nat)
    requires SharesPrefix(s, t, k)
    ensures Reaches(AtTag, t, k)
  {
    if s[0] == TLV_NDEF_MESSAGE {
      NoStep(s, t, k);
    } else {
      var n := FirstStep(s, t, k);
      PrefixScans(s[n..], t[n..], k - n);
      ReachFurther(t, n, k);
    }
  }

  lemma NoStep(s: seq<byte>, t: seq<byte>, k: nat)
    requires NdefIsAt(s, k) && s[0] == TLV_NDEF_MESSAGE
    ensures Reaches(AtTag, t, k)
  {
    NdefNow(s);
    ReachNow(t);
  }

  /** Over the first block before the NDEF TLV, in two streams that agree up to there. */
  lemma FirstStep(s: seq<byte>, t: seq<byte>, k: nat) returns (n: nat)
    requires SharesPrefix(s, t, k) && s[0] != TLV_NDEF_MESSAGE
    ensures 1 <= n <= k <= |s| && k <= |t| && SharesPrefix(s[n..], t[n..], k - n)
    ensures Reaches(AtTag, t, n)
  {
    NdefLater(s);
    n := ParseBlock(s).value.size;
    SharedFirst(s, t, k, n);
    ScanStep(t, n);
  }

  lemma SharedFirst(s: seq<byte>, t: seq<byte>, k: nat, n: nat)
    requires SharesPrefix(s, t, k) && s[0] != TLV_NDEF_MESSAGE && ParseBlock(s).Ok? && n == ParseBlock(s).value.size
    ensures t != [] && ParseBlock(t) == ParseBlock(s) && ParseBlock(s).value.tlv != Some(Terminator)
    ensures 1 <= n <= k <= |s| && k <= |t| && SharesPrefix(s[n..], t[n..], k - n)
  {
    NdefLater(s);
    SharedBlock(s, t, k);
  }

  /** What fires on its last byte does so behind other blocks, too. */
  lemma FiresBehind(t: seq<byte>, k: nat, b: seq<byte>)
    requires k <= |t| && t[k..] == b && Reaches(AtTag, t, k) && FirstFire(AtTag, b) == Some(|b| - 1)
    ensures FirstFire(AtTag, t) == Some(|t| - 1)
  {
  }

  lemma ReachFurther(t: seq<byte>, n: nat, k: nat)
    requires n <= k <= |t| && Reaches(AtTag, t, n) && Reaches(AtTag, t[n..], k - n)
    ensures Reaches(AtTag, t, k)
  {
    assert t[n..][k - n..] == t[k..];
  }

  /** Stopping the read where the scanner fires loses nothing: the parse, or its failure, is the same. */
  lemma {:induction false} ScannerAgrees(s: seq<byte>)
    requires FirstFire(AtTag, s).Some?
    ensures Parse(s[..FirstFire(AtTag, s).value + 1]) == Parse(s)
  {
    ScannedAgrees(s, FirstFire(AtTag, s).value + 1);
  }

  /** The scanner fires on the last of the first `end` bytes. */
  predicate ScannedUpTo(s: seq<byte>, end: nat) {
    FirstFire(AtTag, s).Some? && FirstFire(AtTag, s).value + 1 == end
  }

  predicate SameParse(s: seq<byte>, t: seq<byte>) {
    Parse(s) == Parse(t)
  }

  lemma {:induction false} ScannedAgrees(s: seq<byte>, end: nat)
    requires ScannedUpTo(s, end)
    ensures SameParse(s[..end], s)
  {
    if s[0] == TLV_TERMINATOR {
      assert s[..1][0] == TLV_TERMINATOR;
    } else {
      var n := StepOver(s, end);
      ScannedAgrees(s[n..], end - n);
      if s[0] == TLV_NULL {
        AgreesAfterNull(s, end);
      } else {
        AgreesAfterBlock(s, n, end);
      }
    }
  }

  /** Where the scanner is at a tag again. */
  lemma StepOver(s: seq<byte>, end: nat) returns (n: nat)
    requires ScannedUpTo(s, end) && s[0] != TLV_TERMINATOR
    ensures 1 <= n < end && ScannedUpTo(s[n..], end - n)
    ensures s[0] == TLV_NULL ==> n == 1
    ensures HasLength(s[0]) ==>
      ParseLength(s, 1).Ok? && n == 1 + ParseLength(s, 1).value.1 + ParseLength(s, 1).value.0
  {
    if s[0] == TLV_NULL {
      n := 1;
    } else {
      ScanBlock(s);
      n := 1 + ParseLength(s, 1).value.1 + ParseLength(s, 1).value.0;
    }
  }

  lemma AgreesAfterNull(s: seq<byte>, end: nat)
    requires s != [] && s[0] == TLV_NULL && 1 <= end <= |s| && SameParse(s[1..][..end - 1], s[1..])
    ensures SameParse(s[..end], s)
  {
    PrefixTail(s, 1, end);
    SameStep(s, s[..end], 1);
  }

  lemma AgreesAfterBlock(s: seq<byte>, n: nat, end: nat)
    requires s != [] && HasLength(s[0]) && ParseLength(s, 1).Ok?
    requires n == 1 + ParseLength(s, 1).value.1 + ParseLength(s, 1).value.0
    requires n <= end <= |s| && SameParse(s[n..][..end - n], s[n..])
    ensures SameParse(s[..end], s)
  {
    BlockInPrefix(s, end);
    if ParseBlock(s).Ok? {
      KnownBlockSize(s);
    }
    PrefixTail(s, n, end);
    SameStep(s, s[..end], n);
  }

  lemma PrefixTail(s: seq<byte>, n: nat, end: nat)
    requires n <= end <= |s|
    ensures s[..end][n..] == s[n..][..end - n]
  {
  }

  /** Streams that share a block of `n` bytes and parse the same behind it parse the same. */
  lemma SameStep(s: seq<byte>, t: seq<byte>, n: nat)
    requires s != [] && t != [] && ParseBlock(t) == ParseBlock(s)
    requires ParseBlock(s).Ok? ==> ParseBlock(s).value.size == n && SameParse(t[n..], s[n..])
    ensures SameParse(t, s)
  {
  }

  /** A stream that parses lists a Terminator exactly when the scanner fires, and was parsed up to that byte. */
  lemma {:induction false} ScannerFindsTerminator(s: seq<byte>)
    requires Parse(s).Ok?
    ensures FirstFire(AtTag, s).Some? <==> Terminator in Parse(s).value
    ensures FirstFire(AtTag, s).Some? ==> ParsedBytes(s) == FirstFire(AtTag, s).value + 1
  {
    if s != [] && s[0] != TLV_TERMINATOR {
      var b := ParseBlock(s).value;
      if HasLength(s[0]) {
        ScanBlock(s);
        KnownBlockSize(s);
      }
      ScannerFindsTerminator(s[b.size..]);
    }
  }

  /** Nothing is listed after a Terminator. */
  lemma {:induction false} TerminatorComesLast(s: seq<byte>)
    requires Parse(s).Ok?
    ensures forall i :: 0 <= i < |Parse(s).value| - 1 ==> Parse(s).value[i] != Terminator
  {
    if s != [] && ParseBlock(s).value.tlv != Some(Terminator) {
      TerminatorComesLast(s[ParseBlock(s).value.size..]);
    }
  }

  /** How many bytes of a stream the parser looks at before it succeeds. */
  function ParsedBytes(s: seq<byte>): nat
    requires Parse(s).Ok?
  {
    if s == [] then 0
    else
      var b := ParseBlock(s).value;
      if b.tlv == Some(Terminator) then b.size else b.size + ParsedBytes(s[b.size..])
  }
}
