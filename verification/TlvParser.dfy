/** The TLV parser (src/type2/tlv.rs) and where it finds the NDEF Message TLV. */
module TlvParser {
  import opened Basics
  import opened TlvLength
  import opened Tlv

  /** One block read off the front of a stream: the TLV, or nothing for an unknown kind, and its size. */
  datatype Block = Block(tlv: Option<Tlv>, size: nat)

  function ParseBlock(s: seq<byte>): (r: Result<Block, Type2Error>)
    requires s != []
    ensures r.Ok? ==> 1 <= r.value.size <= |s|
  {
    if s[0] == TLV_NULL then
      Ok(Block(Some(Null), 1))
    else if s[0] == TLV_TERMINATOR then
      Ok(Block(Some(Terminator), 1))
    else
      var (len, consumed) :- ParseLength(s, 1);
      var v := 1 + consumed;
      if s[0] == TLV_LOCK_CONTROL || s[0] == TLV_MEMORY_CONTROL then
        if len != 3 || v + 3 > |s| then
          Err(InvalidTlv)
        else if s[0] == TLV_LOCK_CONTROL then
          var lock :- LockControlValue.FromBytes(s[v], s[v + 1], s[v + 2]);
          Ok(Block(Some(LockControl(lock)), v + 3))
        else
          var memory :- MemoryControlValue.FromBytes(s[v], s[v + 1], s[v + 2]);
          Ok(Block(Some(MemoryControl(memory)), v + 3))
      else if v + len > |s| then
        Err(InvalidTlv)
      else if s[0] == TLV_NDEF_MESSAGE then
        Ok(Block(Some(NdefMessage(s[v..v + len])), v + len))
      else if s[0] == TLV_PROPRIETARY then
        Ok(Block(Some(Proprietary(s[v..v + len])), v + len))
      else
        Ok(Block(None, v + len))
  }

  /** The kinds without a length: one byte each. */
  lemma OneByteBlocks(rest: seq<byte>)
    ensures ParseBlock([0x00] + rest) == Ok(Block(Some(Null), 1))
    ensures ParseBlock([0xFE] + rest) == Ok(Block(Some(Terminator), 1))
  {
  }

  /** The kinds with a length: a tag byte, a field of either format for the length of the value, and the value. */
  lemma ValueBlock(tag: byte, f: seq<byte>, v: seq<byte>, rest: seq<byte>)
    requires tag != 0x00 && tag != 0xFE && DeclaresLength(f, |v|)
    ensures var r, size := ParseBlock([tag] + f + v + rest), 1 + |f| + |v|;
      && (tag == 0x03 ==> r == Ok(Block(Some(NdefMessage(v)), size)))
      && (tag == 0xFD ==> r == Ok(Block(Some(Proprietary(v)), size)))
      && (tag !in {0x01, 0x02, 0x03, 0xFD} ==> r == Ok(Block(None, size)))
      && (tag in {0x01, 0x02} && |v| != 3 ==> r == Err(InvalidTlv))
  {
    var s := [tag] + f + v + rest;
    assert s == [tag] + f + (v + rest);
    DeclaredLength([tag], f, |v|, v + rest);
    assert s[1 + |f|..1 + |f| + |v|] == v;
  }

  /** The control kinds: the three bytes of the value are the descriptor. */
  lemma ControlBlock(f: seq<byte>, b0: byte, b1: byte, b2: byte, rest: seq<byte>)
    requires DeclaresLength(f, 3)
    ensures ParseBlock([0x01] + f + [b0, b1, b2] + rest) ==
      match LockControlValue.FromBytes(b0, b1, b2)
      case Ok(lock) => Ok(Block(Some(LockControl(lock)), |f| + 4))
      case Err(e) => Err(e)
    ensures ParseBlock([0x02] + f + [b0, b1, b2] + rest) ==
      match MemoryControlValue.FromBytes(b0, b1, b2)
      case Ok(memory) => Ok(Block(Some(MemoryControl(memory)), |f| + 4))
      case Err(e) => Err(e)
  {
    ControlField(0x01, f, [b0, b1, b2], rest);
    ControlField(0x02, f, [b0, b1, b2], rest);
  }

  lemma ControlField(tag: byte, f: seq<byte>, v: seq<byte>, rest: seq<byte>)
    requires DeclaresLength(f, 3) && |v| == 3
    ensures var s := [tag] + f + v + rest;
      ParseLength(s, 1) == Ok((3, |f|)) && s[1 + |f|..|f| + 4] == v
  {
    var s := [tag] + f + v + rest;
    assert s == [tag] + f + (v + rest);
    DeclaredLength([tag], f, 3, v + rest);
  }

  /** Nothing else is a block: a stream that parses starts with a complete field and as many bytes as it declares. */
  lemma BlockComplete(s: seq<byte>)
    requires s != [] && s[0] != 0x00 && s[0] != 0xFE && ParseBlock(s).Ok?
    ensures exists f, v :: DeclaresLength(f, |v|) && [s[0]] + f + v == s[..ParseBlock(s).value.size]
  {
    var (len, consumed) := ParseLength(s, 1).value;
    FieldAndValue(s, len, 1 + consumed);
  }

  lemma FieldAndValue(s: seq<byte>, len: nat, v: nat)
    requires ParseLength(s, 1).Ok? && ParseLength(s, 1).value == (len, v - 1) && v + len <= |s|
    ensures DeclaresLength(s[1..v], |s[v..v + len]|) && [s[0]] + s[1..v] + s[v..v + len] == s[..v + len]
  {
  }

  function Listed(t: Option<Tlv>): seq<Tlv> {
    if t.Some? then [t.value] else []
  }

  /** Puts TLVs in front of a parse result. */
  function Then(ts: seq<Tlv>, r: Result<seq<Tlv>, Type2Error>): Result<seq<Tlv>, Type2Error> {
    if r.Ok? then Ok(ts + r.value) else r
  }

  lemma ThenLaws(r: Result<seq<Tlv>, Type2Error>, a: seq<Tlv>, b: seq<Tlv>)
    ensures Then([], r) == r
    ensures Then(a, Then(b, r)) == Then(a + b, r)
  {
    if r.Ok? {
      assert [] + r.value == r.value;
      assert a + (b + r.value) == a + b + r.value;
    }
  }

  /** The TLVs of a stream: parsing ends at a Terminator or at the end, and fails with the first bad block. */
  function Parse(s: seq<byte>): (r: Result<seq<Tlv>, Type2Error>)
    ensures r.Err? ==> r.error == InvalidTlv
  {
    if s == [] then
      Ok([])
    else
      var b :- ParseBlock(s);
      if b.tlv == Some(Terminator) then
        Ok([Terminator])
      else
        Then(Listed(b.tlv), Parse(s[b.size..]))
  }

  /** The block at an offset: one turn of the parser's loop. */
  method NextBlock(data: seq<byte>, start: nat) returns (r: Result<Block, Type2Error>)
    requires start < |data|
    ensures r == ParseBlock(data[start..])
  {
    var tag := data[start];
    var offset := start + 1;
    if tag == TLV_NULL {
      return Ok(Block(Some(Null), 1));
    } else if tag == TLV_TERMINATOR {
      return Ok(Block(Some(Terminator), 1));
    }
    var header := ParseLength(data, offset);
    assert header == ParseLength(data[start..], 1);
    if header.Err? {
      return Err(InvalidTlv);
    }
    var (len, consumed) := header.value;
    offset := offset + consumed;
    if tag == TLV_LOCK_CONTROL || tag == TLV_MEMORY_CONTROL {
      if len != 3 || offset + 3 > |data| {
        return Err(InvalidTlv);
      }
      if tag == TLV_LOCK_CONTROL {
        var lock :- LockControlValue.FromBytes(data[offset], data[offset + 1], data[offset + 2]);
        return Ok(Block(Some(LockControl(lock)), offset + 3 - start));
      } else {
        var memory :- MemoryControlValue.FromBytes(data[offset], data[offset + 1], data[offset + 2]);
        return Ok(Block(Some(MemoryControl(memory)), offset + 3 - start));
      }
    }
    if offset + len > |data| {
      return Err(InvalidTlv);
    }
    var value := data[offset..offset + len];
    assert value == data[start..][1 + consumed..1 + consumed + len];
    var size := offset + len - start;
    if tag == TLV_NDEF_MESSAGE {
      r := Ok(Block(Some(NdefMessage(value)), size));
    } else if tag == TLV_PROPRIETARY {
      r := Ok(Block(Some(Proprietary(value)), size));
    } else {
      r := Ok(Block(None, size));
    }
  }

  /** The parser's loop over an offset computes `Parse`. */
  method ParseTlvs(data: seq<byte>) returns (r: Result<seq<Tlv>, Type2Error>)
    ensures r == Parse(data)
  {
    var out: seq<Tlv> := [];
    var offset := 0;
    ParseStart(data);
    while offset < |data|
      invariant offset <= |data|
      invariant ParsedUpTo(data, offset, out)
    {
      var block := NextBlock(data, offset);
      ParseStep(data, offset, block, out);
      if block.Err? {
        return Err(block.error);
      }
      offset := offset + block.value.size;
      out := out + Listed(block.value.tlv);
      if EndsStream(block.value) {
        return Ok(out);
      }
    }
    ParseEnd(data, out);
    r := Ok(out);
  }

  /** Parsing stops at this block. */
  predicate EndsStream(b: Block) {
    b.tlv.Some? && b.tlv.value.Terminator?
  }

  /** The parse of all data is `out` followed by the parse of what is left. */
  predicate ParsedUpTo(data: seq<byte>, offset: nat, out: seq<Tlv>)
    requires offset <= |data|
  {
    Parse(data) == Then(out, Parse(data[offset..]))
  }

  predicate ParsesTo(data: seq<byte>, r: Result<seq<Tlv>, Type2Error>) {
    Parse(data) == r
  }

  lemma ParseStart(data: seq<byte>)
    ensures ParsedUpTo(data, 0, [])
  {
    assert data[0..] == data;
    ThenLaws(Parse(data), [], []);
  }

  /** What one turn of the loop adds to the TLVs found so far. */
  lemma ParseStep(data: seq<byte>, offset: nat, r: Result<Block, Type2Error>, out: seq<Tlv>)
    requires offset < |data| && r == ParseBlock(data[offset..]) && ParsedUpTo(data, offset, out)
    ensures r.Err? ==> ParsesTo(data, Err(r.error))
    ensures r.Ok? ==> offset + r.value.size <= |data|
    ensures r.Ok? && EndsStream(r.value) ==> ParsesTo(data, Ok(out + Listed(r.value.tlv)))
    ensures r.Ok? && !EndsStream(r.value) ==> ParsedUpTo(data, offset + r.value.size, out + Listed(r.value.tlv))
  {
    if r.Ok? {
      assert data[offset..][r.value.size..] == data[offset + r.value.size..];
    }
    BlockThenRest(data[offset..], r, out);
  }

  lemma BlockThenRest(s: seq<byte>, r: Result<Block, Type2Error>, out: seq<Tlv>)
    requires s != [] && r == ParseBlock(s)
    ensures Then(out, Parse(s)) ==
      if r.Err? then Err(r.error)
      else if r.value.tlv == Some(Terminator) then Ok(out + Listed(r.value.tlv))
      else Then(out + Listed(r.value.tlv), Parse(s[r.value.size..]))
  {
    if r.Ok? {
      ThenLaws(Parse(s[r.value.size..]), out, Listed(r.value.tlv));
    }
  }

  lemma ParseEnd(data: seq<byte>, out: seq<Tlv>)
    requires ParsedUpTo(data, |data|, out)
    ensures ParsesTo(data, Ok(out))
  {
    assert out + [] == out;
  }

  // ---- locality: a block depends only on its own bytes ----

  lemma BlockIsLocal(s: seq<byte>, t: seq<byte>)
    requires s != [] && ParseBlock(s).Ok?
    requires ParseBlock(s).value.size <= |t|
    requires var n := ParseBlock(s).value.size; s[..n] == t[..n]
    ensures t != [] && ParseBlock(t) == ParseBlock(s)
  {
    var n := ParseBlock(s).value.size;
    assert forall i :: 0 <= i < n ==> s[i] == s[..n][i] == t[..n][i] == t[i];
    if s[0] != TLV_NULL && s[0] != TLV_TERMINATOR {
      var (len, consumed) := ParseLength(s, 1).value;
      assert ParseLength(t, 1) == ParseLength(s, 1);
      var v := 1 + consumed;
      if s[0] != TLV_LOCK_CONTROL && s[0] != TLV_MEMORY_CONTROL {
        assert s[v..v + len] == t[v..v + len];
      }
    }
  }

  // ---- round trip ----

  /** The canonical encoding of a list of TLVs. */
  function PrintAll(ts: seq<Tlv>): (s: seq<byte>)
    requires forall t :: t in ts ==> t.WellFormed()
  {
    if ts == [] then [] else ts[0].ToBytes().value + PrintAll(ts[1..])
  }

  lemma BlockRoundTrip(t: Tlv, rest: seq<byte>)
    requires t.WellFormed()
    ensures var b := t.ToBytes().value;
      b != [] && ParseBlock(b + rest) == Ok(Block(Some(t), |b|))
  {
    var b := t.ToBytes().value;
    var s := b + rest;
    match t {
      case LockControl(v) =>
        LockControlRoundTrip(v);
        assert s[2..5] == v.ToBytes();
      case MemoryControl(v) =>
        MemoryControlRoundTrip(v);
        assert s[2..5] == v.ToBytes();
      case NdefMessage(d) =>
        ValueRoundTrip(TLV_NDEF_MESSAGE, d, rest);
      case Proprietary(d) =>
        ValueRoundTrip(TLV_PROPRIETARY, d, rest);
      case _ =>
    }
  }

  lemma ValueRoundTrip(tag: byte, d: seq<byte>, rest: seq<byte>)
    requires |d| <= MAX_TLV_LENGTH
    ensures var f := LengthField(|d|); var s := [tag] + f + d + rest;
      ParseLength(s, 1) == Ok((|d|, |f|)) && s[1 + |f|..1 + |f| + |d|] == d
  {
    var f := LengthField(|d|);
    var s := [tag] + f + d + rest;
    assert s == [tag] + f + (d + rest);
    LengthRoundTrip([tag], |d|, d + rest);
  }

  /** Parsing the concatenated encodings of well-formed TLVs, Terminator at most last, returns the list. */
  lemma {:induction false} StreamRoundTrip(ts: seq<Tlv>)
    requires forall t :: t in ts ==> t.WellFormed()
    requires forall i :: 0 <= i < |ts| - 1 ==> ts[i] != Terminator
    ensures Parse(PrintAll(ts)) == Ok(ts)
  {
    if ts != [] {
      FirstBlock(ts[0], PrintAll(ts[1..]));
      if ts[0] == Terminator {
        assert ts == [Terminator];
      } else {
        forall i | 0 <= i < |ts[1..]| - 1 ensures ts[1..][i] != Terminator {
          assert ts[1..][i] == ts[i + 1];
        }
        StreamRoundTrip(ts[1..]);
        assert [ts[0]] + ts[1..] == ts;
      }
    }
  }

  /** A printed block is parsed off the front of a stream. */
  lemma FirstBlock(t: Tlv, rest: seq<byte>)
    requires t.WellFormed()
    ensures Parse(t.ToBytes().value + rest) == if t == Terminator then Ok([Terminator]) else Then([t], Parse(rest))
  {
    var b := t.ToBytes().value;
    BlockRoundTrip(t, rest);
    assert (b + rest)[|b|..] == rest;
  }

  // ---- the position of the NDEF Message TLV ----

  /** Byte position of the first NDEF Message TLV: where the parser meets its tag. */
  function NdefPosition(s: seq<byte>): (p: Option<nat>)
    ensures p.Some? ==> p.value < |s| && s[p.value] == TLV_NDEF_MESSAGE
  {
    if s == [] || ParseBlock(s).Err? then
      None
    else
      var b := ParseBlock(s).value;
      if b.tlv.Some? && b.tlv.value.NdefMessage? then
        Some(0)
      else if b.tlv == Some(Terminator) then
        None
      else
        match NdefPosition(s[b.size..])
        case None => None
        case Some(p) => Some(b.size + p)
  }

  /** The TLVs the parser lists before the NDEF Message TLV. */
  function Before(s: seq<byte>): (ts: seq<Tlv>)
    requires NdefPosition(s).Some?
    ensures forall t :: t in ts ==> !t.NdefMessage? && t != Terminator
  {
    var b := ParseBlock(s).value;
    if b.tlv.Some? && b.tlv.value.NdefMessage? then [] else Listed(b.tlv) + Before(s[b.size..])
  }

  /** Size of a TLV in its shortest encoding, as write_ndef assumes it. */
  function CanonicalSize(t: Tlv): nat {
    match t
    case Null => 1
    case Terminator => 1
    case LockControl(_) => 5
    case MemoryControl(_) => 5
    case NdefMessage(d) => 1 + (if |d| < 0xFF then 1 else 3) + |d|
    case Proprietary(d) => 1 + (if |d| < 0xFF then 1 else 3) + |d|
  }

  /** The offset write_ndef sums up over the parsed TLVs. */
  function SummedOffset(ts: seq<Tlv>): Option<nat> {
    if ts == [] || ts[0] == Terminator then
      None
    else if ts[0].NdefMessage? then
      Some(0)
    else
      match SummedOffset(ts[1..])
      case None => None
      case Some(o) => Some(CanonicalSize(ts[0]) + o)
  }

  method ComputeOffset(tlvs: seq<Tlv>) returns (found: Option<nat>)
    ensures found == SummedOffset(tlvs)
  {
    found := None;
    var offset := 0;
    var i := 0;
    assert tlvs[0..] == tlvs;
    while i < |tlvs|
      invariant 0 <= i <= |tlvs|
      invariant found == None
      invariant SummedOffset(tlvs) ==
                match SummedOffset(tlvs[i..]) case None => None case Some(o) => Some(offset + o)
    {
      assert tlvs[i..][1..] == tlvs[i + 1..];
      match tlvs[i] {
        case NdefMessage(_) =>
          found := Some(offset);
          return;
        case Null =>
          offset := offset + 1;
        case Terminator =>
          return;
        case LockControl(_) =>
          offset := offset + 5;
        case MemoryControl(_) =>
          offset := offset + 5;
        case Proprietary(data) =>
          var lSize := if |data| < 0xFF then 1 else 3;
          offset := offset + 1 + lSize + |data|;
      }
      i := i + 1;
    }
  }

  /** Every block before the NDEF Message TLV is of a known kind and has the shortest length field. */
  predicate CanonicalPrefix(s: seq<byte>) {
    if s == [] || ParseBlock(s).Err? then
      true
    else
      var tag := s[0];
      || tag == TLV_NDEF_MESSAGE
      || tag == TLV_TERMINATOR
      || (tag == TLV_NULL && CanonicalPrefix(s[1..]))
      || ((tag == TLV_LOCK_CONTROL || tag == TLV_MEMORY_CONTROL || tag == TLV_PROPRIETARY)
          && (s[1] == 0xFF ==> s[2] != 0 || s[3] == 0xFF)
          && CanonicalPrefix(s[ParseBlock(s).value.size..]))
  }

  /** The summed offset never exceeds the true position, and is the true position exactly on canonical prefixes. */
  lemma {:induction false} OffsetExact(s: seq<byte>)
    requires Parse(s).Ok?
    ensures SummedOffset(Parse(s).value).Some? <==> NdefPosition(s).Some?
    ensures NdefPosition(s).Some? ==>
      var o := SummedOffset(Parse(s).value).value;
      var p := NdefPosition(s).value;
      o <= p && (o == p <==> CanonicalPrefix(s))
  {
    if s != [] && ParseBlock(s).value.tlv != Some(Terminator) {
      var b := ParseBlock(s).value;
      var rest := s[b.size..];
      SummedStep(b.tlv, Parse(rest).value);
      if s[0] != TLV_NDEF_MESSAGE {
        OffsetExact(rest);
        PositionStep(s, b, rest);
        CanonicalStep(s, b, rest);
      }
    }
  }

  lemma SummedStep(t: Option<Tlv>, rest: seq<Tlv>)
    requires t != Some(Terminator)
    ensures var o, o' := SummedOffset(Listed(t) + rest), SummedOffset(rest);
      if t.Some? && t.value.NdefMessage? then o.Some? && o.value == 0
      else
        && (o.Some? <==> o'.Some?)
        && (o.Some? ==> o.value == o'.value + if t.Some? then CanonicalSize(t.value) else 0)
  {
    if t.None? {
      assert Listed(t) + rest == rest;
    } else {
      assert (Listed(t) + rest)[1..] == rest;
    }
  }

  /** A block of another kind in front moves the NDEF Message TLV by its size. */
  lemma PositionStep(s: seq<byte>, b: Block, rest: seq<byte>)
    requires s != [] && ParseBlock(s) == Ok(b) && rest == s[b.size..]
    requires s[0] != TLV_NDEF_MESSAGE && b.tlv != Some(Terminator)
    ensures NdefPosition(s).Some? <==> NdefPosition(rest).Some?
    ensures NdefPosition(s).Some? ==> NdefPosition(s).value == b.size + NdefPosition(rest).value
  {
  }

  /** It is canonical there exactly if it is of a known kind with the shortest length field. */
  lemma CanonicalStep(s: seq<byte>, b: Block, rest: seq<byte>)
    requires s != [] && ParseBlock(s) == Ok(b) && rest == s[b.size..]
    requires s[0] != TLV_NDEF_MESSAGE && b.tlv != Some(Terminator)
    ensures b.tlv.Some? ==> CanonicalSize(b.tlv.value) <= b.size
    ensures CanonicalPrefix(s) <==>
            b.tlv.Some? && CanonicalSize(b.tlv.value) == b.size && CanonicalPrefix(rest)
  {
    BlockSize(s);
  }

  /** A known block is at least as long as its shortest encoding, and as long exactly with the shortest length field. */
  lemma BlockSize(s: seq<byte>)
    requires s != [] && ParseBlock(s).Ok?
    ensures var b := ParseBlock(s).value; b.tlv.Some? ==>
      && CanonicalSize(b.tlv.value) <= b.size
      && (CanonicalSize(b.tlv.value) == b.size <==>
          (s[0] == TLV_NULL || s[0] == TLV_TERMINATOR || (s[1] == 0xFF ==> s[2] != 0 || s[3] == 0xFF)))
  {
  }

  /** An unknown TLV before the NDEF Message TLV makes the summed offset wrong: here 0 instead of 2. */
  lemma UnknownTlvMisplacesOffset()
    ensures var s: seq<byte> := [0x55, 0x00, 0x03, 0x00, 0xFE];
      && Parse(s).Ok?
      && NdefPosition(s) == Some(2)
      && SummedOffset(Parse(s).value) == Some(0)
      && !CanonicalPrefix(s)
  {
    var s: seq<byte> := [0x55, 0x00, 0x03, 0x00, 0xFE];
    assert s[2..] == [0x03, 0x00, 0xFE];
    assert s[2..][2..] == [0xFE];
    assert Parse([0xFE]) == Ok([Terminator]);
    assert s[2..][2..2] == [];
    assert ParseBlock(s[2..]) == Ok(Block(Some(NdefMessage([])), 2));
    assert Parse(s[2..]) == Then([NdefMessage([])], Ok([Terminator]));
    ThenLaws(Parse(s[2..]), [], []);
    OffsetExact(s);
  }

  /** The first block before the NDEF Message TLV, in two streams that agree up to there. */
  lemma SharedBlock(s: seq<byte>, t: seq<byte>, p: nat)
    requires NdefIsAt(s, p) && p <= |t| && s[..p] == t[..p] && s[0] != TLV_NDEF_MESSAGE
    ensures t != [] && ParseBlock(t) == ParseBlock(s) && ParseBlock(s).Ok?
    ensures var n := ParseBlock(s).value.size;
      && n <= p && NdefIsAt(s[n..], p - n)
      && s[n..][..p - n] == t[n..][..p - n] && t[n..][p - n..] == t[p..]
  {
    DropCommon(s, t, p, ParseBlock(s).value.size);
    BlockIsLocal(s, t);
  }

  /** A stream that does not start with its NDEF Message TLV has a block of another kind before it. */
  lemma NdefLater(s: seq<byte>)
    requires NdefPosition(s).Some? && s[0] != TLV_NDEF_MESSAGE
    ensures ParseBlock(s).Ok? && ParseBlock(s).value.tlv != Some(Terminator)
    ensures var b := ParseBlock(s).value;
      NdefPosition(s[b.size..]).Some? && Before(s) == Listed(b.tlv) + Before(s[b.size..])
  {
  }

  lemma NdefNow(s: seq<byte>)
    requires NdefPosition(s).Some? && s[0] == TLV_NDEF_MESSAGE
    ensures NdefPosition(s) == Some(0) && Before(s) == []
  {
  }

  predicate NdefIsAt(s: seq<byte>, p: nat) {
    NdefPosition(s).Some? && NdefPosition(s).value == p
  }

  /** A listed block of another kind in front comes before the NDEF Message TLV. */
  lemma ListedInFront(s: seq<byte>, t: Tlv, n: nat, rest: seq<byte>)
    requires s != [] && ParseBlock(s) == Ok(Block(Some(t), n)) && rest == s[n..]
    requires !t.NdefMessage? && t != Terminator && NdefPosition(rest).Some? && NdefPosition(s).Some?
    ensures Before(s) == [t] + Before(rest)
  {
  }

  /** What precedes the NDEF Message TLV parses the same whatever replaces the stream from there on. */
  lemma {:induction false} PrefixParses(s: seq<byte>, t: seq<byte>)
    requires NdefPosition(s).Some?
    requires var p := NdefPosition(s).value; p <= |t| && s[..p] == t[..p]
    ensures var p := NdefPosition(s).value;
      Parse(t) == Then(Before(s), Parse(t[p..]))
  {
    var p := NdefPosition(s).value;
    if s[0] == TLV_NDEF_MESSAGE {
      NdefNow(s);
      assert t[0..] == t;
      ThenLaws(Parse(t), [], []);
    } else {
      NdefLater(s);
      SharedBlock(s, t, p);
      var b := ParseBlock(s).value;
      PrefixParses(s[b.size..], t[b.size..]);
      ThenLaws(Parse(t[p..]), Listed(b.tlv), Before(s[b.size..]));
    }
  }

  /** Two sequences that agree up to `p` agree up to `n`, and from `n` up to `p`. */
  lemma DropCommon(s: seq<byte>, t: seq<byte>, p: nat, n: nat)
    requires n <= p <= |s| && p <= |t| && s[..p] == t[..p]
    ensures s[..n] == t[..n]
    ensures s[n..][..p - n] == t[n..][..p - n]
    ensures t[n..][p - n..] == t[p..]
  {
    assert s[..n] == s[..p][..n] == t[..p][..n] == t[..n];
    assert s[n..][..p - n] == s[..p][n..] == t[..p][n..] == t[n..][..p - n];
  }

  /** A message of an NDEF TLV, if the stream has one at offset `k`. */
  function NdefAt(s: seq<byte>, k: nat): Option<seq<byte>> {
    if k < |s| && s[k] == TLV_NDEF_MESSAGE && ParseLength(s, k + 1).Ok? then
      var (len, consumed) := ParseLength(s, k + 1).value;
      var v := k + 1 + consumed;
      if v + len <= |s| then Some(s[v..v + len]) else None
    else
      None
  }

  function FirstNdef(ts: seq<Tlv>): seq<byte> {
    if ts == [] then [] else if ts[0].NdefMessage? then ts[0].message else FirstNdef(ts[1..])
  }

  /** It is the message of the NDEF Message TLV with no other one before it, and empty where there is none. */
  lemma {:induction false} FirstNdefExact(ts: seq<Tlv>, i: nat)
    requires i <= |ts| && forall j :: 0 <= j < i ==> !ts[j].NdefMessage?
    requires i < |ts| ==> ts[i].NdefMessage?
    ensures FirstNdef(ts) == if i < |ts| then ts[i].message else []
  {
    if i > 0 {
      FirstNdefExact(ts[1..], i - 1);
    }
  }
}
