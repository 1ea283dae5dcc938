/** The length field shared by all NFC Forum TLV formats (src/tlv.rs). */
module TlvLength {
  import opened Basics

  const MAX_TLV_LENGTH: nat := 0xFFFE

  /** The length stored at `data[offset]` and the number of bytes its field takes (1 or 3). */
  function ParseLength(data: seq<byte>, offset: nat): (r: Result<(u16, nat), Type2Error>)
    ensures r.Ok? ==> (r.value.1 == 1 || r.value.1 == 3) && offset + r.value.1 <= |data|
  {
    if offset >= |data| then
      Err(InvalidTlv)
    else if data[offset] < 0xFF then
      Ok((data[offset], 1))
    else if offset + 3 > |data| then
      Err(InvalidTlv)
    else
      Ok((BigEndian(data[offset + 1], data[offset + 2]), 3))
  }

  /**
   A length field is read exactly where all its bytes are there: one byte below 0xFF, or 0xFF and the length in two
   bytes, shortest or not.
   */
  lemma LengthExact(data: seq<byte>, offset: nat)
    ensures ParseLength(data, offset).Err? <==> offset >= |data| || (data[offset] == 0xFF && offset + 2 >= |data|)
    ensures ParseLength(data, offset).Ok? ==>
      var (len, consumed) := ParseLength(data, offset).value;
      data[offset..offset + consumed] == if data[offset] < 0xFF then [len] else [0xFF, len / 256, len % 256]
  {
  }

  /** The bytes are a complete field for the length, of either format. */
  predicate DeclaresLength(f: seq<byte>, len: nat) {
    || (f == [len] && len < 0xFF)
    || (|f| == 3 && f[0] == 0xFF && f[1] == len / 256 && f[2] == len % 256)
  }

  /** The shortest field for a length: what a canonical writer stores. */
  function LengthField(len: nat): (f: seq<byte>)
    requires len <= MAX_TLV_LENGTH
    ensures |f| == if len < 0xFF then 1 else 3
  {
    if len < 0xFF then [len] else [0xFF, len / 256, len % 256]
  }

  /** Appends the field for `len` to `out`; the reserved length 0xFFFF is refused and nothing is written. */
  method EncodeLength(len: u16, out: seq<byte>) returns (r: Result<(), Type2Error>, out': seq<byte>)
    ensures r.Ok? <==> len <= MAX_TLV_LENGTH
    ensures r.Ok? ==> out' == out + LengthField(len)
    ensures r.Err? ==> out' == out && r.error == InvalidTlv
  {
    out' := out;
    if len > MAX_TLV_LENGTH {
      return Err(InvalidTlv), out';
    }
    if len < 0xFF {
      out' := out' + [len];
    } else {
      out' := out' + [0xFF];
      out' := out' + [len / 256, len % 256];
    }
    r := Ok(());
  }

  /** Reading back an encoded length gives the length, whatever surrounds the field. */
  lemma LengthRoundTrip(before: seq<byte>, len: nat, after: seq<byte>)
    requires len <= MAX_TLV_LENGTH
    ensures ParseLength(before + LengthField(len) + after, |before|) == Ok((len, |LengthField(len)|))
  {
    var f := LengthField(len);
    var s := before + f + after;
    assert forall i :: 0 <= i < |f| ==> s[|before| + i] == f[i];
  }

  /** A field of either format is read wherever it stands. */
  lemma DeclaredLength(before: seq<byte>, f: seq<byte>, len: nat, after: seq<byte>)
    requires DeclaresLength(f, len)
    ensures ParseLength(before + f + after, |before|) == Ok((len, |f|))
  {
    var s := before + f + after;
    assert forall i :: 0 <= i < |f| ==> s[|before| + i] == f[i];
  }

  /** The canonical field is the shortest one that declares the length. */
  lemma LengthFieldDeclares(len: nat)
    requires len <= MAX_TLV_LENGTH
    ensures DeclaresLength(LengthField(len), len)
    ensures forall f :: DeclaresLength(f, len) ==> |LengthField(len)| <= |f|
  {
  }
}
