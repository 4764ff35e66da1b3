/**
 * The embedding codec (Database.Converters).
 *
 * `FloatToByte` and `ByteToFloat` move the raw memory of a float array into
 * a byte array and back with `Buffer.BlockCopy`. No float arithmetic takes
 * place, so each float is modelled as its 32-bit pattern (`bv32`), laid out
 * in little-endian byte order, the layout of the platforms .NET runs on.
 */
module Codec {
  import opened Wrappers
  import opened Bytes

  /** The bit pattern of a 32-bit float. */
  type Float32 = bv32

  /** The four bytes of one float in memory, least significant first. */
  function WordBytes(w: Float32): (r: seq<byte>)
    ensures |r| == 4
  {
    [(w & 0xFF) as byte, ((w >> 8) & 0xFF) as byte, ((w >> 16) & 0xFF) as byte, (w >> 24) as byte]
  }

  /** The float whose memory is the four bytes b0 b1 b2 b3. */
  function BytesWord(b0: byte, b1: byte, b2: byte, b3: byte): Float32
  {
    (b0 as Float32) | ((b1 as Float32) << 8) | ((b2 as Float32) << 16) | ((b3 as Float32) << 24)
  }

  lemma WordRoundTrip(w: Float32)
    ensures var r := WordBytes(w); BytesWord(r[0], r[1], r[2], r[3]) == w
  {
  }

  lemma BytesRoundTrip(b0: byte, b1: byte, b2: byte, b3: byte)
    ensures WordBytes(BytesWord(b0, b1, b2, b3)) == [b0, b1, b2, b3]
  {
  }

  /** The byte image of a float array: the floats' memory, one after another. */
  function Encode(v: seq<Float32>): (r: seq<byte>)
    ensures |r| == 4 * |v|
  {
    if v == [] then [] else WordBytes(v[0]) + Encode(v[1..])
  }

  /** The floats held by a byte image whose length is a multiple of 4. */
  function Words(b: seq<byte>): (r: seq<Float32>)
    requires |b| % 4 == 0
    ensures 4 * |r| == |b|
  {
    if b == [] then [] else [BytesWord(b[0], b[1], b[2], b[3])] + Words(b[4..])
  }

  /**
   * `ByteToFloat` as a value: a length that is not a multiple of 4 makes the
   * block copy overrun the float array, which throws.
   */
  function Decode(b: seq<byte>): (r: Result<seq<Float32>>)
    ensures r.Ok? <==> |b| % 4 == 0
    ensures r.Err? ==> r.error == LengthError
  {
    if |b| % 4 == 0 then Ok(Words(b)) else Err(LengthError)
  }

  /** Byte k of the image is byte k % 4 of float k / 4. */
  lemma {:induction false} EncodeAt(v: seq<Float32>, k: int)
    requires 0 <= k < 4 * |v|
    ensures Encode(v)[k] == WordBytes(v[k / 4])[k % 4]
  {
    if k >= 4 {
      EncodeAt(v[1..], k - 4);
      assert (k - 4) / 4 == k / 4 - 1 && (k - 4) % 4 == k % 4;
    }
  }

  /** Float i of the decoded image is made of bytes 4i .. 4i+3. */
  lemma {:induction false} WordsAt(b: seq<byte>, i: int)
    requires |b| % 4 == 0 && 0 <= i < |b| / 4
    ensures Words(b)[i] == BytesWord(b[4 * i], b[4 * i + 1], b[4 * i + 2], b[4 * i + 3])
  {
    if i > 0 {
      WordsAt(b[4..], i - 1);
    }
  }

  /** Floats first: decoding an encoded vector gives back the same bit patterns. */
  lemma {:induction false} DecodeEncode(v: seq<Float32>)
    ensures Decode(Encode(v)) == Ok(v)
  {
    if v != [] {
      DecodeEncode(v[1..]);
      var e := Encode(v);
      assert e[4..] == Encode(v[1..]);
      WordRoundTrip(v[0]);
      assert [v[0]] + v[1..] == v;
    }
  }

  /** Bytes first: encoding the floats of a well-sized byte image gives back the same bytes. */
  lemma {:induction false} EncodeDecode(b: seq<byte>)
    requires |b| % 4 == 0
    ensures Decode(b).Ok? && Encode(Decode(b).value) == b
  {
    if b != [] {
      EncodeDecode(b[4..]);
      var w := Words(b);
      assert w[1..] == Words(b[4..]);
      BytesRoundTrip(b[0], b[1], b[2], b[3]);
      assert b[..4] + b[4..] == b;
    }
  }

  /** `Converters.FloatToByte`: a fresh array of 4n bytes filled with the floats' memory. */
  method FloatToByte(floats: array<Float32>) returns (bytes: array<byte>)
    ensures fresh(bytes)
    ensures bytes.Length == 4 * floats.Length
    ensures bytes[..] == Encode(floats[..])
  {
    bytes := new byte[floats.Length * 4];
    var j := 0;
    while j < bytes.Length
      invariant 0 <= j <= bytes.Length
      invariant forall k :: 0 <= k < j ==> bytes[k] == WordBytes(floats[k / 4])[k % 4]
    {
      bytes[j] := WordBytes(floats[j / 4])[j % 4];
      j := j + 1;
    }
    forall k | 0 <= k < bytes.Length
      ensures bytes[..][k] == Encode(floats[..])[k]
    {
      EncodeAt(floats[..], k);
    }
  }

  /**
   * `Converters.ByteToFloat`: a fresh array of n / 4 floats read from the
   * bytes; a length that is not a multiple of 4 is a LengthError.
   */
  method ByteToFloat(bytes: array<byte>) returns (r: Result<array<Float32>>)
    ensures r.Ok? <==> bytes.Length % 4 == 0
    ensures r.Err? ==> r.error == LengthError
    ensures r.Ok? ==> fresh(r.value) && r.value.Length == bytes.Length / 4
    ensures r.Ok? ==> Decode(bytes[..]) == Ok(r.value[..])
  {
    var floats := new Float32[bytes.Length / 4];
    if bytes.Length % 4 != 0 {
      return Err(LengthError);
    }
    var i := 0;
    while i < floats.Length
      invariant 0 <= i <= floats.Length
      invariant forall k :: 0 <= k < i ==>
        floats[k] == BytesWord(bytes[4 * k], bytes[4 * k + 1], bytes[4 * k + 2], bytes[4 * k + 3])
    {
      floats[i] := BytesWord(bytes[4 * i], bytes[4 * i + 1], bytes[4 * i + 2], bytes[4 * i + 3]);
      i := i + 1;
    }
    forall k | 0 <= k < floats.Length
      ensures floats[..][k] == Words(bytes[..])[k]
    {
      WordsAt(bytes[..], k);
    }
    assert floats[..] == Words(bytes[..]);
    r := Ok(floats);
  }
}
