/**
 * Content hashing of images (Database.Image.GetHash, both overloads).
 *
 * The digest itself (SHA-256) is a library call whose internals are not
 * modelled: every definition here is parametric in a function `sha` that
 * maps any byte sequence to a 32-byte digest. What is modelled is the
 * rendering of the digest as text: every byte becomes two upper-case
 * hexadecimal digits ("X2" format), and the pairs are concatenated in order.
 */
module Hash {
  import opened Wrappers
  import opened Bytes

  /** A SHA-256 digest: exactly 32 bytes. */
  type Digest = s: seq<byte> | |s| == 32 witness seq(32, _ => 0)

  /** An opaque digest function (SHA256.ComputeHash). */
  type Hasher = seq<byte> -> Digest

  /** A file system, as the byte contents of each readable path. */
  type FileSystem = map<string, seq<byte>>

  predicate IsHexDigit(c: char) {
    '0' <= c <= '9' || 'A' <= c <= 'F'
  }

  /** The upper-case hexadecimal digit of a nibble. */
  function HexDigit(n: bv8): (c: char)
    requires n < 16
    ensures IsHexDigit(c)
  {
    if n < 10 then (48 + n as int) as char else (55 + n as int) as char
  }

  /** The nibble a hexadecimal digit stands for. */
  function DigitValue(c: char): (n: bv8)
    requires IsHexDigit(c)
    ensures n < 16
  {
    if c <= '9' then (c as int - 48) as bv8 else (c as int - 55) as bv8
  }

  lemma DigitRoundTrip(n: bv8)
    requires n < 16
    ensures DigitValue(HexDigit(n)) == n
  {
  }

  /** `b.ToString("X2")`: high nibble first, then low nibble, always two digits. */
  function ByteHex(b: byte): (r: string)
    ensures |r| == 2 && IsHexDigit(r[0]) && IsHexDigit(r[1])
  {
    [HexDigit(b >> 4), HexDigit(b & 15)]
  }

  /** `string.Concat(ds.Select(x => x.ToString("X2")))`. */
  function Hex(ds: seq<byte>): (r: string)
    ensures |r| == 2 * |ds|
  {
    if ds == [] then "" else ByteHex(ds[0]) + Hex(ds[1..])
  }

  /** Every character of the rendering is a hex digit, and digits 2i and 2i+1 render byte i. */
  lemma {:induction false} HexAt(ds: seq<byte>, i: int)
    requires 0 <= i < |ds|
    ensures Hex(ds)[2 * i] == HexDigit(ds[i] >> 4)
    ensures Hex(ds)[2 * i + 1] == HexDigit(ds[i] & 15)
  {
    if i > 0 {
      HexAt(ds[1..], i - 1);
    }
  }

  lemma AllHexDigits(ds: seq<byte>)
    ensures forall k :: 0 <= k < |Hex(ds)| ==> IsHexDigit(Hex(ds)[k])
  {
    forall k | 0 <= k < |Hex(ds)|
      ensures IsHexDigit(Hex(ds)[k])
    {
      HexAt(ds, k / 2);
    }
  }

  /** Reading a hexadecimal rendering back; None unless the text is pairs of upper-case hex digits. */
  function ParseHex(s: string): (r: Option<seq<byte>>)
    ensures r.Some? ==> 2 * |r.value| == |s|
  {
    if s == [] then Some([])
    else if |s| == 1 || !IsHexDigit(s[0]) || !IsHexDigit(s[1]) then None
    else match ParseHex(s[2..])
      case None => None
      case Some(rest) => Some([(DigitValue(s[0]) << 4) | DigitValue(s[1])] + rest)
  }

  lemma ByteRoundTrip(b: byte)
    ensures (DigitValue(HexDigit(b >> 4)) << 4) | DigitValue(HexDigit(b & 15)) == b
  {
    DigitRoundTrip(b >> 4);
    DigitRoundTrip(b & 15);
  }

  lemma ParseHexCons(c0: char, c1: char, rest: string)
    requires IsHexDigit(c0) && IsHexDigit(c1)
    ensures ParseHex([c0, c1] + rest) ==
      if ParseHex(rest).Some? then Some([(DigitValue(c0) << 4) | DigitValue(c1)] + ParseHex(rest).value) else None
  {
    assert ([c0, c1] + rest)[2..] == rest;
  }

  lemma HexCons(b: byte, tail: seq<byte>)
    ensures Hex([b] + tail) == [HexDigit(b >> 4), HexDigit(b & 15)] + Hex(tail)
  {
    assert ([b] + tail)[1..] == tail;
  }

  lemma ParseStep(b: byte, tail: seq<byte>)
    requires ParseHex(Hex(tail)) == Some(tail)
    ensures ParseHex(Hex([b] + tail)) == Some([b] + tail)
  {
    var hi, lo := HexDigit(b >> 4), HexDigit(b & 15);
    HexCons(b, tail);
    ParseHexCons(hi, lo, Hex(tail));
    ByteRoundTrip(b);
  }

  /** Parsing undoes rendering. */
  lemma {:induction false} ParseHexOfHex(ds: seq<byte>)
    ensures ParseHex(Hex(ds)) == Some(ds)
  {
    if ds != [] {
      ParseHexOfHex(ds[1..]);
      ParseStep(ds[0], ds[1..]);
      assert [ds[0]] + ds[1..] == ds;
    }
  }

  /** The hexadecimal rendering is injective: distinct digests give distinct hash strings. */
  lemma HexInjective(a: seq<byte>, b: seq<byte>)
    ensures Hex(a) == Hex(b) <==> a == b
  {
    if Hex(a) == Hex(b) {
      ParseHexOfHex(a);
      ParseHexOfHex(b);
    }
  }

  /** `GetHash(byte[] image_data)`: the hex rendering of the digest of the bytes. */
  function GetHash(sha: Hasher, data: seq<byte>): (r: string)
    ensures |r| == 64
    ensures forall k :: 0 <= k < |r| ==> IsHexDigit(r[k])
  {
    AllHexDigits(sha(data));
    Hex(sha(data))
  }

  /** Two byte sequences hash to the same string exactly when their digests are equal. */
  lemma GetHashMatchesDigest(sha: Hasher, a: seq<byte>, b: seq<byte>)
    ensures GetHash(sha, a) == GetHash(sha, b) <==> sha(a) == sha(b)
  {
    HexInjective(sha(a), sha(b));
  }

  /** `GetHash(string image_path)`: read the file, then hash its bytes; a read failure is an IoError. */
  function GetHashOfFile(sha: Hasher, fs: FileSystem, path: string): (r: Result<string>)
    ensures r.Ok? <==> path in fs
  {
    if path in fs then Ok(Hex(sha(fs[path]))) else Err(IoError)
  }

  /** The two overloads agree: hashing a file gives the hash of its contents. */
  lemma OverloadsAgree(sha: Hasher, fs: FileSystem, path: string, data: seq<byte>)
    requires path in fs && fs[path] == data
    ensures GetHashOfFile(sha, fs, path) == Ok(GetHash(sha, data))
  {
  }

  /** Files with equal contents have equal hashes, whatever their paths. */
  lemma FileHashDeterministic(sha: Hasher, fs: FileSystem, p: string, q: string)
    requires p in fs && q in fs && fs[p] == fs[q]
    ensures GetHashOfFile(sha, fs, p) == GetHashOfFile(sha, fs, q)
  {
  }
}
