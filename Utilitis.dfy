/**
 * The vector helpers of the SDK: the cosine similarity, which is a plain dot
 * product with no normalisation of either vector, and the packing of a float
 * array into a base64 string and back.
 *
 * For the packing a float is its raw 32-bit pattern (`Float.floatToRawIntBits`),
 * and the round trip of the raw 32-bit words is exact.
 * The platform's native byte order is a parameter.
 */
module Utilitis {
  import opened Wrappers
  import Base64

  type byte = Base64.byte

  /** The raw bits of one `Float`. */
  type Word32 = x: int | 0 <= x < 0x1_0000_0000

  datatype ByteOrder = BigEndian | LittleEndian

  // ---------------------------------------------------------------------------
  // cosineSimilarity
  // ---------------------------------------------------------------------------

  /** Σ a[i]·b[i] over the indices of `a`; `b` must be at least as long. */
  function Dot(a: seq<real>, b: seq<real>): real
    requires |a| <= |b|
    decreases |a|
  {
    if |a| == 0 then 0.0 else Dot(a[..|a| - 1], b) + a[|a| - 1] * b[|a| - 1]
  }

  /** `cosineSimilarity`: accumulates the products over a's indices, in index order. */
  method CosineSimilarity(a: seq<real>, b: seq<real>) returns (dot: real)
    requires |a| <= |b|
    ensures dot == Dot(a, b)
  {
    dot := 0.0;
    var i := 0;
    while i < |a|
      invariant 0 <= i <= |a|
      invariant dot == Dot(a[..i], b)
    {
      assert a[..i + 1][..i] == a[..i];
      dot := dot + a[i] * b[i];
      i := i + 1;
    }
    assert a[..|a|] == a;
  }

  /** Only the first |a| entries of `b` take part. */
  lemma {:induction false} DotPrefix(a: seq<real>, b: seq<real>)
    requires |a| <= |b|
    ensures Dot(a, b) == Dot(a, b[..|a|])
    decreases |a|
  {
    if |a| > 0 {
      var a' := a[..|a| - 1];
      DotPrefix(a', b);
      DotPrefix(a', b[..|a|]);
      assert b[..|a|][..|a'|] == b[..|a'|];
    }
  }

  /** For vectors of equal length the similarity does not depend on the order of the arguments. */
  lemma {:induction false} DotSymmetric(a: seq<real>, b: seq<real>)
    requires |a| == |b|
    ensures Dot(a, b) == Dot(b, a)
    decreases |a|
  {
    if |a| > 0 {
      var n := |a| - 1;
      DotSymmetric(a[..n], b[..n]);
      DotPrefix(a[..n], b);
      DotPrefix(b[..n], a);
    }
  }

  /** The similarity of a vector with itself is its sum of squares, never negative. */
  lemma {:induction false} DotSelfNonNegative(v: seq<real>)
    ensures Dot(v, v) >= 0.0
    decreases |v|
  {
    if |v| > 0 {
      var n := |v| - 1;
      DotPrefix(v[..n], v);
      DotSelfNonNegative(v[..n]);
      assert v[n] * v[n] >= 0.0;
    }
  }

  // ---------------------------------------------------------------------------
  // ByteBuffer.putFloat / getFloat
  // ---------------------------------------------------------------------------

  /** The four bytes `putFloat` writes for one word, most significant first in big-endian order. */
  function PutFloat(w: Word32, order: ByteOrder): (q: seq<byte>)
    ensures |q| == 4
  {
    var big := [w / 0x100_0000, (w / 0x1_0000) % 0x100, (w / 0x100) % 0x100, w % 0x100];
    if order == BigEndian then big else [big[3], big[2], big[1], big[0]]
  }

  /** `getFloat(at)`: the word held by the four bytes starting at `at`. */
  function GetFloat(b: seq<byte>, at: nat, order: ByteOrder): Word32
    requires at + 4 <= |b|
  {
    var b0, b1, b2, b3: int := b[at], b[at + 1], b[at + 2], b[at + 3];
    if order == BigEndian then ((b0 * 0x100 + b1) * 0x100 + b2) * 0x100 + b3
    else ((b3 * 0x100 + b2) * 0x100 + b1) * 0x100 + b0
  }

  lemma WordRoundTrip(w: Word32, order: ByteOrder, b: seq<byte>, at: nat)
    requires at + 4 <= |b| && b[at..at + 4] == PutFloat(w, order)
    ensures GetFloat(b, at, order) == w
  {
    var q := PutFloat(w, order);
    assert b[at] == q[0] && b[at + 1] == q[1] && b[at + 2] == q[2] && b[at + 3] == q[3];
    var hi := w / 0x100_0000;
    var mid := w / 0x1_0000;
    var lo := w / 0x100;
    assert mid == hi * 0x100 + mid % 0x100;
    assert lo == mid * 0x100 + lo % 0x100;
    assert w == lo * 0x100 + w % 0x100;
  }

  /** The buffer `toBase64` fills: each word's four bytes, in array order. */
  function Pack(v: seq<Word32>, order: ByteOrder): (b: seq<byte>)
    ensures |b| == 4 * |v|
    decreases |v|
  {
    if |v| == 0 then [] else Pack(v[..|v| - 1], order) + PutFloat(v[|v| - 1], order)
  }

  /** What `toFloatArray` reads back: |b| / 4 words; up to three trailing bytes are ignored. */
  function Unpack(b: seq<byte>, order: ByteOrder): (v: seq<Word32>)
    ensures |v| == |b| / 4
  {
    seq(|b| / 4, i requires 0 <= i < |b| / 4 => GetFloat(b, 4 * i, order))
  }

  /** Word `i` of the buffer sits at bytes 4i .. 4i + 3. */
  lemma {:induction false} PackAt(v: seq<Word32>, order: ByteOrder, i: nat)
    requires i < |v|
    ensures Pack(v, order)[4 * i..4 * i + 4] == PutFloat(v[i], order)
    decreases |v|
  {
    var n := |v| - 1;
    var p := Pack(v[..n], order);
    assert Pack(v, order) == p + PutFloat(v[n], order);
    if i < n {
      PackAt(v[..n], order, i);
      assert (p + PutFloat(v[n], order))[4 * i..4 * i + 4] == p[4 * i..4 * i + 4];
    } else {
      assert (p + PutFloat(v[n], order))[4 * i..] == PutFloat(v[n], order);
    }
  }

  /** Reading back a packed buffer, in the same byte order, gives the words that were packed. */
  lemma UnpackPack(v: seq<Word32>, order: ByteOrder)
    ensures Unpack(Pack(v, order), order) == v
  {
    var b := Pack(v, order);
    forall i | 0 <= i < |v|
      ensures Unpack(b, order)[i] == v[i]
    {
      PackAt(v, order, i);
      WordRoundTrip(v[i], order, b, 4 * i);
    }
  }

  /** Bytes after the last complete group of four do not change what is read. */
  lemma UnpackIgnoresTrailing(b: seq<byte>, extra: seq<byte>, order: ByteOrder)
    requires |b| % 4 == 0 && |extra| < 4
    ensures Unpack(b + extra, order) == Unpack(b, order)
  {
    var c := b + extra;
    assert |c| / 4 == |b| / 4;
    forall i | 0 <= i < |b| / 4
      ensures Unpack(c, order)[i] == Unpack(b, order)[i]
    {
      assert c[4 * i..4 * i + 4] == b[4 * i..4 * i + 4];
    }
  }

  // ---------------------------------------------------------------------------
  // toBase64 / toFloatArray
  // ---------------------------------------------------------------------------

  /** The string `toBase64` returns for an array of words. */
  function Base64Of(v: seq<Word32>, order: ByteOrder): string
  {
    Base64.Encode(Pack(v, order))
  }

  /** What `toFloatArray` returns for a string; `None` when `Base64.decode` throws. */
  function FloatArrayOf(s: string, order: ByteOrder): Option<seq<Word32>>
  {
    match Base64.Decode(s)
    case None => None
    case Some(b) => Some(Unpack(b, order))
  }

  /** `toBase64`: fills a buffer of 4·size bytes word by word, then encodes it. */
  method ToBase64(v: seq<Word32>, order: ByteOrder) returns (s: string)
    ensures s == Base64Of(v, order)
  {
    var buffer := new byte[|v| * 4];
    var i := 0;
    while i < |v|
      invariant 0 <= i <= |v|
      invariant buffer[..4 * i] == Pack(v[..i], order)
    {
      var q := PutFloat(v[i], order);
      ghost var filled := buffer[..4 * i];
      buffer[4 * i] := q[0];
      buffer[4 * i + 1] := q[1];
      buffer[4 * i + 2] := q[2];
      buffer[4 * i + 3] := q[3];
      assert buffer[..4 * i] == filled;
      assert buffer[..4 * (i + 1)] == filled + q;
      PackStep(v, i, order);
      i := i + 1;
    }
    assert v[..|v|] == v;
    assert buffer[..] == buffer[..4 * |v|];
    s := Base64.Encode(buffer[..]);
  }

  /** Packing one more word appends its four bytes. */
  lemma PackStep(v: seq<Word32>, i: nat, order: ByteOrder)
    requires i < |v|
    ensures Pack(v[..i + 1], order) == Pack(v[..i], order) + PutFloat(v[i], order)
  {
    assert v[..i + 1][..i] == v[..i];
  }

  /** `toFloatArray`: decodes the text, then reads |bytes| / 4 words by index. */
  method ToFloatArray(s: string, order: ByteOrder) returns (r: Option<seq<Word32>>)
    ensures r == FloatArrayOf(s, order)
  {
    var decoded := Base64.Decode(s);
    if decoded.None? {
      return None;
    }
    var bytes := decoded.value;
    var floats := new Word32[|bytes| / 4];
    for i := 0 to floats.Length
      invariant forall j :: 0 <= j < i ==> floats[j] == GetFloat(bytes, 4 * j, order)
    {
      floats[i] := GetFloat(bytes, 4 * i, order);
    }
    assert floats[..] == Unpack(bytes, order);
    r := Some(floats[..]);
  }

  /** `toBase64` packs exactly four bytes per float. */
  lemma PackedLength(v: seq<Word32>, order: ByteOrder)
    ensures Base64.Decode(Base64Of(v, order)).Some?
    ensures |Base64.Decode(Base64Of(v, order)).value| == 4 * |v|
    ensures |Base64Of(v, order)| == 4 * ((4 * |v| + 2) / 3)
  {
    Base64.DecodeEncode(Pack(v, order));
    Base64.EncodeLength(Pack(v, order));
  }

  /** An embedding stored with `toBase64` comes back unchanged from `toFloatArray`. */
  lemma FloatArrayRoundTrip(v: seq<Word32>, order: ByteOrder)
    ensures FloatArrayOf(Base64Of(v, order), order) == Some(v)
  {
    Base64.DecodeEncode(Pack(v, order));
    UnpackPack(v, order);
  }
}
