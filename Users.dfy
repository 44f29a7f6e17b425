/**
 * The stored user record and the way the screens turn stored records back into a gallery
 * of embeddings. An embedding is stored as the base64 text of its float bits; storing goes
 * through `floatToRawIntBits` and reading through `intBitsToFloat`, both parameters here.
 */
module Users {
  import opened Wrappers
  import Utilitis
  import Base64

  /** One row of the `user_data` table. */
  datatype UserData = UserData(
    userId: int,
    name: string,
    roleId: int,
    embedding: string,
    fingerprintCsv: string,
    createdAt: int)

  /** The raw bits of every float of an embedding, in order. */
  function Bits(v: seq<real>, bitsOf: real -> Utilitis.Word32): (w: seq<Utilitis.Word32>)
    ensures |w| == |v|
  {
    seq(|v|, i requires 0 <= i < |v| => bitsOf(v[i]))
  }

  /** The floats a sequence of raw bits stands for. */
  function Floats(w: seq<Utilitis.Word32>, floatOf: Utilitis.Word32 -> real): (v: seq<real>)
    ensures |v| == |w|
  {
    seq(|w|, i requires 0 <= i < |w| => floatOf(w[i]))
  }

  /** The text stored for an embedding (`embedding.toBase64()`). */
  function Stored(v: seq<real>, order: Utilitis.ByteOrder, bitsOf: real -> Utilitis.Word32): (s: string)
    ensures |s| == 4 * ((4 * |v| + 2) / 3)
  {
    Utilitis.PackedLength(Bits(v, bitsOf), order);
    Utilitis.Base64Of(Bits(v, bitsOf), order)
  }

  /** The embedding read back from a stored text (`toFloatArray()`); `None` when decoding throws. */
  function Loaded(s: string, order: Utilitis.ByteOrder, floatOf: Utilitis.Word32 -> real): (v: Option<seq<real>>)
    ensures v.Some? <==> Base64.Decode(s).Some?
    ensures v.Some? ==> |v.value| == |Base64.Decode(s).value| / 4
  {
    match Utilitis.FloatArrayOf(s, order)
    case None => None
    case Some(w) => Some(Floats(w, floatOf))
  }

  /**
   * `users.map { it.embedding.toFloatArray() }`: one embedding per user, in the same order;
   * `None` as soon as one stored text does not decode.
   */
  function Gallery(users: seq<UserData>, order: Utilitis.ByteOrder, floatOf: Utilitis.Word32 -> real)
    : (g: Option<seq<seq<real>>>)
    ensures g.Some? ==> |g.value| == |users|
    ensures g.Some? ==> forall i :: 0 <= i < |users| ==> Some(g.value[i]) == Loaded(users[i].embedding, order, floatOf)
    ensures g.None? <==> exists i :: 0 <= i < |users| && Loaded(users[i].embedding, order, floatOf).None?
    decreases |users|
  {
    if |users| == 0 then Some([])
    else
      var n := |users| - 1;
      match Gallery(users[..n], order, floatOf)
      case None => None
      case Some(front) =>
        match Loaded(users[n].embedding, order, floatOf)
        case None => None
        case Some(e) => Some(front + [e])
  }

  /**
   * Every value of `v` is given back by the float of its raw bits (`intBitsToFloat` after
   * `floatToRawIntBits`): a condition on the stored values only, not on every real.
   */
  predicate BitsRecover(v: seq<real>, bitsOf: real -> Utilitis.Word32, floatOf: Utilitis.Word32 -> real)
  {
    forall i :: 0 <= i < |v| ==> floatOf(bitsOf(v[i])) == v[i]
  }

  /**
   * An embedding stored with `toBase64` always loads, into the floats its raw bits stand for;
   * so it is read back unchanged when each of its values is recovered from its bits.
   */
  lemma StoredLoads(v: seq<real>, order: Utilitis.ByteOrder, bitsOf: real -> Utilitis.Word32,
                    floatOf: Utilitis.Word32 -> real)
    ensures Loaded(Stored(v, order, bitsOf), order, floatOf) == Some(Floats(Bits(v, bitsOf), floatOf))
    ensures BitsRecover(v, bitsOf, floatOf) ==> Loaded(Stored(v, order, bitsOf), order, floatOf) == Some(v)
  {
    var w := Bits(v, bitsOf);
    Utilitis.FloatArrayRoundTrip(w, order);
    if BitsRecover(v, bitsOf, floatOf) {
      FloatsOfBits(v, bitsOf, floatOf);
    }
  }

  lemma FloatsOfBits(v: seq<real>, bitsOf: real -> Utilitis.Word32, floatOf: Utilitis.Word32 -> real)
    requires BitsRecover(v, bitsOf, floatOf)
    ensures Floats(Bits(v, bitsOf), floatOf) == v
  {
    var w := Bits(v, bitsOf);
    forall i | 0 <= i < |v|
      ensures Floats(w, floatOf)[i] == v[i]
    {
      assert w[i] == bitsOf(v[i]);
    }
  }

  /** In a gallery built from stored records, entry i is the embedding stored for user i. */
  lemma GalleryOfStored(users: seq<UserData>, embeddings: seq<seq<real>>, order: Utilitis.ByteOrder,
                        bitsOf: real -> Utilitis.Word32, floatOf: Utilitis.Word32 -> real)
    requires |users| == |embeddings|
    requires forall i :: 0 <= i < |embeddings| ==> BitsRecover(embeddings[i], bitsOf, floatOf)
    requires forall i :: 0 <= i < |users| ==> users[i].embedding == Stored(embeddings[i], order, bitsOf)
    ensures Gallery(users, order, floatOf) == Some(embeddings)
  {
    forall i | 0 <= i < |users|
      ensures Loaded(users[i].embedding, order, floatOf) == Some(embeddings[i])
    {
      StoredLoads(embeddings[i], order, bitsOf, floatOf);
    }
    var g := Gallery(users, order, floatOf);
    assert g.Some?;
    assert g.value == embeddings;
  }
}
