// Fixed-layout 512-byte sectors.  A codec pairs what a parser extracts with a
// byte map read the other way: for each position, whether the layout uses it
// and which byte a value puts there.  A lawful codec's two halves determine
// each other, and everything below holds for every lawful codec.
module Sector {
  import opened GoInt
  import opened Checksum

  const SIZE := 512

  type Sector = s: seq<byte> | |s| == SIZE witness seq(SIZE, _ => 0)

  datatype Codec<!V(!new)> = Codec(get: Sector -> V, byteAt: (V, nat) -> byte, uses: nat -> bool)

  // The sector carries v at every position that the layout uses.
  ghost predicate Shows<V(!new)>(c: Codec<V>, s: Sector, v: V) {
    forall p: nat :: p < SIZE && c.uses(p) ==> s[p] == c.byteAt(v, p)
  }

  ghost predicate Lawful<V(!new)>(c: Codec<V>) {
    forall v: V, s: Sector :: c.get(s) == v <==> Shows(c, s, v)
  }

  // Writing v over a sector leaves the bytes that the layout does not use.
  ghost function Put<V(!new)>(c: Codec<V>, v: V, base: Sector): Sector {
    seq(SIZE, p requires 0 <= p < SIZE => PutByte(c, v, base, p))
  }

  ghost function PutByte<V(!new)>(c: Codec<V>, v: V, base: Sector, p: nat): byte
    requires p < SIZE
  {
    if c.uses(p) then c.byteAt(v, p) else base[p]
  }

  ghost function Seal(s: Sector): Sector { s[..SIZE - 1] + [Fix(s[..SIZE - 1])] }

  ghost function Encode<V(!new)>(c: Codec<V>, v: V, base: Sector): Sector { Seal(Put(c, v, base)) }

  // What the checksummed parsers return.
  ghost function Parse<V(!new)>(c: Codec<V>, data: seq<byte>): Result<V> {
    if |data| != SIZE then Failure(WrongSize(SIZE, |data|))
    else if !Balanced(data) then Failure(ChecksumError)
    else Success(c.get(data))
  }

  lemma PutGet<V(!new)>(c: Codec<V>, v: V, base: Sector)
    requires Lawful(c)
    ensures c.get(Put(c, v, base)) == v
    ensures c.get(base) == v ==> Put(c, v, base) == base
  {
    assert Shows(c, Put(c, v, base), v);
    if c.get(base) == v {
      assert Shows(c, base, v);
    }
  }

  // Two sectors parse alike exactly when they agree on the used bytes.
  lemma GetAgrees<V(!new)>(c: Codec<V>, s: Sector, t: Sector)
    requires Lawful(c)
    ensures c.get(s) == c.get(t) <==> forall p: nat :: p < SIZE && c.uses(p) ==> s[p] == t[p]
  {
    var v := c.get(s);
    assert Shows(c, s, v);
    if forall p: nat :: p < SIZE && c.uses(p) ==> s[p] == t[p] {
      assert Shows(c, t, v);
    }
    if c.get(t) == v {
      assert Shows(c, t, v);
    }
  }

  lemma SealBalanced(s: Sector)
    ensures Balanced(Seal(s))
    ensures Balanced(s) ==> Seal(s) == s
  {
    OneLastByte(s[..SIZE - 1], Fix(s[..SIZE - 1]));
    assert s == s[..SIZE - 1] + [s[SIZE - 1]];
    OneLastByte(s[..SIZE - 1], s[SIZE - 1]);
  }

  // An accepted sector is an encoding of what it parses to.
  lemma Reencodes<V(!new)>(c: Codec<V>, s: Sector)
    requires Lawful(c) && Balanced(s)
    ensures Encode(c, c.get(s), s) == s
  {
    PutGet(c, c.get(s), s);
    SealBalanced(s);
  }

  // The encodings of v are exactly the inputs that parse to v.
  lemma ParseIffEncoding<V(!new)>(c: Codec<V>, data: seq<byte>, v: V)
    requires Lawful(c) && !c.uses(SIZE - 1)
    ensures Parse(c, data) == Success(v) <==> exists base: Sector :: data == Encode(c, v, base)
  {
    if Parse(c, data) == Success(v) {
      Reencodes(c, data);
      assert data == Encode(c, v, data);
    }
    forall base: Sector | data == Encode(c, v, base) ensures Parse(c, data) == Success(v) {
      EncodeParses(c, v, base);
    }
  }

  lemma EncodeParses<V(!new)>(c: Codec<V>, v: V, base: Sector)
    requires Lawful(c) && !c.uses(SIZE - 1)
    ensures Parse(c, Encode(c, v, base)) == Success(v)
  {
    PutGet(c, v, base);
    SealBalanced(Put(c, v, base));
    assert forall p: nat :: p < SIZE - 1 ==> Put(c, v, base)[p] == Encode(c, v, base)[p];
    GetAgrees(c, Put(c, v, base), Encode(c, v, base));
  }

  // Changing any one byte of an accepted sector makes its parser fail.
  lemma CorruptionDetected<V(!new)>(c: Codec<V>, data: seq<byte>, i: nat, b: byte)
    requires Parse(c, data).Success? && i < |data| && b != data[i]
    ensures Parse(c, data[i := b]) == Failure(ChecksumError)
  {
    SingleByteDetected(data, i, b);
  }
}
