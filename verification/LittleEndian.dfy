// Little-endian integers in byte sequences: encoding/binary's LittleEndian.
module LittleEndian {
  import opened GoInt
  import opened Bits

  function Pow256(n: nat): (r: nat)
    ensures r >= 1
  {
    if n == 0 then 1 else 256 * Pow256(n - 1)
  }

  lemma Pow256Values()
    ensures Pow256(1) == 0x100 && Pow256(2) == 0x1_0000
    ensures Pow256(4) == 0x1_0000_0000
    ensures Pow256(6) == 0x1_0000_0000_0000
    ensures Pow256(8) == 0x1_0000_0000_0000_0000
  {
    assert Pow256(4) == 256 * (256 * (256 * (256 * Pow256(0))));
    assert Pow256(6) == 256 * (256 * Pow256(4));
    assert Pow256(8) == 256 * (256 * Pow256(6));
  }

  lemma {:induction false} Pow256Monotone(m: nat, n: nat)
    requires m <= n
    ensures Pow256(m) <= Pow256(n)
    decreases n
  {
    if m < n { Pow256Monotone(m, n - 1); }
  }

  lemma {:induction false} Pow2Pow256(k: nat)
    ensures Pow2(8 * k) == Pow256(k)
  {
    if k > 0 {
      Pow2Pow256(k - 1);
      Pow2Add8(8 * k - 8);
    }
  }

  // The positional value of bytes, least significant first.
  function LE(s: seq<byte>): (r: nat)
    ensures r < Pow256(|s|)
  {
    if s == [] then 0 else s[0] + 256 * LE(s[1..])
  }

  // The k-th base-256 digit of x.
  function Digit(x: nat, k: nat): byte
  {
    if k == 0 then x % 256 else Digit(x / 256, k - 1)
  }

  function Bytes(x: nat, n: nat): (s: seq<byte>)
    ensures |s| == n
  {
    seq(n, k requires 0 <= k < n => Digit(x, k))
  }

  // Bytes hold x exactly when each of them is the digit of x at its place.
  lemma {:induction false} DigitsIff(s: seq<byte>, x: nat)
    requires x < Pow256(|s|)
    ensures LE(s) == x <==> forall k :: 0 <= k < |s| ==> s[k] == Digit(x, k)
  {
    if s != [] {
      var t := s[1..];
      DigitsIff(t, x / 256);
      if forall k :: 0 <= k < |s| ==> s[k] == Digit(x, k) {
        assert forall k :: 0 <= k < |t| ==> t[k] == s[k + 1] && s[k + 1] == Digit(x, k + 1);
      }
      if LE(s) == x {
        assert LE(t) == x / 256;
        assert forall k :: 1 <= k < |s| ==> s[k] == t[k - 1];
      }
    }
  }

  lemma BytesRoundTrip(x: nat, n: nat)
    requires x < Pow256(n)
    ensures LE(Bytes(x, n)) == x
  {
    DigitsIff(Bytes(x, n), x);
  }

  // Equally long byte sequences of equal value are equal: LE is a bijection
  // from n bytes onto the numbers below 256^n, with inverse Bytes.
  lemma LEBijective(s: seq<byte>)
    ensures Bytes(LE(s), |s|) == s
  {
    DigitsIff(s, LE(s));
  }

  // LE of a concatenation; so the low n bytes are the value mod 256^n.
  lemma {:induction false} LEConcat(s: seq<byte>, t: seq<byte>)
    ensures LE(s + t) == LE(s) + Pow256(|s|) * LE(t)
  {
    if s == [] {
      assert s + t == t;
    } else {
      assert (s + t)[1..] == s[1..] + t;
      LEConcat(s[1..], t);
      MulAssoc(256, Pow256(|s| - 1), LE(t));
    }
  }

  lemma MulAssoc(a: int, b: int, c: int)
    ensures (a * b) * c == a * (b * c)
  {
  }

  lemma LEExtend(s: seq<byte>, k: nat)
    requires k < |s|
    ensures LE(s[..k + 1]) == LE(s[..k]) + s[k] * Pow256(k)
  {
    assert s[..k + 1] == s[..k] + [s[k]];
    LEConcat(s[..k], [s[k]]);
    assert LE([s[k]]) == s[k];
  }

  lemma LELow(s: seq<byte>, t: seq<byte>)
    ensures LE(s) == LE(s + t) % Pow256(|s|)
    ensures LE(s) == LE(s + t) <==> LE(t) == 0
  {
    LEConcat(s, t);
    DivUnique(LE(s + t), Pow256(|s|), LE(t), LE(s));
    if LE(t) > 0 { assert Pow256(|s|) * LE(t) >= 1; }
  }

  function U16(s: seq<byte>, off: nat): uint16
    requires off + 2 <= |s|
  {
    Pow256Values();
    LE(s[off..off + 2])
  }

  function U32(s: seq<byte>, off: nat): uint32
    requires off + 4 <= |s|
  {
    Pow256Values();
    LE(s[off..off + 4])
  }

  function U64(s: seq<byte>, off: nat): uint64
    requires off + 8 <= |s|
  {
    Pow256Values();
    LE(s[off..off + 8])
  }

  ghost predicate FieldShown(s: seq<byte>, off: nat, n: nat, x: nat)
    requires off + n <= |s|
  {
    forall p :: off <= p < off + n ==> s[p] == Digit(x, p - off)
  }

  // DigitsIff for a field of n bytes inside a longer sequence.
  lemma FieldIff(s: seq<byte>, off: nat, n: nat, x: nat)
    requires off + n <= |s| && x < Pow256(n)
    ensures LE(s[off..off + n]) == x <==> FieldShown(s, off, n, x)
  {
    var t := s[off..off + n];
    DigitsIff(t, x);
    if FieldShown(s, off, n, x) {
      assert forall k :: 0 <= k < n ==> t[k] == s[off + k];
    }
    if LE(t) == x {
      forall p | off <= p < off + n ensures s[p] == Digit(x, p - off) {
        assert s[p] == t[p - off];
      }
    }
  }
}
