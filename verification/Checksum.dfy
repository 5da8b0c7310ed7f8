// The ATA sector checksum: all bytes add up to zero modulo 256.
module Checksum {
  import opened GoInt

  ghost function Sum(s: seq<byte>): (r: nat)
  {
    if s == [] then 0 else Sum(s[..|s| - 1]) + s[|s| - 1]
  }

  ghost predicate Balanced(s: seq<byte>) { Sum(s) % 256 == 0 }

  // The uint8 accumulator wraps at every step; the verdict is that of the true sum.
  method ValidateChecksum(data: seq<byte>) returns (ok: bool)
    ensures ok <==> Balanced(data)
  {
    var sum: uint8 := 0;
    for i := 0 to |data|
      invariant sum == Sum(data[..i]) % 256
    {
      assert data[..i + 1][..i] == data[..i];
      sum := Wrap8(sum + data[i]);
    }
    assert data[..|data|] == data;
    return sum == 0;
  }

  lemma {:induction false} SumUpdate(s: seq<byte>, i: nat, b: byte)
    requires i < |s|
    ensures Sum(s[i := b]) == Sum(s) - s[i] + b
  {
    var n := |s| - 1;
    if i == n {
      assert s[i := b][..n] == s[..n];
    } else {
      assert s[i := b][..n] == s[..n][i := b];
      SumUpdate(s[..n], i, b);
    }
  }

  // Zeros are accepted, however many.
  lemma ZerosAccepted(s: seq<byte>)
    requires forall i :: 0 <= i < |s| ==> s[i] == 0
    ensures Balanced(s)
  {
    ZeroSum(s);
  }

  lemma {:induction false} ZeroSum(s: seq<byte>)
    requires forall i :: 0 <= i < |s| ==> s[i] == 0
    ensures Sum(s) == 0
  {
    if s != [] { ZeroSum(s[..|s| - 1]); }
  }

  // Every single-byte change of an accepted sequence is detected.
  lemma SingleByteDetected(s: seq<byte>, i: nat, b: byte)
    requires Balanced(s) && i < |s| && b != s[i]
    ensures !Balanced(s[i := b])
  {
    SumUpdate(s, i, b);
  }

  // A two-byte change escapes exactly when the differences cancel modulo 256.
  lemma TwoByteEscapes(s: seq<byte>, i: nat, b: byte, j: nat, c: byte)
    requires Balanced(s) && i < |s| && j < |s| && i != j
    ensures Balanced(s[i := b][j := c]) <==> (b - s[i] + c - s[j]) % 256 == 0
  {
    SumUpdate(s, i, b);
    SumUpdate(s[i := b], j, c);
  }

  ghost function Fix(prefix: seq<byte>): byte { (256 - Sum(prefix) % 256) % 256 }

  // Each prefix has exactly one last byte that the check accepts.
  lemma OneLastByte(prefix: seq<byte>, b: byte)
    ensures Balanced(prefix + [b]) <==> b == Fix(prefix)
  {
    assert (prefix + [b])[..|prefix|] == prefix;
  }
}
