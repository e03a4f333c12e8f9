/** The native Buffer object: a mutable byte array with clamping copies. */
module Buffers {
  import opened Basics

  newtype byte = x: int | 0 <= x < 256

  function Pow2(n: nat): (r: nat)
    ensures r > 0
  {
    if n == 0 then 1 else 2 * Pow2(n - 1)
  }

  /** Exclusive or of the low `bits` bits of two numbers. */
  function XorBits(a: nat, b: nat, bits: nat): (r: nat)
    ensures r < Pow2(bits)
  {
    if bits == 0 then 0 else (if a % 2 == b % 2 then 0 else 1) + 2 * XorBits(a / 2, b / 2, bits - 1)
  }

  function Xor(a: byte, b: byte): byte {
    EightBits();
    XorBits(a as nat, b as nat, 8) as byte
  }

  lemma EightBits()
    ensures Pow2(8) == 256
  {
    assert Pow2(4) == 16;
  }

  lemma {:induction false} XorBitsTwice(a: nat, b: nat, bits: nat)
    requires a < Pow2(bits)
    ensures XorBits(XorBits(a, b, bits), b, bits) == a
  {
    if bits > 0 {
      XorBitsTwice(a / 2, b / 2, bits - 1);
      BitOver((if a % 2 == b % 2 then 0 else 1), XorBits(a / 2, b / 2, bits - 1));
    }
  }

  lemma BitOver(bit: nat, rest: nat)
    requires bit < 2
    ensures (bit + 2 * rest) % 2 == bit && (bit + 2 * rest) / 2 == rest
  {
  }

  lemma XorTwice(a: byte, b: byte)
    ensures Xor(Xor(a, b), b) == a
  {
    EightBits();
    XorBitsTwice(a as nat, b as nat, 8);
  }

  function Zeros(n: nat): (r: seq<byte>)
    ensures |r| == n && forall i :: 0 <= i < n ==> r[i] == 0
  {
    seq(n, _ => 0)
  }

  /** What `copyFrom` leaves in a buffer holding `target`: as many bytes of `source`, read from
      `from`, as fit at `to`; both offsets are clamped to the lengths. */
  function Copied(target: seq<byte>, source: seq<byte>, from: nat, to: nat): (r: seq<byte>)
    ensures |r| == |target|
  {
    var f := Min(from, |source|);
    var t := Min(to, |target|);
    var n := Min(|source| - f, |target| - t);
    target[..t] + source[f..f + n] + target[t + n..]
  }

  /** `new Buffer(length)`: zero filled. */
  method NewBuffer(length: nat) returns (b: array<byte>)
    ensures fresh(b) && b.Length == length
    ensures forall i :: 0 <= i < length ==> b[i] == 0
  {
    b := new byte[length](_ => 0);
  }

  method CopyFrom(target: array<byte>, source: array<byte>, from: nat, to: nat)
    requires target != source
    modifies target
    ensures target[..] == Copied(old(target[..]), source[..], from, to)
  {
    var f := Min(from, source.Length);
    var t := Min(to, target.Length);
    var n := Min(source.Length - f, target.Length - t);
    ghost var was := target[..];
    for i := 0 to n
      invariant forall k :: 0 <= k < target.Length ==>
                  target[k] == if t <= k < t + i then source[f + (k - t)] else was[k]
    {
      target[t + i] := source[f + i];
    }
  }

  /** A fresh buffer holding the bytes of `a` and then those of `b`. */
  method Joined(a: array<byte>, b: array<byte>) returns (c: array<byte>)
    ensures fresh(c) && c[..] == a[..] + b[..]
  {
    hide Copied;
    c := NewBuffer(a.Length + b.Length);
    CopiedTwice(c[..], a[..], b[..]);
    CopyFrom(c, a, 0, 0);
    CopyFrom(c, b, 0, a.Length);
  }

  lemma CopiedTwice(target: seq<byte>, a: seq<byte>, b: seq<byte>)
    requires |target| == |a| + |b|
    ensures Copied(Copied(target, a, 0, 0), b, 0, |a|) == a + b
  {
    var first := Copied(target, a, 0, 0);
    assert first == a + target[|a|..];
    assert first[..|a|] == a;
  }

  /** A fresh buffer holding the bytes of `a` from `offset` on. */
  method Tail(a: array<byte>, offset: nat) returns (c: array<byte>)
    requires offset <= a.Length
    ensures fresh(c) && c[..] == a[offset..]
  {
    c := NewBuffer(a.Length - offset);
    CopyFrom(c, a, offset, 0);
  }
}
