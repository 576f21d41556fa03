// Types, widths and limits shared by every parser.
module Base {
  type byte = x: int | 0 <= x < 256

  const U8: nat := 0x100
  const U16: nat := 0x1_0000
  const U32: nat := 0x1_0000_0000

  // No walk goes beyond this many bytes.
  const MAX_BYTES: nat := 0x7FFF

  // The number of matches any parser can report.
  const MAX_MATCHES: nat := 32

  datatype Option<+T> = None | Some(value: T)

  function Min(a: int, b: int): int {
    if a <= b then a else b
  }

  type u16 = x: int | 0 <= x < U16
  type u32 = x: int | 0 <= x < U32

  // Addition and subtraction in 32 bits.
  function Add32(a: u32, b: u32): u32 {
    if a + b < U32 then a + b else a + b - U32
  }

  function Sub32(a: u32, b: u32): u32 {
    if a >= b then a - b else a - b + U32
  }

  function Pow2(n: nat): (p: nat)
    ensures p > 0
  {
    if n == 0 then 1 else 2 * Pow2(n - 1)
  }

  lemma {:induction false} SubsetSize<T>(a: set<T>, b: set<T>)
    requires a <= b
    ensures |a| <= |b|
    ensures |a| == |b| ==> a == b
  {
    if x :| x in a {
      SubsetSize(a - {x}, b - {x});
    }
  }

  lemma SliceOfSlice<T>(d: seq<T>, i: nat, j: nat, a: nat, b: nat)
    requires i <= j <= |d| && a <= b <= j - i
    ensures d[i..j][a..b] == d[i + a..i + b]
  {
    var w := d[i..j];
    assert |w[a..b]| == |d[i + a..i + b]|;
    forall k | 0 <= k < b - a
      ensures w[a..b][k] == d[i + a..i + b][k]
    {
      assert w[a..b][k] == w[a + k] == d[i + a + k];
    }
  }

  // The bytes `bs`, read one after the other from the offset `i` on.
  function Fold<S>(step: (S, nat, byte) -> S, s: S, i: nat, bs: seq<byte>): S {
    if bs == [] then s else step(Fold(step, s, i, bs[..|bs| - 1]), i + |bs| - 1, bs[|bs| - 1])
  }

  lemma {:induction false} FoldAppend<S>(step: (S, nat, byte) -> S, s: S, i: nat, a: seq<byte>, b: seq<byte>)
    ensures Fold(step, s, i, a + b) == Fold(step, Fold(step, s, i, a), i + |a|, b)
    decreases |b|
  {
    if b == [] {
      assert a + b == a;
    } else {
      FoldAppend(step, s, i, a, b[..|b| - 1]);
      assert (a + b)[..|a + b| - 1] == a + b[..|b| - 1];
    }
  }

  lemma FoldOne<S>(step: (S, nat, byte) -> S, s: S, i: nat, c: byte)
    ensures Fold(step, s, i, [c]) == step(s, i, c)
  {
    assert [c][..0] == [];
    assert Fold(step, s, i, [c][..0]) == s;
  }
}
