// Integers as section 5.1 of RFC 7541 writes them, and how the parser reads them.
module HpackInt {
  import opened Base
  import opened HpackMachine

  type Group = x: int | 0 <= x < 0x80

  // The ways to write an integer: in the prefix of a byte alone, or counted from the largest
  // value of that prefix in groups of seven bits, the lowest ones first. The last groups may
  // be zero.
  datatype Integer = Short(value: nat) | Long(groups: seq<Group>)

  function Sum(gs: seq<Group>): nat {
    if gs == [] then 0 else Sum(gs[..|gs| - 1]) + gs[|gs| - 1] * Pow2(7 * (|gs| - 1))
  }

  function Value(max: nat, h: Integer): nat {
    match h
    case Short(v) => v
    case Long(gs) => max + Sum(gs)
  }

  predicate WellFormed(max: nat, h: Integer) {
    match h
    case Short(v) => v < max
    case Long(gs) => gs != []
  }

  function Carry(g: Group): byte {
    var v: int := g;
    0x80 + v
  }

  // Every byte but the last one has its first bit set.
  function Carried(gs: seq<Group>): (bs: seq<byte>)
    ensures |bs| == |gs|
  {
    seq(|gs|, j requires 0 <= j < |gs| => Carry(gs[j]))
  }

  function Rest(gs: seq<Group>): seq<byte>
    requires gs != []
  {
    var last: byte := gs[|gs| - 1];
    Carried(gs[..|gs| - 1]) + [last]
  }

  // The bytes of an integer whose first byte begins with the bits `base`.
  function Bytes(base: nat, max: nat, h: Integer): (bs: seq<byte>)
    requires WellFormed(max, h) && base + max < 256
    ensures |bs| > 0
  {
    match h
    case Short(v) => [base + v]
    case Long(gs) => [base + max] + Rest(gs)
  }

  // --- The encoder of section 5.1 ---

  function Digits(n: nat): (gs: seq<Group>)
    ensures gs != []
  {
    if n < 0x80 then [n] else [n % 0x80] + Digits(n / 0x80)
  }

  function Encode(max: nat, n: nat): (h: Integer)
    ensures WellFormed(max, h)
  {
    if n < max then Short(n) else Long(Digits(n - max))
  }

  lemma {:induction false} SumFront(g: Group, gs: seq<Group>)
    ensures Sum([g] + gs) == g + 0x80 * Sum(gs)
  {
    var n := |gs|;
    if n == 0 {
      assert [g] + gs == [g] && [g][..0] == [];
      assert Pow2(0) == 1;
    } else {
      var init, last := gs[..n - 1], gs[n - 1];
      assert ([g] + gs)[..n] == [g] + init;
      SumFront(g, init);
      PowStep(n - 1);
      var p, q := Pow2(7 * (n - 1)), Pow2(7 * n);
      assert last * q == 0x80 * (last * p);
    }
  }

  lemma PowStep(n: nat)
    ensures Pow2(7 * (n + 1)) == 0x80 * Pow2(7 * n)
  {
    var e := 7 * n;
    assert Pow2(e + 7) == 2 * Pow2(e + 6) && Pow2(e + 6) == 2 * Pow2(e + 5) && Pow2(e + 5) == 2 * Pow2(e + 4);
    assert Pow2(e + 4) == 2 * Pow2(e + 3) && Pow2(e + 3) == 2 * Pow2(e + 2) && Pow2(e + 2) == 2 * Pow2(e + 1);
  }

  lemma {:induction false} DigitsSum(n: nat)
    ensures Sum(Digits(n)) == n
  {
    if n < 0x80 {
      assert [n as int][..0] == [];
      assert Pow2(0) == 1;
      var gs: seq<Group> := [n];
      assert gs[..0] == [] && Sum(gs[..0]) == 0;
    } else {
      DigitsSum(n / 0x80);
      SumFront(n % 0x80, Digits(n / 0x80));
    }
  }

  lemma EncodeValue(max: nat, n: nat)
    ensures Value(max, Encode(max, n)) == n
  {
    if n >= max {
      DigitsSum(n - max);
    }
  }

  // --- The parser ---

  // It shifts no further than the fifth group.
  function Shift(n: nat): nat {
    if n <= 5 then 7 * n else 35
  }

  // The first bit of a byte does not count.
  lemma AccumulateCarry(k: u32, m: nat, g: Group)
    ensures Accumulate(k, m, Carry(g)) == Accumulate(k, m, g)
    ensures m > 28 ==> Accumulate(k, m, g) == k
  {
    assert Carry(g) % 0x80 == g;
  }

  // What the parser has accumulated after the groups `gs`.
  function Accumulated(k: u32, gs: seq<Group>): u32 {
    if gs == [] then k
    else
      var n := |gs| - 1;
      Accumulate(Accumulated(k, gs[..n]), Shift(n), gs[n])
  }

  // The value the parser reads an integer as.
  function Machine(max: nat, h: Integer): u32
    requires WellFormed(max, h) && max < U8
  {
    match h
    case Short(v) => v
    case Long(gs) => Accumulated(max, gs)
  }

  lemma ModAdd(a: nat, b: nat)
    ensures (a % U32 + b) % U32 == (a + b) % U32
  {
    assert a + b == (a % U32 + b) + U32 * (a / U32);
  }

  lemma AccumulateGroup(k: u32, m: nat, g: Group)
    ensures Accumulate(k, m, g) == if m <= 28 then (k + g * Pow2(m)) % U32 else k
  {
    var c: byte := g;
    assert c % 0x80 == g;
  }

  lemma {:induction false} AccumulatedSum(k: u32, gs: seq<Group>)
    requires |gs| <= 5
    ensures Accumulated(k, gs) == (k + Sum(gs)) % U32
  {
    hide Accumulate, Pow2;
    if gs != [] {
      var n := |gs| - 1;
      AccumulateGroup(Accumulated(k, gs[..n]), Shift(n), gs[n]);
      AccumulatedSum(k, gs[..n]);
      ModAdd(k + Sum(gs[..n]), gs[n] * Pow2(7 * n));
    }
  }

  lemma {:induction false} PowBound(n: nat)
    requires n >= 5
    ensures Pow2(7 * n) >= U32
  {
    if n == 5 {
      PowStep(0);
      PowStep(1);
      PowStep(2);
      PowStep(3);
      PowStep(4);
    } else {
      PowBound(n - 1);
      PowStep(n - 1);
    }
  }

  lemma AtLeast(a: nat, b: nat)
    ensures a == 0 || a * b >= b
  {
    if a > 0 {
      assert a * b == b + (a - 1) * b;
    }
  }

  // An integer below 2^32 has no more than five groups that count.
  lemma {:induction false} AccumulatedExact(k: u32, gs: seq<Group>)
    requires k + Sum(gs) < U32
    ensures Accumulated(k, gs) == k + Sum(gs)
  {
    hide Accumulate, Pow2;
    if |gs| <= 5 {
      AccumulatedSum(k, gs);
    } else {
      var n := |gs| - 1;
      AccumulateGroup(Accumulated(k, gs[..n]), Shift(n), gs[n]);
      PowBound(n);
      AtLeast(gs[n], Pow2(7 * n));
      AccumulatedExact(k, gs[..n]);
    }
  }

  // Every encoding of an integer, of any length, is read as exactly that integer if and only
  // if it is below 2^32.
  lemma MachineExact(max: nat, h: Integer)
    requires WellFormed(max, h) && max < U8
    ensures Machine(max, h) == Value(max, h) <==> Value(max, h) < U32
  {
    if h.Long? && Value(max, h) < U32 {
      AccumulatedExact(max, h.groups);
    }
  }

  // The parser reads what the encoder wrote.
  lemma EncodeRoundTrip(max: nat, n: u32)
    requires max < U8
    ensures Machine(max, Encode(max, n)) == n
  {
    EncodeValue(max, n);
    MachineExact(max, Encode(max, n));
  }
}
