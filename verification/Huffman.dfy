// The Huffman length counter of http2/parser.bpf.c, and the canonical code it reads
// (appendix B and section 5.2 of RFC 7541).
//
// The properties are proved of any complete canonical code, so that the proofs do not
// have to carry the two arrays around. `TablesAreComplete` shows that they are one.
module Huffman {
  import opened Base

  type bit = x: int | 0 <= x < 2

  // The length of the longest code.
  const MAXLEN: nat := 30

  // How many symbols have a code of each length, and the code of the first of them.
  const COUNT: seq<nat> := [
    0, 0, 0, 0, 0, 10, 26, 32, 6, 0, 5, 3, 2, 6, 2, 3,
    0, 0, 0, 3, 8, 13, 26, 29, 12, 4, 15, 19, 29, 0, 4, 0
  ]
  const FIRST: seq<u32> := [
    0, 0, 0, 0, 0, 0, 20, 92, 248, 508, 1016, 2042, 4090, 8184, 16380, 32764,
    65534, 131068, 262136, 524272, 1048550, 2097116, 4194258, 8388568, 16777194,
    33554412, 67108832, 134217694, 268435426, 536870910, 1073741820, 0
  ]

  // A code word: the `rank`th one of the codes that are `len` bits long.
  datatype Code = Code(len: nat, rank: nat)

  // The tables of a canonical code: each length goes on where the one before it ends.
  datatype TableArrays = TableArrays(count: seq<nat>, first: seq<u32>) {
    predicate Complete() {
      && |count| == |first| == MAXLEN + 2
      && first[0] == 0
      && (forall n: nat :: n < MAXLEN ==> Leaves(n))
      && first[MAXLEN] + count[MAXLEN] == Pow2(MAXLEN)
    }

    // The codes of `n` bits leave some to go on with, which the longer ones start from.
    predicate Leaves(n: nat)
      requires n < MAXLEN && |count| == |first| == MAXLEN + 2
    {
      first[n] + count[n] < Pow2(n) && first[n + 1] == 2 * (first[n] + count[n])
    }
  }

  type Tables = t: TableArrays | t.Complete()
    ghost witness TableArrays(seq(MAXLEN + 2, i => if i == MAXLEN then Pow2(MAXLEN) else 0), seq(MAXLEN + 2, i => 0))

  predicate Has(t: Tables, c: Code) {
    c.len <= MAXLEN && c.rank < t.count[c.len]
  }

  lemma Lengths(t: Tables)
    ensures |t.count| == |t.first| == MAXLEN + 2
  {}

  // A code that is still being read is above every code of its length.
  predicate Pending(t: Tables, len: nat, code: nat) {
    len < MAXLEN && t.first[len] + t.count[len] <= code < Pow2(len)
  }

  // The `n` low bits of `v`, most significant bit first.
  function Bits(n: nat, v: nat): (s: seq<bit>)
    ensures |s| == n
  {
    if n == 0 then [] else Bits(n - 1, v / 2) + [v % 2]
  }

  function CodeBits(t: Tables, c: Code): seq<bit>
    requires Has(t, c)
  {
    Bits(c.len, t.first[c.len] + c.rank)
  }

  function EncodeBits(t: Tables, cs: seq<Code>): seq<bit>
    requires forall c <- cs :: Has(t, c)
  {
    if cs == [] then [] else CodeBits(t, cs[0]) + EncodeBits(t, cs[1..])
  }

  function BytesBits(s: seq<byte>): (bs: seq<bit>)
    ensures |bs| == 8 * |s|
  {
    if s == [] then [] else Bits(8, s[0]) + BytesBits(s[1..])
  }

  // The bits of a code that is still being read, and the codes read before it.
  datatype Reader = Reader(code: u32, len: nat, done: seq<Code>) {
    predicate Valid(t: Tables)
    {
      Pending(t, len, code) && forall c <- done :: Has(t, c)
    }
  }

  const START := Reader(0, 0, [])

  // Consumes one bit in the wrapping 32 bit arithmetic of HPACK_HUFF_STEP. The counter
  // only keeps the number of `done` codes.
  function Step(t: Tables, r: Reader, b: bit): Reader
  {
    var code := Add32(Add32(r.code, r.code), b);
    var len := r.len + 1;
    if len > MAXLEN then
      Reader(0, 0, r.done)
    else
      var rel := Sub32(code, t.first[len]);
      if rel < t.count[len] then Reader(0, 0, r.done + [Code(len, rel)]) else Reader(code, len, r.done)
  }

  function Read(t: Tables, r: Reader, bs: seq<bit>): Reader
  {
    if bs == [] then r else Step(t, Read(t, r, bs[..|bs| - 1]), bs[|bs| - 1])
  }

  // The codes the bytes of a coded string decode to.
  function Decode(t: Tables, s: seq<byte>): seq<Code>
  {
    Read(t, START, BytesBits(s)).done
  }

  // --- The two arrays ---

  const POWERS: seq<nat> := [
    1, 2, 4, 8, 16, 32, 64, 128, 256, 512, 1024, 2048, 4096, 8192, 16384, 32768,
    65536, 131072, 262144, 524288, 1048576, 2097152, 4194304, 8388608, 16777216,
    33554432, 67108864, 134217728, 268435456, 536870912, 1073741824
  ]

  lemma {:induction false} Powers(n: nat)
    requires n <= MAXLEN
    ensures Pow2(n) == POWERS[n] <= 0x4000_0000
  {
    if n > 0 {
      Powers(n - 1);
      assert POWERS[n] == 2 * POWERS[n - 1];
    }
  }

  lemma PowersBound(n: nat)
    requires n <= MAXLEN
    ensures Pow2(n) <= 0x4000_0000
  {
    Powers(n);
  }

  lemma TableRowLow(n: nat)
    requires n < 15
    ensures FIRST[n] + COUNT[n] < POWERS[n] && FIRST[n + 1] == 2 * (FIRST[n] + COUNT[n])
  {}

  lemma TableRowHigh(n: nat)
    requires 15 <= n < MAXLEN
    ensures FIRST[n] + COUNT[n] < POWERS[n] && FIRST[n + 1] == 2 * (FIRST[n] + COUNT[n])
  {}

  lemma TableRow(n: nat)
    requires n < MAXLEN
    ensures FIRST[n] + COUNT[n] < POWERS[n] && FIRST[n + 1] == 2 * (FIRST[n] + COUNT[n])
  {
    if n < 15 {
      TableRowLow(n);
    } else {
      TableRowHigh(n);
    }
  }

  lemma TablesAreComplete()
    ensures TableArrays(COUNT, FIRST).Complete()
  {
    var t := TableArrays(COUNT, FIRST);
    forall n: nat | n < MAXLEN
      ensures t.Leaves(n)
    {
      TableRow(n);
      Powers(n);
    }
    Powers(MAXLEN);
  }

  // `count` codes that are `len` bits long, in codes of 30 bits.
  function Weight(count: nat, len: nat): nat
    requires len <= MAXLEN
  {
    count * Pow2(MAXLEN - len)
  }

  // The sum of `count[l] * 2^(30 - l)` over the lengths up to `n`.
  function KraftSum(t: Tables, n: nat): nat
    requires n <= MAXLEN
  {
    Weight(t.count[n], n) + if n == 0 then 0 else KraftSum(t, n - 1)
  }

  lemma GoesOn(t: Tables, n: nat)
    requires 0 < n <= MAXLEN
    ensures t.first[n] == 2 * (t.first[n - 1] + t.count[n - 1])
    ensures Pow2(MAXLEN - (n - 1)) == 2 * Pow2(MAXLEN - n)
  {
    assert t.Leaves(n - 1);
  }

  // One length more, for any numbers in place of those of the tables.
  lemma KraftStep(sum: nat, first: nat, below: nat, count: nat, p: nat)
    requires sum == below * (2 * p) && first == 2 * below
    ensures count * p + sum == (first + count) * p
  {}

  lemma {:induction false} KraftUpTo(t: Tables, n: nat)
    requires n <= MAXLEN
    ensures KraftSum(t, n) == (t.first[n] + t.count[n]) * Pow2(MAXLEN - n)
  {
    hide Pow2;
    if n > 0 {
      KraftUpTo(t, n - 1);
      GoesOn(t, n);
      KraftStep(KraftSum(t, n - 1), t.first[n], t.first[n - 1] + t.count[n - 1], t.count[n], Pow2(MAXLEN - n));
    }
  }

  // The Kraft sum of the code is exactly 1, scaled by 2^30.
  lemma KraftSumIsOne()
    ensures var t := TableArrays(COUNT, FIRST); t.Complete() && KraftSum(t, MAXLEN) == Pow2(MAXLEN)
  {
    TablesAreComplete();
    KraftUpTo(TableArrays(COUNT, FIRST), MAXLEN);
  }

  // --- What the reader does ---

  lemma {:induction false} ReadAppend(t: Tables, r: Reader, a: seq<bit>, b: seq<bit>)
    ensures Read(t, r, a + b) == Read(t, Read(t, r, a), b) && Read(t, r, []) == r
    decreases |b|
  {
    if b == [] {
      assert a + b == a;
    } else {
      var ab := a + b;
      assert ab[..|ab| - 1] == a + b[..|b| - 1];
      ReadAppend(t, r, a, b[..|b| - 1]);
    }
  }

  lemma ReadLast(t: Tables, r: Reader, a: seq<bit>, b: bit)
    ensures Read(t, r, a + [b]) == Step(t, Read(t, r, a), b)
  {
    assert (a + [b])[..|a|] == a;
  }

  lemma NextInRange(t: Tables, len: nat, code: nat, b: bit)
    requires Pending(t, len, code)
    ensures var v, n := 2 * code + b, len + 1;
            && n <= MAXLEN && t.first[n] <= v < 0x4000_0000
            && (v - t.first[n] < t.count[n] || Pending(t, n, v))
    ensures Pending(t, 0, 0)
  {
    assert t.Leaves(0) && t.Leaves(len);
    assert len + 1 < MAXLEN ==> t.Leaves(len + 1);
    PowersBound(len + 1);
  }

  // One step neither wraps nor reaches the reset of a code that grew too long: the code in
  // progress stays above every shorter one, and is whole at the latest with its 30th bit.
  lemma StepInRange(t: Tables, r: Reader, b: bit)
    requires Pending(t, r.len, r.code)
    ensures var v, n := 2 * r.code + b, r.len + 1;
            && v < U32 && n <= MAXLEN && t.first[n] <= v
            && Step(t, r, b) == if v - t.first[n] < t.count[n]
                                then Reader(0, 0, r.done + [Code(n, v - t.first[n])])
                                else Reader(v, n, r.done)
    ensures var r' := Step(t, r, b); Pending(t, r'.len, r'.code)
  {
    NextInRange(t, r.len, r.code, b);
  }

  lemma {:induction false} ReadPending(t: Tables, done: seq<Code>, n: nat, v: u32)
    requires Pending(t, n, v)
    ensures Read(t, Reader(0, 0, done), Bits(n, v)) == Reader(v, n, done)
  {
    if n > 0 {
      assert t.Leaves(n - 1);
      ReadPending(t, done, n - 1, v / 2);
      ReadLast(t, Reader(0, 0, done), Bits(n - 1, v / 2), v % 2);
      StepInRange(t, Reader(v / 2, n - 1, done), v % 2);
    }
  }

  // All but the last bit of a code are not one yet.
  lemma SplitCode(t: Tables, c: Code) returns (h: u32, b: bit)
    requires Has(t, c)
    ensures c.len > 0 && Pending(t, c.len - 1, h)
    ensures 2 * h + b == t.first[c.len] + c.rank
    ensures CodeBits(t, c) == Bits(c.len - 1, h) + [b]
  {
    assert t.Leaves(0) && t.Leaves(c.len - 1);
    assert c.len < MAXLEN ==> t.Leaves(c.len);
    PowersBound(c.len);
    var v := t.first[c.len] + c.rank;
    h, b := v / 2, v % 2;
  }

  lemma ReadCode(t: Tables, done: seq<Code>, c: Code)
    requires Has(t, c)
    ensures Read(t, Reader(0, 0, done), CodeBits(t, c)) == Reader(0, 0, done + [c])
  {
    var h, b := SplitCode(t, c);
    ReadPending(t, done, c.len - 1, h);
    ReadLast(t, Reader(0, 0, done), Bits(c.len - 1, h), b);
    StepInRange(t, Reader(h, c.len - 1, done), b);
  }

  lemma {:induction false} ReadEncoded(t: Tables, done: seq<Code>, cs: seq<Code>)
    requires forall c <- cs :: Has(t, c)
    ensures Read(t, Reader(0, 0, done), EncodeBits(t, cs)) == Reader(0, 0, done + cs)
    decreases |cs|
  {
    hide TableArrays.Complete, Read, Pow2, Has;
    if cs == [] {
      assert done + cs == done;
      ReadAppend(t, Reader(0, 0, done), [], []);
    } else {
      ReadAppend(t, Reader(0, 0, done), CodeBits(t, cs[0]), EncodeBits(t, cs[1..]));
      ReadCode(t, done, cs[0]);
      ReadEncoded(t, done + [cs[0]], cs[1..]);
      assert done + [cs[0]] + cs[1..] == done + cs;
    }
  }

  // Whether `s` is the string `cs` is sent as: padded to whole bytes with fewer than eight
  // ones, the most significant bits of the EOS code.
  predicate Padded(t: Tables, s: seq<byte>, cs: seq<Code>)
    requires forall c <- cs :: Has(t, c)
  {
    var p := 8 * |s| - |EncodeBits(t, cs)|;
    0 <= p < 8 && BytesBits(s) == EncodeBits(t, cs) + Bits(p, Pow2(p) - 1)
  }

  // Reading is a left inverse of encoding: no padding is ever taken for a symbol.
  lemma DecodePadded(t: Tables, s: seq<byte>, cs: seq<Code>)
    requires (forall c <- cs :: Has(t, c)) && Padded(t, s, cs)
    ensures Decode(t, s) == cs
  {
    var p := 8 * |s| - |EncodeBits(t, cs)|;
    var pad := Bits(p, Pow2(p) - 1);
    assert t.Leaves(p);
    PowersBound(p);
    calc {
      Read(t, START, BytesBits(s));
      Read(t, START, EncodeBits(t, cs) + pad);
      { ReadAppend(t, START, EncodeBits(t, cs), pad); }
      Read(t, Read(t, START, EncodeBits(t, cs)), pad);
      { ReadEncoded(t, [], cs); assert [] + cs == cs; }
      Read(t, Reader(0, 0, cs), pad);
      { ReadPending(t, cs, p, Pow2(p) - 1); }
      Reader(Pow2(p) - 1, p, cs);
    }
  }

  // The bits a reader has consumed.
  function Consumed(t: Tables, r: Reader): seq<bit>
    requires r.Valid(t)
  {
    EncodeBits(t, r.done) + Bits(r.len, r.code)
  }

  lemma BitsMore(n: nat, v: nat, b: bit)
    ensures Bits(n + 1, 2 * v + b) == Bits(n, v) + [b]
  {
    assert (2 * v + b) / 2 == v && (2 * v + b) % 2 == b;
  }

  lemma StepConsumes(t: Tables, r: Reader, b: bit)
    requires r.Valid(t)
    ensures Step(t, r, b).Valid(t)
    ensures Consumed(t, Step(t, r, b)) == Consumed(t, r) + [b]
  {
    hide Pow2, TableArrays.Complete, Bits, EncodeBits, Step;
    Lengths(t);
    StepInRange(t, r, b);
    BitsMore(r.len, r.code, b);
    var v, n := 2 * r.code + b, r.len + 1;
    if v - t.first[n] < t.count[n] {
      WordRead(t, r.done, Code(n, v - t.first[n]));
    }
  }

  lemma WordRead(t: Tables, cs: seq<Code>, c: Code)
    requires Has(t, c) && forall c' <- cs :: Has(t, c')
    ensures (forall c' <- cs + [c] :: Has(t, c')) && Pending(t, 0, 0)
    ensures EncodeBits(t, cs + [c]) + Bits(0, 0) == EncodeBits(t, cs) + CodeBits(t, c)
  {
    assert t.Leaves(0);
    EncodeAppend(t, cs, c);
  }

  // And a right inverse: any string of bits is the code words that are read from it,
  // followed by the start of one that is not whole.
  lemma {:induction false} ReadIsComplete(t: Tables, bs: seq<bit>)
    ensures var r := Read(t, START, bs); r.Valid(t) && Consumed(t, r) == bs
  {
    assert t.Leaves(0);
    if bs != [] {
      var n := |bs| - 1;
      ReadIsComplete(t, bs[..n]);
      StepConsumes(t, Read(t, START, bs[..n]), bs[n]);
      assert bs == bs[..n] + [bs[n]];
    }
  }

  lemma {:induction false} EncodeAppend(t: Tables, cs: seq<Code>, c: Code)
    requires Has(t, c) && forall c' <- cs :: Has(t, c')
    ensures EncodeBits(t, cs + [c]) == EncodeBits(t, cs) + CodeBits(t, c)
  {
    if cs == [] {
      assert cs + [c] == [c];
      assert [c][1..] == [];
      assert EncodeBits(t, [c]) == CodeBits(t, c) + [];
    } else {
      assert (cs + [c])[1..] == cs[1..] + [c];
      EncodeAppend(t, cs[1..], c);
    }
  }

  // --- The counter ---

  // A name or a value is stored in an entry up to this many bytes.
  const HEADER_FIELD_MAXLEN: nat := 128

  // `v >> n`
  function Shr(v: nat, n: nat): nat {
    if n == 0 then v else Shr(v, n - 1) / 2
  }

  lemma {:induction false} BytesBitsAppend(s: seq<byte>, c: byte)
    ensures BytesBits(s + [c]) == BytesBits(s) + Bits(8, c)
  {
    if s == [] {
      assert BytesBits([c]) == Bits(8, c) + BytesBits([]);
    } else {
      assert (s + [c])[1..] == s[1..] + [c];
      BytesBitsAppend(s[1..], c);
    }
  }

  // HPACK_HUFF_STEP: consumes one bit, counting a symbol once the bits read so far are one.
  method HuffStep(t: Tables, code: u32, len: nat, n: nat, b: bit, ghost r: Reader)
    returns (code': u32, len': nat, n': nat)
    requires r.code == code && r.len == len && |r.done| == n
    ensures var r' := Step(t, r, b); r'.code == code' && r'.len == len' && |r'.done| == n'
  {
    code', len', n' := Add32(Add32(code, code), b), len + 1, n;
    if len' > MAXLEN {
      code', len' := 0, 0;
    } else {
      var rel := Sub32(code', t.first[len']);
      if rel < t.count[len'] {
        code', len', n' := 0, 0, n' + 1;
      }
    }
  }

  lemma BitsOfByte(c: byte, b: nat)
    requires b < 8
    ensures Bits(8 - b, Shr(c, b)) == Bits(7 - b, Shr(c, b + 1)) + [Shr(c, b) % 2]
  {}

  // Consumes the byte `c` bit by bit, the most significant one first.
  method HuffByte(t: Tables, code: u32, len: nat, n: nat, c: byte, ghost r: Reader)
    returns (code': u32, len': nat, n': nat)
    requires r.code == code && r.len == len && |r.done| == n
    ensures var r' := Read(t, r, Bits(8, c)); r'.code == code' && r'.len == len' && |r'.done| == n'
  {
    hide Step, Bits, Shr;
    code', len', n' := code, len, n;
    ghost var r' := r;
    var b := 8;
    NoBits(c);
    while b > 0
      invariant 0 <= b <= 8
      invariant r' == Read(t, r, Bits(8 - b, Shr(c, b)))
      invariant r'.code == code' && r'.len == len' && |r'.done| == n'
    {
      b := b - 1;
      var d: bit := Shr(c, b) % 2;
      BitsOfByte(c, b);
      ReadLast(t, r, Bits(7 - b, Shr(c, b + 1)), d);
      code', len', n' := HuffStep(t, code', len', n', d, r');
      r' := Step(t, r', d);
    }
  }

  lemma NoBits(c: byte)
    ensures Bits(0, Shr(c, 8)) == [] && Shr(c, 0) == c
  {}

  // Whether a string that is sent as `s` has `n` symbols.
  ghost predicate Counted(t: Tables, s: seq<byte>, n: nat) {
    forall cs: seq<Code> :: (forall c <- cs :: Has(t, c)) && Padded(t, s, cs) ==> |cs| == n
  }

  lemma DecodeCounts(t: Tables, s: seq<byte>)
    ensures Counted(t, s, |Decode(t, s)|)
  {
    hide Decode, Padded;
    forall cs: seq<Code> | (forall c <- cs :: Has(t, c)) && Padded(t, s, cs)
      ensures |cs| == |Decode(t, s)|
    {
      DecodePadded(t, s, cs);
    }
  }

  // Counts the symbols of the first `srcLen` bytes of a coded string. For a string that was
  // coded as section 5.2 of RFC 7541 has it and is no longer than what is read, this is the
  // number of symbols it was coded from.
  method DecodedLen(t: Tables, src: seq<byte>, srcLen: nat) returns (n: nat)
    requires Min(srcLen, HEADER_FIELD_MAXLEN) <= |src|
    ensures n == |Decode(t, src[..Min(srcLen, HEADER_FIELD_MAXLEN)])|
    ensures srcLen <= HEADER_FIELD_MAXLEN ==> Counted(t, src[..srcLen], n)
  {
    hide Counted, Bits;
    var code: u32 := 0;
    var len, max := 0, Min(srcLen, HEADER_FIELD_MAXLEN);
    n := 0;
    ghost var r := START;
    for i := 0 to max
      invariant r == Read(t, START, BytesBits(src[..i]))
      invariant r.code == code && r.len == len && |r.done| == n
    {
      ByteRead(t, src, i);
      code, len, n := HuffByte(t, code, len, n, src[i], r);
      r := Read(t, r, Bits(8, src[i]));
    }
    DecodeCounts(t, src[..max]);
  }

  lemma ByteRead(t: Tables, src: seq<byte>, i: nat)
    requires i < |src|
    ensures Read(t, START, BytesBits(src[..i + 1])) == Read(t, Read(t, START, BytesBits(src[..i])), Bits(8, src[i]))
  {
    hide Read;
    assert src[..i + 1] == src[..i] + [src[i]];
    BytesBitsAppend(src[..i], src[i]);
    ReadAppend(t, START, BytesBits(src[..i]), Bits(8, src[i]));
  }

  // --- Strings of octets ---

  // A code word for every octet.
  datatype OctetCodes = OctetCodes(t: Tables, codes: seq<Code>) {
    predicate Distinct() {
      && |codes| == 256
      && (forall c <- codes :: Has(t, c))
      && (forall a, b :: 0 <= a < b < 256 ==> codes[a] != codes[b])
    }
  }

  ghost const EXAMPLE: Tables :=
    TableArrays(seq(MAXLEN + 2, i => if i == MAXLEN then Pow2(MAXLEN) else 0), seq(MAXLEN + 2, i => 0))

  type Coding = k: OctetCodes | k.Distinct()
    ghost witness (Powers(MAXLEN);
                   OctetCodes(EXAMPLE, seq(256, i requires 0 <= i < 256 => Code(MAXLEN, i))))

  function Codes(k: Coding, s: seq<byte>): (cs: seq<Code>)
    ensures forall c <- cs :: Has(k.t, c)
  {
    seq(|s|, i requires 0 <= i < |s| => k.codes[s[i]])
  }

  // Whether the bytes `w` are how the string `s` is sent, Huffman coded if `huff`.
  predicate SentAs(k: Coding, w: seq<byte>, huff: bool, s: seq<byte>) {
    if huff then Padded(k.t, w, Codes(k, s)) else w == s
  }

  // The length of the string sent as `w`, as the parser counts it.
  function Len(k: Coding, w: seq<byte>, huff: bool): nat {
    if huff then |Decode(k.t, w)| else |w|
  }

  lemma {:induction false} ReadBound(t: Tables, bs: seq<bit>)
    ensures |Read(t, START, bs).done| <= |bs|
  {
    if bs != [] {
      ReadBound(t, bs[..|bs| - 1]);
    }
  }

  // What was sent has only one reading, and its length is counted right.
  lemma SentAsIsInjective(k: Coding, w: seq<byte>, huff: bool, s: seq<byte>)
    requires SentAs(k, w, huff, s)
    ensures Len(k, w, huff) == |s|
    ensures forall s' :: SentAs(k, w, huff, s') ==> s' == s
  {
    if huff {
      DecodePadded(k.t, w, Codes(k, s));
      forall s' | SentAs(k, w, huff, s')
        ensures s' == s
      {
        DecodePadded(k.t, w, Codes(k, s'));
        assert |s'| == |Codes(k, s')| == |s|;
        forall i | 0 <= i < |s|
          ensures s'[i] == s[i]
        {
          assert Codes(k, s')[i] == Codes(k, s)[i];
        }
      }
    }
  }

  lemma {:induction false} BitsAreInjective(n: nat, v: nat, v': nat)
    requires v < Pow2(n) && v' < Pow2(n) && Bits(n, v) == Bits(n, v')
    ensures v == v'
  {
    if n > 0 {
      var b, b' := Bits(n, v), Bits(n, v');
      assert b[..n - 1] == Bits(n - 1, v / 2) && b'[..n - 1] == Bits(n - 1, v' / 2);
      assert b[n - 1] == v % 2 && b'[n - 1] == v' % 2;
      BitsAreInjective(n - 1, v / 2, v' / 2);
    }
  }

  lemma {:induction false} BytesBitsAreInjective(w: seq<byte>, w': seq<byte>)
    requires BytesBits(w) == BytesBits(w')
    ensures w == w'
  {
    assert |w| == |w'|;
    if w != [] {
      var b, b' := BytesBits(w), BytesBits(w');
      assert b[..8] == Bits(8, w[0]) && b'[..8] == Bits(8, w'[0]);
      assert b[8..] == BytesBits(w[1..]) && b'[8..] == BytesBits(w'[1..]);
      assert Pow2(8) == 256;
      BitsAreInjective(8, w[0], w'[0]);
      BytesBitsAreInjective(w[1..], w'[1..]);
    }
  }

  // A string is sent in only one way in either coding.
  lemma SentAsIsUnique(k: Coding, w: seq<byte>, w': seq<byte>, huff: bool, s: seq<byte>)
    requires SentAs(k, w, huff, s) && SentAs(k, w', huff, s)
    ensures w == w'
  {
    if huff {
      assert |w| == |w'|;
      BytesBitsAreInjective(w, w');
    }
  }
}
