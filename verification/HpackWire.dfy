// The field representations of section 6 of RFC 7541 as bytes, and what the decoder makes of
// them, one whole representation at a time.
module HpackWire {
  import opened Base
  import opened Http2Action
  import opened HpackMachine
  import I = HpackInt
  import Inject
  import NameTrie

  // --- Rows ---

  // The states whose transitions come from a row.
  predicate IsRow(s: nat) {
    S_FIELD <= s < S_NAME || S_NAME < s < S_NAME_PLAIN
  }

  ghost predicate HasRows(es: Edges) {
    forall s: nat, c: byte :: IsRow(s) ==> Get(es, s, c) == RowOf(s, c)
  }

  lemma HoldsRows(es: Edges, numStates: nat, t: NameTrie.Trie)
    requires NameTrie.Holds(es, numStates, t)
    ensures HasRows(es)
  {
    forall s: nat, c: byte | IsRow(s)
      ensures Get(es, s, c) == RowOf(s, c)
    {
      assert Get(es, s, c) == NameTrie.Expected(t, s, c);
    }
  }

  // The step over a transition of a row.
  function StepOver(env: Env, ps: State, w: World, i: nat, c: byte, to: nat, act: CAction): Out {
    var ps1 := ps.(s := to);
    if IsDigit(act) then Out(TakeDigit(ps1, act, c), w, false)
    else Run(env, ps1, w, i, act.kind, ValueOf(ps1, act, c), act.flags)
  }

  lemma StepRow(env: Env, ps: State, w: World, i: nat, c: byte)
    requires HasRows(env.es) && IsRow(ps.s) && ps.skip == 0
    ensures RowOf(ps.s, c).Some?
    ensures var e := RowOf(ps.s, c).value;
            Step(env, ps, w, i, c) == StepOver(env, ps, w, i, c, e.to, Inject.Coded(Encode, NOOP, e.action))
  {
    assert Get(env.es, ps.s, c) == RowOf(ps.s, c);
  }

  // --- Integers ---

  // How an integer that a byte `base` of the state `from` begins is laid out: the states its
  // bytes go through, and the action its last one carries.
  datatype Prefix = Prefix(from: nat, base: nat, max: nat, kind: Kind, to: nat, flags: nat, cont: nat)

  function IndexedPrefix(): Prefix {
    Prefix(S_FIELD, 0x80, 0x7F, Indexed, S_FIELD, 0, S_IDX7_CONT)
  }

  // The name of a literal field: incremental indexing, without indexing, and never indexed.
  datatype Form = Incremental | Unindexed | Never

  function NamePrefix(form: Form): Prefix {
    match form
    case Incremental => Prefix(S_FIELD, 0x40, 0x3F, IdxName, S_VAL_LEN, F_ADD_DT, S_IDX6_CONT)
    case Unindexed => Prefix(S_FIELD, 0x00, 0x0F, IdxName, S_VAL_LEN, 0, S_IDX4_CONT)
    case Never => Prefix(S_FIELD, 0x10, 0x0F, IdxName, S_VAL_LEN, 0, S_IDX4_CONT)
  }

  function SizePrefix(): Prefix {
    Prefix(S_FIELD, 0x20, 0x1F, TableSize, S_FIELD, 0, S_STG_CONT)
  }

  function KeyPrefix(huff: bool): Prefix {
    if huff then Prefix(S_KEY_LEN, 0x80, 0x7F, KeyLen, S_NAME, F_HUFF, S_KEY_LEN_CONT_HUFF)
    else Prefix(S_KEY_LEN, 0x00, 0x7F, KeyLen, S_NAME_PLAIN, 0, S_KEY_LEN_CONT)
  }

  function ValuePrefix(huff: bool): Prefix {
    if huff then Prefix(S_VAL_LEN, 0x80, 0x7F, ValLen, S_FIELD, F_HUFF, S_VAL_LEN_CONT_HUFF)
    else Prefix(S_VAL_LEN, 0x00, 0x7F, ValLen, S_FIELD, 0, S_VAL_LEN_CONT)
  }

  // Whether the rows have the first byte of an integer `h` laid out as `p` says.
  ghost predicate Begins(p: Prefix, h: I.Integer) {
    && p.max < 0x80 && p.base + p.max < 0x100 && I.WellFormed(p.max, h)
    && (h.Short? ==> RowOf(p.from, p.base + h.value) == To(p.to, p.kind, h.value, p.flags))
    && RowOf(p.from, p.base + p.max) == To(p.cont, IntStart, p.max, 0)
  }

  // Whether the rows have the other bytes laid out like that.
  ghost predicate Continues(p: Prefix) {
    forall c: byte :: RowOf(p.cont, c) == ContRow(p.cont, p.kind, p.to, p.flags, c)
  }

  ghost predicate Lays(p: Prefix, h: I.Integer) {
    && IsRow(p.from) && IsRow(p.cont)
    && (p.flags == 0 || p.flags == F_HUFF || p.flags == F_ADD_DT)
    && !p.kind.IntStart? && !p.kind.IntCont?
    && Begins(p, h) && Continues(p)
  }

  lemma RowsContinue(form: Form, huff: bool)
    ensures Continues(IndexedPrefix()) && Continues(SizePrefix()) && Continues(NamePrefix(form))
    ensures Continues(KeyPrefix(huff)) && Continues(ValuePrefix(huff))
  {
    hide ContRow, FieldRow, LengthRow;
  }

  lemma IndexedLays(h: I.Integer)
    requires I.WellFormed(0x7F, h) && (h.Short? ==> h.value > 0)
    ensures Lays(IndexedPrefix(), h)
  {
    RowsContinue(Never, false);
    hide Continues;
  }

  lemma SizeLays(h: I.Integer)
    requires I.WellFormed(0x1F, h)
    ensures Lays(SizePrefix(), h)
  {
    RowsContinue(Never, false);
    hide Continues;
  }

  lemma NameLays(form: Form, h: I.Integer)
    requires I.WellFormed(NamePrefix(form).max, h) && (h.Short? ==> h.value > 0)
    ensures Lays(NamePrefix(form), h)
  {
    RowsContinue(form, false);
    hide Continues;
  }

  lemma StringLays(huff: bool, h: I.Integer)
    requires I.WellFormed(0x7F, h)
    ensures Lays(KeyPrefix(huff), h) && Lays(ValuePrefix(huff), h)
  {
    RowsContinue(Never, huff);
    hide Continues;
  }

  lemma RunFlags(env: Env, ps: State, w: World, i: nat, kind: nat, v: u32, flags: nat)
    requires flags == 0 || flags == F_HUFF || flags == F_ADD_DT
    ensures Run(env, ps, w, i, kind, v, flags + F_CONT) == Run(env, ps, w, i, kind, v, flags)
  {
    assert HasFlag(flags + F_CONT, F_ADD_DT) == HasFlag(flags, F_ADD_DT);
    assert HasFlag(flags + F_CONT, F_HUFF) == HasFlag(flags, F_HUFF);
  }

  // A byte that is not the last one of an integer.
  lemma StepCarried(env: Env, ps: State, w: World, i: nat, p: Prefix, h: I.Integer, g: I.Group)
    requires HasRows(env.es) && Lays(p, h) && ps.s == p.cont && ps.skip == 0
    ensures Step(env, ps, w, i, I.Carry(g)) ==
            Out(ps.(k := Accumulate(ps.k, ps.m, g), m := if ps.m <= 28 then ps.m + 7 else ps.m), w, false)
  {
    hide Step, Run, RowOf, Accumulate;
    var c := I.Carry(g);
    StepRow(env, ps, w, i, c);
    assert RowOf(p.cont, c) == ContRow(p.cont, p.kind, p.to, p.flags, c);
    I.AccumulateCarry(ps.k, ps.m, g);
  }

  // The last byte of one.
  lemma StepLast(env: Env, ps: State, w: World, i: nat, p: Prefix, h: I.Integer, g: I.Group)
    requires HasRows(env.es) && Lays(p, h) && ps.s == p.cont && ps.skip == 0
    ensures Step(env, ps, w, i, g) ==
            Run(env, ps.(s := p.to), w, i, KindCode(p.kind), Accumulate(ps.k, ps.m, g), p.flags)
  {
    hide Step, Run, RowOf, Accumulate;
    StepRow(env, ps, w, i, g);
    assert RowOf(p.cont, g) == ContRow(p.cont, p.kind, p.to, p.flags, g);
    assert HasFlag(p.flags + F_CONT, F_CONT);
    RunFlags(env, ps.(s := p.to), w, i, KindCode(p.kind), Accumulate(ps.k, ps.m, g), p.flags);
  }

  // The first byte of one.
  lemma StepFirst(env: Env, ps: State, w: World, i: nat, p: Prefix, h: I.Integer)
    requires HasRows(env.es) && Lays(p, h) && ps.s == p.from && ps.skip == 0
    ensures h.Short? ==>
              Step(env, ps, w, i, p.base + h.value) ==
              Run(env, ps.(s := p.to), w, i, KindCode(p.kind), h.value, p.flags)
    ensures h.Long? ==>
              Step(env, ps, w, i, p.base + p.max) == Out(ps.(s := p.cont, k := p.max, m := 0), w, false)
  {
    hide Step, Run;
    StepRow(env, ps, w, i, if h.Short? then p.base + h.value else p.base + p.max);
    assert !HasFlag(p.flags, F_CONT);
  }

  lemma {:induction false} FeedCarried(env: Env, ps: State, w: World, i: nat, p: Prefix, h: I.Integer, gs: seq<I.Group>)
    requires HasRows(env.es) && Lays(p, h) && ps.s == p.cont && ps.skip == 0 && ps.m == 0
    ensures Feed(env, ps, w, i, I.Carried(gs)) == Out(ps.(k := I.Accumulated(ps.k, gs), m := I.Shift(|gs|)), w, false)
  {
    hide Step;
    if gs != [] {
      var n := |gs| - 1;
      FeedCarried(env, ps, w, i, p, h, gs[..n]);
      assert I.Carried(gs)[..n] == I.Carried(gs[..n]);
      var ps1 := ps.(k := I.Accumulated(ps.k, gs[..n]), m := I.Shift(n));
      StepCarried(env, ps1, w, i + n, p, h, gs[n]);
    }
  }

  lemma LaysBytes(p: Prefix, h: I.Integer)
    requires Lays(p, h)
    ensures p.max < 0x80 && p.base + p.max < 0x100 && I.WellFormed(p.max, h)
  {}

  lemma FeedRest(env: Env, ps: State, w: World, i: nat, p: Prefix, gs: seq<I.Group>) returns (read: u32, shift: nat)
    requires HasRows(env.es) && Lays(p, I.Long(gs)) && ps.s == p.cont && ps.skip == 0 && ps.m == 0
    ensures Feed(env, ps, w, i, I.Rest(gs)) ==
            Run(env, ps.(s := p.to, k := read, m := shift), w, i + |gs| - 1, KindCode(p.kind),
                I.Accumulated(ps.k, gs), p.flags)
  {
    hide Step, Run, RowOf, HasRows, Feed, Lays, Accumulate;
    LaysBytes(p, I.Long(gs));
    var n := |gs| - 1;
    var last: byte := gs[n];
    read, shift := I.Accumulated(ps.k, gs[..n]), I.Shift(n);
    FeedCarried(env, ps, w, i, p, I.Long(gs), gs[..n]);
    FeedThen(env, ps, w, i, I.Carried(gs[..n]), [last]);
    FeedOne(env, ps.(k := read, m := shift), w, i + n, last);
    StepLast(env, ps.(k := read, m := shift), w, i + n, p, I.Long(gs), gs[n]);
  }

  lemma FeedLong(env: Env, ps: State, w: World, i: nat, p: Prefix, gs: seq<I.Group>) returns (read: u32, shift: nat)
    requires HasRows(env.es) && Lays(p, I.Long(gs)) && ps.s == p.from && ps.skip == 0
    ensures Feed(env, ps, w, i, [p.base + p.max] + I.Rest(gs)) ==
            Run(env, ps.(s := p.to, k := read, m := shift), w, i + |gs|, KindCode(p.kind),
                I.Accumulated(p.max, gs), p.flags)
  {
    hide Step, Run, RowOf, HasRows, Feed, Lays, I.Accumulated, I.Rest;
    LaysBytes(p, I.Long(gs));
    var ps1 := ps.(s := p.cont, k := p.max, m := 0);
    FeedOne(env, ps, w, i, p.base + p.max);
    StepFirst(env, ps, w, i, p, I.Long(gs));
    FeedThen(env, ps, w, i, [p.base + p.max], I.Rest(gs));
    read, shift := FeedRest(env, ps1, w, i + 1, p, gs);
  }

  // The bytes of an integer run the action of its last one on its value.
  lemma FeedInt(env: Env, ps: State, w: World, i: nat, p: Prefix, h: I.Integer) returns (read: u32, shift: nat)
    requires HasRows(env.es) && Lays(p, h) && ps.s == p.from && ps.skip == 0
    ensures var bs := I.Bytes(p.base, p.max, h);
            Feed(env, ps, w, i, bs) ==
            Run(env, ps.(s := p.to, k := read, m := shift), w, i + |bs| - 1, KindCode(p.kind),
                I.Machine(p.max, h), p.flags)
  {
    hide Step, Run, RowOf, HasRows, Feed;
    if h.Short? {
      read, shift := ps.k, ps.m;
      FeedOne(env, ps, w, i, p.base + h.value);
      StepFirst(env, ps, w, i, p, h);
    } else {
      read, shift := FeedLong(env, ps, w, i, p, h.groups);
    }
  }
}
