// The step of the HPACK decoder: what one byte of a header block makes of the parse state,
// the dynamic table and the matches. Class ParseState in module HpackParser runs it in place.
module HpackMachine {
  import opened Base
  import opened DynamicTable
  import opened Http2Action
  import D = Dfa
  import Inject
  import NameTrie

  type Edges = D.Edges<Action>

  type Matches = s: seq<Match> | |s| == MAX_MATCHES witness seq(MAX_MATCHES, _ => Match(0, 0, Msg, false))

  // What a header block is decoded with: the configuration, the message, the DFA, the keys
  // the map of entries has for the connection, and where the block is.
  datatype Env = Env(cfg: Config, ctx: Ctx, es: Edges, room: int, src: Source)

  // What decoding a header block changes beside the parse state.
  datatype World = World(tab: Tab, ms: Matches)

  // `k` is an integer as far as it has been read, to which the next byte adds bits from the
  // `m`th on. Of a string, `skip` bytes are still to come. `cid` is the capture of the field
  // the name of which was read, or -1.
  datatype State = State(s: nat, k: u32, m: nat, skip: nat, isKey: bool, cid: int, addToDt: bool, key: Match)

  datatype Out = Out(ps: State, w: World, err: bool)

  function New(src: Source): State {
    State(S_FIELD, 0, 0, 0, false, -1, false, Match(0, 0, src, false))
  }

  // A length is masked to what any parser walks.
  function Masked(v: nat): nat {
    v % (MAX_BYTES + 1)
  }

  // The slot a match reports an index as: 0, which names no entry, if it has none that can
  // be reported.
  function Reported(t: Tab, v: nat): u16 {
    var slot := if !t.IsValidIndex(v) then 0 else if v > STATIC_TABLE_SIZE then t.SlotOf(v) else v;
    if slot > 0xFFFF then 0 else slot
  }

  // The capture a name in a table matches, or -1.
  function MatchField(es: Edges, f: Option<Field>): int {
    if f.None? then -1
    else NameTrie.WalkName(es, if f.value.keyHuff then S_NAME else S_NAME_PLAIN, f.value.key).1
  }

  // A match that takes its value from the entry in `slot`.
  function TableMatch(slot: u16): Match {
    Match(slot, FIELD_MAXLEN - 1, Table, false)
  }

  predicate IsMid(mid: int) {
    0 <= mid < MAX_MATCHES
  }

  // A name that is an index, or a field that is, whose name captures as `mid`.
  function SetIndex(ps: State, kind: nat, flags: nat, slot: u16, mid: int): State {
    ps.(addToDt := HasFlag(flags, F_ADD_DT),
        cid := if IsMid(mid) && kind == KindCode(IdxName) then mid else -1,
        key := Match(slot, 0, Table, false))
  }

  // Both halves of an indexed field are in the table.
  function CaptureIndex(ms: Matches, kind: nat, slot: u16, mid: int): Matches {
    if IsMid(mid) && kind != KindCode(IdxName) then ms[mid := TableMatch(slot)] else ms
  }

  function SetLiteral(ps: State, flags: nat): State {
    ps.(addToDt := HasFlag(flags, F_ADD_DT), cid := -1)
  }

  // A string announced at the offset `i`. Offsets are 16 bits wide.
  function StringMatch(src: Source, i: nat, v: u32, flags: nat): Match {
    Match((i + 1) % U16, Masked(v), src, HasFlag(flags, F_HUFF))
  }

  function SetKey(ps: State, m: Match): State {
    ps.(key := m, skip := m.len, isKey := true, s := if m.len == 0 then S_VAL_LEN else ps.s)
  }

  function SetValue(ps: State, m: Match): State {
    ps.(cid := if ps.cid >= 0 then -1 else ps.cid, skip := m.len, isKey := false)
  }

  // The table once the field of the literal value `val` was added, if it is to be.
  function Added(env: Env, add: bool, key: Match, tab: Tab, val: Match): Tab {
    if add then tab.Add(env.cfg, env.ctx, key, val, tab.Left(env.room)).0
    else tab
  }

  function CaptureValue(ms: Matches, cid: int, val: Match): Matches {
    if IsMid(cid) then ms[cid := val] else ms
  }

  // The byte at the offset `i` ended with the action `kind`, which carries `v`.
  function Run(env: Env, ps: State, w: World, i: nat, kind: nat, v: u32, flags: nat): Out {
    if kind == KindCode(Indexed) || kind == KindCode(IdxName) then
      var slot, mid := Reported(w.tab, v), MatchField(env.es, w.tab.Lookup(env.cfg, v));
      Out(SetIndex(ps, kind, flags, slot, mid), w.(ms := CaptureIndex(w.ms, kind, slot, mid)), false)
    else if kind == KindCode(LitName) then
      Out(SetLiteral(ps, flags), w, false)
    else if kind == KindCode(KeyLen) then
      Out(SetKey(ps, StringMatch(env.src, i, v, flags)), w, false)
    else if kind == KindCode(ValLen) then
      var val := StringMatch(env.src, i, v, flags);
      Out(SetValue(ps, val), World(Added(env, ps.addToDt, ps.key, w.tab, val), CaptureValue(w.ms, ps.cid, val)), false)
    else if kind == KindCode(TableSize) then
      Out(ps, w.(tab := w.tab.Resize(v)), false)
    else
      Out(ps, w, kind == KindCode(Err))
  }

  lemma RunSize(env: Env, ps: State, w: World, i: nat, v: u32, flags: nat)
    ensures Run(env, ps, w, i, KindCode(TableSize), v, flags) == Out(ps, World(w.tab.Resize(v), w.ms), false)
  {}

  lemma RunString(env: Env, ps: State, w: World, i: nat, v: u32, flags: nat)
    ensures var m := StringMatch(env.src, i, v, flags);
            && Run(env, ps, w, i, KindCode(KeyLen), v, flags) == Out(SetKey(ps, m), w, false)
            && Run(env, ps, w, i, KindCode(ValLen), v, flags) ==
               Out(SetValue(ps, m),
                   World(Added(env, ps.addToDt, ps.key, w.tab, m), CaptureValue(w.ms, ps.cid, m)), false)
  {}

  lemma RunIndex(env: Env, ps: State, w: World, i: nat, v: u32, flags: nat)
    ensures var slot, mid := Reported(w.tab, v), MatchField(env.es, w.tab.Lookup(env.cfg, v));
            && Run(env, ps, w, i, KindCode(IdxName), v, flags) ==
               Out(ps.(addToDt := HasFlag(flags, F_ADD_DT), cid := mid, key := Match(slot, 0, Table, false)), w, false)
            && Run(env, ps, w, i, KindCode(Indexed), v, flags) ==
               Out(ps.(addToDt := HasFlag(flags, F_ADD_DT), cid := -1, key := Match(slot, 0, Table, false)),
                   w.(ms := if mid >= 0 then w.ms[mid := TableMatch(slot)] else w.ms), false)
  {
    hide Reported;
  }

  // `k` with seven more bits, in 32 bits.
  function Accumulate(k: u32, m: nat, c: byte): u32 {
    if m <= 28 then (k + c % 0x80 * Pow2(m)) % U32 else k
  }

  // A byte of a string, which only a name is looked at for.
  function SkipStep(es: Edges, ps: State, c: byte): State
    requires ps.skip > 0
  {
    var n := Inject.Follow2(es, S_DEAD, ps.s, c);
    var ps1 := if ps.isKey then ps.(s := n.0, cid := NameTrie.Capturing(n.1)) else ps;
    ps1.(skip := ps.skip - 1, s := if ps.skip == 1 && ps.isKey then S_VAL_LEN else ps1.s)
  }

  predicate IsDigit(act: CAction) {
    act.kind == KindCode(IntStart) || act.kind == KindCode(IntCont)
  }

  // Takes in the bits of a byte that another one follows.
  function TakeDigit(ps: State, act: CAction, c: byte): State {
    if act.kind == KindCode(IntStart) then ps.(k := act.val, m := 0)
    else if ps.m <= 28 then ps.(k := Accumulate(ps.k, ps.m, c), m := ps.m + 7)
    else ps
  }

  // The integer that ends with the byte `c`.
  function ValueOf(ps: State, act: CAction, c: byte): u32 {
    if HasFlag(act.flags, F_CONT) then Accumulate(ps.k, ps.m, c) else act.val
  }

  // The byte `c` at the offset `i`.
  function Step(env: Env, ps: State, w: World, i: nat, c: byte): Out {
    if ps.skip > 0 then Out(SkipStep(env.es, ps, c), w, false)
    else
      var n := Inject.Follow2(env.es, S_DEAD, ps.s, c);
      var act := Inject.Coded(Encode, NOOP, n.1);
      var ps1 := ps.(s := n.0);
      if IsDigit(act) then Out(TakeDigit(ps1, act, c), w, false)
      else Run(env, ps1, w, i, act.kind, ValueOf(ps1, act, c), act.flags)
  }

  // Nothing is read behind a byte that fails.
  function Stepper(env: Env): (Out, nat, byte) -> Out {
    (o: Out, i: nat, c: byte) => if o.err then o else Step(env, o.ps, o.w, i, c)
  }

  // The bytes `bs` from the offset `i` on.
  function Feed(env: Env, ps: State, w: World, i: nat, bs: seq<byte>): Out {
    Fold(Stepper(env), Out(ps, w, false), i, bs)
  }

  // Gives out at most one slot, and none that was given out before.
  ghost predicate Moves(t: Tab, t': Tab, room: int) {
    t.Before(t') && t'.Top() <= t.Top() + 1 && (|t.live| <= room ==> |t'.live| <= room)
  }

  lemma AddedMoves(env: Env, add: bool, key: Match, t: Tab, val: Match)
    ensures Moves(t, Added(env, add, key, t, val), env.room)
  {
    AddKeeps(t, env.cfg, env.ctx, key, val, t.Left(env.room));
  }

  lemma RunMoves(env: Env, ps: State, w: World, i: nat, kind: nat, v: u32, flags: nat)
    ensures Moves(w.tab, Run(env, ps, w, i, kind, v, flags).w.tab, env.room)
  {
    if kind == KindCode(ValLen) {
      AddedMoves(env, ps.addToDt, ps.key, w.tab, StringMatch(env.src, i, v, flags));
    } else if kind == KindCode(TableSize) {
      ResizeKeeps(w.tab, v);
    }
  }

  lemma StepMoves(env: Env, ps: State, w: World, i: nat, c: byte)
    ensures Moves(w.tab, Step(env, ps, w, i, c).w.tab, env.room)
  {
    var n := Inject.Follow2(env.es, S_DEAD, ps.s, c);
    var act := Inject.Coded(Encode, NOOP, n.1);
    var ps1 := ps.(s := n.0);
    RunMoves(env, ps1, w, i, act.kind, ValueOf(ps1, act, c), act.flags);
  }

  lemma FeedNothing(env: Env, ps: State, w: World, i: nat)
    ensures Feed(env, ps, w, i, []) == Out(ps, w, false)
  {}

  lemma FeedOne(env: Env, ps: State, w: World, i: nat, c: byte)
    ensures Feed(env, ps, w, i, [c]) == Step(env, ps, w, i, c)
  {
    hide Step;
    FoldOne(Stepper(env), Out(ps, w, false), i, c);
  }

  // What `a` came to is what `b` begins with.
  lemma FeedThen(env: Env, ps: State, w: World, i: nat, a: seq<byte>, b: seq<byte>)
    requires !Feed(env, ps, w, i, a).err
    ensures var o := Feed(env, ps, w, i, a);
            Feed(env, ps, w, i, a + b) == Feed(env, o.ps, o.w, i + |a|, b)
  {
    hide Step;
    FoldAppend(Stepper(env), Out(ps, w, false), i, a, b);
  }

  // One more byte.
  lemma FeedMore(env: Env, ps: State, w: World, data: seq<byte>, start: nat, i: nat)
    requires start <= i < |data|
    ensures var o := Feed(env, ps, w, start, data[start..i]);
            Feed(env, ps, w, start, data[start..i + 1]) == if o.err then o else Step(env, o.ps, o.w, i, data[i])
  {
    hide Step;
    assert data[start..i + 1][..i - start] == data[start..i];
  }

  lemma {:induction false} FeedStuck(env: Env, ps: State, w: World, data: seq<byte>, start: nat, i: nat, j: nat)
    requires start <= i <= j <= |data| && Feed(env, ps, w, start, data[start..i]).err
    ensures Feed(env, ps, w, start, data[start..j]) == Feed(env, ps, w, start, data[start..i])
  {
    if i < j {
      FeedStuck(env, ps, w, data, start, i, j - 1);
      FeedMore(env, ps, w, data, start, j - 1);
    }
  }
}
