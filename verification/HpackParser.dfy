// The HPACK decoder of http2/parser.bpf.c, which updates its parse state, the dynamic tables
// and the matches in place. Every method is proved to do what module HpackMachine says.
module HpackParser {
  import opened Base
  import opened DynamicTable
  import opened DynamicTables
  import opened Http2Action
  import opened HpackMachine
  import Inject
  import NameTrie

  // The parser program: its tables and the DFA that was written into it.
  class Program {
    const tables: DynamicTables
    const data: Inject.Rodata<CAction>
    ghost const es: Edges

    // The DFA leads into no state the tables have no row for.
    ghost predicate Loaded()
      reads data.states, data.actions
    {
      && Inject.Loaded(data, es, Encode)
      && data.zero == NOOP
      && data.states.Length1 == 256 && S_RESERVED <= data.states.Length0
      && forall k <- es :: 2 <= es[k].to < data.states.Length0
    }

    ghost predicate Valid()
      reads tables, data.states, data.actions
    {
      tables.Valid() && Loaded()
    }

    constructor (tables: DynamicTables, data: Inject.Rodata<CAction>, ghost es: Edges)
      ensures this.tables == tables && this.data == data && this.es == es
    {
      this.tables, this.data := tables, data;
      this.es := es;
    }

    // `_next` and `_action` of http2/parser.bpf.c.
    method Next(s: nat, c: byte) returns (next: nat, act: CAction)
      requires Loaded() && s < data.states.Length0
      ensures var f := Inject.Follow2(es, S_DEAD, s, c);
              next == f.0 && act == Inject.Coded(Encode, NOOP, f.1) && next < data.states.Length0
    {
      next, act := Inject.Next2(data, es, Encode, S_DEAD, s, c);
    }

    // What the byte just read captures, or -1.
    method Capturing(act: CAction, ghost a: Option<Action>) returns (mid: int)
      requires act == Inject.Coded(Encode, NOOP, a)
      ensures mid == NameTrie.Capturing(a)
    {
      mid := if act.kind == KindCode(Capture) then act.val % MAX_MATCHES else -1;
    }

    // Walks the name trie over a name in a table.
    method MatchHeaderKey(key: seq<byte>, huff: bool) returns (mid: int)
      requires Loaded()
      ensures mid == if key == [] then -2 else NameTrie.WalkName(es, if huff then S_NAME else S_NAME_PLAIN, key).1
    {
      var root := if huff then S_NAME else S_NAME_PLAIN;
      var s := root;
      mid := -2;
      for j := 0 to |key|
        invariant s == NameTrie.WalkName(es, root, key[..j]).0 && s < data.states.Length0
        invariant mid == if j == 0 then -2 else NameTrie.WalkName(es, root, key[..j]).1
      {
        assert key[..j + 1][..j] == key[..j];
        ghost var f := Inject.Follow2(es, S_DEAD, s, key[j]);
        var act: CAction;
        s, act := Next(s, key[j]);
        mid := Capturing(act, f.1);
      }
      assert key[..|key|] == key;
    }

    // The slot an index is reported as.
    method Slot(c: Conn, v: u32) returns (slot: u16)
      requires tables.Valid() && c in tables.view
      ensures slot == Reported(tables.view[c], v)
    {
      var inRange := tables.IsValidIndex(c, v);
      if !inRange {
        return 0;
      }
      var full := v;
      if v > STATIC_TABLE_SIZE {
        full := tables.GetIndex(c, v);
      }
      // a slot that does not fit into a match stands for no entry
      slot := if full > 0xFFFF then 0 else full;
    }

    // The capture the name at an index matches, or something negative.
    method MatchIndex(c: Conn, v: u32) returns (mid: int)
      requires Valid() && c in tables.view
      ensures var e := MatchField(es, tables.view[c].Lookup(tables.cfg, v));
              e < MAX_MATCHES && if e >= 0 then mid == e else mid < 0
    {
      var f := tables.GetTableEntry(c, v);
      if f.None? {
        return -1;
      }
      mid := MatchHeaderKey(f.value.key, f.value.keyHuff);
    }

    ghost function EnvOf(ctx: Ctx, src: Source): Env
      reads tables
      requires ctx.conn in tables.view
    {
      Env(tables.cfg, ctx, es, tables.Room(ctx.conn), src)
    }

    ghost function WorldOf(ctx: Ctx, pres: array<Match>): World
      reads tables, pres
      requires ctx.conn in tables.view && pres.Length == MAX_MATCHES
    {
      World(tables.view[ctx.conn], pres[..])
    }

    // Whether a header block of `ctx` can be decoded into `pres`, with `n` slots left.
    ghost predicate Ready(ctx: Ctx, pres: array<Match>, n: nat)
      reads tables, data.states, data.actions
    {
      && Valid() && pres.Length == MAX_MATCHES
      && ctx.conn in tables.view && tables.view[ctx.conn].Top() + n < U32
    }
  }

  class ParseState {
    var s: nat
    var k: u32
    var m: nat
    var skip: nat
    var isKey: bool
    var cid: int
    var addToDt: bool
    var key: Match
    var i: nat
    var v: u32
    var kind: nat
    var flags: nat
    const src: Source

    constructor (src: Source)
      ensures Value() == New(src) && this.src == src
    {
      this.src := src;
      s, k, m, skip, isKey, cid, addToDt, key := S_FIELD, 0, 0, 0, false, -1, false, Match(0, 0, src, false);
      i, v, kind, flags := 0, 0, 0, 0;
    }

    ghost function Value(): State
      reads this
    {
      State(s, k, m, skip, isKey, cid, addToDt, key)
    }

    ghost function Result(p: Program, ctx: Ctx, pres: array<Match>, err: bool): Out
      reads this, p.tables, pres
      requires ctx.conn in p.tables.view && pres.Length == MAX_MATCHES
    {
      Out(Value(), p.WorldOf(ctx, pres), err)
    }

    method SetIndex(pres: array<Match>, slot: u16, mid: int)
      requires pres.Length == MAX_MATCHES && mid < MAX_MATCHES
      modifies this, pres
      ensures Value() == HpackMachine.SetIndex(old(Value()), old(kind), old(flags), slot, mid)
      ensures pres[..] == CaptureIndex(old(pres[..]), old(kind), slot, mid)
    {
      addToDt := HasFlag(flags, F_ADD_DT);
      cid := -1;
      key := Match(slot, 0, Table, false);
      if mid < 0 {
        return;
      }
      if kind == KindCode(IdxName) {
        cid := mid;
        return;
      }
      pres[mid % MAX_MATCHES] := TableMatch(slot);
    }

    method SetKey(val: Match)
      modifies this
      ensures Value() == HpackMachine.SetKey(old(Value()), val)
    {
      key := val;
      skip := val.len;
      isKey := true;
      if val.len == 0 {
        s := S_VAL_LEN;
      }
    }

    method SetValue(pres: array<Match>, val: Match)
      requires pres.Length == MAX_MATCHES && cid < MAX_MATCHES
      modifies this, pres
      ensures Value() == HpackMachine.SetValue(old(Value()), val)
      ensures pres[..] == CaptureValue(old(pres[..]), old(cid), val)
    {
      if cid >= 0 {
        pres[cid % MAX_MATCHES] := val;
        cid := -1;
      }
      skip := val.len;
      isKey := false;
    }

    // The actions that leave the dynamic table alone.
    method RunOnState(p: Program, ctx: Ctx, pres: array<Match>, ghost env: Env, ghost w: World) returns (err: bool)
      requires p.Ready(ctx, pres, 1) && env == p.EnvOf(ctx, src) && w == p.WorldOf(ctx, pres)
      requires cid < MAX_MATCHES && s < p.data.states.Length0
      requires kind != KindCode(ValLen) && kind != KindCode(TableSize)
      modifies this, pres
      ensures cid < MAX_MATCHES && s < p.data.states.Length0
      ensures Out(Value(), World(w.tab, pres[..]), err) ==
              Run(env, old(Value()), w, old(i), old(kind), old(v), old(flags))
    {
      hide Rep, Inject.Loaded;
      if kind == KindCode(Indexed) || kind == KindCode(IdxName) {
        var slot := p.Slot(ctx.conn, v);
        var mid := p.MatchIndex(ctx.conn, v);
        SetIndex(pres, slot, mid);
        return false;
      }
      if kind == KindCode(LitName) {
        addToDt := HasFlag(flags, F_ADD_DT);
        cid := -1;
        return false;
      }
      if kind == KindCode(KeyLen) {
        SetKey(StringMatch(src, i, v, flags));
        return false;
      }
      err := kind == KindCode(Err);
    }

    // Adds the field with the value `val` to the dynamic table, if the peer does so.
    method AddField(p: Program, ctx: Ctx, pres: array<Match>, ghost env: Env, val: Match)
      requires p.Ready(ctx, pres, 1) && env == p.EnvOf(ctx, src)
      modifies p.tables
      ensures p.Valid() && ctx.conn in p.tables.view && env == p.EnvOf(ctx, src)
      ensures p.tables.view[ctx.conn] == Added(env, addToDt, key, old(p.tables.view)[ctx.conn], val)
      ensures p.tables.view - {ctx.conn} == old(p.tables.view) - {ctx.conn}
    {
      hide Rep, Inject.Loaded;
      if addToDt {
        var _ := p.tables.AddEntry(ctx, key, val);
      }
    }

    // The actions that change the dynamic table.
    method RunOnTable(p: Program, ctx: Ctx, pres: array<Match>, ghost env: Env, ghost w: World)
      requires p.Ready(ctx, pres, 1) && env == p.EnvOf(ctx, src) && w == p.WorldOf(ctx, pres)
      requires cid < MAX_MATCHES && s < p.data.states.Length0
      requires kind == KindCode(ValLen) || kind == KindCode(TableSize)
      modifies this, p.tables, pres
      ensures p.Valid() && ctx.conn in p.tables.view && env == p.EnvOf(ctx, src)
      ensures cid < MAX_MATCHES && s < p.data.states.Length0
      ensures p.tables.view - {ctx.conn} == old(p.tables.view) - {ctx.conn}
      ensures Out(Value(), World(p.tables.view[ctx.conn], pres[..]), false) ==
              Run(env, old(Value()), w, old(i), old(kind), old(v), old(flags))
    {
      RunSize(env, Value(), w, i, v, flags);
      RunString(env, Value(), w, i, v, flags);
      hide Run, Added, Rep;
      if kind == KindCode(TableSize) {
        p.tables.Resize(ctx.conn, v);
        return;
      }
      var val := StringMatch(src, i, v, flags);
      AddField(p, ctx, pres, env, val);
      SetValue(pres, val);
    }

    // `_run_action`. It fails if the field is malformed.
    method RunAction(p: Program, ctx: Ctx, pres: array<Match>, ghost env: Env, ghost w: World) returns (err: bool)
      requires p.Ready(ctx, pres, 1) && env == p.EnvOf(ctx, src) && w == p.WorldOf(ctx, pres)
      requires cid < MAX_MATCHES && s < p.data.states.Length0
      modifies this, p.tables, pres
      ensures p.Valid() && ctx.conn in p.tables.view && env == p.EnvOf(ctx, src)
      ensures cid < MAX_MATCHES && s < p.data.states.Length0
      ensures p.tables.view - {ctx.conn} == old(p.tables.view) - {ctx.conn}
      ensures Out(Value(), World(p.tables.view[ctx.conn], pres[..]), err) ==
              Run(env, old(Value()), w, old(i), old(kind), old(v), old(flags))
    {
      hide Run, Rep, Inject.Loaded;
      if kind == KindCode(ValLen) || kind == KindCode(TableSize) {
        RunOnTable(p, ctx, pres, env, w);
        return false;
      }
      err := RunOnState(p, ctx, pres, env, w);
    }

    // Continues an integer that goes on behind this byte.
    method TakeDigit(act: CAction, c: byte)
      requires IsDigit(act)
      modifies `k, `m
      ensures Value() == HpackMachine.TakeDigit(old(Value()), act, c)
    {
      if act.kind == KindCode(IntStart) {
        k := act.val;
        m := 0;
      } else if m <= 28 {
        k := Accumulate(k, m, c);
        m := m + 7;
      }
    }

    // The action `act` of the byte `c`.
    method Dispatch(p: Program, ctx: Ctx, pres: array<Match>, act: CAction, c: byte, ghost env: Env, ghost w: World)
      returns (err: bool)
      requires p.Ready(ctx, pres, 1) && env == p.EnvOf(ctx, src) && w == p.WorldOf(ctx, pres)
      requires cid < MAX_MATCHES && s < p.data.states.Length0
      requires !IsDigit(act)
      modifies this, p.tables, pres
      ensures p.Valid() && ctx.conn in p.tables.view && env == p.EnvOf(ctx, src)
      ensures cid < MAX_MATCHES && s < p.data.states.Length0
      ensures p.tables.view - {ctx.conn} == old(p.tables.view) - {ctx.conn}
      ensures Out(Value(), World(p.tables.view[ctx.conn], pres[..]), err) ==
              Run(env, old(Value()), w, old(i), act.kind, ValueOf(old(Value()), act, c), act.flags)
    {
      hide Run, Rep, Inject.Loaded;
      SetAction(act, c);
      err := RunAction(p, ctx, pres, env, w);
    }

    method SetAction(act: CAction, c: byte)
      modifies this`v, this`kind, this`flags
      ensures kind == act.kind && flags == act.flags && v == ValueOf(Value(), act, c)
    {
      v := act.val;
      if HasFlag(act.flags, F_CONT) {
        v := Accumulate(k, m, c);
      }
      kind, flags := act.kind, act.flags;
    }

    // A byte of a string, which only a name is looked at for.
    method SkipByte(p: Program, c: byte)
      requires p.Loaded() && skip > 0 && cid < MAX_MATCHES && s < p.data.states.Length0
      modifies `s, `cid, `skip
      ensures Value() == SkipStep(p.es, old(Value()), c) && cid < MAX_MATCHES && s < p.data.states.Length0
    {
      if isKey {
        ghost var f := Inject.Follow2(p.es, S_DEAD, s, c);
        var act: CAction;
        s, act := p.Next(s, c);
        cid := p.Capturing(act, f.1);
      }
      skip := skip - 1;
      if skip == 0 && isKey {
        s := S_VAL_LEN;
      }
    }

    // A byte that ends nothing: one of a string, or one of an integer but its last one.
    method TakeByte(p: Program, c: byte, ghost es: Edges) returns (quiet: bool, act: CAction)
      requires p.Loaded() && es == p.es && cid < MAX_MATCHES && s < p.data.states.Length0
      modifies `s, `cid, `skip, `k, `m
      ensures cid < MAX_MATCHES && s < p.data.states.Length0
      ensures var n := Inject.Follow2(es, S_DEAD, old(s), c);
              var ps1 := old(Value()).(s := n.0);
              if old(skip) > 0 then quiet && Value() == SkipStep(es, old(Value()), c)
              else
                && act == Inject.Coded(Encode, NOOP, n.1) && quiet == IsDigit(act)
                && Value() == if quiet then HpackMachine.TakeDigit(ps1, act, c) else ps1
    {
      act := NOOP;
      if skip > 0 {
        SkipByte(p, c);
        return true, act;
      }
      s, act := p.Next(s, c);
      quiet := IsDigit(act);
      if quiet {
        TakeDigit(act, c);
      }
    }

    // `_parse_hdr_byte`. It fails if the field is malformed.
    method ParseHdrByte(p: Program, ctx: Ctx, pres: array<Match>, c: byte, ghost env: Env, ghost w: World)
      returns (err: bool)
      requires p.Ready(ctx, pres, 1) && env == p.EnvOf(ctx, src) && w == p.WorldOf(ctx, pres)
      requires cid < MAX_MATCHES && s < p.data.states.Length0
      modifies this, p.tables, pres
      ensures p.Valid() && ctx.conn in p.tables.view && env == p.EnvOf(ctx, src)
      ensures cid < MAX_MATCHES && s < p.data.states.Length0
      ensures p.tables.view - {ctx.conn} == old(p.tables.view) - {ctx.conn}
      ensures Out(Value(), World(p.tables.view[ctx.conn], pres[..]), err) == Step(env, old(Value()), w, old(i), c)
    {
      hide Run, Rep, Inject.Loaded;
      var quiet, act := TakeByte(p, c, p.es);
      if quiet {
        return false;
      }
      err := Dispatch(p, ctx, pres, act, c, env, w);
    }

    // Whether `o` is what the bytes fed so far came to, with `n` slots left.
    ghost predicate Fed(p: Program, ctx: Ctx, pres: array<Match>, n: nat, env: Env, o: Out)
      reads this, p.tables, p.data.states, p.data.actions, pres
    {
      && p.Ready(ctx, pres, n) && env == p.EnvOf(ctx, src)
      && cid < MAX_MATCHES && s < p.data.states.Length0
      && o == Result(p, ctx, pres, o.err)
    }

    // Feeds the byte at the offset `at` of `data`.
    method FeedByte(p: Program, ctx: Ctx, pres: array<Match>, data: seq<byte>, start: nat, at: nat, ghost n: nat,
                    ghost env: Env, ghost ps0: State, ghost w0: World) returns (err: bool)
      requires start <= at < |data| && !Feed(env, ps0, w0, start, data[start..at]).err
      requires Fed(p, ctx, pres, n + 1, env, Feed(env, ps0, w0, start, data[start..at]))
      modifies this, p.tables, pres
      ensures Fed(p, ctx, pres, n, env, Feed(env, ps0, w0, start, data[start..at + 1]))
      ensures err == Feed(env, ps0, w0, start, data[start..at + 1]).err
      ensures p.tables.view - {ctx.conn} == old(p.tables.view) - {ctx.conn}
    {
      hide Step, Rep, Inject.Loaded;
      ghost var ps, w := Value(), p.WorldOf(ctx, pres);
      FeedMore(env, ps0, w0, data, start, at);
      StepMoves(env, ps, w, at, data[at]);
      i := at;
      err := ParseHdrByte(p, ctx, pres, data[at], env, w);
    }

    // The loop of `_parse_hdr_from` and `_parse_hdr_buf`: feeds the bytes of `data` between
    // `start` and `len`, and returns the offset of the last one it read.
    method FeedAll(p: Program, ctx: Ctx, pres: array<Match>, data: seq<byte>, start: nat, len: nat,
                   ghost env: Env, ghost ps0: State, ghost w0: World) returns (err: bool, last: nat)
      requires start <= len <= |data|
      requires Fed(p, ctx, pres, len - start, env, Out(ps0, w0, false))
      modifies this, p.tables, pres
      ensures Fed(p, ctx, pres, 0, env, Feed(env, ps0, w0, start, data[start..len]))
      ensures err == Feed(env, ps0, w0, start, data[start..len]).err
      ensures !err ==> last == if start < len then len - 1 else start
      ensures p.tables.view - {ctx.conn} == old(p.tables.view) - {ctx.conn}
    {
      hide Step, Feed, Fold, Rep, Inject.Loaded;
      err, last := false, start;
      var at := start;
      assert Feed(env, ps0, w0, start, data[start..start]) == Out(ps0, w0, false) by {
        assert data[start..start] == [];
        FeedNothing(env, ps0, w0, start);
      }
      while at < len && !err
        invariant start <= at <= len && err == Feed(env, ps0, w0, start, data[start..at]).err
        invariant Fed(p, ctx, pres, len - at, env, Feed(env, ps0, w0, start, data[start..at]))
        invariant p.tables.view - {ctx.conn} == old(p.tables.view) - {ctx.conn}
        invariant last == if start < at then at - 1 else start
      {
        last := at;
        err := FeedByte(p, ctx, pres, data, start, at, len - at - 1, env, ps0, w0);
        at := at + 1;
      }
      if err {
        FeedStuck(env, ps0, w0, data, start, at, len);
      }
    }
  }
}
