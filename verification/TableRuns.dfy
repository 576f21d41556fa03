// Runs of operations on the tables of any number of connections, interleaved in any order.
module TableRuns {
  import opened Base
  import opened DynamicTable

  type View = map<Conn, Tab>

  // Everything the parser and user space ever do to the tables. `free` is what the map all
  // connections share has left when the operation runs.
  datatype Op =
    | AddOp(ctx: Ctx, key: Match, val: Match, free: nat)
    | ResizeOp(c: Conn, max: u32)
    | SettingsOp(c: Conn, max: u32)
    | ForgetOp(c: Conn)
  {
    function Of(): Conn {
      if AddOp? then ctx.conn else c
    }
  }

  function Update(t: Tab, cfg: Config, op: Op): Tab {
    match op
    case AddOp(ctx, key, val, free) => t.Add(cfg, ctx, key, val, free).0
    case ResizeOp(_, max) => t.Resize(max)
    case SettingsOp(_, max) => t.(maxSize := max)
    case ForgetOp(_) => t
  }

  // The first operation on a connection creates its table, if there is room for one.
  function Apply(v: View, cfg: Config, op: Op): View {
    var c := op.Of();
    if op.ForgetOp? then v - {c}
    else if c !in v && |v| >= MAP_CAPACITY then v
    else v[c := Update(if c in v then v[c] else NEW_TAB, cfg, op)]
  }

  function Run(v: View, cfg: Config, ops: seq<Op>): View {
    if ops == [] then v else Apply(Run(v, cfg, ops[..|ops| - 1]), cfg, ops[|ops| - 1])
  }

  lemma UpdateBefore(t: Tab, cfg: Config, op: Op)
    ensures t.Before(Update(t, cfg, op))
  {
    match op
    case AddOp(ctx, key, val, free) => AddKeeps(t, cfg, ctx, key, val, free);
    case ResizeOp(_, max) => ResizeKeeps(t, max);
    case SettingsOp(_, max) =>
    case ForgetOp(_) =>
  }

  lemma BeforeTrans(t: Tab, t': Tab, t'': Tab)
    requires t.Before(t') && t'.Before(t'')
    ensures t.Before(t'')
  {}

  // No operation on another connection touches a table.
  lemma {:induction false} RunIsolated(v: View, cfg: Config, ops: seq<Op>, c: Conn)
    requires forall op <- ops :: op.Of() != c
    ensures var v' := Run(v, cfg, ops); (c in v' <==> c in v) && (c in v ==> v'[c] == v[c])
  {
    if ops != [] {
      assert ops[|ops| - 1] in ops;
      RunIsolated(v, cfg, ops[..|ops| - 1], c);
    }
  }

  // No slot a connection has given out is ever used again while the connection is kept.
  lemma {:induction false} RunBefore(v: View, cfg: Config, ops: seq<Op>, c: Conn)
    requires c in v && ForgetOp(c) !in ops
    ensures var v' := Run(v, cfg, ops); c in v' && v[c].Before(v'[c])
  {
    if ops != [] {
      var last := ops[|ops| - 1];
      assert last in ops && ops[..|ops| - 1] <= ops;
      RunBefore(v, cfg, ops[..|ops| - 1], c);
      var t := Run(v, cfg, ops[..|ops| - 1])[c];
      if last.Of() == c {
        UpdateBefore(t, cfg, last);
        BeforeTrans(v[c], t, Update(t, cfg, last));
      }
    }
  }

  // A table that was given up on stays so while the connection is kept: nothing is added to it
  // any more, and no index of it finds a field.
  lemma {:induction false} RunStaysDirty(v: View, cfg: Config, ops: seq<Op>, c: Conn, idx: nat)
    requires c in v && v[c].dirty && ForgetOp(c) !in ops
    ensures var v' := Run(v, cfg, ops);
            && c in v' && v'[c].dirty && v'[c].Top() == v[c].Top()
            && (idx > STATIC_TABLE_SIZE ==> v'[c].Lookup(cfg, idx) == None)
  {
    if ops != [] {
      var last := ops[|ops| - 1];
      assert last in ops && ops[..|ops| - 1] <= ops;
      RunStaysDirty(v, cfg, ops[..|ops| - 1], c, idx);
      if last.Of() == c {
        UpdateStaysDirty(Run(v, cfg, ops[..|ops| - 1])[c], cfg, last);
      }
    }
  }

  lemma UpdateStaysDirty(t: Tab, cfg: Config, op: Op)
    requires t.dirty
    ensures Update(t, cfg, op).dirty && Update(t, cfg, op).Top() == t.Top()
  {
    hide Tab.GetMatch, Tab.Place;
  }

  // A capture that was recorded as a slot resolves, after any number of operations on any
  // connection, to what it was taken from, or to nothing.
  lemma CaptureResolves(v: View, cfg: Config, ops: seq<Op>, ctx: Ctx, ctx': Ctx, m: Match, isKey: bool)
    requires ctx.conn in v && ctx'.conn == ctx.conn && ForgetOp(ctx.conn) !in ops
    requires m.source.Table? && v[ctx.conn].GetMatch(cfg, ctx, m, isKey).Some?
    ensures ctx.conn in Run(v, cfg, ops)
    ensures var r := Run(v, cfg, ops)[ctx.conn].GetMatch(cfg, ctx', m, isKey);
            r.None? || r == v[ctx.conn].GetMatch(cfg, ctx, m, isKey)
  {
    RunBefore(v, cfg, ops, ctx.conn);
  }
}
