// The HPACK decoder against the decoder of RFC 7541.
module HpackRefines {
  import opened Base
  import opened DynamicTable
  import opened TableMirror
  import opened HpackMachine
  import opened HpackFields
  import opened Huffman
  import H = HpackWire
  import I = HpackInt
  import P = Http2Parser
  import R = Rfc7541
  import NameTrie
  import opened TableRuns

  // Where the header block is read from.
  function Data(env: Env): seq<byte> {
    if env.src.Buf? then env.ctx.buf else env.ctx.msg
  }

  // Whether the bytes `bs` are the ones at the offset `at`.
  predicate Carries(env: Env, at: nat, bs: seq<byte>) {
    at + |bs| <= MAX_BYTES && at + |bs| <= |Data(env)| && Data(env)[at..at + |bs|] == bs
  }

  lemma CarriesInRange(env: Env, at: nat, bs: seq<byte>)
    requires Carries(env, at, bs)
    ensures at + |bs| <= MAX_BYTES
  {}

  lemma CarriesParts(env: Env, at: nat, a: seq<byte>, b: seq<byte>)
    requires Carries(env, at, a + b)
    ensures Carries(env, at, a) && Carries(env, at + |a|, b)
  {
    var d := Data(env)[at..at + |a + b|];
    assert d == a + b && d[..|a|] == a && d[|a|..] == b;
    assert Data(env)[at..at + |a|] == d[..|a|];
    assert Data(env)[at + |a|..at + |a| + |b|] == d[|a|..];
  }

  // --- What a field says ---

  predicate StrSays(k: Coding, s: Str, v: seq<byte>) {
    SentAs(k, s.bytes, s.huff, v)
  }

  predicate NameSays(k: Coding, form: H.Form, name: Name, n: R.FieldName) {
    match (name, n)
    case (AtIndex(h), AtIndex(idx)) => I.Value(H.NamePrefix(form).max, h) == idx
    case (Spelt(s), Spelt(v)) => StrSays(k, s, v)
    case _ => false
  }

  // Whether the field `f` is one way to send `r`.
  predicate Says(k: Coding, f: WireField, r: R.Rep) {
    match (f, r)
    case (IndexedField(h), Indexed(idx)) => I.Value(0x7F, h) == idx
    case (SizeUpdate(h), SizeUpdate(max)) => I.Value(0x1F, h) == max
    case (Literal(form, name, s), Literal(add, n, v)) =>
      form.Incremental? == add && StrSays(k, s, v) && NameSays(k, form, name, n)
    case _ => false
  }

  // Whether no coded string of a field that is added is longer than what is kept of it.
  predicate Keepable(f: WireField) {
    f.Literal? && f.form.Incremental? ==>
      && (f.value.huff ==> |f.value.bytes| <= 128)
      && (f.name.Spelt? && f.name.str.huff ==> |f.name.str.bytes| <= 128)
  }

  // Whether the name of the field with the index `v` is kept whole, see `KeptWhole`.
  predicate NameKept(cfg: Config, t: Tab, v: nat, name: seq<byte>) {
    t.Lookup(cfg, v).Some? && (t.Lookup(cfg, v).value.keyHuff || |name| <= 128)
  }

  // The name that field is captured under.
  function NameFound(cfg: Config, t: Tab, v: nat, name: seq<byte>): seq<byte> {
    if NameKept(cfg, t, v, name) then name else name[..Min(|name|, 128)]
  }

  // Whether a field that is added under that name is sized right, or is too large for either
  // table anyway.
  predicate IsAddedRight(cfg: Config, t: Tab, rt: R.Table, v: nat, h: R.HField) {
    NameKept(cfg, t, v, h.name) || R.Size(h) - (|h.name| - 128) > rt.maxSize
  }

  // Whether it makes no difference if a name that is given by its index was cut off.
  predicate Recalls(cfg: Config, t: Tab, st: seq<R.HField>, rt: R.Table, caps: P.Captures, r: R.Rep) {
    (r.Indexed? || (r.Literal? && r.name.AtIndex?)) ==>
      var v := if r.Indexed? then r.idx else r.name.idx;
      var h := rt.Lookup(st, v);
      h.Some? ==>
        && P.Lookup(caps, NameFound(cfg, t, v, h.value.name)) == P.Lookup(caps, h.value.name)
        && (r.Literal? && r.add ==> IsAddedRight(cfg, t, rt, v, R.HField(h.value.name, r.value)))
  }

  // --- What a match denotes ---

  // What the entry `f` keeps of a value.
  ghost predicate KeepsValue(cfg: Config, f: Field, v: seq<byte>) {
    Keeps(cfg.coding, f.val, f.valHuff, v)
  }

  // Whether the match `m` stands for the value `v`: it resolves to `v`, or to an entry that
  // holds `v`, or that entry has been evicted and it resolves to nothing.
  ghost predicate Denotes(cfg: Config, ctx: Ctx, t: Tab, m: Match, v: seq<byte>) {
    && m.idx > 0
    && if m.source.Table? then
         if m.idx >= DYNAMIC_TABLE_BASE then
           m.idx < t.Top() && (t.At(m.idx).Some? ==> KeepsValue(cfg, t.At(m.idx).value.field, v))
         else KeepsValue(cfg, cfg.statics[m.idx], v)
       else
         var b := t.GetMatch(cfg, ctx, m, false);
         b.Some? && SentAs(cfg.coding, b.value.bytes, b.value.huff, v)
  }

  // It keeps doing so whatever happens to the table.
  lemma DenotesStable(cfg: Config, ctx: Ctx, t: Tab, t': Tab, m: Match, v: seq<byte>)
    requires Denotes(cfg, ctx, t, m, v) && t.Before(t')
    ensures Denotes(cfg, ctx, t', m, v)
  {}

  // --- One field ---

  // The DFA captures the names `caps`, in either coding.
  ghost predicate Captures(k: Coding, es: Edges, caps: P.Captures) {
    forall w: seq<byte>, huff: bool, s: seq<byte> ::
      SentAs(k, w, huff, s) ==> NameTrie.WalkName(es, P.Root(huff), w).1 == P.Lookup(caps, s)
  }

  // A string in the block resolves to its bytes.
  lemma StrResolves(env: Env, t: Tab, at: nat, s: Str)
    requires !env.src.Table? && StrFits(s) && Carries(env, at, StrBytes(s))
    ensures var b := t.GetMatch(env.cfg, env.ctx, StrMatch(env, at, s), true);
            b == Some(Bytes(s.bytes, s.huff)) && b == t.GetMatch(env.cfg, env.ctx, StrMatch(env, at, s), false)
  {
    var n := |LenBytes(s)|;
    assert Data(env)[at + n..at + n + |s.bytes|] == Data(env)[at..at + |StrBytes(s)|][n..];
  }

  lemma StrDenotes(env: Env, t: Tab, at: nat, s: Str, v: seq<byte>)
    requires !env.src.Table? && StrFits(s) && Carries(env, at, StrBytes(s)) && StrSays(env.cfg.coding, s, v)
    ensures var b := t.GetMatch(env.cfg, env.ctx, StrMatch(env, at, s), true);
            b == Some(Bytes(s.bytes, s.huff)) && b == t.GetMatch(env.cfg, env.ctx, StrMatch(env, at, s), false)
    ensures Denotes(env.cfg, env.ctx, t, StrMatch(env, at, s), v)
  {
    StrResolves(env, t, at, s);
  }

  // The bytes `b` are the name of the field with the index `v`, as far as it is kept.
  ghost predicate ResolvesName(cfg: Config, t: Tab, v: nat, b: Option<Bytes>, name: seq<byte>) {
    && b.Some? && |b.value.bytes| <= 128
    && if NameKept(cfg, t, v, name) then SentAs(cfg.coding, b.value.bytes, b.value.huff, name)
       else |name| > 128 && b.value == Bytes(name[..128], false)
  }

  // An index resolves to the field RFC 7541 gives it, and is captured if its name is, as far as
  // that is kept: a captured name of 128 bytes captures the longer ones that begin with it.
  lemma IndexMirrors(env: Env, t: Tab, rt: R.Table, st: seq<R.HField>, caps: P.Captures, v: nat)
    requires StaticsMirror(env.cfg, st) && Mirrors(env.cfg, t, rt) && Captures(env.cfg.coding, env.es, caps)
    requires rt.Lookup(st, v).Some? && t.Top() <= U16
    ensures var h, slot := rt.Lookup(st, v).value, Reported(t, v);
            && MatchField(env.es, t.Lookup(env.cfg, v)) == P.Lookup(caps, NameFound(env.cfg, t, v, h.name))
            && Denotes(env.cfg, env.ctx, t, TableMatch(slot), h.value)
            && ResolvesName(env.cfg, t, v, t.GetMatch(env.cfg, env.ctx, Match(slot, 0, Table, false), true), h.name)
  {
    LookupMirrors(env.cfg, t, rt, st, v);
    var f, name := t.Lookup(env.cfg, v).value, rt.Lookup(st, v).value.name;
    KeptWhole(env.cfg.coding, f.key, f.keyHuff, name);
    assert !NameKept(env.cfg, t, v, name) ==> SentAs(env.cfg.coding, f.key, false, name[..128]);
  }

  // A match holds 16 bits of a slot. So an entry can be referred to just if its slot fits, and
  // a field that is sent under the name of any other entry is left out of the table.
  lemma SlotsRunOut(env: Env, t: Tab, v: nat, val: Match, free: nat)
    requires v > STATIC_TABLE_SIZE && t.IsValidIndex(v)
    ensures var key := Match(Reported(t, v), 0, Table, false);
            && (t.GetMatch(env.cfg, env.ctx, key, true).Some? <==> t.SlotOf(v) < U16)
            && (t.SlotOf(v) >= U16 && !t.dirty ==> t.Add(env.cfg, env.ctx, key, val, free) == (t, ENOENT))
  {}

  // What a field is decoded within: tables that mirror, names that are captured, and slots
  // and keys for one more entry.
  ghost predicate Within(env: Env, t: Tab, rt: R.Table, st: seq<R.HField>, caps: P.Captures) {
    && !env.src.Table?
    && StaticsMirror(env.cfg, st) && Mirrors(env.cfg, t, rt) && Captures(env.cfg.coding, env.es, caps)
    && t.Top() <= U16
  }

  // The name of a literal field resolves to the name RFC 7541 gives it, as far as it is kept.
  lemma NameRefines(env: Env, t: Tab, rt: R.Table, st: seq<R.HField>, caps: P.Captures, at: nat,
                    form: H.Form, name: Name, value: Str, n: R.FieldName)
    requires Within(env, t, rt, st, caps)
    requires Fits(Literal(form, name, value)) && Carries(env, at, NameBytes(form, name))
    requires NameSays(env.cfg.coding, form, name, n) && R.NameOf(st, rt, n).Some?
    ensures var b, h := t.GetMatch(env.cfg, env.ctx, KeyMatch(env, t, at, form, name), true), R.NameOf(st, rt, n).value;
            match name
            case AtIndex(_) => ResolvesName(env.cfg, t, n.idx, b, h)
            case Spelt(s) => b == Some(Bytes(s.bytes, s.huff)) && StrSays(env.cfg.coding, s, h)
    ensures var h := R.NameOf(st, rt, n).value;
            KeyCapture(env, t, form, name) == P.Lookup(caps, if n.AtIndex? then NameFound(env.cfg, t, n.idx, h) else h)
  {
    hide SentAs;
    match name
    case AtIndex(h) =>
      IndexMirrors(env, t, rt, st, caps, n.idx);
    case Spelt(s) =>
      SpeltCarries(env, at, form, s);
      StrDenotes(env, t, at + 1, s, n.name);
  }

  lemma SpeltCarries(env: Env, at: nat, form: H.Form, s: Str)
    requires StrFits(s) && Carries(env, at, NameBytes(form, Spelt(s)))
    ensures Carries(env, at + 1, StrBytes(s))
  {
    var bs := NameBytes(form, Spelt(s));
    assert bs[1..] == StrBytes(s);
    assert Data(env)[at + 1..at + 1 + |StrBytes(s)|] == Data(env)[at..at + |bs|][1..];
  }

  lemma LiteralCarries(env: Env, at: nat, form: H.Form, name: Name, value: Str)
    requires Fits(Literal(form, name, value)) && Carries(env, at, FieldBytes(Literal(form, name, value)))
    ensures Carries(env, at, NameBytes(form, name)) && Carries(env, at + |NameBytes(form, name)|, StrBytes(value))
  {
    CarriesParts(env, at, NameBytes(form, name), StrBytes(value));
  }

  // What becomes of a field that is added under a name that resolves whole. The tables go on
  // agreeing just if no string of it is both coded and too long, and the map has a key for it.
  // If only that key is missing, they differ and nothing tells, as the result is dropped.
  lemma AddedMirrors(env: Env, t: Tab, rt: R.Table, key: Match, val: Match, h: R.HField)
    requires Mirrors(env.cfg, t, rt)
    requires var k, v := t.GetMatch(env.cfg, env.ctx, key, true), t.GetMatch(env.cfg, env.ctx, val, false);
             && k.Some? && SentAs(env.cfg.coding, k.value.bytes, k.value.huff, h.name)
             && v.Some? && SentAs(env.cfg.coding, v.value.bytes, v.value.huff, h.value)
    ensures var k, v := t.GetMatch(env.cfg, env.ctx, key, true).value, t.GetMatch(env.cfg, env.ctx, val, false).value;
            var t' := Added(env, true, key, t, val);
            && (t'.dirty <==> !Sizable(k) || !Sizable(v))
            && (!t'.dirty ==> (Mirrors(env.cfg, t', rt.Add(h)) <==> HasKey(t, R.Size(h), t.Left(env.room))))
  {
    hide SentAs, Tab.GetMatch, Tab.Place, R.Table.Add, HasKey;
    var k, v := t.GetMatch(env.cfg, env.ctx, key, true).value, t.GetMatch(env.cfg, env.ctx, val, false).value;
    AddMirrors(env.cfg, t, rt, env.ctx, key, val, h, t.Left(env.room));
    if Sizable(k) && Sizable(v) {
      PlaceStays(t, NewEntry(env.cfg, k, v), t.Left(env.room));
    }
  }

  lemma AddRefines(env: Env, t: Tab, rt: R.Table, key: Match, val: Match, h: R.HField)
    requires Mirrors(env.cfg, t, rt) && |t.live| < env.room
    requires var k, v := t.GetMatch(env.cfg, env.ctx, key, true), t.GetMatch(env.cfg, env.ctx, val, false);
             && k.Some? && Sizable(k.value) && SentAs(env.cfg.coding, k.value.bytes, k.value.huff, h.name)
             && v.Some? && Sizable(v.value) && SentAs(env.cfg.coding, v.value.bytes, v.value.huff, h.value)
    ensures Mirrors(env.cfg, Added(env, true, key, t, val), rt.Add(h))
  {
    hide SentAs, Mirrors, Tab.Add, R.Table.Add, Tab.GetMatch, HasKey, Sizable;
    FreeKey(t, R.Size(h), t.Left(env.room));
    AddMirrors(env.cfg, t, rt, env.ctx, key, val, h, t.Left(env.room));
  }

  // The same for a name that is given by its index, and may have been cut off.
  lemma AddByIndexRefines(env: Env, t: Tab, rt: R.Table, v: nat, key: Match, val: Match, h: R.HField)
    requires Mirrors(env.cfg, t, rt) && |t.live| < env.room && IsAddedRight(env.cfg, t, rt, v, h)
    requires ResolvesName(env.cfg, t, v, t.GetMatch(env.cfg, env.ctx, key, true), h.name)
    requires var b := t.GetMatch(env.cfg, env.ctx, val, false);
             b.Some? && Sizable(b.value) && SentAs(env.cfg.coding, b.value.bytes, b.value.huff, h.value)
    ensures Mirrors(env.cfg, Added(env, true, key, t, val), rt.Add(h))
  {
    hide SentAs, Tab.Add, R.Table.Add, Tab.GetMatch, Tab.Lookup;
    if NameKept(env.cfg, t, v, h.name) {
      AddRefines(env, t, rt, key, val, h);
    } else {
      CutNameDrifts(env.cfg, t, rt, env.ctx, key, val, h, t.Left(env.room));
    }
  }

  lemma NotAdded(env: Env, t: Tab, key: Match, val: Match)
    ensures Added(env, false, key, t, val) == t
  {}

  // A literal field is added and captured as RFC 7541 has it.
  lemma LiteralRefines(env: Env, w: World, rt: R.Table, st: seq<R.HField>, caps: P.Captures, at: nat,
                       form: H.Form, name: Name, value: Str, n: R.FieldName, v: seq<byte>)
    requires Within(env, w.tab, rt, st, caps) && |w.tab.live| < env.room
    requires Fits(Literal(form, name, value)) && Carries(env, at, FieldBytes(Literal(form, name, value)))
    requires NameSays(env.cfg.coding, form, name, n) && StrSays(env.cfg.coding, value, v)
    requires Keepable(Literal(form, name, value)) && R.NameOf(st, rt, n).Some?
    requires Recalls(env.cfg, w.tab, st, rt, caps, R.Literal(form.Incremental?, n, v))
    ensures var h := R.HField(R.NameOf(st, rt, n).value, v);
            var w' := DecodedLiteral(env, w, at, form, name, value);
            var val := StrMatch(env, at + |NameBytes(form, name)|, value);
            && Mirrors(env.cfg, w'.tab, if form.Incremental? then rt.Add(h) else rt)
            && w'.ms == CaptureValue(w.ms, P.Lookup(caps, h.name), val)
            && Denotes(env.cfg, env.ctx, w'.tab, val, v)
  {
    hide SentAs, Mirrors, FieldBytes, Carries, Tab.Add, R.Table.Add, StaticsMirror, Captures, KeyMatch, KeyCapture;
    hide Tab.GetMatch, Tab.Lookup, R.Table.Lookup, Added, NameKept, NameFound, IsAddedRight, ResolvesName;
    CarriesInRange(env, at, FieldBytes(Literal(form, name, value)));
    LiteralCarries(env, at, form, name, value);
    NameRefines(env, w.tab, rt, st, caps, at, form, name, value, n);
    var val := StrMatch(env, at + |NameBytes(form, name)|, value);
    var key := KeyMatch(env, w.tab, at, form, name);
    var h := R.HField(R.NameOf(st, rt, n).value, v);
    StrDenotes(env, w.tab, at + |NameBytes(form, name)|, value, v);
    StrDenotes(env, DecodedLiteral(env, w, at, form, name, value).tab, at + |NameBytes(form, name)|, value, v);
    if !form.Incremental? {
      NotAdded(env, w.tab, key, val);
    } else if name.AtIndex? {
      AddByIndexRefines(env, w.tab, rt, n.idx, key, val, h);
    } else {
      AddRefines(env, w.tab, rt, key, val, h);
    }
  }

  // A field changes the table and is captured as RFC 7541 has it.
  lemma FieldRefines(env: Env, w: World, rt: R.Table, st: seq<R.HField>, caps: P.Captures, at: nat,
                     f: WireField, r: R.Rep) returns (m: Match)
    requires Within(env, w.tab, rt, st, caps) && |w.tab.live| < env.room
    requires Fits(f) && Carries(env, at, FieldBytes(f)) && Says(env.cfg.coding, f, r) && Keepable(f)
    requires R.Decode(st, rt, r).Some? && Recalls(env.cfg, w.tab, st, rt, caps, r)
    ensures var (rt', h) := R.Decode(st, rt, r).value;
            var w' := Decoded(env, w, at, f);
            && Mirrors(env.cfg, w'.tab, rt')
            && w'.ms == (if h.Some? then CaptureValue(w.ms, P.Lookup(caps, h.value.name), m) else w.ms)
            && (h.Some? ==> Denotes(env.cfg, env.ctx, w'.tab, m, h.value.value))
  {
    hide SentAs, Mirrors, Carries, Denotes, DecodedLiteral, Tab.Resize, R.Table.Resize, R.Table.Add, R.Table.Lookup;
    hide StaticsMirror, Captures, MatchField, Reported, StrBytes, NameBytes, Tab.Lookup, I.Value, NameSays;
    hide NameFound, IsAddedRight, ResolvesName;
    CarriesInRange(env, at, FieldBytes(f));
    m := Match(0, 0, Msg, false);
    match f
    case IndexedField(h) =>
      IndexMirrors(env, w.tab, rt, st, caps, r.idx);
      m := TableMatch(Reported(w.tab, r.idx));
    case SizeUpdate(h) =>
      ResizeMirrors(env.cfg, w.tab, rt, r.max);
    case Literal(form, name, value) =>
      LiteralRefines(env, w, rt, st, caps, at, form, name, value, r.name, r.value);
      m := StrMatch(env, at + |NameBytes(form, name)|, value);
  }

  // A field whose index names nothing, which section 2.3.3 of RFC 7541 makes an error, is
  // passed over: it is neither rejected, nor added, nor captured.
  lemma BadIndexPasses(env: Env, ps: State, w: World, rt: R.Table, st: seq<R.HField>, caps: P.Captures, at: nat,
                       f: WireField, r: R.Rep)
    requires H.HasRows(env.es) && AtField(ps) && Within(env, w.tab, rt, st, caps)
    requires Fits(f) && at + |FieldBytes(f)| <= MAX_BYTES && Says(env.cfg.coding, f, r) && R.Decode(st, rt, r).None?
    ensures var o := Feed(env, ps, w, at, FieldBytes(f)); !o.err && AtField(o.ps) && o.w == w
  {
    hide H.HasRows, Feed, FieldBytes, Mirrors, R.Table.Lookup, I.Value, Captures, StaticsMirror, SentAs, DecodedLiteral;
    hide Tab.Lookup, MatchField, Reported, Tab.Resize;
    FeedField(env, ps, w, at, f);
    match f
    case IndexedField(h) =>
      NoEntry(env, w.tab, rt, st, r.idx, Match(0, 0, Msg, false));
    case Literal(form, name, value) =>
      BadNamePasses(env, w, rt, st, at, form, name, value, r.name);
    case SizeUpdate(h) =>
  }

  lemma BadNamePasses(env: Env, w: World, rt: R.Table, st: seq<R.HField>, at: nat, form: H.Form, name: Name, value: Str,
                      n: R.FieldName)
    requires StaticsMirror(env.cfg, st) && Mirrors(env.cfg, w.tab, rt)
    requires Fits(Literal(form, name, value)) && at + |FieldBytes(Literal(form, name, value))| <= MAX_BYTES
    requires NameSays(env.cfg.coding, form, name, n) && R.NameOf(st, rt, n).None?
    ensures DecodedLiteral(env, w, at, form, name, value) == w
  {
    hide Mirrors, R.Table.Lookup, I.Value, StaticsMirror, SentAs, Tab.Lookup, MatchField, Reported, Added;
    NoEntry(env, w.tab, rt, st, n.idx, StrMatch(env, at + |NameBytes(form, name)|, value));
  }

  lemma NoEntry(env: Env, t: Tab, rt: R.Table, st: seq<R.HField>, v: nat, val: Match)
    requires StaticsMirror(env.cfg, st) && Mirrors(env.cfg, t, rt) && rt.Lookup(st, v).None?
    ensures MatchField(env.es, t.Lookup(env.cfg, v)) == -1 && Reported(t, v) == 0
    ensures forall add :: Added(env, add, Match(0, 0, Table, false), t, val) == t
  {
    LookupMirrors(env.cfg, t, rt, st, v);
  }

  // A field gives out at most one slot, and none that was given out before.
  lemma DecodedMoves(env: Env, w: World, at: nat, f: WireField)
    requires Fits(f) && at + |FieldBytes(f)| <= MAX_BYTES
    ensures Moves(w.tab, Decoded(env, w, at, f).tab, env.room)
  {
    hide Moves, Tab.Resize, DecodedLiteral, FieldBytes, MatchField, Reported, I.Value;
    MovesNot(w.tab, env.room);
    match f
    case IndexedField(h) =>
    case SizeUpdate(h) =>
      ResizeMoves(w.tab, I.Value(0x1F, h), env.room);
    case Literal(form, name, value) =>
      LiteralMoves(env, w, at, form, name, value);
  }

  lemma LiteralMoves(env: Env, w: World, at: nat, form: H.Form, name: Name, value: Str)
    requires Fits(Literal(form, name, value)) && at + |FieldBytes(Literal(form, name, value))| <= MAX_BYTES
    ensures Moves(w.tab, DecodedLiteral(env, w, at, form, name, value).tab, env.room)
  {
    hide Moves, Added, CaptureValue, MatchField, Reported, I.Value, I.Bytes, KeyCapture;
    AddedMoves(env, form.Incremental?, KeyMatch(env, w.tab, at, form, name), w.tab,
               StrMatch(env, at + |NameBytes(form, name)|, value));
  }

  lemma ResizeMoves(t: Tab, max: u32, room: int)
    ensures Moves(t, t.Resize(max), room)
  {
    ResizeKeeps(t, max);
  }

  lemma MovesNot(t: Tab, room: int)
    ensures Moves(t, t, room)
  {}

  // --- A header block ---

  predicate AllFit(fs: seq<WireField>) {
    forall f <- fs :: Fits(f)
  }

  function BlockBytes(fs: seq<WireField>): seq<byte>
    requires AllFit(fs)
  {
    if fs == [] then [] else BlockBytes(fs[..|fs| - 1]) + FieldBytes(fs[|fs| - 1])
  }

  predicate AllSay(k: Coding, fs: seq<WireField>, rs: seq<R.Rep>) {
    |fs| == |rs| && forall i :: 0 <= i < |fs| ==> Says(k, fs[i], rs[i]) && Keepable(fs[i])
  }

  // Whether each of the fields recalls its name, in the table that is there by then.
  ghost predicate AllRecall(env: Env, ps: State, w: World, rt: R.Table, st: seq<R.HField>, caps: P.Captures, at: nat,
                            fs: seq<WireField>, rs: seq<R.Rep>)
    requires AllFit(fs) && |fs| == |rs|
    decreases |fs|
  {
    fs == [] ||
    var k := |fs| - 1;
    var o, before := Feed(env, ps, w, at, BlockBytes(fs[..k])), R.DecodeAll(st, rt, rs[..k]);
    && AllRecall(env, ps, w, rt, st, caps, at, fs[..k], rs[..k])
    && (before.Some? ==> Recalls(env.cfg, o.w.tab, st, before.value.0, caps, rs[k]))
  }

  // Every configured name has the value of the last field of that name, or what was there
  // before if there was no such field.
  ghost predicate Captured(cfg: Config, ctx: Ctx, t: Tab, caps: P.Captures, ms0: Matches, ms: Matches,
                           fs: seq<R.HField>) {
    forall s <- caps :: s != [] && caps[s] < MAX_MATCHES ==>
      match R.LastValue(fs, s)
      case None => ms[caps[s]] == ms0[caps[s]]
      case Some(v) => Denotes(cfg, ctx, t, ms[caps[s]], v)
  }

  lemma CapturedStays(cfg: Config, ctx: Ctx, t: Tab, t': Tab, caps: P.Captures, ms0: Matches, ms: Matches,
                      fs: seq<R.HField>)
    requires Captured(cfg, ctx, t, caps, ms0, ms, fs) && t.Before(t')
    ensures Captured(cfg, ctx, t', caps, ms0, ms, fs)
  {
    hide Tab.Before, Denotes;
    forall s <- caps | s != [] && caps[s] < MAX_MATCHES && R.LastValue(fs, s).Some?
      ensures Denotes(cfg, ctx, t', ms[caps[s]], R.LastValue(fs, s).value)
    {
      DenotesStable(cfg, ctx, t, t', ms[caps[s]], R.LastValue(fs, s).value);
    }
  }

  lemma CapturedMore(cfg: Config, ctx: Ctx, t: Tab, caps: P.Captures, n: nat, ms0: Matches, ms: Matches,
                     fs: seq<R.HField>, h: R.HField, m: Match)
    requires Captured(cfg, ctx, t, caps, ms0, ms, fs) && P.Numbered(caps, n) && Denotes(cfg, ctx, t, m, h.value)
    ensures Captured(cfg, ctx, t, caps, ms0, CaptureValue(ms, P.Lookup(caps, h.name), m), fs + [h])
  {
    hide Denotes;
    assert (fs + [h])[..|fs|] == fs;
  }

  // What the decoder has come to after `k` fields: a table that mirrors, and the captures of
  // the fields `hs`.
  ghost predicate Refines(env: Env, w: World, o: Out, k: nat, rt: R.Table, hs: seq<R.HField>, caps: P.Captures) {
    && !o.err && AtField(o.ps)
    && Mirrors(env.cfg, o.w.tab, rt)
    && Captured(env.cfg, env.ctx, o.w.tab, caps, w.ms, o.w.ms, hs)
    && w.tab.Before(o.w.tab) && o.w.tab.Top() <= w.tab.Top() + k && |o.w.tab.live| <= |w.tab.live| + k
  }

  // One more field.
  lemma RefinesMore(env: Env, w: World, o: Out, k: nat, rt: R.Table, st: seq<R.HField>, hs: seq<R.HField>,
                    caps: P.Captures, n: nat,
                    at: nat, f: WireField, r: R.Rep)
    requires Refines(env, w, o, k, rt, hs, caps) && H.HasRows(env.es) && P.Numbered(caps, n)
    requires Within(env, o.w.tab, rt, st, caps) && |o.w.tab.live| < env.room
    requires Fits(f) && Carries(env, at, FieldBytes(f)) && Says(env.cfg.coding, f, r) && Keepable(f)
    requires R.Decode(st, rt, r).Some? && Recalls(env.cfg, o.w.tab, st, rt, caps, r)
    ensures var (rt', h) := R.Decode(st, rt, r).value;
            Refines(env, w, Feed(env, o.ps, o.w, at, FieldBytes(f)), k + 1,
                    rt', hs + if h.Some? then [h.value] else [], caps)
  {
    hide Mirrors, Captured, Carries, FieldBytes, Says, Keepable, Fits, Feed, Decoded, H.HasRows, R.Decode, Recalls;
    hide Denotes, Within, P.Numbered;
    var (rt', h) := R.Decode(st, rt, r).value;
    CarriesInRange(env, at, FieldBytes(f));
    FeedField(env, o.ps, o.w, at, f);
    var w' := Decoded(env, o.w, at, f);
    var m := FieldRefines(env, o.w, rt, st, caps, at, f, r);
    DecodedMoves(env, o.w, at, f);
    CapturedStays(env.cfg, env.ctx, o.w.tab, w'.tab, caps, w.ms, o.w.ms, hs);
    if h.Some? {
      CapturedMore(env.cfg, env.ctx, w'.tab, caps, n, w.ms, o.w.ms, hs, h.value, m);
    } else {
      assert hs + [] == hs;
    }
    BeforeTrans(w.tab, o.w.tab, w'.tab);
  }

  // Every header block, whatever the encodings of its integers and strings, makes exactly the
  // changes to the dynamic table that RFC 7541 has the peer make, and leaves for each
  // configured name the last field of that name.
  lemma {:induction false} BlockRefines(env: Env, ps: State, w: World, rt: R.Table, st: seq<R.HField>, caps: P.Captures,
                                        n: nat, at: nat,
                                        fs: seq<WireField>, rs: seq<R.Rep>)
    requires H.HasRows(env.es) && AtField(ps) && Within(env, w.tab, rt, st, caps) && P.Numbered(caps, n)
    requires AllFit(fs) && Carries(env, at, BlockBytes(fs)) && AllSay(env.cfg.coding, fs, rs)
    requires w.tab.Top() + |fs| <= U16 && |w.tab.live| + |fs| <= env.room
    requires R.DecodeAll(st, rt, rs).Some? && AllRecall(env, ps, w, rt, st, caps, at, fs, rs)
    ensures var (rt', hs) := R.DecodeAll(st, rt, rs).value;
            Refines(env, w, Feed(env, ps, w, at, BlockBytes(fs)), |fs|, rt', hs, caps)
    decreases |fs|
  {
    hide Says, Keepable, Fits, Feed, H.HasRows, R.Decode, Recalls, Carries, Mirrors, Captured, P.Numbered, FieldBytes;
    hide StaticsMirror, Captures;
    if fs == [] {
      FeedNothing(env, ps, w, at);
      NothingCaptured(env, w, caps);
    } else {
      var k := |fs| - 1;
      var init, last := fs[..k], fs[k];
      var bs := BlockBytes(init);
      CarriesParts(env, at, bs, FieldBytes(last));
      BlockRefines(env, ps, w, rt, st, caps, n, at, init, rs[..k]);
      var (rt1, hs1) := R.DecodeAll(st, rt, rs[..k]).value;
      var o := Feed(env, ps, w, at, bs);
      RefinesMore(env, w, o, k, rt1, st, hs1, caps, n, at + |bs|, last, rs[k]);
      FeedThen(env, ps, w, at, bs, FieldBytes(last));
    }
  }

  lemma NothingCaptured(env: Env, w: World, caps: P.Captures)
    ensures Captured(env.cfg, env.ctx, w.tab, caps, w.ms, w.ms, [])
  {}
}
