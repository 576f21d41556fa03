// Whole strings and whole field representations, as the decoder reads them.
module HpackFields {
  import opened Base
  import opened DynamicTable
  import opened Http2Action
  import opened HpackMachine
  import opened HpackWire
  import I = HpackInt
  import NameTrie

  // A string of section 5.2 of RFC 7541: its length, in any encoding, and its bytes.
  datatype Str = Str(huff: bool, len: I.Integer, bytes: seq<byte>)

  datatype Name = AtIndex(idx: I.Integer) | Spelt(str: Str)

  // The field representations of section 6 of RFC 7541.
  datatype WireField =
    | IndexedField(idx: I.Integer)
    | Literal(form: Form, name: Name, value: Str)
    | SizeUpdate(max: I.Integer)

  predicate StrFits(s: Str) {
    I.WellFormed(0x7F, s.len) && I.Value(0x7F, s.len) == |s.bytes|
  }

  // Whether an integer can be read, see `MachineExact`.
  predicate IntFits(max: nat, h: I.Integer) {
    I.WellFormed(max, h) && I.Value(max, h) < U32
  }

  predicate Fits(f: WireField) {
    match f
    case IndexedField(h) => IntFits(0x7F, h) && I.Value(0x7F, h) > 0
    case SizeUpdate(h) => IntFits(0x1F, h)
    case Literal(form, name, value) =>
      && StrFits(value)
      && match name
         case AtIndex(h) => IntFits(NamePrefix(form).max, h) && I.Value(NamePrefix(form).max, h) > 0
         case Spelt(s) => StrFits(s)
  }

  function LenBytes(s: Str): (bs: seq<byte>)
    requires StrFits(s)
    ensures |bs| > 0
  {
    I.Bytes(if s.huff then 0x80 else 0, 0x7F, s.len)
  }

  function StrBytes(s: Str): (bs: seq<byte>)
    requires StrFits(s)
    ensures |bs| > |s.bytes|
  {
    LenBytes(s) + s.bytes
  }

  function NameBytes(form: Form, name: Name): (bs: seq<byte>)
    requires name.AtIndex? ==> I.WellFormed(NamePrefix(form).max, name.idx)
    requires name.Spelt? ==> StrFits(name.str)
  {
    match name
    case AtIndex(h) => I.Bytes(NamePrefix(form).base, NamePrefix(form).max, h)
    case Spelt(s) => [NamePrefix(form).base as byte] + StrBytes(s)
  }

  function FieldBytes(f: WireField): (bs: seq<byte>)
    requires Fits(f)
  {
    match f
    case IndexedField(h) => I.Bytes(0x80, 0x7F, h)
    case SizeUpdate(h) => I.Bytes(0x20, 0x1F, h)
    case Literal(form, name, value) => NameBytes(form, name) + StrBytes(value)
  }

  // Where the bytes of a string are whose length begins at the offset `at`.
  function StrMatch(env: Env, at: nat, s: Str): Match
    requires StrFits(s) && at + |StrBytes(s)| <= MAX_BYTES
  {
    Match(at + |LenBytes(s)|, |s.bytes|, env.src, s.huff)
  }

  // --- Strings ---

  lemma {:induction false} SkipName(env: Env, ps: State, w: World, i: nat, root: nat, v: seq<byte>)
    requires ps.isKey && |v| < ps.skip && ps.s == root
    ensures Feed(env, ps, w, i, v) ==
            Out(ps.(skip := ps.skip - |v|, s := NameTrie.WalkName(env.es, root, v).0,
                    cid := if v == [] then ps.cid else NameTrie.WalkName(env.es, root, v).1), w, false)
  {
    hide Run;
    if v != [] {
      SkipName(env, ps, w, i, root, v[..|v| - 1]);
    }
  }

  lemma {:induction false} SkipValue(env: Env, ps: State, w: World, i: nat, v: seq<byte>)
    requires !ps.isKey && |v| <= ps.skip
    ensures Feed(env, ps, w, i, v) == Out(ps.(skip := ps.skip - |v|), w, false)
  {
    hide Run;
    if v != [] {
      SkipValue(env, ps, w, i, v[..|v| - 1]);
    }
  }

  // The bytes of a name, once its length is known.
  lemma FeedNameBytes(env: Env, ps: State, w: World, i: nat, root: nat, v: seq<byte>)
    requires ps.isKey && |v| == ps.skip && ps.s == (if v == [] then S_VAL_LEN else root)
    ensures Feed(env, ps, w, i, v) ==
            Out(ps.(skip := 0, s := S_VAL_LEN,
                     cid := if v == [] then ps.cid else NameTrie.WalkName(env.es, root, v).1), w, false)
  {
    hide Run;
    if v != [] {
      SkipName(env, ps, w, i, root, v[..|v| - 1]);
    }
  }

  lemma StrLength(env: Env, at: nat, s: Str)
    requires StrFits(s) && at + |StrBytes(s)| <= MAX_BYTES
    ensures I.Machine(0x7F, s.len) == |s.bytes|
    ensures StringMatch(env.src, at + |LenBytes(s)| - 1, |s.bytes|, if s.huff then F_HUFF else 0) ==
            StrMatch(env, at, s)
  {
    I.MachineExact(0x7F, s.len);
  }

  lemma FeedKeyLength(env: Env, ps: State, w: World, at: nat, s: Str) returns (ps1: State)
    requires HasRows(env.es) && ps.s == S_KEY_LEN && ps.skip == 0
    requires StrFits(s) && at + |StrBytes(s)| <= MAX_BYTES
    ensures Feed(env, ps, w, at, LenBytes(s)) == Out(ps1, w, false)
    ensures ps1.isKey && ps1.skip == |s.bytes| && ps1.s == (if s.bytes == [] then S_VAL_LEN else KeyPrefix(s.huff).to)
    ensures ps1.key == StrMatch(env, at, s) && ps1.addToDt == ps.addToDt && ps1.cid == ps.cid
  {
    hide Step, Run, HasRows, Lays, Feed, I.Bytes, I.Value, I.Machine, StringMatch;
    StringLays(s.huff, s.len);
    StrLength(env, at, s);
    var p := KeyPrefix(s.huff);
    var k, m := FeedInt(env, ps, w, at, p, s.len);
    RunString(env, ps.(s := p.to, k := k, m := m), w, at + |LenBytes(s)| - 1, |s.bytes|, p.flags);
    ps1 := SetKey(ps.(s := p.to, k := k, m := m), StrMatch(env, at, s));
  }

  // A name that is spelt out.
  lemma FeedKey(env: Env, ps: State, w: World, at: nat, s: Str)
    requires HasRows(env.es) && ps.s == S_KEY_LEN && ps.skip == 0 && ps.cid == -1
    requires StrFits(s) && at + |StrBytes(s)| <= MAX_BYTES
    ensures var o := Feed(env, ps, w, at, StrBytes(s));
            && !o.err && o.w == w && o.ps.s == S_VAL_LEN && o.ps.skip == 0
            && o.ps.key == StrMatch(env, at, s) && o.ps.addToDt == ps.addToDt
            && o.ps.cid == NameTrie.WalkName(env.es, KeyPrefix(s.huff).to, s.bytes).1
  {
    hide Feed, HasRows;
    var ps1 := FeedKeyLength(env, ps, w, at, s);
    FeedThen(env, ps, w, at, LenBytes(s), s.bytes);
    FeedNameBytes(env, ps1, w, at + |LenBytes(s)|, KeyPrefix(s.huff).to, s.bytes);
  }

  lemma FeedValueLength(env: Env, ps: State, w: World, at: nat, s: Str) returns (ps1: State)
    requires HasRows(env.es) && ps.s == S_VAL_LEN && ps.skip == 0
    requires StrFits(s) && at + |StrBytes(s)| <= MAX_BYTES
    ensures var val := StrMatch(env, at, s);
            Feed(env, ps, w, at, LenBytes(s)) ==
            Out(ps1, World(Added(env, ps.addToDt, ps.key, w.tab, val), CaptureValue(w.ms, ps.cid, val)), false)
    ensures !ps1.isKey && ps1.skip == |s.bytes| && ps1.s == S_FIELD
  {
    hide Step, Run, HasRows, Lays, Feed, Added, CaptureValue, I.Bytes, I.Value, I.Machine, StringMatch;
    StringLays(s.huff, s.len);
    StrLength(env, at, s);
    var p := ValuePrefix(s.huff);
    var k, m := FeedInt(env, ps, w, at, p, s.len);
    RunString(env, ps.(s := p.to, k := k, m := m), w, at + |LenBytes(s)| - 1, |s.bytes|, p.flags);
    ps1 := SetValue(ps.(s := p.to, k := k, m := m), StrMatch(env, at, s));
  }

  // A value. It is added and captured as soon as its length is known.
  lemma FeedValue(env: Env, ps: State, w: World, at: nat, s: Str)
    requires HasRows(env.es) && ps.s == S_VAL_LEN && ps.skip == 0
    requires StrFits(s) && at + |StrBytes(s)| <= MAX_BYTES
    ensures var o, val := Feed(env, ps, w, at, StrBytes(s)), StrMatch(env, at, s);
            && !o.err && o.ps.s == S_FIELD && o.ps.skip == 0
            && o.w == World(Added(env, ps.addToDt, ps.key, w.tab, val), CaptureValue(w.ms, ps.cid, val))
  {
    hide Feed, HasRows, Added, CaptureValue;
    var ps1 := FeedValueLength(env, ps, w, at, s);
    var w1 := Feed(env, ps, w, at, LenBytes(s)).w;
    FeedThen(env, ps, w, at, LenBytes(s), s.bytes);
    SkipValue(env, ps1, w1, at + |LenBytes(s)|, s.bytes);
  }

  // --- Representations ---

  // Between two fields.
  predicate AtField(ps: State) {
    ps.s == S_FIELD && ps.skip == 0
  }

  // What the name of a literal field at the offset `at` is added as.
  function KeyMatch(env: Env, tab: Tab, at: nat, form: Form, name: Name): Match
    requires name.Spelt? ==> StrFits(name.str) && at + 1 + |StrBytes(name.str)| <= MAX_BYTES
  {
    match name
    case AtIndex(h) => Match(Reported(tab, I.Value(NamePrefix(form).max, h)), 0, Table, false)
    case Spelt(s) => StrMatch(env, at + 1, s)
  }

  // The capture it matches, or -1.
  function KeyCapture(env: Env, tab: Tab, form: Form, name: Name): int {
    match name
    case AtIndex(h) => MatchField(env.es, tab.Lookup(env.cfg, I.Value(NamePrefix(form).max, h)))
    case Spelt(s) => NameTrie.WalkName(env.es, KeyPrefix(s.huff).to, s.bytes).1
  }

  function DecodedLiteral(env: Env, w: World, at: nat, form: Form, name: Name, value: Str): World
    requires Fits(Literal(form, name, value)) && at + |FieldBytes(Literal(form, name, value))| <= MAX_BYTES
  {
    var val := StrMatch(env, at + |NameBytes(form, name)|, value);
    World(Added(env, form.Incremental?, KeyMatch(env, w.tab, at, form, name), w.tab, val),
          CaptureValue(w.ms, KeyCapture(env, w.tab, form, name), val))
  }

  // What a field at the offset `at` makes of the table and the matches.
  function Decoded(env: Env, w: World, at: nat, f: WireField): World
    requires Fits(f) && at + |FieldBytes(f)| <= MAX_BYTES
  {
    match f
    case IndexedField(h) =>
      var v := I.Value(0x7F, h);
      var mid := MatchField(env.es, w.tab.Lookup(env.cfg, v));
      w.(ms := if IsMid(mid) then w.ms[mid := TableMatch(Reported(w.tab, v))] else w.ms)
    case SizeUpdate(h) => w.(tab := w.tab.Resize(I.Value(0x1F, h)))
    case Literal(form, name, value) => DecodedLiteral(env, w, at, form, name, value)
  }

  // The index 0 is not used (section 6.1 of RFC 7541).
  lemma FeedIndexZero(env: Env, ps: State, w: World, at: nat)
    requires HasRows(env.es) && AtField(ps)
    ensures Feed(env, ps, w, at, [0x80]).err && Feed(env, ps, w, at, [0x80]).w == w
  {
    FeedOne(env, ps, w, at, 0x80);
    StepRow(env, ps, w, at, 0x80);
  }

  lemma FeedIndexed(env: Env, ps: State, w: World, at: nat, h: I.Integer)
    requires HasRows(env.es) && AtField(ps) && Fits(IndexedField(h)) && at + |FieldBytes(IndexedField(h))| <= MAX_BYTES
    ensures var o := Feed(env, ps, w, at, FieldBytes(IndexedField(h)));
            !o.err && AtField(o.ps) && o.w == Decoded(env, w, at, IndexedField(h))
  {
    hide Step, Run, HasRows, Lays, Feed, Reported, MatchField, Tab.Resize, Tab.Add, Tab.Lookup, I.Bytes, I.Machine;
    I.MachineExact(0x7F, h);
    IndexedLays(h);
    var k, m := FeedInt(env, ps, w, at, IndexedPrefix(), h);
    RunIndex(env, ps.(k := k, m := m), w, at + |FieldBytes(IndexedField(h))| - 1, I.Value(0x7F, h), 0);
  }

  lemma FeedSize(env: Env, ps: State, w: World, at: nat, h: I.Integer)
    requires HasRows(env.es) && AtField(ps) && Fits(SizeUpdate(h)) && at + |FieldBytes(SizeUpdate(h))| <= MAX_BYTES
    ensures var o := Feed(env, ps, w, at, FieldBytes(SizeUpdate(h)));
            !o.err && AtField(o.ps) && o.w == Decoded(env, w, at, SizeUpdate(h))
  {
    hide Step, Run, HasRows, Lays, Feed, Tab.Resize, Tab.Add, I.Bytes, I.Value, I.Machine;
    I.MachineExact(0x1F, h);
    SizeLays(h);
    var k, m := FeedInt(env, ps, w, at, SizePrefix(), h);
    RunSize(env, ps.(k := k, m := m), w, at + |FieldBytes(SizeUpdate(h))| - 1, I.Value(0x1F, h), 0);
  }

  lemma FeedNameIndex(env: Env, ps: State, w: World, at: nat, form: Form, h: I.Integer)
    requires HasRows(env.es) && AtField(ps)
    requires IntFits(NamePrefix(form).max, h) && I.Value(NamePrefix(form).max, h) > 0
    ensures var o := Feed(env, ps, w, at, NameBytes(form, AtIndex(h)));
            && !o.err && o.w == w && o.ps.s == S_VAL_LEN && o.ps.skip == 0
            && o.ps.key == KeyMatch(env, w.tab, at, form, AtIndex(h)) && o.ps.addToDt == form.Incremental?
            && o.ps.cid == KeyCapture(env, w.tab, form, AtIndex(h))
  {
    hide Step, Run, HasRows, Lays, Feed, Reported, MatchField, Tab.Lookup, I.Bytes, I.Machine;
    I.MachineExact(NamePrefix(form).max, h);
    NameLays(form, h);
    var p, n := NamePrefix(form), |NameBytes(form, AtIndex(h))|;
    var k, m := FeedInt(env, ps, w, at, p, h);
    RunIndex(env, ps.(s := p.to, k := k, m := m), w, at + n - 1, I.Value(p.max, h), p.flags);
  }

  lemma StepSpelt(env: Env, ps: State, w: World, at: nat, form: Form) returns (ps1: State)
    requires HasRows(env.es) && AtField(ps)
    ensures Step(env, ps, w, at, NamePrefix(form).base) == Out(ps1, w, false)
    ensures ps1 == SetLiteral(ps.(s := S_KEY_LEN), if form.Incremental? then F_ADD_DT else 0)
    ensures ps1.addToDt == form.Incremental?
  {
    hide Step, HasRows, Added, Tab.Resize, MatchField, Reported;
    StepRow(env, ps, w, at, NamePrefix(form).base);
    ps1 := SetLiteral(ps.(s := S_KEY_LEN), if form.Incremental? then F_ADD_DT else 0);
  }

  lemma FeedNameSpelt(env: Env, ps: State, w: World, at: nat, form: Form, s: Str)
    requires HasRows(env.es) && AtField(ps) && StrFits(s) && at + 1 + |StrBytes(s)| <= MAX_BYTES
    ensures var o := Feed(env, ps, w, at, NameBytes(form, Spelt(s)));
            && !o.err && o.w == w && o.ps.s == S_VAL_LEN && o.ps.skip == 0
            && o.ps.key == KeyMatch(env, w.tab, at, form, Spelt(s)) && o.ps.addToDt == form.Incremental?
            && o.ps.cid == KeyCapture(env, w.tab, form, Spelt(s))
  {
    hide Step, Run, HasRows, Feed, StrBytes, StrFits;
    var c: byte := NamePrefix(form).base;
    FeedOne(env, ps, w, at, c);
    var ps1 := StepSpelt(env, ps, w, at, form);
    FeedThen(env, ps, w, at, [c], StrBytes(s));
    FeedKey(env, ps1, w, at + 1, s);
  }

  // The name of a literal field.
  lemma FeedName(env: Env, ps: State, w: World, at: nat, form: Form, name: Name, value: Str)
    requires HasRows(env.es) && AtField(ps)
    requires Fits(Literal(form, name, value)) && at + |NameBytes(form, name)| <= MAX_BYTES
    ensures var o := Feed(env, ps, w, at, NameBytes(form, name));
            && !o.err && o.w == w && o.ps.s == S_VAL_LEN && o.ps.skip == 0
            && o.ps.key == KeyMatch(env, w.tab, at, form, name) && o.ps.addToDt == form.Incremental?
            && o.ps.cid == KeyCapture(env, w.tab, form, name)
  {
    match name
    case AtIndex(h) => FeedNameIndex(env, ps, w, at, form, h);
    case Spelt(s) => FeedNameSpelt(env, ps, w, at, form, s);
  }

  lemma FeedLiteral(env: Env, ps: State, w: World, at: nat, form: Form, name: Name, value: Str)
    requires HasRows(env.es) && AtField(ps)
    requires Fits(Literal(form, name, value)) && at + |FieldBytes(Literal(form, name, value))| <= MAX_BYTES
    ensures var o := Feed(env, ps, w, at, FieldBytes(Literal(form, name, value)));
            !o.err && AtField(o.ps) && o.w == DecodedLiteral(env, w, at, form, name, value)
  {
    hide Feed, HasRows, KeyMatch, KeyCapture, Added, CaptureValue, Tab.Resize, MatchField;
    var o := Feed(env, ps, w, at, NameBytes(form, name));
    FeedName(env, ps, w, at, form, name, value);
    FeedThen(env, ps, w, at, NameBytes(form, name), StrBytes(value));
    FeedValue(env, o.ps, w, at + |NameBytes(form, name)|, value);
  }

  // The bytes of a whole field, in whatever encoding of its integers, are decoded as that
  // field, and the decoder is then ready for the next one.
  lemma FeedField(env: Env, ps: State, w: World, at: nat, f: WireField)
    requires HasRows(env.es) && AtField(ps) && Fits(f) && at + |FieldBytes(f)| <= MAX_BYTES
    ensures var o := Feed(env, ps, w, at, FieldBytes(f));
            !o.err && AtField(o.ps) && o.w == Decoded(env, w, at, f)
  {
    hide Feed, HasRows, DecodedLiteral, FieldBytes, Added, Tab.Resize, MatchField;
    match f
    case IndexedField(h) => FeedIndexed(env, ps, w, at, h);
    case SizeUpdate(h) => FeedSize(env, ps, w, at, h);
    case Literal(form, name, value) => FeedLiteral(env, ps, w, at, form, name, value);
  }
}
