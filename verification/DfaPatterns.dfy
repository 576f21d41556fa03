// What the patterns built with module Dfa match.
module DfaPatterns {
  import opened Base
  import opened Dfa

  type Word = seq<nat>

  // The state `w` leads to from `s`, if every input of it has a transition.
  function Walk<A>(es: Edges<A>, s: nat, w: Word): Option<nat> {
    if w == [] then Some(s)
    else
      var q := Walk(es, s, w[..|w| - 1]);
      if q.None? || (q.value, w[|w| - 1]) !in es then None else Some(es[(q.value, w[|w| - 1])].to)
  }

  // Whether `x` is read out of `q` by one of the edges `last`.
  ghost predicate Covered(last: seq<LastEdge>, q: nat, x: nat) {
    exists l <- last :: l.from == q && Reads(x, l.input, l.caseSensitive)
  }

  // `w` leads from `s` to `t`, over one of the last edges of `b` unless it is empty.
  ghost predicate Leads<A>(b: Builder<A>, s: nat, w: Word, t: nat) {
    && Walk(b.edges, s, w) == Some(t)
    && (w != [] ==> Walk(b.edges, s, w[..|w| - 1]).Some?
                    && Covered(b.lastEdges, Walk(b.edges, s, w[..|w| - 1]).value, w[|w| - 1]))
  }

  // Whether the bytes of `w` are the ones of `inputs`.
  predicate Spells(w: Word, inputs: Word, cs: bool) {
    |w| == |inputs| && forall i :: 0 <= i < |w| ==> Reads(w[i], inputs[i], cs)
  }

  function Flat(ws: seq<Word>): Word {
    if ws == [] then [] else Flat(ws[..|ws| - 1]) + ws[|ws| - 1]
  }

  // Whether an optional prefix may read as the words `ws`, one after the other.
  predicate Chosen(p: OptionalPrefix, ws: seq<Word>) {
    (|ws| <= 1 || p.repeat) && forall w <- ws :: Spells(w, p.inputs, p.caseSensitive)
  }

  // --- Walking ---

  lemma {:induction false} WalkAppend<A>(es: Edges<A>, s: nat, v: Word, w: Word)
    ensures Walk(es, s, v + w) == match Walk(es, s, v) case None => None case Some(t) => Walk(es, t, w)
    decreases |w|
  {
    if w == [] {
      assert v + w == v;
    } else {
      assert (v + w)[..|v + w| - 1] == v + w[..|w| - 1];
      WalkAppend(es, s, v, w[..|w| - 1]);
    }
  }

  // What was built before keeps leading where it led, whatever is built later.
  lemma {:induction false} WalkExtends<A>(es: Edges<A>, es': Edges<A>, s: nat, w: Word)
    requires Extends(es, es') && Walk(es, s, w).Some?
    ensures Walk(es', s, w) == Walk(es, s, w)
    decreases |w|
  {
    if w != [] {
      WalkExtends(es, es', s, w[..|w| - 1]);
    }
  }

  lemma LeadsExtends<A>(b: Builder<A>, b': Builder<A>, s: nat, w: Word, t: nat)
    requires Extends(b.edges, b'.edges) && (forall l <- b.lastEdges :: l in b'.lastEdges) && Leads(b, s, w, t)
    ensures Leads(b', s, w, t)
  {
    WalkExtends(b.edges, b'.edges, s, w);
    if w != [] {
      WalkExtends(b.edges, b'.edges, s, w[..|w| - 1]);
    }
  }

  lemma LeadsAppend<A>(b: Builder<A>, s: nat, v: Word, t: nat, w: Word, u: nat)
    requires Leads(b, s, v, t) && Leads(b, t, w, u)
    ensures Leads(b, s, v + w, u)
  {
    WalkAppend(b.edges, s, v, w);
    if w == [] {
      assert v + w == v;
    } else {
      assert (v + w)[..|v + w| - 1] == v + w[..|w| - 1];
      WalkAppend(b.edges, s, v, w[..|w| - 1]);
    }
  }

  lemma StepWalks<A>(es: Edges<A>, s: nat, x: nat, t: nat)
    requires (s, x) in es && es[(s, x)].to == t
    ensures Walk(es, s, [x]) == Some(t) && Walk(es, s, []) == Some(s)
  {
    assert [x][..0] == [];
  }

  lemma LeadsAfter<A>(b: Builder<A>, s: nat, v: Word, t: nat, w: Word, u: nat)
    requires Walk(b.edges, s, v) == Some(t) && Leads(b, t, w, u) && w != []
    ensures Leads(b, s, v + w, u)
  {
    WalkAppend(b.edges, s, v, w);
    assert (v + w)[..|v + w| - 1] == v + w[..|w| - 1];
    WalkAppend(b.edges, s, v, w[..|w| - 1]);
  }

  lemma EndLeads<A>(b: Builder<A>, s: nat, w: Word, t: nat, x: nat)
    requires Walk(b.edges, s, w) == Some(t) && (t, x) in b.edges && Covered(b.lastEdges, t, x)
    ensures Leads(b, s, w + [x], b.edges[(t, x)].to)
  {
    assert (w + [x])[..|w|] == w;
  }

  // --- Optional prefixes ---

  // The states the next input is pushed from.
  ghost predicate Open<A>(b: Builder<A>, s: nat) {
    s == b.state || s in b.optionalStates
  }

  lemma {:induction false} PrefixFromLeads<A>(b: Builder<A>, source: nat, from: nat, inputs: Word, cs: bool,
                                              repeat: bool, w: Word)
    requires PushPrefixFrom(b, source, from, inputs, cs, repeat).Some? && Spells(w, inputs, cs)
    ensures var r := PushPrefixFrom(b, source, from, inputs, cs, repeat).value;
            && Leads(r.0, from, w, r.1)
            && (repeat && inputs != [] ==> r.1 == source)
    decreases |inputs|
  {
    if inputs != [] {
      var b1 := if |inputs| == 1 then b.(lastEdges := b.lastEdges + [LastEdge(from, inputs[0], cs)]) else b;
      var (b2, t) := PushEdgeFrom(b1, from, inputs[0],
                                  if |inputs| == 1 && repeat then Some(source) else None, cs).value;
      StepWalks(b2.edges, from, w[0], t);
      if |inputs| == 1 {
        assert w == [w[0]];
        assert LastEdge(from, inputs[0], cs) in b2.lastEdges;
        assert Covered(b2.lastEdges, from, w[0]);
      } else {
        var r := PushPrefixFrom(b2, source, t, inputs[1..], cs, repeat).value;
        PrefixFromLeads(b2, source, t, inputs[1..], cs, repeat, w[1..]);
        WalkExtends(b2.edges, r.0.edges, from, [w[0]]);
        LeadsAfter(r.0, from, [w[0]], t, w[1..], r.1);
        assert w == [w[0]] + w[1..];
      }
    }
  }

  lemma {:induction false} RepeatLeads<A>(b: Builder<A>, s: nat, ws: seq<Word>)
    requires forall w <- ws :: Leads(b, s, w, s)
    ensures Leads(b, s, Flat(ws), s)
    decreases |ws|
  {
    if ws != [] {
      RepeatLeads(b, s, ws[..|ws| - 1]);
      LeadsAppend(b, s, Flat(ws[..|ws| - 1]), s, ws[|ws| - 1], s);
    }
  }

  lemma SourceLeads<A>(b: Builder<A>, s: nat, p: OptionalPrefix, ws: seq<Word>) returns (t: nat)
    requires PushPrefixFrom(b, s, s, p.inputs, p.caseSensitive, p.repeat).Some? && Chosen(p, ws)
    ensures var (b1, end) := PushPrefixFrom(b, s, s, p.inputs, p.caseSensitive, p.repeat).value;
            Leads(b1, s, Flat(ws), t) && (t == s || (!p.repeat && t == end))
  {
    var (b1, end) := PushPrefixFrom(b, s, s, p.inputs, p.caseSensitive, p.repeat).value;
    forall w <- ws
      ensures Leads(b1, s, w, end) && (p.repeat ==> end == s)
    {
      PrefixFromLeads(b, s, s, p.inputs, p.caseSensitive, p.repeat, w);
    }
    if p.repeat || ws == [] {
      t := s;
      RepeatLeads(b1, s, ws);
    } else {
      t := end;
      assert ws[..0] == [] && Flat(ws) == [] + ws[0];
      assert Flat(ws) == ws[0];
    }
  }

  lemma {:induction false} PrefixLeads<A>(b: Builder<A>, sources: seq<nat>, p: OptionalPrefix, s: nat, ws: seq<Word>)
    returns (t: nat)
    requires PushPrefix(b, sources, p).Some? && s in sources && Chosen(p, ws)
    ensures var r := PushPrefix(b, sources, p).value;
            Leads(r, s, Flat(ws), t) && (t == s || Open(r, t))
    decreases |sources|
  {
    var (b1, end) := PushPrefixFrom(b, sources[0], sources[0], p.inputs, p.caseSensitive, p.repeat).value;
    var b2 := if !p.repeat && end != b1.state && end !in b1.optionalStates
              then b1.(optionalStates := b1.optionalStates + [end]) else b1;
    var r := PushPrefix(b, sources, p).value;
    assert r == PushPrefix(b2, sources[1..], p).value;
    if s == sources[0] {
      t := SourceLeads(b, s, p, ws);
      assert t == s || Open(b2, t);
      LeadsExtends(b1, r, s, Flat(ws), t);
    } else {
      t := PrefixLeads(b2, sources[1..], p, s, ws);
    }
  }

  // What the optional prefixes `ps` may read as, one after the other.
  function FlatAll(wss: seq<seq<Word>>): Word {
    if wss == [] then [] else Flat(wss[0]) + FlatAll(wss[1..])
  }

  predicate AllChosen(ps: seq<OptionalPrefix>, wss: seq<seq<Word>>) {
    |ps| == |wss| && forall i :: 0 <= i < |ps| ==> Chosen(ps[i], wss[i])
  }

  lemma {:induction false} PrefixesLead<A>(b: Builder<A>, ps: seq<OptionalPrefix>, s: nat, wss: seq<seq<Word>>)
    returns (t: nat)
    requires PushPrefixes(b, ps).Some? && Open(b, s) && AllChosen(ps, wss)
    ensures var r := PushPrefixes(b, ps).value;
            Leads(r, s, FlatAll(wss), t) && Open(r, t)
    decreases |ps|
  {
    if ps == [] {
      t := s;
    } else {
      var r1 := PushPrefix(b, [b.state] + b.optionalStates, ps[0]).value;
      var r := PushPrefixes(b, ps).value;
      var q := PrefixLeads(b, [b.state] + b.optionalStates, ps[0], s, wss[0]);
      t := PrefixesLead(r1, ps[1..], q, wss[1..]);
      LeadsExtends(r1, r, s, Flat(wss[0]), q);
      LeadsAppend(r, s, Flat(wss[0]), q, FlatAll(wss[1..]), t);
    }
  }

  // --- Patterns ---

  // `w` leads from `anchor` to the state of `b`, the optional inputs `o` that were built
  // behind it lead on to `t`, and the ones that are pending may read as `wss`.
  ghost predicate Reaches<A>(b: Builder<A>, anchor: nat, w: Word, o: Word, t: nat, wss: seq<seq<Word>>) {
    && Leads(b, anchor, w, b.state)
    && Leads(b, b.state, o, t) && Open(b, t)
    && AllChosen(b.optionalPrefixes, wss)
  }

  lemma FlushReaches<A>(b: Builder<A>, anchor: nat, w: Word, o: Word, t: nat, wss: seq<seq<Word>>) returns (u: nat)
    requires PushOptionalPrefixes(b).Some? && Reaches(b, anchor, w, o, t, wss)
    ensures Reaches(PushOptionalPrefixes(b).value, anchor, w, o + FlatAll(wss), u, [])
  {
    var r := PushOptionalPrefixes(b).value;
    u := PrefixesLead(b.(optionalPrefixes := []), b.optionalPrefixes, t, wss);
    LeadsExtends(b, r, anchor, w, b.state);
    LeadsExtends(b, r, b.state, o, t);
    LeadsAppend(r, b.state, o, t, FlatAll(wss), u);
  }

  lemma {:induction false} JoinLeads<A>(b: Builder<A>, froms: seq<nat>, input: nat, to: nat, cs: bool, q: nat, x: nat)
    requires JoinStates(b, froms, input, to, cs).Some? && q in froms && Reads(x, input, cs)
    ensures var r := JoinStates(b, froms, input, to, cs).value;
            (q, x) in r.edges && r.edges[(q, x)].to == to && LastEdge(q, input, cs) in r.lastEdges
    decreases |froms|
  {
    var b1 := PushEdgeFrom(b, froms[0], input, Some(to), cs).value.0;
    var b2 := b1.(lastEdges := b1.lastEdges + [LastEdge(froms[0], input, cs)]);
    if q == froms[0] {
      assert LastEdge(q, input, cs) in b2.lastEdges;
    } else {
      JoinLeads(b2, froms[1..], input, to, cs, q, x);
    }
  }

  // Every state the pattern may be in takes the next input to the same state.
  lemma EdgeLeads<A>(b: Builder<A>, input: nat, to: Option<nat>, cs: bool, t: nat, x: nat)
    requires PushEdge(b, input, to, cs).Some? && b.optionalPrefixes == [] && Open(b, t) && Reads(x, input, cs)
    ensures var r := PushEdge(b, input, to, cs).value;
            && (t, x) in r.edges && r.edges[(t, x)].to == r.state && Covered(r.lastEdges, t, x)
            && r.optionalPrefixes == [] && r.optionalStates == [] && (to.Some? ==> r.state == to.value)
  {
    var (b1, s) := PushEdgeFrom(b, b.state, input, to, cs).value;
    var b2 := b1.(lastEdges := [LastEdge(b.state, input, cs)], optionalStates := []);
    if t == b.state {
      assert LastEdge(t, input, cs) in b2.lastEdges;
    } else {
      JoinLeads(b2, b1.optionalStates, input, s, cs, t, x);
    }
  }

  lemma EdgeReaches<A>(b: Builder<A>, input: nat, to: Option<nat>, cs: bool, anchor: nat, w: Word, o: Word, t: nat,
                       wss: seq<seq<Word>>, x: nat)
    requires PushEdge(b, input, to, cs).Some? && Reaches(b, anchor, w, o, t, wss) && Reads(x, input, cs)
    ensures var r := PushEdge(b, input, to, cs).value;
            && Reaches(r, anchor, w + (o + FlatAll(wss)) + [x], [], r.state, [])
            && r.optionalStates == [] && (to.Some? ==> r.state == to.value)
  {
    var f := PushOptionalPrefixes(b).value;
    var r := PushEdge(b, input, to, cs).value;
    var u := FlushReaches(b, anchor, w, o, t, wss);
    var o' := o + FlatAll(wss);
    EdgeLeads(f, input, to, cs, u, x);
    LeadsAppend(f, anchor, w, f.state, o', u);
    WalkExtends(f.edges, r.edges, anchor, w + o');
    EndLeads(r, anchor, w + o', u, x);
  }

  // A builder on which no optional prefix is open.
  predicate Settled<A>(b: Builder<A>) {
    b.optionalPrefixes == [] && b.optionalStates == []
  }

  lemma {:induction false} PushLeads<A>(b: Builder<A>, inputs: Word, to: Option<nat>, cs: bool, x: Word)
    requires PushTo(b, inputs, to, cs).Some? && inputs != [] && Settled(b) && Spells(x, inputs, cs)
    ensures var r := PushTo(b, inputs, to, cs).value;
            Settled(r) && Leads(r, b.state, x, r.state) && (to.Some? ==> r.state == to.value)
    decreases |inputs|
  {
    var to1 := if |inputs| == 1 then to else None;
    var b1 := PushEdge(b, inputs[0], to1, cs).value;
    EdgeLeads(b, inputs[0], to1, cs, b.state, x[0]);
    StepWalks(b1.edges, b.state, x[0], b1.state);
    if |inputs| == 1 {
      assert x == [x[0]];
    } else {
      var r := PushTo(b1, inputs[1..], to, cs).value;
      PushLeads(b1, inputs[1..], to, cs, x[1..]);
      WalkExtends(b1.edges, r.edges, b.state, [x[0]]);
      LeadsAfter(r, b.state, [x[0]], b1.state, x[1..], r.state);
      assert x == [x[0]] + x[1..];
    }
  }

  lemma RegroupTail(w: Word, x: Word)
    requires x != []
    ensures w + [x[0]] + x[1..] == w + x
    ensures |x| == 1 ==> w + [x[0]] == w + x
  {}

  lemma PushReaches<A>(b: Builder<A>, inputs: Word, cs: bool, anchor: nat, w: Word, o: Word, t: nat,
                       wss: seq<seq<Word>>, x: Word)
    requires Push(b, inputs, cs).Some? && inputs != []
    requires Reaches(b, anchor, w, o, t, wss) && Spells(x, inputs, cs)
    ensures var r := Push(b, inputs, cs).value;
            Settled(r) && Reaches(r, anchor, w + (o + FlatAll(wss)) + x, [], r.state, [])
  {
    var b1 := PushEdge(b, inputs[0], None, cs).value;
    EdgeReaches(b, inputs[0], None, cs, anchor, w, o, t, wss, x[0]);
    var w1 := w + (o + FlatAll(wss)) + [x[0]];
    var r := PushTo(b1, inputs[1..], None, cs).value;
    assert r == Push(b, inputs, cs).value;
    RegroupTail(w + (o + FlatAll(wss)), x);
    if |inputs| == 1 {
      assert r == b1;
    } else {
      PushLeads(b1, inputs[1..], None, cs, x[1..]);
      WalkExtends(b1.edges, r.edges, anchor, w1);
      LeadsAfter(r, anchor, w1, b1.state, x[1..], r.state);
    }
  }

  lemma SuffixIn<T>(pre: seq<T>, a: seq<T>, b: seq<T>)
    requires pre + a <= b
    ensures forall x <- a :: x in b
  {
    forall x <- a
      ensures x in b
    {
      var i :| 0 <= i < |a| && a[i] == x;
      assert b[|pre| + i] == (pre + a)[|pre| + i] == x;
    }
  }

  lemma {:induction false} OthersKeep<A>(b: Builder<A>, ws: seq<Word>, longest: Word, start: nat, final: nat,
                                         last: seq<LastEdge>, cs: bool)
    requires PushOthers(b, ws, longest, start, final, last, cs).Some? && Settled(b) && b.state == final
    ensures var r := PushOthers(b, ws, longest, start, final, last, cs).value;
            Settled(r) && r.state == final && last <= r.lastEdges
    decreases |ws|
  {
    if ws != [] && ws[0] != longest {
      var b1 := PushTo(b.(state := start), ws[0], Some(final), cs).value;
      PushLeads(b.(state := start), ws[0], Some(final), cs, ws[0]);
      OthersKeep(b1.(lastEdges := []), ws[1..], longest, start, final, last + b1.lastEdges, cs);
    } else if ws != [] {
      OthersKeep(b, ws[1..], longest, start, final, last, cs);
    }
  }

  lemma {:induction false} OthersLead<A>(b: Builder<A>, ws: seq<Word>, longest: Word, start: nat, final: nat,
                                         last: seq<LastEdge>, cs: bool, v: Word, x: Word)
    requires PushOthers(b, ws, longest, start, final, last, cs).Some? && Settled(b) && b.state == final
    requires v in ws && v != longest && Spells(x, v, cs)
    ensures x != [] && Leads(PushOthers(b, ws, longest, start, final, last, cs).value, start, x, final)
    decreases |ws|
  {
    if ws[0] == longest {
      OthersLead(b, ws[1..], longest, start, final, last, cs, v, x);
    } else {
      var b1 := PushTo(b.(state := start), ws[0], Some(final), cs).value;
      var b2 := b1.(lastEdges := []);
      PushLeads(b.(state := start), ws[0], Some(final), cs, ws[0]);
      if v == ws[0] {
        PushLeads(b.(state := start), v, Some(final), cs, x);
        OthersKeep(b2, ws[1..], longest, start, final, last + b1.lastEdges, cs);
        var r := PushOthers(b2, ws[1..], longest, start, final, last + b1.lastEdges, cs).value;
        SuffixIn(last, b1.lastEdges, r.lastEdges);
        LeadsExtends(b1, r, start, x, final);
      } else {
        OthersLead(b2, ws[1..], longest, start, final, last + b1.lastEdges, cs, v, x);
      }
    }
  }

  // Every option leads to the same state.
  lemma OptionsLead<A>(b: Builder<A>, ws: seq<Word>, cs: bool, v: Word, x: Word)
    requires PushOptions(b, ws, cs).Some? && Settled(b) && v in ws && Spells(x, v, cs) && Longest(ws) != []
    ensures var r := PushOptions(b, ws, cs).value;
            Settled(r) && x != [] && Leads(r, b.state, x, r.state)
  {
    var l := Longest(ws);
    var b1 := Push(b, l, cs).value;
    PushLeads(b, l, None, cs, l);
    OthersKeep(b1.(lastEdges := []), ws, l, b.state, b1.state, b1.lastEdges, cs);
    if v == l {
      PushLeads(b, l, None, cs, x);
      LeadsExtends(b1, PushOptions(b, ws, cs).value, b.state, x, b1.state);
    } else {
      OthersLead(b1.(lastEdges := []), ws, l, b.state, b1.state, b1.lastEdges, cs, v, x);
    }
  }

  // --- Whole patterns ---

  datatype Piece<A> =
    | Lit(inputs: Word, cs: bool)
    | Opt(inputs: Word, repeat: bool)
    | OneOf(words: seq<Word>, cs: bool)
    | Any(min: nat, max: Option<nat>)
    | Do(action: A)

  function BuildPiece<A(==)>(b: Builder<A>, p: Piece<A>): (r: Option<Builder<A>>)
    ensures r.Some? ==> Extends(b.edges, r.value.edges)
  {
    match p
    case Lit(inputs, cs) => Push(b, inputs, cs)
    case Opt(inputs, repeat) => Some(PushOptional(b, inputs, repeat))
    case OneOf(words, cs) => PushOptions(b, words, cs)
    case Any(min, max) => PushAny(b, min, max)
    case Do(action) => With(b, action)
  }

  function Build<A(==)>(b: Builder<A>, ps: seq<Piece<A>>): (r: Option<Builder<A>>)
    ensures r.Some? ==> Extends(b.edges, r.value.edges)
  {
    if ps == [] then Some(b)
    else
      var q := Build(b, ps[..|ps| - 1]);
      if q.None? then None else BuildPiece(q.value, ps[|ps| - 1])
  }

  // A piece that reads as nothing.
  predicate IsVoid<A>(p: Piece<A>) {
    match p
    case Lit(inputs, _) => inputs == []
    case OneOf(words, _) => words == [] || Longest(words) == []
    case Any(min, max) => min == 0 && max == Some(0)
    case _ => false
  }

  // A piece with inputs that may be left out, none of which may be repeated.
  predicate HasSpare<A>(p: Piece<A>) {
    match p
    case Opt(inputs, repeat) => !repeat && inputs != []
    case Any(min, Some(max)) => min < max
    case _ => false
  }

  // Any number of bytes, be it none.
  predicate IsLoop<A>(p: Piece<A>) {
    p.Any? && p.min == 0 && p.max.None?
  }

  // Whether the pattern ends with an optional input that no transition was built for yet.
  predicate Unbuilt<A>(ps: seq<Piece<A>>) {
    ps != [] &&
    var p := ps[|ps| - 1];
    if IsVoid(p) || IsLoop(p) then Unbuilt(ps[..|ps| - 1]) else p.Opt? || HasSpare(p)
  }

  // Whether it ends with an optional input that may not be repeated, be it built or not.
  predicate Skips<A>(ps: seq<Piece<A>>) {
    ps != [] &&
    var p := ps[|ps| - 1];
    HasSpare(p) || ((IsVoid(p) || IsLoop(p) || p.Do? || p.Opt?) && Skips(ps[..|ps| - 1]))
  }

  // The patterns the theorem is about: options follow no optional input that may be skipped
  // and not be repeated, see `TrailingOptional`, and a loop over any byte follows no optional
  // input that it would be built before.
  predicate WellFormed<A>(ps: seq<Piece<A>>) {
    forall i :: 0 <= i < |ps| ==> Follows(ps[..i], ps[i])
  }

  predicate Follows<A>(ps: seq<Piece<A>>, p: Piece<A>) {
    && (p.OneOf? && !IsVoid(p) ==> !Skips(ps))
    && (IsLoop(p) ==> !Skips(ps) && !Unbuilt(ps))
  }

  // What a piece of a pattern may read as.
  ghost predicate Picked<A>(p: Piece<A>, ws: seq<Word>) {
    match p
    case Lit(inputs, cs) => |ws| == 1 && Spells(ws[0], inputs, cs)
    case Opt(inputs, repeat) => Chosen(OptionalPrefix(inputs, true, repeat), ws)
    case OneOf(words, cs) => |ws| == 1 && exists v <- words :: Spells(ws[0], v, cs)
    case Any(min, max) => |ws| == 1 && min <= |ws[0]| && (max.Some? ==> |ws[0]| <= max.value) && ws[0] == Anys(|ws[0]|)
    case Do(_) => ws == []
  }

  // Any bytes, `n` of them.
  function Anys(n: nat): (w: Word)
    ensures |w| == n && forall x <- w :: x == ANY_INPUT
  {
    if n == 0 then [] else [ANY_INPUT] + Anys(n - 1)
  }

  // The words of a pattern: what its pieces read as, one after the other.
  function Read(picks: seq<seq<Word>>): Word {
    if picks == [] then [] else Read(picks[..|picks| - 1]) + Flat(picks[|picks| - 1])
  }

  ghost predicate AllPicked<A>(ps: seq<Piece<A>>, picks: seq<seq<Word>>) {
    |ps| == |picks| && forall i :: 0 <= i < |ps| ==> Picked(ps[i], picks[i])
  }

  lemma {:induction false} FlatAllAppend(wss: seq<seq<Word>>, ws: seq<Word>)
    ensures FlatAll(wss + [ws]) == FlatAll(wss) + Flat(ws)
    decreases |wss|
  {
    if wss == [] {
      assert wss + [ws] == [ws];
      assert [ws][1..] == [];
    } else {
      assert (wss + [ws])[1..] == wss[1..] + [ws];
      FlatAllAppend(wss[1..], ws);
    }
  }

  lemma FlatOne(w: Word)
    ensures Flat([w]) == w
  {
    assert [w][..0] == [];
  }

  lemma Regroup(w: Word, o: Word, f: Word, x: Word)
    ensures w + (o + f) + x + [] + [] == w + o + f + x
    ensures w + o + (f + x) == w + o + f + x
    ensures w + (o + f) + [] == w + o + f + [] == w + (o + f)
    ensures w + o + f + [] == w + o + f
  {}

  // Nothing leads past the state, and whatever is pending leads back to it.
  predicate Loops<A>(b: Builder<A>) {
    b.optionalStates == [] && forall p <- b.optionalPrefixes :: p.repeat || p.inputs == []
  }

  lemma {:induction false} PrefixLoops<A>(b: Builder<A>, sources: seq<nat>, p: OptionalPrefix)
    requires (p.repeat || p.inputs == []) && b.optionalStates == [] && PushPrefix(b, sources, p).Some?
    requires forall s <- sources :: s == b.state
    ensures PushPrefix(b, sources, p).value.optionalStates == []
    decreases |sources|
  {
    hide PushPrefixFrom;
    if sources != [] {
      PrefixFromNothing(b, sources[0], p.caseSensitive, p.repeat);
      assert sources[0] in sources && forall s <- sources[1..] :: s in sources;
      PrefixLoops(PushPrefixFrom(b, sources[0], sources[0], p.inputs, p.caseSensitive, p.repeat).value.0,
                  sources[1..], p);
    }
  }

  lemma PrefixFromNothing<A>(b: Builder<A>, s: nat, cs: bool, repeat: bool)
    ensures PushPrefixFrom(b, s, s, [], cs, repeat) == Some((b, s))
  {}

  lemma {:induction false} PrefixesLoop<A>(b: Builder<A>, ps: seq<OptionalPrefix>)
    requires (forall p <- ps :: p.repeat || p.inputs == []) && b.optionalStates == [] && PushPrefixes(b, ps).Some?
    ensures PushPrefixes(b, ps).value.optionalStates == []
    decreases |ps|
  {
    hide PushPrefix;
    if ps != [] {
      assert [b.state] + b.optionalStates == [b.state] && forall p <- ps[1..] :: p in ps;
      PrefixLoops(b, [b.state] + b.optionalStates, ps[0]);
      PrefixesLoop(PushPrefix(b, [b.state] + b.optionalStates, ps[0]).value, ps[1..]);
    }
  }

  lemma EdgeSettles<A>(b: Builder<A>, input: nat, to: Option<nat>, cs: bool)
    requires PushEdge(b, input, to, cs).Some?
    ensures Settled(PushEdge(b, input, to, cs).value)
  {
    hide PushEdgeFrom, JoinStates, PushPrefixes;
  }

  lemma {:induction false} PushSettles<A>(b: Builder<A>, inputs: Word, to: Option<nat>, cs: bool)
    requires PushTo(b, inputs, to, cs).Some? && inputs != []
    ensures Settled(PushTo(b, inputs, to, cs).value)
    decreases |inputs|
  {
    hide PushEdge;
    var to1 := if |inputs| == 1 then to else None;
    EdgeSettles(b, inputs[0], to1, cs);
    if |inputs| > 1 {
      PushSettles(PushEdge(b, inputs[0], to1, cs).value, inputs[1..], to, cs);
    }
  }

  lemma OptionsSettle<A>(b: Builder<A>, ws: seq<Word>, cs: bool)
    requires PushOptions(b, ws, cs).Some? && ws != [] && Longest(ws) != []
    ensures Settled(PushOptions(b, ws, cs).value)
  {
    hide PushTo, PushOthers;
    var l := Longest(ws);
    PushSettles(b, l, None, cs);
    var r := Push(b, l, cs).value;
    OthersKeep(r.(lastEdges := []), ws, l, b.state, r.state, r.lastEdges, cs);
  }

  // Options that are all empty change nothing.
  lemma {:induction false} VoidOthers<A>(b: Builder<A>, ws: seq<Word>, start: nat, final: nat, last: seq<LastEdge>,
                                         cs: bool)
    requires forall w <- ws :: w == []
    ensures PushOthers(b, ws, [], start, final, last, cs) == Some(b.(lastEdges := last))
    decreases |ws|
  {
    hide PushTo;
    if ws != [] {
      assert ws[0] in ws && forall w <- ws[1..] :: w in ws;
      VoidOthers(b, ws[1..], start, final, last, cs);
    }
  }

  lemma VoidOptions<A>(b: Builder<A>, ws: seq<Word>, cs: bool)
    requires ws == [] || Longest(ws) == []
    ensures PushOptions(b, ws, cs) == Some(b)
  {
    if ws != [] {
      PushNothing(b, cs);
      assert forall w <- ws :: |w| <= |Longest(ws)| == 0;
      VoidOthers(b.(lastEdges := []), ws, b.state, b.state, b.lastEdges, cs);
    }
  }

  lemma FlushSettles<A>(b: Builder<A>)
    requires Loops(b) && PushOptionalPrefixes(b).Some?
    ensures Settled(PushOptionalPrefixes(b).value)
  {
    PrefixesLoop(b.(optionalPrefixes := []), b.optionalPrefixes);
  }

  // Pending optional inputs are built before any option is.
  lemma OptionsFlush<A>(b: Builder<A>, ws: seq<Word>, cs: bool)
    requires ws != [] && Longest(ws) != [] && PushOptions(b, ws, cs).Some?
    ensures PushOptionalPrefixes(b).Some?
    ensures var f := PushOptionalPrefixes(b).value;
            f.state == b.state && PushOptions(f, ws, cs) == PushOptions(b, ws, cs)
  {
    hide PushPrefixes, PushEdgeFrom, JoinStates, PushOthers;
    var f := PushOptionalPrefixes(b).value;
    FlushAgain(f);
    var l := Longest(ws);
    var to := if |l| == 1 then None else None;
    assert PushEdge(f, l[0], to, cs) == PushEdge(b, l[0], to, cs);
  }

  lemma FlushAgain<A>(b: Builder<A>)
    requires b.optionalPrefixes == []
    ensures PushOptionalPrefixes(b) == Some(b)
  {}

  lemma PieceLoops<A>(b: Builder<A>, p: Piece<A>)
    requires BuildPiece(b, p).Some?
    ensures var r := BuildPiece(b, p).value;
            if IsVoid(p) then r == b
            else
              match p
              case Opt(inputs, repeat) => r == PushOptional(b, inputs, repeat)
              case Do(_) => r.optionalPrefixes == [] && (Loops(b) ==> Loops(r))
              case Any(min, max) =>
                && (!HasSpare(p) ==> (Loops(b) ==> Loops(r)) && (b.optionalPrefixes == [] ==> r.optionalPrefixes == []))
                && (!HasSpare(p) && min > 0 ==> Settled(r))
              case _ => Settled(r)
  {
    hide PushTo, PushOptions, With, PushAny;
    match p
    case Lit(inputs, cs) =>
      if inputs != [] {
        PushSettles(b, inputs, None, cs);
      } else {
        PushNothing(b, cs);
      }
    case Opt(inputs, repeat) =>
    case OneOf(words, cs) =>
      if IsVoid(p) {
        VoidOptions(b, words, cs);
      } else {
        OptionsSettle(b, words, cs);
      }
    case Any(min, max) => AnySettles(b, min, max);
    case Do(a) => WithLoops(b, a);
  }

  lemma {:induction false} AnyTimes<A>(b: Builder<A>, n: nat)
    ensures PushAnyTimes(b, n) == Push(b, Anys(n), true)
    decreases n
  {
    hide PushEdge;
    if n > 0 {
      assert Anys(n)[1..] == Anys(n - 1);
      var r := PushEdge(b, ANY_INPUT, None, true);
      if r.Some? {
        AnyTimes(r.value, n - 1);
      }
    }
  }

  lemma AnySettles<A>(b: Builder<A>, min: nat, max: Option<nat>)
    requires PushAny(b, min, max).Some?
    ensures max.Some? ==> min <= max.value
    ensures var r := PushAny(b, min, max).value;
            max.None? || max.value == min ==>
              if min > 0 then Settled(r)
              else
                && r.optionalPrefixes == b.optionalPrefixes && r.optionalStates == b.optionalStates
                && (max.Some? ==> r == b)
  {
    hide PushTo, PushEdge;
    AnyTimes(b, min);
    if min > 0 {
      PushSettles(b, Anys(min), None, true);
    }
    if max == Some(min) {
      var q, r := PushAnyTimes(b, min).value, PushAny(b, min, max).value;
      assert r.optionalPrefixes == q.optionalPrefixes;
    }
  }

  // What a pattern leaves behind that ends with no more than repeated optional inputs.
  lemma {:induction false} BuildLoops<A>(b: Builder<A>, ps: seq<Piece<A>>)
    requires Build(b, ps).Some? && Settled(b)
    ensures !Skips(ps) ==> Loops(Build(b, ps).value)
    ensures !Unbuilt(ps) ==> Build(b, ps).value.optionalPrefixes == []
    decreases |ps|
  {
    hide BuildPiece, Longest;
    if ps != [] {
      var k := |ps| - 1;
      BuildLoops(b, ps[..k]);
      PieceLoops(Build(b, ps[..k]).value, ps[k]);
    }
  }

  lemma PushNothing<A>(b: Builder<A>, cs: bool)
    ensures Push(b, [], cs) == Some(b)
  {}

  lemma WithLoops<A>(b: Builder<A>, a: A)
    requires With(b, a).Some?
    ensures With(b, a).value.optionalPrefixes == []
    ensures Loops(b) ==> Loops(With(b, a).value)
  {
    hide AddActions;
    if Loops(b) {
      FlushSettles(b);
    }
  }

  // Behind `word`, the builder is where `Reaches` has it.
  ghost predicate Went<A>(b: Builder<A>, anchor: nat, w: Word, o: Word, t: nat, wss: seq<seq<Word>>, word: Word) {
    Reaches(b, anchor, w, o, t, wss) && w + o + FlatAll(wss) == word
  }

  lemma SettledReaches<A>(b: Builder<A>, words: seq<Word>, cs: bool, anchor: nat, w: Word, x: Word)
    requires PushOptions(b, words, cs).Some? && Settled(b) && Leads(b, anchor, w, b.state)
    requires words != [] && Longest(words) != [] && exists v <- words :: Spells(x, v, cs)
    ensures var r := PushOptions(b, words, cs).value; Reaches(r, anchor, w + x, [], r.state, [])
  {
    var r := PushOptions(b, words, cs).value;
    var v :| v in words && Spells(x, v, cs);
    OptionsLead(b, words, cs, v, x);
    WalkExtends(b.edges, r.edges, anchor, w);
    LeadsAfter(r, anchor, w, b.state, x, r.state);
  }

  lemma OneOfReaches<A>(b: Builder<A>, words: seq<Word>, cs: bool, anchor: nat, w: Word, o: Word, t: nat,
                        wss: seq<seq<Word>>, x: Word)
    returns (w': Word, o': Word, t': nat, wss': seq<seq<Word>>)
    requires PushOptions(b, words, cs).Some? && Reaches(b, anchor, w, o, t, wss)
    requires (words != [] && Longest(words) != [] ==> Loops(b)) && exists v <- words :: Spells(x, v, cs)
    ensures Went(PushOptions(b, words, cs).value, anchor, w', o', t', wss', w + o + FlatAll(wss) + x)
  {
    Regroup(w, o, FlatAll(wss), x);
    if Longest(words) == [] {
      VoidOptions(b, words, cs);
      assert x == [];
      w', o', t', wss' := w, o, t, wss;
    } else {
      OptionsFlush(b, words, cs);
      FlushSettles(b);
      var f := PushOptionalPrefixes(b).value;
      var u := FlushReaches(b, anchor, w, o, t, wss);
      LeadsAppend(f, anchor, w, f.state, o + FlatAll(wss), u);
      SettledReaches(f, words, cs, anchor, w + (o + FlatAll(wss)), x);
      w', o', t', wss' := w + (o + FlatAll(wss)) + x, [], PushOptions(b, words, cs).value.state, [];
    }
  }

  lemma DoReaches<A>(b: Builder<A>, a: A, anchor: nat, w: Word, o: Word, t: nat, wss: seq<seq<Word>>) returns (u: nat)
    requires With(b, a).Some? && Reaches(b, anchor, w, o, t, wss)
    ensures Went(With(b, a).value, anchor, w, o + FlatAll(wss), u, [], w + o + FlatAll(wss) + Flat([]))
  {
    Regroup(w, o, FlatAll(wss), []);
    u := FlushReaches(b, anchor, w, o, t, wss);
    var f, r := PushOptionalPrefixes(b).value, With(b, a).value;
    LeadsExtends(f, r, anchor, w, f.state);
    LeadsExtends(f, r, f.state, o + FlatAll(wss), u);
  }

  lemma LitReaches<A>(b: Builder<A>, inputs: Word, cs: bool, anchor: nat, w: Word, o: Word, t: nat, wss: seq<seq<Word>>,
                      x: Word)
    returns (w': Word, o': Word, t': nat, wss': seq<seq<Word>>)
    requires Push(b, inputs, cs).Some? && Reaches(b, anchor, w, o, t, wss) && Spells(x, inputs, cs)
    ensures Went(Push(b, inputs, cs).value, anchor, w', o', t', wss', w + o + FlatAll(wss) + x)
  {
    Regroup(w, o, FlatAll(wss), x);
    if inputs == [] {
      w', o', t', wss' := w, o, t, wss;
    } else {
      PushReaches(b, inputs, cs, anchor, w, o, t, wss, x);
      w', o', t', wss' := w + (o + FlatAll(wss)) + x, [], Push(b, inputs, cs).value.state, [];
    }
  }

  lemma OptReaches<A>(b: Builder<A>, inputs: Word, repeat: bool, anchor: nat, w: Word, o: Word, t: nat,
                      wss: seq<seq<Word>>, ws: seq<Word>)
    requires Reaches(b, anchor, w, o, t, wss) && Chosen(OptionalPrefix(inputs, true, repeat), ws)
    ensures Went(PushOptional(b, inputs, repeat), anchor, w, o, t, wss + [ws], w + o + FlatAll(wss) + Flat(ws))
  {
    FlatAllAppend(wss, ws);
    Regroup(w, o, FlatAll(wss), Flat(ws));
  }

  lemma {:induction false} AnysAppend(n: nat, m: nat)
    ensures Anys(n) + Anys(m) == Anys(n + m)
  {
    if n == 0 {
      assert Anys(0) + Anys(m) == Anys(m);
    } else {
      AnysAppend(n - 1, m);
      assert Anys(n) + Anys(m) == [ANY_INPUT] + (Anys(n - 1) + Anys(m));
    }
  }

  lemma NoMore(w: Word)
    ensures w + Anys(0) == w && Anys(0) == Flat([]) && Anys(1) == [ANY_INPUT]
  {
    assert Anys(1) == [ANY_INPUT] + Anys(0);
  }

  lemma OneMore(w: Word, m: nat, n: nat)
    requires m <= n
    ensures w + Anys(m) + Anys(n - m) == w + Anys(n)
  {
    AnysAppend(m, n - m);
    assert w + Anys(m) + Anys(n - m) == w + (Anys(m) + Anys(n - m));
  }

  // Up to `k` bytes more, each of which may be left out.
  function Spare<A>(b: Builder<A>, k: nat): Builder<A> {
    if k == 0 then b else PushOptional(Spare(b, k - 1), [ANY_INPUT], false)
  }

  lemma {:induction false} SpareIs<A>(b: Builder<A>, k: nat, skip: seq<OptionalPrefix>)
    requires |skip| == k && forall i :: 0 <= i < k ==> skip[i] == OptionalPrefix([ANY_INPUT], true, false)
    ensures Spare(b, k) == b.(optionalPrefixes := b.optionalPrefixes + skip)
  {
    if k == 0 {
      assert b.optionalPrefixes + skip == b.optionalPrefixes;
    } else {
      SpareIs(b, k - 1, skip[..k - 1]);
      assert skip == skip[..k - 1] + [OptionalPrefix([ANY_INPUT], true, false)];
      assert b.optionalPrefixes + skip ==
             b.optionalPrefixes + skip[..k - 1] + [OptionalPrefix([ANY_INPUT], true, false)];
    }
  }

  // Bytes that are repeated are that many bytes in a row, and behind them either as many more
  // as the range leaves room for, each of which may be left out, or one transition back.
  lemma AnyIs<A>(b: Builder<A>, min: nat, max: Option<nat>)
    requires PushAny(b, min, max).Some?
    ensures Push(b, Anys(min), true).Some?
    ensures var q, r := Push(b, Anys(min), true).value, PushAny(b, min, max).value;
            match max
            case Some(n) => min <= n && r == Spare(q, n - min)
            case None =>
              && r.edges.Keys == q.edges.Keys + {(q.state, 0x100)} && r.edges[(q.state, 0x100)].to == q.state == r.state
              && r.lastEdges == q.lastEdges + [LastEdge(q.state, 0x100, true)]
              && r == q.(numStates := r.numStates, edges := r.edges, lastEdges := r.lastEdges)
  {
    hide PushTo, PushEdge;
    AnyTimes(b, min);
    if max.Some? {
      SpareIs(PushAnyTimes(b, min).value, max.value - min,
              seq(max.value - min, _ => OptionalPrefix([ANY_INPUT], true, false)));
    }
  }

  lemma {:induction false} SpareReaches<A>(b: Builder<A>, k: nat, anchor: nat, w: Word, o: Word, t: nat,
                                           wss: seq<seq<Word>>, n: nat) returns (wss': seq<seq<Word>>)
    requires Reaches(b, anchor, w, o, t, wss) && n <= k
    ensures Went(Spare(b, k), anchor, w, o, t, wss', w + o + FlatAll(wss) + Anys(n))
  {
    hide Reaches, FlatAll, Anys;
    if k == 0 {
      wss' := wss;
      NoMore(w + o + FlatAll(wss));
    } else {
      NoMore([]);
      var m := if n == k then n - 1 else n;
      var ws: seq<Word> := if n == k then [Anys(1)] else [];
      var init := SpareReaches(b, k - 1, anchor, w, o, t, wss, m);
      OptReaches(Spare(b, k - 1), [ANY_INPUT], false, anchor, w, o, t, init, ws);
      FlatOne(Anys(1));
      OneMore(w + o + FlatAll(wss), m, n);
      assert Flat(ws) == Anys(n - m);
      wss' := init + [ws];
    }
  }

  lemma {:induction false} LoopLeads<A>(b: Builder<A>, s: nat, k: nat)
    requires (s, ANY_INPUT) in b.edges && b.edges[(s, ANY_INPUT)].to == s && Covered(b.lastEdges, s, ANY_INPUT)
    ensures Leads(b, s, Anys(k), s)
  {
    if k > 0 {
      LoopLeads(b, s, k - 1);
      EndLeads(b, s, [], s, ANY_INPUT);
      assert [] + [ANY_INPUT] == [ANY_INPUT];
      LeadsAppend(b, s, [ANY_INPUT], s, Anys(k - 1), s);
    }
  }

  lemma LoopIsThere<A>(q: Builder<A>, r: Builder<A>)
    requires var l := PushEdgeFrom(q, q.state, ANY_INPUT, Some(q.state), true);
             l.Some? && r == l.value.0.(lastEdges := l.value.0.lastEdges + [LastEdge(q.state, ANY_INPUT, true)])
    ensures (q.state, ANY_INPUT) in r.edges && r.edges[(q.state, ANY_INPUT)].to == q.state
    ensures Covered(r.lastEdges, q.state, ANY_INPUT) && (forall e <- q.lastEdges :: e in r.lastEdges)
  {
    assert LastEdge(q.state, ANY_INPUT, true) in r.lastEdges;
  }

  // The loop over any byte leads back to the state it is built at.
  lemma LoopReaches<A>(q: Builder<A>, r: Builder<A>, anchor: nat, w: Word, o: Word, t: nat, wss: seq<seq<Word>>, k: nat)
    requires Settled(q) && Reaches(q, anchor, w, o, t, wss)
    requires var l := PushEdgeFrom(q, q.state, ANY_INPUT, Some(q.state), true);
             l.Some? && r == l.value.0.(lastEdges := l.value.0.lastEdges + [LastEdge(q.state, ANY_INPUT, true)])
    ensures Went(r, anchor, w, o + Anys(k), t, [], w + o + FlatAll(wss) + Anys(k))
  {
    hide Walk, Leads, Covered;
    var s := q.state;
    LoopIsThere(q, r);
    LoopLeads(r, s, k);
    LeadsExtends(q, r, anchor, w, s);
    LeadsExtends(q, r, s, o, s);
    LeadsAppend(r, s, o, s, Anys(k), s);
    assert wss == [] && FlatAll(wss) == [];
    Regroup(w, o, [], Anys(k));
    assert w + (o + Anys(k)) + [] == w + o + [] + Anys(k);
  }

  lemma AnyReaches<A>(b: Builder<A>, min: nat, max: Option<nat>, anchor: nat, w: Word, o: Word, t: nat,
                      wss: seq<seq<Word>>, n: nat)
    returns (w': Word, o': Word, t': nat, wss': seq<seq<Word>>)
    requires PushAny(b, min, max).Some? && Reaches(b, anchor, w, o, t, wss)
    requires min <= n && (max.Some? ==> n <= max.value) && (min == 0 && max.None? ==> Settled(b))
    ensures Went(PushAny(b, min, max).value, anchor, w', o', t', wss', w + o + FlatAll(wss) + Anys(n))
  {
    hide PushTo, PushEdge, PushEdgeFrom, Reaches;
    AnyTimes(b, min);
    var q, r := PushAnyTimes(b, min).value, PushAny(b, min, max).value;
    w', o', t', wss' := LitReaches(b, Anys(min), true, anchor, w, o, t, wss, Anys(min));
    OneMore(w + o + FlatAll(wss), min, n);
    if max.Some? {
      AnyIs(b, min, max);
      wss' := SpareReaches(q, max.value - min, anchor, w', o', t', wss', n - min);
    } else {
      if min > 0 {
        PushSettles(b, Anys(min), None, true);
      }
      LoopReaches(q, r, anchor, w', o', t', wss', n - min);
      o', wss' := o' + Anys(n - min), [];
    }
  }

  lemma PieceReaches<A>(b: Builder<A>, p: Piece<A>, anchor: nat, w: Word, o: Word, t: nat, wss: seq<seq<Word>>,
                        ws: seq<Word>)
    returns (w': Word, o': Word, t': nat, wss': seq<seq<Word>>)
    requires BuildPiece(b, p).Some? && Reaches(b, anchor, w, o, t, wss) && Picked(p, ws)
    requires p.OneOf? && !IsVoid(p) ==> Loops(b)
    requires IsLoop(p) ==> Loops(b) && b.optionalPrefixes == []
    ensures Went(BuildPiece(b, p).value, anchor, w', o', t', wss', w + o + FlatAll(wss) + Flat(ws))
  {
    match p {
      case Lit(inputs, cs) =>
        assert ws == [ws[0]];
        FlatOne(ws[0]);
        w', o', t', wss' := LitReaches(b, inputs, cs, anchor, w, o, t, wss, ws[0]);
      case Opt(inputs, repeat) =>
        w', o', t', wss' := w, o, t, wss + [ws];
        OptReaches(b, inputs, repeat, anchor, w, o, t, wss, ws);
      case OneOf(words, cs) =>
        assert ws == [ws[0]];
        FlatOne(ws[0]);
        w', o', t', wss' := OneOfReaches(b, words, cs, anchor, w, o, t, wss, ws[0]);
      case Any(min, max) =>
        assert ws == [ws[0]];
        FlatOne(ws[0]);
        w', o', t', wss' := AnyReaches(b, min, max, anchor, w, o, t, wss, |ws[0]|);
      case Do(action) =>
        t' := DoReaches(b, action, anchor, w, o, t, wss);
        w', o', wss' := w, o + FlatAll(wss), [];
    }
  }

  // Every word of a pattern leads from its anchor to a state the pattern is then in.
  lemma {:induction false} BuildReaches<A>(b: Builder<A>, ps: seq<Piece<A>>, picks: seq<seq<Word>>)
    returns (w: Word, o: Word, t: nat, wss: seq<seq<Word>>)
    requires Build(b, ps).Some? && WellFormed(ps) && AllPicked(ps, picks) && Settled(b)
    ensures Went(Build(b, ps).value, b.state, w, o, t, wss, Read(picks))
    decreases |ps|
  {
    hide BuildPiece, Picked, Reaches, Loops, Skips, IsVoid, Unbuilt, IsLoop;
    if ps == [] {
      w, o, t, wss := [], [], b.state, [];
      StartReaches(b);
    } else {
      var n := |ps| - 1;
      assert forall i :: 0 <= i <= n ==> ps[..n][..i] == ps[..i];
      assert Picked(ps[n], picks[n]);
      var w0, o0, t0, wss0 := BuildReaches(b, ps[..n], picks[..n]);
      BuildLoops(b, ps[..n]);
      assert Follows(ps[..n], ps[n]);
      w, o, t, wss := PieceReaches(Build(b, ps[..n]).value, ps[n], b.state, w0, o0, t0, wss0, picks[n]);
    }
  }

  lemma StartReaches<A>(b: Builder<A>)
    requires Settled(b)
    ensures Reaches(b, b.state, [], [], b.state, [])
  {
    assert Walk(b.edges, b.state, []) == Some(b.state);
  }

  // --- Where a pattern ends ---

  // Each word of a pattern leads from its anchor to the state of the pattern, and keeps doing
  // so whatever patterns are added later, if the transitions of the optional inputs it ends
  // with have been built, and these inputs may all be repeated.
  lemma PatternMatches<A>(numStates: nat, es: Edges<A>, anchor: nat, ps: seq<Piece<A>>, picks: seq<seq<Word>>,
                          es': Edges<A>)
    requires var b := StartPattern(numStates, es, anchor);
             Build(b, ps).Some? && WellFormed(ps) && AllPicked(ps, picks) && !Unbuilt(ps) && !Skips(ps)
             && Extends(Build(b, ps).value.edges, es')
    ensures var r := Build(StartPattern(numStates, es, anchor), ps).value;
            Walk(es', anchor, Read(picks)) == Some(r.state)
  {
    hide Build, Extends, WellFormed, Skips, Unbuilt;
    var b := StartPattern(numStates, es, anchor);
    var r := Build(b, ps).value;
    var w, o, t, wss := BuildReaches(b, ps, picks);
    BuildLoops(b, ps);
    LeadsAppend(r, anchor, w, r.state, o, t);
    assert wss == [] && FlatAll(wss) == [];
    Regroup(w, o, [], []);
    assert w + o == Read(picks);
    WalkExtends(r.edges, es', anchor, w + o);
  }

  // --- Optional inputs at the end ---

  // No state is mentioned that was not handed out.
  ghost predicate Bounded<A>(b: Builder<A>) {
    && b.state < b.numStates && (forall s <- b.optionalStates :: s < b.numStates)
    && forall k <- b.edges :: k.0 < b.numStates && b.edges[k].to < b.numStates
  }

  // What keeps a builder bounded.
  ghost predicate StaysBounded<A>(b: Builder<A>, r: Builder<A>) {
    Bounded(r) && b.numStates <= r.numStates
  }

  lemma EdgeFromBounded<A>(b: Builder<A>, from: nat, input: nat, to: Option<nat>, cs: bool)
    requires Bounded(b) && from < b.numStates && (to.Some? ==> to.value < b.numStates)
    requires PushEdgeFrom(b, from, input, to, cs).Some?
    ensures var r := PushEdgeFrom(b, from, input, to, cs).value; StaysBounded(b, r.0) && r.1 < r.0.numStates
  {}

  lemma {:induction false} PrefixFromBounded<A>(b: Builder<A>, source: nat, from: nat, inputs: Word, cs: bool,
                                                repeat: bool)
    requires Bounded(b) && source < b.numStates && from < b.numStates
    requires PushPrefixFrom(b, source, from, inputs, cs, repeat).Some?
    ensures var r := PushPrefixFrom(b, source, from, inputs, cs, repeat).value;
            StaysBounded(b, r.0) && r.1 < r.0.numStates
    decreases |inputs|
  {
    hide PushEdgeFrom;
    if inputs != [] {
      var b1 := if |inputs| == 1 then b.(lastEdges := b.lastEdges + [LastEdge(from, inputs[0], cs)]) else b;
      var to := if |inputs| == 1 && repeat then Some(source) else None;
      EdgeFromBounded(b1, from, inputs[0], to, cs);
      var (b2, t) := PushEdgeFrom(b1, from, inputs[0], to, cs).value;
      PrefixFromBounded(b2, source, t, inputs[1..], cs, repeat);
    }
  }

  lemma {:induction false} PrefixBounded<A>(b: Builder<A>, sources: seq<nat>, p: OptionalPrefix)
    requires Bounded(b) && (forall s <- sources :: s < b.numStates) && PushPrefix(b, sources, p).Some?
    ensures StaysBounded(b, PushPrefix(b, sources, p).value)
    decreases |sources|
  {
    hide PushPrefixFrom;
    if sources != [] {
      assert sources[0] in sources && forall s <- sources[1..] :: s in sources;
      PrefixFromBounded(b, sources[0], sources[0], p.inputs, p.caseSensitive, p.repeat);
      var (b1, end) := PushPrefixFrom(b, sources[0], sources[0], p.inputs, p.caseSensitive, p.repeat).value;
      var b2 := if !p.repeat && end != b1.state && end !in b1.optionalStates
                then b1.(optionalStates := b1.optionalStates + [end]) else b1;
      PrefixBounded(b2, sources[1..], p);
    }
  }

  lemma {:induction false} PrefixesBounded<A>(b: Builder<A>, ps: seq<OptionalPrefix>)
    requires Bounded(b) && PushPrefixes(b, ps).Some?
    ensures StaysBounded(b, PushPrefixes(b, ps).value)
    decreases |ps|
  {
    hide PushPrefix;
    if ps != [] {
      PrefixBounded(b, [b.state] + b.optionalStates, ps[0]);
      PrefixesBounded(PushPrefix(b, [b.state] + b.optionalStates, ps[0]).value, ps[1..]);
    }
  }

  lemma {:induction false} JoinBounded<A>(b: Builder<A>, froms: seq<nat>, input: nat, to: nat, cs: bool)
    requires Bounded(b) && (forall s <- froms :: s < b.numStates) && to < b.numStates
    requires JoinStates(b, froms, input, to, cs).Some?
    ensures StaysBounded(b, JoinStates(b, froms, input, to, cs).value)
    decreases |froms|
  {
    hide PushEdgeFrom;
    if froms != [] {
      assert froms[0] in froms && forall s <- froms[1..] :: s in froms;
      EdgeFromBounded(b, froms[0], input, Some(to), cs);
      var b1 := PushEdgeFrom(b, froms[0], input, Some(to), cs).value.0;
      JoinBounded(b1.(lastEdges := b1.lastEdges + [LastEdge(froms[0], input, cs)]), froms[1..], input, to, cs);
    }
  }

  lemma EdgeBounded<A>(b: Builder<A>, input: nat, to: Option<nat>, cs: bool)
    requires Bounded(b) && (to.Some? ==> to.value < b.numStates) && PushEdge(b, input, to, cs).Some?
    ensures StaysBounded(b, PushEdge(b, input, to, cs).value)
  {
    hide PushEdgeFrom, JoinStates, PushPrefixes;
    PrefixesBounded(b.(optionalPrefixes := []), b.optionalPrefixes);
    var f := PushOptionalPrefixes(b).value;
    EdgeFromBounded(f, f.state, input, to, cs);
    var (b1, t) := PushEdgeFrom(f, f.state, input, to, cs).value;
    JoinBounded(b1.(lastEdges := [LastEdge(f.state, input, cs)], optionalStates := []),
                b1.optionalStates, input, t, cs);
  }

  lemma {:induction false} PushBounded<A>(b: Builder<A>, inputs: Word, to: Option<nat>, cs: bool)
    requires Bounded(b) && (to.Some? ==> to.value < b.numStates) && PushTo(b, inputs, to, cs).Some?
    ensures StaysBounded(b, PushTo(b, inputs, to, cs).value)
    decreases |inputs|
  {
    hide PushEdge;
    if inputs != [] {
      var to1 := if |inputs| == 1 then to else None;
      EdgeBounded(b, inputs[0], to1, cs);
      PushBounded(PushEdge(b, inputs[0], to1, cs).value, inputs[1..], to, cs);
    }
  }

  lemma {:induction false} OthersBounded<A>(b: Builder<A>, ws: seq<Word>, longest: Word, start: nat, final: nat,
                                            last: seq<LastEdge>, cs: bool)
    requires Bounded(b) && start < b.numStates && final < b.numStates
    requires PushOthers(b, ws, longest, start, final, last, cs).Some?
    ensures StaysBounded(b, PushOthers(b, ws, longest, start, final, last, cs).value)
    decreases |ws|
  {
    hide PushTo;
    if ws != [] && ws[0] == longest {
      OthersBounded(b, ws[1..], longest, start, final, last, cs);
    } else if ws != [] {
      PushBounded(b.(state := start), ws[0], Some(final), cs);
      var r := PushTo(b.(state := start), ws[0], Some(final), cs).value;
      OthersBounded(r.(lastEdges := []), ws[1..], longest, start, final, last + r.lastEdges, cs);
    }
  }

  lemma PieceBounded<A>(b: Builder<A>, p: Piece<A>)
    requires Bounded(b) && BuildPiece(b, p).Some?
    ensures StaysBounded(b, BuildPiece(b, p).value)
  {
    hide PushTo, PushOthers, PushPrefixes, AddActions, PushEdgeFrom;
    match p
    case Lit(inputs, cs) => PushBounded(b, inputs, None, cs);
    case Opt(_, _) =>
    case Any(min, max) =>
      AnyTimes(b, min);
      PushBounded(b, Anys(min), None, true);
      var q := PushAnyTimes(b, min).value;
      if max.None? {
        EdgeFromBounded(q, q.state, ANY_INPUT, Some(q.state), true);
      }
    case OneOf(words, cs) =>
      if words != [] {
        var l := Longest(words);
        PushBounded(b, l, None, cs);
        var r := Push(b, l, cs).value;
        OthersBounded(r.(lastEdges := []), words, l, b.state, r.state, r.lastEdges, cs);
      }
    case Do(a) =>
      PrefixesBounded(b.(optionalPrefixes := []), b.optionalPrefixes);
      var f := PushOptionalPrefixes(b).value;
      ActionsBounded(f, a);
  }

  // Actions add no transitions.
  lemma {:induction false} ActionsKeep<A>(es: Edges<A>, last: seq<LastEdge>, a: A)
    requires AddActions(es, last, a).Some?
    ensures AddActions(es, last, a).value.Keys == es.Keys
    decreases |last|
  {
    if last != [] {
      var l := last[0];
      var e := AddAction(es, l.from, l.input, a);
      var e2 := if l.caseSensitive || OtherCase(l.input).None? then e
                else AddAction(e.value, l.from, OtherCase(l.input).value, a);
      assert e2.value.Keys == es.Keys;
      ActionsKeep(e2.value, last[1..], a);
    }
  }

  lemma ActionsBounded<A>(b: Builder<A>, a: A)
    requires Bounded(b) && AddActions(b.edges, b.lastEdges, a).Some?
    ensures Bounded(b.(edges := AddActions(b.edges, b.lastEdges, a).value))
  {
    hide AddActions;
    ActionsKeep(b.edges, b.lastEdges, a);
    var es := AddActions(b.edges, b.lastEdges, a).value;
    assert forall k <- es :: k in b.edges && es[k].to == b.edges[k].to;
  }

  lemma {:induction false} BuildBounded<A>(b: Builder<A>, ps: seq<Piece<A>>)
    requires Bounded(b) && Build(b, ps).Some?
    ensures StaysBounded(b, Build(b, ps).value)
    decreases |ps|
  {
    hide BuildPiece, Bounded;
    if ps != [] {
      var init := ps[..|ps| - 1];
      BuildBounded(b, init);
      PieceBounded(Build(b, init).value, ps[|ps| - 1]);
    }
  }

  lemma WalkFirst<A>(es: Edges<A>, s: nat, w: Word)
    requires w != []
    ensures Walk(es, s, w) == if (s, w[0]) in es then Walk(es, es[(s, w[0])].to, w[1..]) else None
  {
    assert w == [w[0]] + w[1..];
    WalkAppend(es, s, [w[0]], w[1..]);
    assert [w[0]][..0] == [];
    assert Walk(es, s, [w[0]]) == if (s, w[0]) in es then Some(es[(s, w[0])].to) else None;
  }

  // Inputs that may not be repeated lead where they led before, or else to a new state.
  lemma {:induction false} PrefixLeadsOn<A>(b: Builder<A>, source: nat, from: nat, inputs: Word)
    requires Bounded(b) && from < b.numStates && PushPrefixFrom(b, source, from, inputs, true, false).Some?
    ensures var end := PushPrefixFrom(b, source, from, inputs, true, false).value.1;
            match Walk(b.edges, from, inputs)
            case Some(t) => end == t
            case None => end >= b.numStates
    decreases |inputs|
  {
    if inputs != [] {
      var b1 := if |inputs| == 1 then b.(lastEdges := b.lastEdges + [LastEdge(from, inputs[0], true)]) else b;
      EdgeFromBounded(b1, from, inputs[0], None, true);
      var (b2, t) := PushEdgeFrom(b1, from, inputs[0], None, true).value;
      WalkFirst(b.edges, from, inputs);
      PrefixLeadsOn(b2, source, t, inputs[1..]);
      if (from, inputs[0]) in b.edges {
        assert b2.edges == b.edges;
      } else if inputs[1..] != [] {
        WalkFirst(b2.edges, t, inputs[1..]);
        assert (t, inputs[1]) !in b2.edges;
      }
    }
  }

  // One optional input behind a settled builder.
  lemma OptionalLeads<A>(b: Builder<A>, inputs: Word, repeat: bool, a: A)
    requires Settled(b) && Bounded(b) && With(PushOptional(b, inputs, repeat), a).Some?
    ensures var r := With(PushOptional(b, inputs, repeat), a).value;
            && r.state == b.state && Walk(r.edges, b.state, inputs).Some?
            && (Walk(r.edges, b.state, inputs) == Some(b.state) <==>
                  repeat || inputs == [] || Walk(b.edges, b.state, inputs) == Some(b.state))
  {
    hide AddActions, PushPrefixFrom;
    var q, p, s := PushOptional(b, inputs, repeat), OptionalPrefix(inputs, true, repeat), b.state;
    var b0 := q.(optionalPrefixes := []);
    assert b0 == b && q.optionalPrefixes == [p] && [p][1..] == [] && [s] + b.optionalStates == [s] && [s][1..] == [];
    var f := PushOptionalPrefixes(q).value;
    assert f.edges == PushPrefixFrom(b, s, s, inputs, true, repeat).value.0.edges by { OneSource(b, s, p); }
    PrefixFromLeads(b, s, s, inputs, true, repeat, inputs);
    WalkExtends(f.edges, With(q, a).value.edges, s, inputs);
    if !repeat {
      PrefixLeadsOn(b, s, s, inputs);
    }
  }

  lemma OneSource<A>(b: Builder<A>, s: nat, p: OptionalPrefix)
    requires PushPrefixes(b, [p]).Some? && [b.state] + b.optionalStates == [s]
    ensures var r := PushPrefixFrom(b, s, s, p.inputs, p.caseSensitive, p.repeat);
            r.Some? && PushPrefixes(b, [p]).value.edges == r.value.0.edges
  {
    hide PushPrefixFrom, PushPrefix;
    assert [p][1..] == [];
    var r := PushPrefix(b, [s], p);
    assert PushPrefixes(b, [p]) == PushPrefixes(r.value, []);
    assert PushPrefixes(r.value, []) == r;
    SourceOnce(b, s, p);
  }

  lemma SourceOnce<A>(b: Builder<A>, s: nat, p: OptionalPrefix)
    requires PushPrefix(b, [s], p).Some?
    ensures var r := PushPrefixFrom(b, s, s, p.inputs, p.caseSensitive, p.repeat);
            r.Some? && PushPrefix(b, [s], p).value.edges == r.value.0.edges
  {
    hide PushPrefixFrom;
    assert [s][1..] == [];
    var (b1, end) := PushPrefixFrom(b, s, s, p.inputs, p.caseSensitive, p.repeat).value;
    var b2 := if !p.repeat && end != b1.state && end !in b1.optionalStates
              then b1.(optionalStates := b1.optionalStates + [end]) else b1;
    assert PushPrefix(b2, [], p) == Some(b2);
  }

  // Where a pattern ends with an optional input that was built, its state is the one behind
  // that input if and only if the input may be repeated, or is empty, or led back to the state
  // before.
  lemma TrailingOptional<A>(numStates: nat, es: Edges<A>, anchor: nat, ps: seq<Piece<A>>, picks: seq<seq<Word>>,
                            inputs: Word, repeat: bool, a: A, es': Edges<A>)
    requires var b := StartPattern(numStates, es, anchor);
             && Bounded(b) && WellFormed(ps) && AllPicked(ps, picks) && !Unbuilt(ps) && !Skips(ps)
             && Build(b, ps + [Opt(inputs, repeat), Do(a)]).Some?
             && Extends(Build(b, ps + [Opt(inputs, repeat), Do(a)]).value.edges, es')
    ensures Build(StartPattern(numStates, es, anchor), ps).Some?
    ensures var b := StartPattern(numStates, es, anchor);
            var q, r := Build(b, ps).value, Build(b, ps + [Opt(inputs, repeat), Do(a)]).value;
            && Walk(es', anchor, Read(picks)) == Some(r.state)
            && (Walk(es', anchor, Read(picks) + inputs) == Some(r.state) <==>
                  repeat || inputs == [] || Walk(q.edges, q.state, inputs) == Some(q.state))
  {
    hide Build, BuildPiece, Extends, WellFormed, Skips, Unbuilt, Bounded, AllPicked;
    var b, o, d := StartPattern(numStates, es, anchor), Opt(inputs, repeat), Do(a);
    assert ps + [o, d] == ps + [o] + [d];
    BuildMore(b, ps + [o], d);
    BuildMore(b, ps, o);
    BuildBounded(b, ps);
    BuildLoops(b, ps);
    var q := Build(b, ps).value;
    PieceIs(q, inputs, repeat, a);
    OptionalLeads(q, inputs, repeat, a);
    var r := With(PushOptional(q, inputs, repeat), a).value;
    ExtendsBoth(PushOptional(q, inputs, repeat).edges, r.edges, es');
    PatternMatches(numStates, es, anchor, ps, picks, es');
    WalkExtends(r.edges, es', q.state, inputs);
    WalkAppend(es', anchor, Read(picks), inputs);
  }

  lemma PieceIs<A>(q: Builder<A>, inputs: Word, repeat: bool, a: A)
    ensures BuildPiece(q, Opt(inputs, repeat)) == Some(PushOptional(q, inputs, repeat))
    ensures BuildPiece(PushOptional(q, inputs, repeat), Do(a)) == With(PushOptional(q, inputs, repeat), a)
  {}

  lemma ExtendsBoth<A>(es: Edges<A>, es1: Edges<A>, es2: Edges<A>)
    requires Extends(es, es1) && Extends(es1, es2)
    ensures Extends(es, es2)
  {}

  // For one, the pattern of "a" and an optional "b" is in the state of "a", while "ab" leads to
  // another one.
  lemma SkippedEndsElsewhere<A>(a: A)
    ensures var r := Build(StartPattern(2, map[], INIT_STATE), [Lit([0x61], true), Opt([0x62], false), Do(a)]);
            && r.Some? && r.value.state == 2
            && Walk(r.value.edges, INIT_STATE, [0x61]) == Some(2)
            && Walk(r.value.edges, INIT_STATE, [0x61, 0x62]) == Some(3)
  {
    hide PushTo, With;
    var b := StartPattern<A>(2, map[], INIT_STATE);
    var l, o, d: Piece<A> := Lit([0x61], true), Opt([0x62], false), Do(a);
    var b1 := SkippedStart(b);
    BuildMore(b, [], l);
    BuildMore(b, [l], o);
    BuildMore(b, [l, o], d);
    assert [] + [l] == [l] && [l] + [o] == [l, o] && [l, o] + [d] == [l, o, d];
    var b2 := b1.(optionalPrefixes := [OptionalPrefix([0x62], true, false)]);
    assert b1.optionalPrefixes + [OptionalPrefix([0x62], true, false)] == b2.optionalPrefixes;
    SkippedFlush(b2, a);
    var es := With(b2, a).value.edges;
    assert [0x61, 0x62][..1] == [0x61] && [0x61][..0] == [];
    assert Walk(es, INIT_STATE, []) == Some(INIT_STATE);
    assert Walk(es, INIT_STATE, [0x61]) == Some(2);
  }

  lemma BuildMore<A>(b: Builder<A>, ps: seq<Piece<A>>, p: Piece<A>)
    ensures Build(b, ps + [p]) == if Build(b, ps).None? then None else BuildPiece(Build(b, ps).value, p)
  {
    hide BuildPiece;
    assert (ps + [p])[..|ps|] == ps;
  }

  lemma SkippedStart<A>(b: Builder<A>) returns (b1: Builder<A>)
    requires b == StartPattern(2, map[], INIT_STATE)
    ensures Push(b, [0x61], true) == Some(b1)
    ensures b1 == b.(numStates := 3, edges := map[(0, 0x61) := Edge(2, None)], state := 2,
                        lastEdges := [LastEdge(0, 0x61, true)])
  {
    b1 := b.(numStates := 3, edges := map[(0, 0x61) := Edge(2, None)], state := 2,
             lastEdges := [LastEdge(0, 0x61, true)]);
    assert PushOptionalPrefixes(b) == Some(b);
    assert [0x61][1..] == [];
    var f := PushEdgeFrom(b, 0, 0x61, None, true);
    assert f == Some((b.(numStates := 3, edges := map[(0, 0x61) := Edge(2, None)]), 2));
    var c := f.value.0.(lastEdges := [LastEdge(0, 0x61, true)], optionalStates := []);
    assert JoinStates(c, [], 0x61, 2, true) == Some(c);
    assert PushEdge(b, 0x61, None, true) == Some(b1);
    assert PushTo(b1, [0x61][1..], None, true) == Some(b1);
  }

  lemma SkippedFlush<A>(b: Builder<A>, a: A)
    requires b.numStates == 3 && b.state == 2 && b.edges == map[(0, 0x61) := Edge(2, None)]
    requires b.lastEdges == [LastEdge(0, 0x61, true)] && b.optionalStates == []
    requires b.optionalPrefixes == [OptionalPrefix([0x62], true, false)]
    ensures With(b, a).Some? && With(b, a).value.state == 2
    ensures With(b, a).value.edges == map[(0, 0x61) := Edge(2, Some(a)), (2, 0x62) := Edge(3, Some(a))]
  {
    var p := OptionalPrefix([0x62], true, false);
    var b0 := b.(optionalPrefixes := []);
    var l0, l1 := LastEdge(0, 0x61, true), LastEdge(2, 0x62, true);
    assert [0x62][1..] == [] && [2][1..] == [] && [p][1..] == [] && [2] + b0.optionalStates == [2];
    var b1 := b0.(numStates := 4, edges := b.edges[(2, 0x62) := Edge(3, None)], lastEdges := [l0, l1]);
    assert b0.lastEdges + [l1] == [l0, l1];
    assert PushPrefixFrom(b1, 2, 3, [0x62][1..], true, false) == Some((b1, 3));
    assert PushPrefixFrom(b0, 2, 2, [0x62], true, false) == Some((b1, 3));
    var b2 := b1.(optionalStates := [3]);
    assert b1.optionalStates + [3] == [3];
    assert PushPrefix(b2, [2][1..], p) == Some(b2);
    assert PushPrefix(b0, [2], p) == Some(b2);
    assert PushPrefixes(b2, [p][1..]) == Some(b2);
    assert PushOptionalPrefixes(b) == Some(b2);
    assert [l0, l1][1..] == [l1] && [l1][1..] == [];
    var e1 := b2.edges[(0, 0x61) := Edge(2, Some(a))];
    var e2 := e1[(2, 0x62) := Edge(3, Some(a))];
    assert AddActions(e2, [l1][1..], a) == Some(e2);
    assert AddActions(e1, [l0, l1][1..], a) == Some(e2);
  }

  // An action is on the last transition of every word of the pattern it was attached to, and
  // stays there whatever patterns are added later.
  lemma ActionAttached<A>(numStates: nat, es: Edges<A>, anchor: nat, ps: seq<Piece<A>>, a: A, picks: seq<seq<Word>>,
                          es': Edges<A>)
    requires var b := StartPattern(numStates, es, anchor);
             Build(b, ps + [Do(a)]).Some? && WellFormed(ps) && AllPicked(ps, picks) && Read(picks) != []
             && Extends(Build(b, ps + [Do(a)]).value.edges, es')
    ensures var w := Read(picks);
            && Walk(es', anchor, w).Some? && Walk(es', anchor, w[..|w| - 1]).Some?
            && es'[(Walk(es', anchor, w[..|w| - 1]).value, w[|w| - 1])].action == Some(a)
  {
    hide Build, WellFormed, AllPicked, PushOptionalPrefixes, Walk;
    var b := StartPattern(numStates, es, anchor);
    BuildMore(b, ps, Do(a));
    var q, w := Build(b, ps).value, Read(picks);
    var r := With(q, a).value;
    var t := FlushedLeads(b, ps, picks);
    ActionOnLast(q, a, anchor, w, t, es');
  }

  lemma FlushedLeads<A>(b: Builder<A>, ps: seq<Piece<A>>, picks: seq<seq<Word>>) returns (t: nat)
    requires Build(b, ps).Some? && PushOptionalPrefixes(Build(b, ps).value).Some?
    requires WellFormed(ps) && AllPicked(ps, picks) && Settled(b)
    ensures Leads(PushOptionalPrefixes(Build(b, ps).value).value, b.state, Read(picks), t)
  {
    var q := Build(b, ps).value;
    var w, o, u, wss := BuildReaches(b, ps, picks);
    t := FlushReaches(q, b.state, w, o, u, wss);
    LeadsAppend(PushOptionalPrefixes(q).value, b.state, w, q.state, o + FlatAll(wss), t);
    Regroup(w, o, FlatAll(wss), []);
  }

  lemma ActionOnLast<A>(b: Builder<A>, a: A, s: nat, w: Word, t: nat, es: Edges<A>)
    requires With(b, a).Some? && Leads(PushOptionalPrefixes(b).value, s, w, t) && w != []
    requires Extends(With(b, a).value.edges, es)
    ensures Walk(es, s, w) == Some(t) && Walk(es, s, w[..|w| - 1]).Some?
    ensures es[(Walk(es, s, w[..|w| - 1]).value, w[|w| - 1])].action == Some(a)
  {
    var f, r := PushOptionalPrefixes(b).value, With(b, a).value.edges;
    WalkExtends(f.edges, r, s, w);
    WalkExtends(f.edges, r, s, w[..|w| - 1]);
    WalkExtends(r, es, s, w);
    WalkExtends(r, es, s, w[..|w| - 1]);
  }
}
