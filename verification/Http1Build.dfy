// How the patterns of http1/parser.rs build the DFA of module Http1Layout.
module Http1Build {
  import opened Base
  import opened Dfa
  import opened Http1Action
  import opened Http1Layout

  type B = Builder<Action>

  // --- Steps of a builder ---

  // An edge that is not there yet takes a state id, whether it needs one or not.
  lemma Fresh(b: B, from: nat, input: nat, to: Option<nat>, cs: bool)
    requires (from, input) !in b.edges && (cs || OtherCase(input).None?)
    ensures PushEdgeFrom(b, from, input, to, cs) ==
            if b.numStates + 1 >= U16 then None
            else
              var t := if to.Some? then to.value else b.numStates;
              Some((b.(numStates := b.numStates + 1, edges := b.edges[(from, input) := Edge(t, None)]), t))
  {}

  // A prefix of one input is one edge.
  lemma OneInput(b: B, s: nat, x: nat, repeat: bool)
    ensures PushPrefixFrom(b, s, s, [x], true, repeat) ==
            PushEdgeFrom(b.(lastEdges := b.lastEdges + [LastEdge(s, x, true)]), s, x,
                         if repeat then Some(s) else None, true)
  {
    hide PushEdgeFrom;
    assert [x][1..] == [];
    var r := PushEdgeFrom(b.(lastEdges := b.lastEdges + [LastEdge(s, x, true)]), s, x,
                          if repeat then Some(s) else None, true);
    assert r.Some? ==> PushPrefixFrom(r.value.0, s, r.value.1, [x][1..], true, repeat) == r;
  }

  // A prefix from a single state.
  lemma OnePrefix(b: B, s: nat, p: OptionalPrefix, b1: B, end: nat, b2: B)
    requires PushPrefixFrom(b, s, s, p.inputs, p.caseSensitive, p.repeat) == Some((b1, end))
    requires b2 == if !p.repeat && end != b1.state && end !in b1.optionalStates
                   then b1.(optionalStates := b1.optionalStates + [end]) else b1
    ensures PushPrefix(b, [s], p) == Some(b2)
  {
    hide PushPrefixFrom;
    assert [s][1..] == [];
    assert PushPrefix(b2, [s][1..], p) == Some(b2);
  }

  // An optional input that may be repeated loops.
  lemma Repeated(b: B, s: nat, x: nat)
    requires (s, x) !in b.edges && b.numStates + 1 < U16
    ensures PushPrefix(b, [s], OptionalPrefix([x], true, true)) ==
            Some(b.(numStates := b.numStates + 1, edges := b.edges[(s, x) := Edge(s, None)],
                    lastEdges := b.lastEdges + [LastEdge(s, x, true)]))
  {
    hide PushPrefix, PushPrefixFrom, PushEdgeFrom;
    var b1 := b.(lastEdges := b.lastEdges + [LastEdge(s, x, true)]);
    Fresh(b1, s, x, Some(s), true);
    OneInput(b, s, x, true);
    var b2 := b1.(numStates := b.numStates + 1, edges := b.edges[(s, x) := Edge(s, None)]);
    OnePrefix(b, s, OptionalPrefix([x], true, true), b2, s, b2);
  }

  // One that may not leads to a state of its own.
  lemma Skipped(b: B, s: nat, x: nat)
    requires (s, x) !in b.edges && b.numStates + 1 < U16 && b.state == s < b.numStates && b.optionalStates == []
    ensures PushPrefix(b, [s], OptionalPrefix([x], true, false)) ==
            Some(b.(numStates := b.numStates + 1, edges := b.edges[(s, x) := Edge(b.numStates, None)],
                    lastEdges := b.lastEdges + [LastEdge(s, x, true)], optionalStates := [b.numStates]))
  {
    hide PushPrefix, PushPrefixFrom, PushEdgeFrom;
    var n := b.numStates;
    var b1 := b.(lastEdges := b.lastEdges + [LastEdge(s, x, true)]);
    Fresh(b1, s, x, None, true);
    OneInput(b, s, x, false);
    var b2 := b1.(numStates := n + 1, edges := b.edges[(s, x) := Edge(n, None)]);
    assert b2.optionalStates + [n] == [n];
    OnePrefix(b, s, OptionalPrefix([x], true, false), b2, n, b2.(optionalStates := [n]));
  }

  // The two optional blanks of a header pattern.
  const BLANKS: seq<OptionalPrefix> :=
    [OptionalPrefix([TAB as nat], true, true), OptionalPrefix([SP as nat], true, true)]

  lemma FlushBlanks(b: B)
    requires b.optionalPrefixes == BLANKS && b.optionalStates == []
    requires (b.state, TAB as nat) !in b.edges && (b.state, SP as nat) !in b.edges && b.numStates + 2 < U16
    ensures var s := b.state;
            PushOptionalPrefixes(b) ==
            Some(b.(numStates := b.numStates + 2,
                    edges := b.edges[(s, TAB as nat) := Edge(s, None)][(s, SP as nat) := Edge(s, None)],
                    lastEdges := b.lastEdges + [LastEdge(s, TAB, true), LastEdge(s, SP, true)], optionalPrefixes := []))
  {
    hide PushPrefix;
    var s := b.state;
    var b0 := b.(optionalPrefixes := []);
    Repeated(b0, s, TAB);
    var b1 := PushPrefix(b0, [s], BLANKS[0]).value;
    Repeated(b1, s, SP);
    var b2 := PushPrefix(b1, [s], BLANKS[1]).value;
    assert [s] + b0.optionalStates == [s] && [s] + b1.optionalStates == [s];
    assert BLANKS[1..][1..] == [] && BLANKS[1..][0] == BLANKS[1];
    assert PushPrefixes(b2, BLANKS[1..][1..]) == Some(b2);
    assert PushPrefixes(b1, BLANKS[1..]) == Some(b2);
    assert b.lastEdges + [LastEdge(s, TAB, true)] + [LastEdge(s, SP, true)] ==
           b.lastEdges + [LastEdge(s, TAB, true), LastEdge(s, SP, true)];
  }

  const OPTIONAL_CR: seq<OptionalPrefix> := [OptionalPrefix([CR as nat], true, false)]

  lemma FlushCr(b: B)
    requires b.optionalPrefixes == OPTIONAL_CR && b.optionalStates == []
    requires (b.state, CR as nat) !in b.edges && b.numStates + 1 < U16 && b.state < b.numStates
    ensures var s, n := b.state, b.numStates;
            PushOptionalPrefixes(b) ==
            Some(b.(numStates := n + 1, edges := b.edges[(s, CR as nat) := Edge(n, None)],
                    lastEdges := b.lastEdges + [LastEdge(s, CR, true)], optionalPrefixes := [], optionalStates := [n]))
  {
    hide PushPrefix;
    var s := b.state;
    var b0 := b.(optionalPrefixes := []);
    Skipped(b0, s, CR);
    var b1 := PushPrefix(b0, [s], OPTIONAL_CR[0]).value;
    assert [s] + b0.optionalStates == [s] && OPTIONAL_CR[1..] == [];
    assert PushPrefixes(b1, OPTIONAL_CR[1..]) == Some(b1);
  }

  lemma PushOne(b: B, x: nat, to: Option<nat>, cs: bool)
    ensures PushTo(b, [x], to, cs) == PushEdge(b, x, to, cs)
  {
    hide PushEdge;
    assert [x][1..] == [];
    var r := PushEdge(b, x, to, cs);
    assert r.Some? ==> PushTo(r.value, [x][1..], to, cs) == r;
  }

  // An edge behind optional inputs that loop, or behind none.
  lemma EdgeBehind(b: B, f: B, x: nat, to: Option<nat>, cs: bool)
    requires PushOptionalPrefixes(b) == Some(f) && f.optionalStates == []
    ensures var r := PushEdgeFrom(f, f.state, x, to, cs);
            PushEdge(b, x, to, cs) == if r.None? then None
            else Some(r.value.0.(lastEdges := [LastEdge(f.state, x, cs)], state := r.value.1))
  {
    hide PushOptionalPrefixes, PushEdgeFrom;
    var r := PushEdgeFrom(f, f.state, x, to, cs);
    if r.Some? {
      var b1 := r.value.0.(lastEdges := [LastEdge(f.state, x, cs)], optionalStates := []);
      assert r.value.0.optionalStates == [];
      assert JoinStates(b1, [], x, r.value.1, cs) == Some(b1);
    }
  }

  // An edge behind an optional input that leads to `q`. The edge may be there already.
  lemma EdgeBehindOne(b: B, f: B, q: nat, x: nat, to: Option<nat>, cs: bool, g: B, t: nat)
    requires PushOptionalPrefixes(b) == Some(f) && f.optionalStates == [q]
    requires PushEdgeFrom(f, f.state, x, to, cs) == Some((g, t))
    requires (q, x) !in g.edges && (cs || OtherCase(x).None?) && g.numStates + 1 < U16
    ensures PushEdge(b, x, to, cs) ==
            Some(g.(numStates := g.numStates + 1, edges := g.edges[(q, x) := Edge(t, None)],
                    lastEdges := [LastEdge(f.state, x, cs), LastEdge(q, x, cs)], optionalStates := [], state := t))
  {
    hide PushOptionalPrefixes, PushEdgeFrom;
    var b1 := g.(lastEdges := [LastEdge(f.state, x, cs)], optionalStates := []);
    Fresh(b1, q, x, Some(t), cs);
    var b2 := PushEdgeFrom(b1, q, x, Some(t), cs).value.0;
    var b3 := b2.(lastEdges := b2.lastEdges + [LastEdge(q, x, cs)]);
    assert [q][1..] == [] && g.optionalStates == [q];
    assert JoinStates(b3, [q][1..], x, t, cs) == Some(b3);
    assert JoinStates(b1, [q], x, t, cs) == Some(b3);
    assert b3.lastEdges == [LastEdge(f.state, x, cs), LastEdge(q, x, cs)];
    assert PushEdge(b, x, to, cs) == Some(b3.(state := t));
  }

  // An edge that is there already.
  lemma Known(b: B, from: nat, input: nat, to: Option<nat>, cs: bool)
    requires (from, input) in b.edges && (cs || OtherCase(input).None?)
    requires to.Some? ==> to.value == b.edges[(from, input)].to
    ensures PushEdgeFrom(b, from, input, to, cs) == Some((b, b.edges[(from, input)].to))
  {}

  // An action on an edge that carries none.
  lemma OneAction(es: Es, l: LastEdge, rest: seq<LastEdge>, a: Action)
    requires (l.from, l.input) in es && es[(l.from, l.input)].action.None?
    requires (l.caseSensitive || OtherCase(l.input).None?)
    ensures AddActions(es, [l] + rest, a) ==
            AddActions(es[(l.from, l.input) := Edge(es[(l.from, l.input)].to, Some(a))], rest, a)
  {
    assert ([l] + rest)[1..] == rest;
  }

  lemma WithBehind(b: B, f: B, a: Action)
    requires PushOptionalPrefixes(b) == Some(f)
    ensures var e := AddActions(f.edges, f.lastEdges, a);
            With(b, a) == if e.None? then None else Some(f.(edges := e.value))
  {
    hide PushOptionalPrefixes, AddActions;
  }

  lemma NoPrefixes(b: B)
    requires b.optionalPrefixes == []
    ensures PushOptionalPrefixes(b) == Some(b)
  {}

  // --- The pattern of a header behind its name ---

  function PushBlanks(b: B): B {
    PushOptional(PushOptional(b, [TAB as nat], true), [SP as nat], true)
  }

  // The end of a line, which begins the next one.
  function EndLine(b: B): Option<B> {
    RestartWith(PushOptional(b, [CR as nat], false), [LF as nat])
  }

  // What `capture_new_hdr` pushes in the state of a whole name: the blanks and the colon, the
  // value, and the end of the line behind the value and behind an empty one.
  function PushHeader(b: B, mid: byte): Option<B> {
    var b1 := Push(PushBlanks(b), [COLON as nat], false);
    if b1.None? then None
    else
      var b2 := With(PushBlanks(b1.value), StartCapture(mid));
      if b2.None? then None
      else
        var b3 := PushAny(b2.value, 1, None);
        if b3.None? then None
        else
          var b4 := With(b3.value, EndCapture(mid));
          if b4.None? then None
          else
            var b5 := EndLine(b4.value);
            if b5.None? then None
            else EndLine(StartPattern(b5.value.numStates, b5.value.edges, b2.value.state))
  }

  lemma BlanksPushed(b: B)
    requires b.optionalPrefixes == []
    ensures PushBlanks(b) == b.(optionalPrefixes := BLANKS)
  {
    assert [] + [BLANKS[0]] + [BLANKS[1]] == BLANKS;
  }

  lemma ColonPushed(b: B)
    requires b.optionalPrefixes == [] && b.optionalStates == [] && b.numStates + 3 < U16
    requires forall x: nat {:trigger (b.state, x)} :: x == TAB || x == SP || x == COLON ==> (b.state, x) !in b.edges
    ensures var s, n := b.state, b.numStates;
            Push(b.(optionalPrefixes := BLANKS), [COLON as nat], false) ==
            Some(b.(numStates := n + 3, state := n + 2, lastEdges := [LastEdge(s, COLON, false)],
                    edges := b.edges[(s, TAB as nat) := Edge(s, None)][(s, SP as nat) := Edge(s, None)]
                                    [(s, COLON as nat) := Edge(n + 2, None)]))
  {
    hide PushEdge, PushOptionalPrefixes, PushEdgeFrom;
    var b1 := b.(optionalPrefixes := BLANKS);
    FlushBlanks(b1);
    var f := PushOptionalPrefixes(b1).value;
    PushOne(b1, COLON, None, false);
    EdgeBehind(b1, f, COLON, None, false);
    Fresh(f, f.state, COLON, None, false);
  }

  // The capture begins behind the colon and behind every blank that follows it.
  lemma ValueStarted(b: B, s: nat, mid: byte)
    requires b.optionalPrefixes == BLANKS && b.optionalStates == [] && b.numStates + 2 < U16
    requires b.lastEdges == [LastEdge(s, COLON, false)] && s != b.state
    requires (s, COLON as nat) in b.edges && b.edges[(s, COLON as nat)] == Edge(b.state, None)
    requires (b.state, TAB as nat) !in b.edges && (b.state, SP as nat) !in b.edges
    ensures var v, a := b.state, Edge(b.state, Some(StartCapture(mid)));
            var r := With(b, StartCapture(mid));
            && r.Some?
            && r.value == b.(numStates := b.numStates + 2, edges := r.value.edges,
                               lastEdges := r.value.lastEdges, optionalPrefixes := [])
            && r.value.edges == b.edges[(s, COLON as nat) := a][(v, TAB as nat) := a][(v, SP as nat) := a]
  {
    hide PushOptionalPrefixes, AddActions;
    var v, a := b.state, StartCapture(mid);
    FlushBlanks(b);
    var f := PushOptionalPrefixes(b).value;
    WithBehind(b, f, a);
    var l0, l1, l2 := LastEdge(s, COLON, false), LastEdge(v, TAB, true), LastEdge(v, SP, true);
    assert f.lastEdges == [l0] + [l1, l2] && [l1, l2] == [l1] + [l2] && [l2] == [l2] + [];
    OneAction(f.edges, l0, [l1, l2], a);
    var e0 := f.edges[(s, COLON as nat) := Edge(v, Some(a))];
    OneAction(e0, l1, [l2], a);
    var e1 := e0[(v, TAB as nat) := Edge(v, Some(a))];
    OneAction(e1, l2, [], a);
    NoActions(e1[(v, SP as nat) := Edge(v, Some(a))], a);
  }

  lemma NoActions(es: Es, a: Action)
    ensures AddActions(es, [], a) == Some(es)
  {}

  // The value goes on with any byte.
  lemma ValuePushed(b: B)
    requires b.optionalPrefixes == [] && b.optionalStates == [] && b.numStates + 2 < U16 && b.state < b.numStates
    requires forall s: nat :: s == b.state || s == b.numStates ==> (s, ANY_INPUT) !in b.edges
    ensures var v, w := b.state, b.numStates;
            PushAny(b, 1, None) ==
            Some(b.(numStates := w + 2, state := w,
                    lastEdges := [LastEdge(v, ANY_INPUT, true), LastEdge(w, ANY_INPUT, true)],
                    edges := b.edges[(v, ANY_INPUT) := Edge(w, None)][(w, ANY_INPUT) := Edge(w, None)]))
  {
    hide PushEdge, PushOptionalPrefixes, PushEdgeFrom;
    var v, w := b.state, b.numStates;
    NoPrefixes(b);
    EdgeBehind(b, b, ANY_INPUT, None, true);
    Fresh(b, v, ANY_INPUT, None, true);
    var b1 := PushEdge(b, ANY_INPUT, None, true).value;
    assert PushAnyTimes(b1, 0) == Some(b1);
    assert PushAnyTimes(b, 1) == Some(b1);
    Fresh(b1, w, ANY_INPUT, Some(w), true);
    assert b1.lastEdges + [LastEdge(w, ANY_INPUT, true)] ==
           [LastEdge(v, ANY_INPUT, true), LastEdge(w, ANY_INPUT, true)];
  }

  // Every byte of it ends the capture.
  lemma ValueEnds(b: B, v: nat, w: nat, mid: byte)
    requires b.optionalPrefixes == [] && v != w
    requires b.lastEdges == [LastEdge(v, ANY_INPUT, true), LastEdge(w, ANY_INPUT, true)]
    requires forall s: nat {:trigger (s, ANY_INPUT)} :: s == v || s == w ==>
          (s, ANY_INPUT) in b.edges && b.edges[(s, ANY_INPUT)] == Edge(w, None)
    ensures var a := Edge(w, Some(EndCapture(mid)));
            With(b, EndCapture(mid)) == Some(b.(edges := b.edges[(v, ANY_INPUT) := a][(w, ANY_INPUT) := a]))
  {
    hide PushOptionalPrefixes, AddActions;
    var a := EndCapture(mid);
    NoPrefixes(b);
    WithBehind(b, b, a);
    var l0, l1 := LastEdge(v, ANY_INPUT, true), LastEdge(w, ANY_INPUT, true);
    assert b.lastEdges == [l0] + [l1] && [l1] == [l1] + [];
    OneAction(b.edges, l0, [l1], a);
    var e0 := b.edges[(v, ANY_INPUT) := Edge(w, Some(a))];
    OneAction(e0, l1, [], a);
    NoActions(e0[(w, ANY_INPUT) := Edge(w, Some(a))], a);
  }

  // The end of the line leads to the state that a line begins in.
  lemma LineEnded(b: B, l: nat)
    requires b.optionalPrefixes == OPTIONAL_CR && b.optionalStates == [] && b.numStates + 3 < U16
    requires 2 <= b.state < b.numStates
    requires (ANY_STATE, LF as nat) in b.edges && b.edges[(ANY_STATE, LF as nat)] == Edge(l, None)
    requires forall x: nat {:trigger (b.state, x)} :: x == CR || x == LF ==> (b.state, x) !in b.edges
    requires (b.numStates, LF as nat) !in b.edges
    ensures var s, n := b.state, b.numStates;
            var r := RestartWith(b, [LF as nat]);
            && r.Some? && r.value.numStates == n + 3
            && r.value.edges == b.edges[(s, CR as nat) := Edge(n, None)]
                                         [(s, LF as nat) := Edge(l, None)][(n, LF as nat) := Edge(l, None)]
  {
    hide PushEdge, PushOptionalPrefixes, PushEdgeFrom;
    var s, n := b.state, b.numStates;
    RestartKnown(b, l);
    FlushCr(b);
    var f := PushOptionalPrefixes(b).value;
    PushOne(b, LF, Some(l), false);
    Fresh(f, s, LF, Some(l), false);
    var g := PushEdgeFrom(f, s, LF, Some(l), false).value.0;
    EdgeBehindOne(b, f, n, LF, Some(l), false, g, l);
  }

  lemma RestartKnown(b: B, l: nat)
    requires (ANY_STATE, LF as nat) in b.edges && b.edges[(ANY_STATE, LF as nat)] == Edge(l, None)
    ensures RestartWith(b, [LF as nat]) == PushTo(b, [LF as nat], Some(l), false)
  {
    hide PushTo, PushEdgeFrom;
    Known(b, ANY_STATE, LF, Some(l), false);
    assert [LF as nat][1..] == [];
    assert RestartPath(b, l, [LF as nat][1..]) == Some((b, l));
    assert RestartPath(b, ANY_STATE, [LF as nat]) == Some((b, l));
  }

  // The edges a header adds in the state `s`, where `n` is the next id: up to the value,
  function ColonEdges(es: Es, s: nat, n: nat, mid: byte): Es {
    var v := n + 2;
    var start := Edge(v, Some(StartCapture(mid)));
    var e := es[(s, TAB as nat) := Edge(s, None)][(s, SP as nat) := Edge(s, None)][(s, COLON as nat) := Edge(v, None)];
    e[(s, COLON as nat) := start][(v, TAB as nat) := start][(v, SP as nat) := start]
  }

  // within it,
  function ValueEdges(es: Es, v: nat, w: nat, mid: byte): Es {
    var end := Edge(w, Some(EndCapture(mid)));
    es[(v, ANY_INPUT) := Edge(w, None)][(w, ANY_INPUT) := Edge(w, None)][(v, ANY_INPUT) := end][(w, ANY_INPUT) := end]
  }

  // and from `s` to the next line, which begins in `l`.
  function LineEdges(es: Es, s: nat, cr: nat, l: nat): Es {
    es[(s, CR as nat) := Edge(cr, None)][(s, LF as nat) := Edge(l, None)][(cr, LF as nat) := Edge(l, None)]
  }

  function HeaderEdges(es: Es, l: nat, s: nat, n: nat, mid: byte): Es {
    LineEdges(LineEdges(ValueEdges(ColonEdges(es, s, n, mid), n + 2, n + 5, mid), n + 5, n + 7, l), n + 2, n + 10, l)
  }

  // A line is ended behind a builder that expects no more.
  lemma LineEnds(b: B, l: nat)
    requires b.optionalPrefixes == [] && b.optionalStates == [] && b.numStates + 3 < U16 && 2 <= b.state < b.numStates
    requires (ANY_STATE, LF as nat) in b.edges && b.edges[(ANY_STATE, LF as nat)] == Edge(l, None)
    requires forall x: nat {:trigger (b.state, x)} :: x == CR || x == LF ==> (b.state, x) !in b.edges
    requires (b.numStates, LF as nat) !in b.edges
    ensures var s, n := b.state, b.numStates;
            var r := EndLine(b);
            && r.Some? && r.value.numStates == n + 3
            && r.value.edges == LineEdges(b.edges, s, n, l)
  {
    hide RestartWith;
    assert [] + [OPTIONAL_CR[0]] == OPTIONAL_CR;
    LineEnded(b.(optionalPrefixes := OPTIONAL_CR), l);
  }

  // No state from `n` on has any edge.
  ghost predicate Clear(es: Es, n: nat) {
    forall k: nat, x: nat {:trigger (k, x)} :: k >= n ==> (k, x) !in es
  }

  // Whether the pattern of a header can go on with `es`: lines begin in `l`.
  ghost predicate Lines(es: Es, l: nat) {
    (ANY_STATE, LF as nat) in es && es[(ANY_STATE, LF as nat)] == Edge(l, None)
  }

  lemma ColonStage(b: B, l: nat, mid: byte)
    requires b.optionalPrefixes == [] && b.optionalStates == [] && b.numStates + 5 < U16 && 2 <= b.state < b.numStates
    requires Lines(b.edges, l) && Clear(b.edges, b.numStates)
    requires forall x: nat {:trigger (b.state, x)} :: x == TAB || x == SP || x == COLON ==> (b.state, x) !in b.edges
    ensures var s, n := b.state, b.numStates;
            && Push(PushBlanks(b), [COLON as nat], false).Some?
            && var r := With(PushBlanks(Push(PushBlanks(b), [COLON as nat], false).value), StartCapture(mid));
            && r.Some?
            && r.value == StartPattern(n + 5, ColonEdges(b.edges, s, n, mid), n + 2).(lastEdges := r.value.lastEdges)
  {
    hide Push, With, PushBlanks;
    BlanksPushed(b);
    ColonPushed(b);
    var b1 := Push(PushBlanks(b), [COLON as nat], false).value;
    BlanksPushed(b1);
    ValueStarted(PushBlanks(b1), b.state, mid);
  }

  // Behind the colon, only blanks are read so far.
  lemma ColonKeys(es: Es, l: nat, s: nat, n: nat, mid: byte)
    requires Lines(es, l) && Clear(es, n) && 2 <= s < n
    ensures var e := ColonEdges(es, s, n, mid);
            && Lines(e, l) && Clear(e, n + 5)
            && (n + 2, CR as nat) !in e && (n + 2, LF as nat) !in e && (n + 2, ANY_INPUT) !in e
  {}

  lemma ValueStage(b: B, l: nat, mid: byte)
    requires b.optionalPrefixes == [] && b.optionalStates == [] && b.numStates + 2 < U16 && 2 <= b.state < b.numStates
    requires Lines(b.edges, l) && Clear(b.edges, b.numStates) && (b.state, ANY_INPUT) !in b.edges
    ensures var v, w := b.state, b.numStates;
            && PushAny(b, 1, None).Some?
            && var r := With(PushAny(b, 1, None).value, EndCapture(mid));
            && r.Some?
            && r.value == StartPattern(w + 2, ValueEdges(b.edges, v, w, mid), w).(lastEdges := r.value.lastEdges)
  {
    hide With, PushAny;
    ValuePushed(b);
    ValueEnds(PushAny(b, 1, None).value, b.state, b.numStates, mid);
  }

  lemma ValueKeys(es: Es, l: nat, v: nat, w: nat, mid: byte)
    requires Lines(es, l) && Clear(es, w) && 2 <= v < w
    requires (v, CR as nat) !in es && (v, LF as nat) !in es
    ensures var e := ValueEdges(es, v, w, mid);
            && Lines(e, l) && Clear(e, w + 2)
            && forall s: nat, x: nat {:trigger (s, x)} :: (s == v || s == w) && (x == CR || x == LF) ==> (s, x) !in e
  {}

  lemma LineKeys(es: Es, l: nat, s: nat, cr: nat)
    requires Lines(es, l) && Clear(es, cr) && 2 <= s < cr
    ensures var e := LineEdges(es, s, cr, l);
            && Lines(e, l) && Clear(e, cr + 3)
            && forall k: nat, x: nat {:trigger (k, x)} :: k != s && k != cr ==> ((k, x) in e <==> (k, x) in es)
  {}

  lemma HeaderPushed(b: B, l: nat, mid: byte)
    requires b.optionalPrefixes == [] && b.optionalStates == [] && b.numStates + 13 < U16 && 2 <= b.state < b.numStates
    requires Lines(b.edges, l) && Clear(b.edges, b.numStates)
    requires forall x: nat {:trigger (b.state, x)} :: x == TAB || x == SP || x == COLON ==> (b.state, x) !in b.edges
    ensures var r := PushHeader(b, mid);
            && r.Some? && r.value.numStates == b.numStates + 13
            && r.value.edges == HeaderEdges(b.edges, l, b.state, b.numStates, mid)
  {
    hide Push, With, PushAny, EndLine, PushBlanks, ColonEdges, ValueEdges, LineEdges, Lines, Clear;
    var s, n := b.state, b.numStates;
    ColonStage(b, l, mid);
    var b2 := With(PushBlanks(Push(PushBlanks(b), [COLON as nat], false).value), StartCapture(mid)).value;
    ColonKeys(b.edges, l, s, n, mid);
    ValueStage(b2, l, mid);
    var b4 := With(PushAny(b2, 1, None).value, EndCapture(mid)).value;
    ValueKeys(b2.edges, l, n + 2, n + 5, mid);
    LineIsKnown(b4.edges, l);
    LineClear(b4.edges, n + 7);
    LineEnds(b4, l);
    var b5 := EndLine(b4).value;
    LineKeys(b4.edges, l, n + 5, n + 7);
    LineIsKnown(b5.edges, l);
    LineClear(b5.edges, n + 10);
    LineEnds(StartPattern(b5.numStates, b5.edges, n + 2), l);
  }

  lemma LineIsKnown(es: Es, l: nat)
    requires Lines(es, l)
    ensures (ANY_STATE, LF as nat) in es && es[(ANY_STATE, LF as nat)] == Edge(l, None)
  {}

  lemma LineClear(es: Es, n: nat)
    requires Clear(es, n)
    ensures (n, LF as nat) !in es
  {}
}
