// The DFA builder of dfa.rs, on values: what each of its methods makes of a builder, or None
// where it panics. The class in module DfaBuilder runs the same steps in place.
module Dfa {
  import opened Base

  const INIT_STATE: nat := 0
  const ANY_STATE: nat := 1

  // Stands for every byte a state has no edge of its own for.
  const ANY_INPUT: nat := 0x100

  datatype Edge<A> = Edge(to: nat, action: Option<A>)

  // The transitions, keyed by state and input.
  type Edges<A> = map<(nat, nat), Edge<A>>

  // Bytes that a pattern has, or has not, once or any number of times.
  datatype OptionalPrefix = OptionalPrefix(inputs: seq<nat>, caseSensitive: bool, repeat: bool)

  // One of the edges into the state a pattern ends in so far.
  datatype LastEdge = LastEdge(from: nat, input: nat, caseSensitive: bool)

  datatype Builder<A> = Builder(
    numStates: nat,
    edges: Edges<A>,
    state: nat,
    optionalPrefixes: seq<OptionalPrefix>,
    optionalStates: seq<nat>,
    lastEdges: seq<LastEdge>)

  // Every transition of `es` is still there in `es'`, along with the action it carries.
  ghost predicate Extends<A>(es: Edges<A>, es': Edges<A>) {
    forall k <- es :: k in es' && es'[k].to == es[k].to && (es[k].action.Some? ==> es'[k].action == es[k].action)
  }

  // Whether a byte `x` is read by an edge that was pushed for `input`.
  predicate Reads(x: nat, input: nat, cs: bool) {
    x == input || (!cs && OtherCase(input) == Some(x))
  }

  // The other case of `input`, if it is a letter.
  function OtherCase(input: nat): Option<nat> {
    if 0x61 <= input <= 0x7A then Some(input - 0x20)
    else if 0x41 <= input <= 0x5A then Some(input + 0x20)
    else None
  }

  // --- Dfa ---

  function InsertEdge<A(==)>(es: Edges<A>, from: nat, input: nat, to: nat, action: Option<A>): (r: Option<Edges<A>>)
    ensures r.Some? ==> Extends(es, r.value) && (from, input) in r.value && r.value[(from, input)].to == to
  {
    if (from, input) !in es then Some(es[(from, input) := Edge(to, action)])
    else
      var prev := es[(from, input)];
      if prev.to != to then None
      else if action.None? || prev.action == action then Some(es)
      else if prev.action.None? then Some(es[(from, input) := Edge(to, action)])
      else None
  }

  function AddAction<A(==)>(es: Edges<A>, from: nat, input: nat, action: A): (r: Option<Edges<A>>)
    ensures r.Some? ==>
              Extends(es, r.value) && (from, input) in r.value && r.value[(from, input)].action == Some(action)
  {
    if (from, input) !in es then None
    else
      var prev := es[(from, input)];
      if prev.action.Some? && prev.action.value != action then None
      else Some(es[(from, input) := Edge(prev.to, Some(action))])
  }

  // The state ids are 16 bits wide.
  function NextState<A>(b: Builder<A>, from: nat, input: nat): Option<(Builder<A>, nat)> {
    if (from, input) in b.edges then Some((b, b.edges[(from, input)].to))
    else if b.numStates + 1 >= U16 then None
    else Some((b.(numStates := b.numStates + 1), b.numStates))
  }

  // --- DfaBuilder ---

  function StartPattern<A>(numStates: nat, edges: Edges<A>, state: nat): Builder<A> {
    Builder(numStates, edges, state, [], [], [])
  }

  // Inserts the edge for `input`, in both cases unless it is case sensitive. A state id is
  // taken even if `to` is given.
  function PushEdgeFrom<A(==)>(b: Builder<A>, from: nat, input: nat, to: Option<nat>, cs: bool):
    (r: Option<(Builder<A>, nat)>)
    ensures r.Some? ==>
              && Extends(b.edges, r.value.0.edges)
              && r.value.0 == b.(numStates := r.value.0.numStates, edges := r.value.0.edges)
              && (to.Some? ==> r.value.1 == to.value)
              && forall x: nat :: Reads(x, input, cs) ==>
                   (from, x) in r.value.0.edges && r.value.0.edges[(from, x)].to == r.value.1
  {
    var n := NextState(b, from, input);
    if n.None? then None
    else
      var (b1, next) := n.value;
      var t := if to.Some? then to.value else next;
      var e := InsertEdge(b1.edges, from, input, t, None);
      if e.None? then None
      else if cs || OtherCase(input).None? then Some((b1.(edges := e.value), t))
      else
        var e2 := InsertEdge(e.value, from, OtherCase(input).value, t, None);
        if e2.None? then None else Some((b1.(edges := e2.value), t))
  }

  // What optional prefixes change of a builder: edges, last edges and optional states are
  // added.
  ghost predicate Grows<A>(b: Builder<A>, b': Builder<A>) {
    && Extends(b.edges, b'.edges)
    && b'.state == b.state && b'.optionalPrefixes == b.optionalPrefixes
    && b.optionalStates <= b'.optionalStates && b.lastEdges <= b'.lastEdges
  }

  // The inputs of one optional prefix, from `from` on, where the branch began at `source`.
  function PushPrefixFrom<A(==)>(b: Builder<A>, source: nat, from: nat, inputs: seq<nat>,
                                 cs: bool, repeat: bool): (r: Option<(Builder<A>, nat)>)
    ensures r.Some? ==>
              && Extends(b.edges, r.value.0.edges)
              && b.lastEdges <= r.value.0.lastEdges
              && r.value.0 == b.(numStates := r.value.0.numStates, edges := r.value.0.edges,
                                        lastEdges := r.value.0.lastEdges)
    decreases |inputs|
  {
    if inputs == [] then Some((b, from))
    else
      var b1 := if |inputs| == 1 then b.(lastEdges := b.lastEdges + [LastEdge(from, inputs[0], cs)]) else b;
      var r := PushEdgeFrom(b1, from, inputs[0], if |inputs| == 1 && repeat then Some(source) else None, cs);
      if r.None? then None else PushPrefixFrom(r.value.0, source, r.value.1, inputs[1..], cs, repeat)
  }

  // One optional prefix, from each of `sources`.
  function PushPrefix<A(==)>(b: Builder<A>, sources: seq<nat>, p: OptionalPrefix): (r: Option<Builder<A>>)
    ensures r.Some? ==> Grows(b, r.value)
    decreases |sources|
  {
    if sources == [] then Some(b)
    else
      var r := PushPrefixFrom(b, sources[0], sources[0], p.inputs, p.caseSensitive, p.repeat);
      if r.None? then None
      else
        var (b1, end) := r.value;
        var b2 := if !p.repeat && end != b1.state && end !in b1.optionalStates
                  then b1.(optionalStates := b1.optionalStates + [end]) else b1;
        PushPrefix(b2, sources[1..], p)
  }

  function PushPrefixes<A(==)>(b: Builder<A>, ps: seq<OptionalPrefix>): (r: Option<Builder<A>>)
    ensures r.Some? ==> Grows(b, r.value)
    decreases |ps|
  {
    if ps == [] then Some(b)
    else
      var r := PushPrefix(b, [b.state] + b.optionalStates, ps[0]);
      if r.None? then None else PushPrefixes(r.value, ps[1..])
  }

  function PushOptionalPrefixes<A(==)>(b: Builder<A>): (r: Option<Builder<A>>)
    ensures r.Some? ==> Grows(b.(optionalPrefixes := []), r.value)
  {
    PushPrefixes(b.(optionalPrefixes := []), b.optionalPrefixes)
  }

  // Lets `input` follow each of the states `froms` as well.
  function JoinStates<A(==)>(b: Builder<A>, froms: seq<nat>, input: nat, to: nat, cs: bool): (r: Option<Builder<A>>)
    ensures r.Some? ==>
              && Extends(b.edges, r.value.edges)
              && b.lastEdges <= r.value.lastEdges
              && r.value == b.(numStates := r.value.numStates, edges := r.value.edges, lastEdges := r.value.lastEdges)
    decreases |froms|
  {
    if froms == [] then Some(b)
    else
      var r := PushEdgeFrom(b, froms[0], input, Some(to), cs);
      if r.None? then None
      else
        var b1 := r.value.0;
        JoinStates(b1.(lastEdges := b1.lastEdges + [LastEdge(froms[0], input, cs)]), froms[1..], input, to, cs)
  }

  function PushEdge<A(==)>(b: Builder<A>, input: nat, to: Option<nat>, cs: bool): (r: Option<Builder<A>>)
    ensures r.Some? ==> Extends(b.edges, r.value.edges)
  {
    var f := PushOptionalPrefixes(b);
    if f.None? then None
    else
      var start := f.value.state;
      var r := PushEdgeFrom(f.value, start, input, to, cs);
      if r.None? then None
      else
        var (b1, t) := r.value;
        var froms := b1.optionalStates;
        var j := JoinStates(b1.(lastEdges := [LastEdge(start, input, cs)], optionalStates := []), froms, input, t, cs);
        if j.None? then None else Some(j.value.(state := t))
  }

  // Appends `inputs`, the last of which leads to `to` if that is given.
  function PushTo<A(==)>(b: Builder<A>, inputs: seq<nat>, to: Option<nat>, cs: bool): (r: Option<Builder<A>>)
    ensures r.Some? ==> Extends(b.edges, r.value.edges)
    decreases |inputs|
  {
    if inputs == [] then Some(b)
    else
      var r := PushEdge(b, inputs[0], if |inputs| == 1 then to else None, cs);
      if r.None? then None else PushTo(r.value, inputs[1..], to, cs)
  }

  function Push<A(==)>(b: Builder<A>, inputs: seq<nat>, cs: bool): (r: Option<Builder<A>>)
    ensures r.Some? ==> Extends(b.edges, r.value.edges)
  {
    PushTo(b, inputs, None, cs)
  }

  function PushOptional<A>(b: Builder<A>, inputs: seq<nat>, repeat: bool): Builder<A> {
    b.(optionalPrefixes := b.optionalPrefixes + [OptionalPrefix(inputs, true, repeat)])
  }

  function PushAnyTimes<A(==)>(b: Builder<A>, n: nat): (r: Option<Builder<A>>)
    ensures r.Some? ==> Extends(b.edges, r.value.edges)
    decreases n
  {
    if n == 0 then Some(b)
    else
      var r := PushEdge(b, ANY_INPUT, None, true);
      if r.None? then None else PushAnyTimes(r.value, n - 1)
  }

  // Between `min` and `max` times any byte, or any number of times from `min` on.
  function PushAny<A(==)>(b: Builder<A>, min: nat, max: Option<nat>): (r: Option<Builder<A>>)
    ensures r.Some? ==> Extends(b.edges, r.value.edges)
  {
    if max.Some? && max.value < min then None
    else
      var r := PushAnyTimes(b, min);
      if r.None? then None
      else if max.Some? then
        var skip := seq(max.value - min, _ => OptionalPrefix([ANY_INPUT], true, false));
        Some(r.value.(optionalPrefixes := r.value.optionalPrefixes + skip))
      else
        var s := r.value.state;
        var l := PushEdgeFrom(r.value, s, ANY_INPUT, Some(s), true);
        if l.None? then None
        else Some(l.value.0.(lastEdges := l.value.0.lastEdges + [LastEdge(s, ANY_INPUT, true)]))
  }

  // The last one of the longest of `ws`.
  function Longest(ws: seq<seq<nat>>): (l: seq<nat>)
    requires ws != []
    ensures l in ws && forall w <- ws :: |w| <= |l|
  {
    if |ws| == 1 then ws[0]
    else
      var l := Longest(ws[..|ws| - 1]);
      if |ws[|ws| - 1]| >= |l| then ws[|ws| - 1] else l
  }

  // Every option but the longest, from `start` to `final`.
  function PushOthers<A(==)>(b: Builder<A>, ws: seq<seq<nat>>, longest: seq<nat>, start: nat, final: nat,
                             last: seq<LastEdge>, cs: bool): (r: Option<Builder<A>>)
    ensures r.Some? ==> Extends(b.edges, r.value.edges)
    decreases |ws|
  {
    if ws == [] then Some(b.(lastEdges := last))
    else if ws[0] == longest then PushOthers(b, ws[1..], longest, start, final, last, cs)
    else if ws[0] == [] then None
    else
      var r := PushTo(b.(state := start), ws[0], Some(final), cs);
      if r.None? then None
      else PushOthers(r.value.(lastEdges := []), ws[1..], longest, start, final, last + r.value.lastEdges, cs)
  }

  function PushOptions<A(==)>(b: Builder<A>, ws: seq<seq<nat>>, cs: bool): (r: Option<Builder<A>>)
    ensures r.Some? ==> Extends(b.edges, r.value.edges)
  {
    if ws == [] then Some(b)
    else
      var l := Longest(ws);
      var r := Push(b, l, cs);
      if r.None? then None
      else PushOthers(r.value.(lastEdges := []), ws, l, b.state, r.value.state, r.value.lastEdges, cs)
  }

  // The path `inputs` takes from the any state.
  function RestartPath<A(==)>(b: Builder<A>, from: nat, inputs: seq<nat>): (r: Option<(Builder<A>, nat)>)
    ensures r.Some? ==> Extends(b.edges, r.value.0.edges)
    decreases |inputs|
  {
    if inputs == [] then Some((b, from))
    else
      var n := NextState(b, from, inputs[0]);
      if n.None? then None
      else
        var r := PushEdgeFrom(n.value.0, from, inputs[0], Some(n.value.1), false);
        if r.None? then None else RestartPath(r.value.0, n.value.1, inputs[1..])
  }

  // Matches `inputs`, but ends in the state they lead to from the any state.
  function RestartWith<A(==)>(b: Builder<A>, inputs: seq<nat>): (r: Option<Builder<A>>)
    ensures r.Some? ==> Extends(b.edges, r.value.edges)
  {
    var r := RestartPath(b, ANY_STATE, inputs);
    if r.None? then None else PushTo(r.value.0, inputs, Some(r.value.1), false)
  }

  function AddActions<A(==)>(es: Edges<A>, last: seq<LastEdge>, action: A): (r: Option<Edges<A>>)
    ensures r.Some? ==> Extends(es, r.value)
    ensures r.Some? ==> forall l <- last, x: nat :: Reads(x, l.input, l.caseSensitive) ==>
                          (l.from, x) in r.value && r.value[(l.from, x)].action == Some(action)
    decreases |last|
  {
    if last == [] then Some(es)
    else
      var l := last[0];
      var e := AddAction(es, l.from, l.input, action);
      if e.None? then None
      else
        var e2 := if l.caseSensitive || OtherCase(l.input).None? then e
                  else AddAction(e.value, l.from, OtherCase(l.input).value, action);
        if e2.None? then None else AddActions(e2.value, last[1..], action)
  }

  // Gives the action to all the edges into the state a pattern ends in.
  function With<A(==)>(b: Builder<A>, action: A): (r: Option<Builder<A>>)
    ensures r.Some? ==> Extends(b.edges, r.value.edges)
  {
    var f := PushOptionalPrefixes(b);
    if f.None? then None
    else
      var e := AddActions(f.value.edges, f.value.lastEdges, action);
      if e.None? then None else Some(f.value.(edges := e.value))
  }
}
