// The DFA and its builder as they are in dfa.rs, updated in place. Every method is proved to
// do what the function of the same name in module Dfa does, and to return false where the
// original panics.
module DfaBuilder {
  import opened Base
  import D = Dfa

  class Dfa<A(==)> {
    var numStates: nat
    var edges: D.Edges<A>

    // The states below `reserved`, and the two every DFA has, are taken.
    constructor (reserved: nat)
      ensures numStates == (if reserved >= 2 then reserved else 2) && edges == map[]
    {
      numStates := if reserved >= 2 then reserved else 2;
      edges := map[];
    }

    method InsertEdge(from: nat, input: nat, to: nat, action: Option<A>) returns (ok: bool)
      modifies this`edges
      ensures var r := D.InsertEdge(old(edges), from, input, to, action);
              ok == r.Some? && edges == if ok then r.value else old(edges)
    {
      if (from, input) !in edges {
        edges := edges[(from, input) := D.Edge(to, action)];
        return true;
      }
      var prev := edges[(from, input)];
      if prev.to != to {
        return false;
      }
      match (prev.action, action)
      case (_, None) =>
        return true;
      case (None, Some(a)) =>
        edges := edges[(from, input) := D.Edge(to, action)];
        return true;
      case (Some(p), Some(a)) =>
        return p == a;
    }

    method AddAction(from: nat, input: nat, action: A) returns (ok: bool)
      modifies this`edges
      ensures var r := D.AddAction(old(edges), from, input, action);
              ok == r.Some? && edges == if ok then r.value else old(edges)
    {
      if (from, input) !in edges {
        return false;
      }
      var prev := edges[(from, input)];
      if prev.action.Some? && prev.action.value != action {
        return false;
      }
      edges := edges[(from, input) := D.Edge(prev.to, Some(action))];
      return true;
    }
  }

  class DfaBuilder<A(==)> {
    const dfa: Dfa<A>
    var state: nat
    var optionalPrefixes: seq<D.OptionalPrefix>
    var optionalStates: seq<nat>
    var lastEdges: seq<D.LastEdge>

    ghost function View(): D.Builder<A>
      reads this, dfa
    {
      D.Builder(dfa.numStates, dfa.edges, state, optionalPrefixes, optionalStates, lastEdges)
    }

    constructor (dfa: Dfa<A>, state: nat)
      ensures this.dfa == dfa && View() == D.StartPattern(dfa.numStates, dfa.edges, state)
    {
      this.dfa, this.state := dfa, state;
      optionalPrefixes, optionalStates, lastEdges := [], [], [];
    }

    method NextState(from: nat, input: nat) returns (ok: bool, next: nat)
      modifies dfa`numStates
      ensures var r := D.NextState(old(View()), from, input);
              ok == r.Some? && (ok ==> r.value == (View(), next))
    {
      if (from, input) in dfa.edges {
        return true, dfa.edges[(from, input)].to;
      }
      if dfa.numStates + 1 >= U16 {
        return false, 0;
      }
      ok, next := true, dfa.numStates;
      dfa.numStates := dfa.numStates + 1;
    }

    method PushEdgeFrom(from: nat, input: nat, to: Option<nat>, cs: bool) returns (ok: bool, t: nat)
      modifies dfa
      ensures var r := D.PushEdgeFrom(old(View()), from, input, to, cs);
              ok == r.Some? && (ok ==> r.value == (View(), t))
    {
      ok, t := NextState(from, input);
      if !ok {
        return;
      }
      if to.Some? {
        t := to.value;
      }
      ok := dfa.InsertEdge(from, input, t, None);
      if ok && !cs {
        var other := D.OtherCase(input);
        if other.Some? {
          ok := dfa.InsertEdge(from, other.value, t, None);
        }
      }
    }

    // One optional prefix, from `source`.
    method PushPrefixFrom(source: nat, p: D.OptionalPrefix) returns (ok: bool, end: nat)
      modifies this`lastEdges, dfa
      ensures var r := D.PushPrefixFrom(old(View()), source, source, p.inputs, p.caseSensitive, p.repeat);
              ok == r.Some? && (ok ==> r.value == (View(), end))
    {
      ghost var r := D.PushPrefixFrom(View(), source, source, p.inputs, p.caseSensitive, p.repeat);
      ok, end := true, source;
      for i := 0 to |p.inputs|
        invariant ok && D.PushPrefixFrom(View(), source, end, p.inputs[i..], p.caseSensitive, p.repeat) == r
      {
        var to := None;
        if i == |p.inputs| - 1 {
          lastEdges := lastEdges + [D.LastEdge(end, p.inputs[i], p.caseSensitive)];
          to := if p.repeat then Some(source) else None;
        }
        assert p.inputs[i..][1..] == p.inputs[i + 1..];
        ok, end := PushEdgeFrom(end, p.inputs[i], to, p.caseSensitive);
        if !ok {
          return;
        }
      }
    }

    method PushOptionalPrefixes() returns (ok: bool)
      modifies this, dfa
      ensures var r := D.PushOptionalPrefixes(old(View()));
              ok == r.Some? && (ok ==> r.value == View())
    {
      ghost var r := D.PushOptionalPrefixes(View());
      var prefixes := optionalPrefixes;
      optionalPrefixes := [];
      for i := 0 to |prefixes|
        invariant D.PushPrefixes(View(), prefixes[i..]) == r
      {
        var sources := [state] + optionalStates;
        assert prefixes[i..][1..] == prefixes[i + 1..];
        ghost var q := D.PushPrefix(View(), sources, prefixes[i]);
        for j := 0 to |sources|
          invariant D.PushPrefix(View(), sources[j..], prefixes[i]) == q
        {
          assert sources[j..][1..] == sources[j + 1..];
          var end: nat;
          ok, end := PushPrefixFrom(sources[j], prefixes[i]);
          if !ok {
            return;
          }
          if !prefixes[i].repeat && end != state && end !in optionalStates {
            optionalStates := optionalStates + [end];
          }
        }
      }
      ok := true;
    }

    method PushEdge(input: nat, to: Option<nat>, cs: bool) returns (ok: bool)
      modifies this, dfa
      ensures var r := D.PushEdge(old(View()), input, to, cs);
              ok == r.Some? && (ok ==> r.value == View())
    {
      ok := PushOptionalPrefixes();
      if !ok {
        return;
      }
      var start, t := state, 0;
      ok, t := PushEdgeFrom(start, input, to, cs);
      if !ok {
        return;
      }
      lastEdges := [D.LastEdge(start, input, cs)];
      var froms := optionalStates;
      optionalStates := [];
      ok := JoinStates(froms, input, t, cs);
      state := t;
    }

    // Lets `input` follow each of the states `froms` as well.
    method JoinStates(froms: seq<nat>, input: nat, to: nat, cs: bool) returns (ok: bool)
      modifies this`lastEdges, dfa
      ensures var r := D.JoinStates(old(View()), froms, input, to, cs);
              ok == r.Some? && (ok ==> r.value == View())
    {
      ghost var r := D.JoinStates(View(), froms, input, to, cs);
      for i := 0 to |froms|
        invariant D.JoinStates(View(), froms[i..], input, to, cs) == r
      {
        assert froms[i..][1..] == froms[i + 1..];
        var u: nat;
        ok, u := PushEdgeFrom(froms[i], input, Some(to), cs);
        if !ok {
          return;
        }
        lastEdges := lastEdges + [D.LastEdge(froms[i], input, cs)];
      }
      ok := true;
    }

    method PushTo(inputs: seq<nat>, to: Option<nat>, cs: bool) returns (ok: bool)
      modifies this, dfa
      ensures var r := D.PushTo(old(View()), inputs, to, cs);
              ok == r.Some? && (ok ==> r.value == View())
    {
      ghost var r := D.PushTo(View(), inputs, to, cs);
      for i := 0 to |inputs|
        invariant D.PushTo(View(), inputs[i..], to, cs) == r
      {
        assert inputs[i..][1..] == inputs[i + 1..];
        ok := PushEdge(inputs[i], if i == |inputs| - 1 then to else None, cs);
        if !ok {
          return;
        }
      }
      ok := true;
    }

    method Push(inputs: seq<nat>, cs: bool) returns (ok: bool)
      modifies this, dfa
      ensures var r := D.Push(old(View()), inputs, cs);
              ok == r.Some? && (ok ==> r.value == View())
    {
      ok := PushTo(inputs, None, cs);
    }

    method PushOptional(inputs: seq<nat>, repeat: bool)
      modifies this`optionalPrefixes
      ensures View() == D.PushOptional(old(View()), inputs, repeat)
    {
      optionalPrefixes := optionalPrefixes + [D.OptionalPrefix(inputs, true, repeat)];
    }

    method PushAny(min: nat, max: Option<nat>) returns (ok: bool)
      modifies this, dfa
      ensures var r := D.PushAny(old(View()), min, max);
              ok == r.Some? && (ok ==> r.value == View())
    {
      if max.Some? && max.value < min {
        return false;
      }
      ghost var r := D.PushAnyTimes(View(), min);
      for i := 0 to min
        invariant D.PushAnyTimes(View(), min - i) == r
      {
        ok := PushEdge(D.ANY_INPUT, None, true);
        if !ok {
          return;
        }
      }
      if max.Some? {
        var skip := seq(max.value - min, _ => D.OptionalPrefix([D.ANY_INPUT], true, false));
        optionalPrefixes := optionalPrefixes + skip;
        return true;
      }
      var t: nat;
      ok, t := PushEdgeFrom(state, D.ANY_INPUT, Some(state), true);
      if ok {
        lastEdges := lastEdges + [D.LastEdge(state, D.ANY_INPUT, true)];
      }
    }

    method PushOptions(words: seq<seq<nat>>, cs: bool) returns (ok: bool)
      modifies this, dfa
      ensures var r := D.PushOptions(old(View()), words, cs);
              ok == r.Some? && (ok ==> r.value == View())
    {
      if words == [] {
        return true;
      }
      var longest, start := D.Longest(words), state;
      ok := Push(longest, cs);
      if !ok {
        return;
      }
      var final, last := state, lastEdges;
      lastEdges := [];
      ghost var r := D.PushOthers(View(), words, longest, start, final, last, cs);
      for i := 0 to |words|
        invariant D.PushOthers(View(), words[i..], longest, start, final, last, cs) == r
      {
        assert words[i..][1..] == words[i + 1..];
        if words[i] != longest {
          if words[i] == [] {
            return false;
          }
          state := start;
          ok := PushTo(words[i], Some(final), cs);
          if !ok {
            return;
          }
          last, lastEdges := last + lastEdges, [];
        }
      }
      lastEdges := last;
      ok := true;
    }

    method RestartWith(inputs: seq<nat>) returns (ok: bool)
      modifies this, dfa
      ensures var r := D.RestartWith(old(View()), inputs);
              ok == r.Some? && (ok ==> r.value == View())
    {
      ghost var r := D.RestartPath(View(), D.ANY_STATE, inputs);
      var final := D.ANY_STATE;
      for i := 0 to |inputs|
        invariant D.RestartPath(View(), final, inputs[i..]) == r
      {
        assert inputs[i..][1..] == inputs[i + 1..];
        var next, t: nat;
        ok, next := NextState(final, inputs[i]);
        if !ok {
          return;
        }
        ok, t := PushEdgeFrom(final, inputs[i], Some(next), false);
        if !ok {
          return;
        }
        final := next;
      }
      ok := PushTo(inputs, Some(final), false);
    }

    // Attaches `action` to the edges that were pushed as `l`.
    method AddActionTo(l: D.LastEdge, action: A, ghost last: seq<D.LastEdge>) returns (ok: bool)
      requires last != [] && last[0] == l
      modifies dfa`edges
      ensures D.AddActions(old(dfa.edges), last, action) ==
              if ok then D.AddActions(dfa.edges, last[1..], action) else None
    {
      ok := dfa.AddAction(l.from, l.input, action);
      if !ok {
        return;
      }
      var other := D.OtherCase(l.input);
      if !l.caseSensitive && other.Some? {
        ok := dfa.AddAction(l.from, other.value, action);
      }
    }

    method With(action: A) returns (ok: bool)
      modifies this, dfa
      ensures var r := D.With(old(View()), action);
              ok == r.Some? && (ok ==> r.value == View())
    {
      ok := PushOptionalPrefixes();
      if !ok {
        return;
      }
      var last := lastEdges;
      ghost var r := D.AddActions(dfa.edges, last, action);
      ghost var f := View();
      for i := 0 to |last|
        invariant D.AddActions(dfa.edges, last[i..], action) == r
        invariant View() == f.(edges := dfa.edges)
      {
        assert last[i..][1..] == last[i + 1..];
        ok := AddActionTo(last[i], action, last[i..]);
        if !ok {
          return;
        }
      }
      ok := true;
    }
  }
}
