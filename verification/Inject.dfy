// The flat tables a DFA is written into before the parser program is loaded, and the two
// ways the parsers read them.
module Inject {
  import opened Base
  import D = Dfa

  datatype Trans = Trans(state: nat, action: nat)

  // The read-only data of a parser program, all zeros at first. `zero` is the action that is
  // all zeros.
  class Rodata<C(0)> {
    const states: array2<Trans>
    const actions: array<C>
    const zero: C

    constructor (numStates: nat, numInputs: nat, numActions: nat, zero: C)
      ensures fresh(states) && fresh(actions) && this.zero == zero
      ensures states.Length0 == numStates && states.Length1 == numInputs && actions.Length == numActions
      ensures Blank()
    {
      states := new Trans[numStates, numInputs]((i, j) => Trans(0, 0));
      actions := new C[numActions](i => zero);
      this.zero := zero;
    }

    ghost predicate Blank()
      reads states, actions
    {
      && (forall s: nat, x: nat :: s < states.Length0 && x < states.Length1 ==> states[s, x] == Trans(0, 0))
      && (forall i: nat :: i < actions.Length ==> actions[i] == zero)
    }
  }

  // How an action reads in the actions table.
  function Coded<A, C>(encode: A -> C, zero: C, action: Option<A>): C {
    match action
    case None => zero
    case Some(a) => encode(a)
  }

  // The table holds the transitions `es` and nothing else, and index 0 is no action.
  ghost predicate Holds<A, C(0)>(d: Rodata<C>, es: D.Edges<A>, encode: A -> C)
    reads d.states, d.actions
  {
    forall s: nat, x: nat :: s < d.states.Length0 && x < d.states.Length1 ==>
      var t := d.states[s, x];
      if (s, x) in es then
        t.state == es[(s, x)].to && t.action < d.actions.Length
        && d.actions[t.action] == Coded(encode, d.zero, es[(s, x)].action)
        && (t.action == 0 <==> es[(s, x)].action.None?)
      else
        t == Trans(0, 0)
  }

  ghost predicate Loaded<A, C(0)>(d: Rodata<C>, es: D.Edges<A>, encode: A -> C)
    reads d.states, d.actions
  {
    Holds(d, es, encode) && d.actions.Length > 0 && d.actions[0] == d.zero
  }

  // The actions the transitions carry, and the one that is none.
  function Actions<A(==)>(es: D.Edges<A>): set<Option<A>> {
    (set k | k in es :: es[k].action) + {None}
  }

  // A numbering of actions by 0, 1, and so on, that begins with no action.
  ghost predicate Numbered<A(!new)>(idx: map<Option<A>, nat>) {
    && None in idx && idx[None] == 0
    && (forall a <- idx :: idx[a] < |idx|)
    && Injective(idx)
  }

  ghost predicate Injective<A(!new)>(idx: map<Option<A>, nat>) {
    forall a, b :: a in idx && b in idx && idx[a] == idx[b] ==> a == b
  }

  // The transitions written so far, with their actions as numbers.
  ghost predicate Written<A(!new), C(0)>(d: Rodata<C>, es: D.Edges<A>, done: set<(nat, nat)>, idx: map<Option<A>, nat>)
    reads d.states
  {
    forall s: nat, x: nat :: s < d.states.Length0 && x < d.states.Length1 ==>
      d.states[s, x] ==
        if (s, x) in done && (s, x) in es && es[(s, x)].action in idx
        then Trans(es[(s, x)].to, idx[es[(s, x)].action]) else Trans(0, 0)
  }

  // Writes the actions under their numbers.
  method WriteActions<A(==, !new), C(0)>(d: Rodata<C>, idx: map<Option<A>, nat>, encode: A -> C)
    requires Numbered(idx) && |idx| <= d.actions.Length
    requires forall i: nat :: i < d.actions.Length ==> d.actions[i] == d.zero
    modifies d.actions
    ensures forall a <- idx :: d.actions[idx[a]] == Coded(encode, d.zero, a)
  {
    var work := idx.Keys;
    while work != {}
      invariant work <= idx.Keys
      invariant forall a <- idx :: d.actions[idx[a]] == if a in work then d.zero else Coded(encode, d.zero, a)
    {
      var a :| a in work;
      if a.Some? {
        d.actions[idx[a]] := encode(a.value);
      }
      work := work - {a};
    }
  }

  lemma WrittenHolds<A(!new), C(0)>(d: Rodata<C>, es: D.Edges<A>, idx: map<Option<A>, nat>, encode: A -> C)
    requires Numbered(idx) && |idx| <= d.actions.Length && Written(d, es, es.Keys, idx)
    requires forall k <- es :: es[k].action in idx
    requires forall a <- idx :: d.actions[idx[a]] == Coded(encode, d.zero, a)
    ensures Holds(d, es, encode)
  {
    forall s: nat, x: nat | s < d.states.Length0 && x < d.states.Length1 && (s, x) in es
      ensures d.states[s, x].action == 0 <==> es[(s, x)].action.None?
    {
      assert es[(s, x)].action in idx;
    }
  }

  // Gives an action the next number, unless it has one.
  method Number<A(==, !new)>(idx: map<Option<A>, nat>, a: Option<A>, max: nat, ghost all: set<Option<A>>)
    returns (ok: bool, idx': map<Option<A>, nat>)
    requires Numbered(idx) && |idx| <= max && idx.Keys <= all && a in all
    ensures ok ==> Numbered(idx') && |idx'| <= max && idx'.Keys == idx.Keys + {a}
    ensures ok ==> forall b <- idx :: idx'[b] == idx[b]
    ensures !ok ==> |all| > max
  {
    if a in idx {
      assert idx.Keys + {a} == idx.Keys;
      return true, idx;
    }
    idx' := idx[a := |idx|];
    assert idx'.Keys == idx.Keys + {a};
    SubsetSize(idx'.Keys, all);
    ok := |idx| < max;
  }

  // Writes a DFA into the tables, its transitions in any order. It fails if and only if the
  // tables have no room for its states, its inputs or its actions.
  method Inject<A(==, !new), C(0)>(d: Rodata<C>, es: D.Edges<A>, numStates: nat, encode: A -> C) returns (ok: bool)
    requires d.Blank() && d.actions.Length > 0
    requires forall k <- es :: k.0 < numStates
    modifies d.states, d.actions
    ensures ok ==> Loaded(d, es, encode)
    ensures ok <==> numStates <= d.states.Length0 && |Actions(es)| <= d.actions.Length
                    && forall k <- es :: k.1 < d.states.Length1
  {
    if numStates > d.states.Length0 {
      return false;
    }
    var idx: map<Option<A>, nat>;
    ActionsAreAll(es, {None});
    ok, idx := WriteStates(d, es, Actions(es));
    if ok {
      ActionsAreAll(es, idx.Keys);
      SubsetSize(Actions(es), idx.Keys);
      WriteActions(d, idx, encode);
      WrittenHolds(d, es, idx, encode);
      assert d.actions[idx[None]] == Coded(encode, d.zero, None);
    }
  }

  lemma NumberedMore<A(!new), C(0)>(d: Rodata<C>, es: D.Edges<A>, done: set<(nat, nat)>,
                               idx: map<Option<A>, nat>, idx': map<Option<A>, nat>)
    requires Written(d, es, done, idx) && forall k <- done :: k in es && es[k].action in idx
    requires forall b <- idx :: b in idx' && idx'[b] == idx[b]
    ensures Written(d, es, done, idx')
  {}

  // Writes one transition, unless the tables have no room for it.
  method WriteState<A(==, !new), C(0)>(d: Rodata<C>, es: D.Edges<A>, k: (nat, nat), ghost done: set<(nat, nat)>,
                                           idx: map<Option<A>, nat>, ghost all: set<Option<A>>)
    returns (ok: bool, idx': map<Option<A>, nat>)
    requires k in es && k.0 < d.states.Length0
    requires Numbered(idx) && |idx| <= d.actions.Length && idx.Keys <= all && es[k].action in all
    requires Written(d, es, done, idx) && forall k <- done :: k in es && es[k].action in idx
    modifies d.states
    ensures ok ==> Numbered(idx') && |idx'| <= d.actions.Length && idx'.Keys == idx.Keys + {es[k].action}
    ensures ok ==> k.1 < d.states.Length1 && Written(d, es, done + {k}, idx')
    ensures !ok ==> |all| > d.actions.Length || k.1 >= d.states.Length1
  {
    ok, idx' := Number(idx, es[k].action, d.actions.Length, all);
    if !ok || k.1 >= d.states.Length1 {
      return false, idx';
    }
    NumberedMore(d, es, done, idx, idx');
    d.states[k.0, k.1] := Trans(es[k].to, idx'[es[k].action]);
  }

  lemma ActionsAreAll<A(!new)>(es: D.Edges<A>, some: set<Option<A>>)
    ensures forall k <- es :: es[k].action in Actions(es)
    ensures (forall k <- es :: es[k].action in some) && None in some ==> Actions(es) <= some
  {}

  method WriteStates<A(==, !new), C(0)>(d: Rodata<C>, es: D.Edges<A>, ghost all: set<Option<A>>)
    returns (ok: bool, idx: map<Option<A>, nat>)
    requires d.Blank() && d.actions.Length > 0
    requires forall k <- es :: k.0 < d.states.Length0 && es[k].action in all
    requires None in all
    modifies d.states
    ensures ok ==> Numbered(idx) && idx.Keys <= all && |idx| <= d.actions.Length && Written(d, es, es.Keys, idx)
    ensures ok ==> forall k <- es :: es[k].action in idx && k.1 < d.states.Length1
    ensures !ok ==> |all| > d.actions.Length || exists k <- es :: k.1 >= d.states.Length1
  {
    // edges without an action get the number 0
    idx := map[None := 0];
    var done: set<(nat, nat)> := {};
    while done != es.Keys
      invariant done <= es.Keys
      invariant Numbered(idx) && |idx| <= d.actions.Length && idx.Keys <= all
      invariant forall k <- done :: es[k].action in idx && k.1 < d.states.Length1
      invariant Written(d, es, done, idx)
      decreases es.Keys - done
    {
      var k: (nat, nat) :| k in es && k !in done;
      ok, idx := WriteState(d, es, k, done, idx, all);
      if !ok {
        return;
      }
      done := done + {k};
    }
    ok := true;
  }

  // --- Reading the tables ---

  // The transition of the HTTP/2 DFA: what has none leads to `dead`.
  function Follow2<A>(es: D.Edges<A>, dead: nat, s: nat, x: nat): (nat, Option<A>) {
    if (s, x) in es then (es[(s, x)].to, es[(s, x)].action) else (dead, None)
  }

  // The transition of the HTTP/1 DFA: what has none takes the one matching any byte, and
  // what has not got that one either leads to the any state.
  function Follow1<A>(es: D.Edges<A>, s: nat, x: nat): (nat, Option<A>) {
    if (s, x) in es then (es[(s, x)].to, es[(s, x)].action)
    else if (s, D.ANY_INPUT) in es then (es[(s, D.ANY_INPUT)].to, es[(s, D.ANY_INPUT)].action)
    else (D.ANY_STATE, None)
  }

  // The masks that keep an index within its table do nothing to one that is.
  lemma InRange(i: nat, n: nat)
    requires i < n
    ensures i % n == i
  {}

  // No transition reads like one that is not there.
  ghost predicate Visible<A>(es: D.Edges<A>) {
    forall k <- es :: es[k].to != 0 || es[k].action.Some?
  }

  // `_next` and `_action` of http2/parser.bpf.c.
  method Next2<A(!new), C(0)>(d: Rodata<C>, ghost es: D.Edges<A>, ghost encode: A -> C,
                                 dead: nat, state: nat, input: byte)
    returns (next: nat, action: C)
    requires Loaded(d, es, encode) && Visible(es)
    requires d.states.Length1 == 256 && state < d.states.Length0
    ensures var f := Follow2(es, dead, state, input);
            next == f.0 && action == Coded(encode, d.zero, f.1)
  {
    InRange(state, d.states.Length0);
    var t := d.states[state % d.states.Length0, input % 256];
    InRange(t.action, d.actions.Length);
    if t.state == 0 && t.action == 0 {
      next, action := dead, d.actions[0];
    } else {
      next, action := t.state, d.actions[t.action % d.actions.Length];
    }
  }

  // `_next` and `_action` of http1/parser.bpf.c.
  method Next1<A(!new), C(0)>(d: Rodata<C>, ghost es: D.Edges<A>, ghost encode: A -> C, state: nat, input: byte)
    returns (next: nat, action: C)
    requires Loaded(d, es, encode) && Visible(es)
    requires d.states.Length1 == 257 && state < d.states.Length0
    ensures var f := Follow1(es, state, input);
            next == f.0 && action == Coded(encode, d.zero, f.1)
  {
    InRange(state, d.states.Length0);
    var t := d.states[state % d.states.Length0, input];
    if t.state == 0 && t.action == 0 {
      t := d.states[state % d.states.Length0, 256];
      if t.state == 0 && t.action == 0 {
        return D.ANY_STATE, d.actions[0];
      }
    }
    InRange(t.action, d.actions.Length);
    next, action := t.state, d.actions[t.action % d.actions.Length];
  }
}
