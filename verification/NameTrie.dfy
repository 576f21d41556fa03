// The tries of the names to capture, which http2/parser.rs builds into the HPACK DFA behind
// its two name roots.
module NameTrie {
  import opened Base
  import opened Http2Action
  import opened Dfa
  import Inject

  // The place of a prefix in the trie behind one of the roots.
  datatype Node = Node(root: nat, prefix: seq<byte>)

  function Child(n: Node, x: byte): Node {
    Node(n.root, n.prefix + [x])
  }

  // The tries: the state of each prefix, the prefix of each state, and the match id of each
  // name.
  datatype Trie = Trie(states: map<Node, nat>, labels: map<nat, Node>, names: map<Node, u16>)

  const EMPTY_TRIE := Trie(map[Node(S_NAME, []) := S_NAME, Node(S_NAME_PLAIN, []) := S_NAME_PLAIN],
                           map[S_NAME := Node(S_NAME, []), S_NAME_PLAIN := Node(S_NAME_PLAIN, [])],
                           map[])

  function CaptureOf(t: Trie, n: Node): Option<Action> {
    if n in t.names then Some(Action(Capture, t.names[n], 0)) else None
  }

  // The transition the DFA has to have: the one of a trie, or else the one of a row.
  function Expected(t: Trie, s: nat, x: nat): Row {
    if x >= 256 then None
    else if s !in t.labels then RowOf(s, x)
    else
      var c := Child(t.labels[s], x);
      if c in t.states then Some(Edge(t.states[c], CaptureOf(t, c))) else None
  }

  ghost predicate WellFormed(t: Trie, numStates: nat) {
    && numStates >= S_RESERVED
    && Node(S_NAME, []) in t.states && t.states[Node(S_NAME, [])] == S_NAME
    && Node(S_NAME_PLAIN, []) in t.states && t.states[Node(S_NAME_PLAIN, [])] == S_NAME_PLAIN
    && (forall n <- t.states :: t.states[n] in t.labels && t.labels[t.states[n]] == n)
    && (forall s <- t.labels :: t.labels[s] in t.states && t.states[t.labels[s]] == s
                                && s < numStates && (s == S_NAME || s == S_NAME_PLAIN || s >= S_RESERVED))
    && (forall n <- t.states :: n.prefix != [] ==> Node(n.root, n.prefix[..|n.prefix| - 1]) in t.states)
    && (forall n <- t.names :: n in t.states && n.prefix != [])
  }

  // The DFA is made of the rows of HPACK and of the tries `t`.
  ghost predicate Holds(es: Edges<Action>, numStates: nat, t: Trie) {
    WellFormed(t, numStates) && forall s: nat, x: nat :: Get(es, s, x) == Expected(t, s, x)
  }

  // A builder in the state of the prefix `n`.
  ghost predicate At(b: Builder<Action>, t: Trie, n: Node) {
    && Holds(b.edges, b.numStates, t)
    && n in t.states && b.state == t.states[n]
    && b.optionalPrefixes == [] && b.optionalStates == []
  }

  // The tries once the prefix `n` has the state `s`.
  function AddNode(t: Trie, n: Node, s: nat): Trie {
    t.(states := t.states[n := s], labels := t.labels[s := n])
  }

  lemma AddNodeWellFormed(numStates: nat, t: Trie, n: Node, x: byte)
    requires WellFormed(t, numStates) && n in t.states && Child(n, x) !in t.states
    ensures WellFormed(AddNode(t, Child(n, x), numStates), numStates + 1)
  {
    assert Child(n, x).prefix[..|Child(n, x).prefix| - 1] == n.prefix;
  }

  // A prefix is the child of only one other.
  lemma ChildIsInjective(m: Node, n: Node, y: byte, x: byte)
    requires Child(m, y) == Child(n, x)
    ensures m == n && y == x
  {
    assert (m.prefix + [y])[..|n.prefix|] == m.prefix;
    assert (m.prefix + [y])[|n.prefix|] == y;
  }

  lemma AddNodeHolds(es: Edges<Action>, numStates: nat, t: Trie, n: Node, x: byte)
    requires Holds(es, numStates, t) && n in t.states && Child(n, x) !in t.states
    ensures Holds(es[(t.states[n], x) := Edge(numStates, None)], numStates + 1, AddNode(t, Child(n, x), numStates))
  {
    var c := Child(n, x);
    var t', es' := AddNode(t, c, numStates), es[(t.states[n], x) := Edge(numStates, None)];
    AddNodeWellFormed(numStates, t, n, x);
    forall s: nat, y: nat
      ensures Get(es', s, y) == Expected(t', s, y)
    {
      assert Get(es, s, y) == Expected(t, s, y);
      if s in t.labels && y < 256 && Child(t.labels[s], y) == c {
        ChildIsInjective(t.labels[s], n, y, x);
      }
      if s == numStates && y < 256 {
        NoGrandchild(t, c, y);
      }
    }
  }

  // A prefix without a state has no longer one either.
  lemma NoGrandchild(t: Trie, c: Node, y: byte)
    requires c !in t.states
    requires forall n <- t.states :: n.prefix != [] ==> Node(n.root, n.prefix[..|n.prefix| - 1]) in t.states
    ensures Child(c, y) !in t.states
  {
    assert (c.prefix + [y])[..|c.prefix|] == c.prefix;
  }

  // Without optional inputs, an edge is just an edge.
  lemma PlainEdge(b: Builder<Action>, x: nat)
    requires b.optionalPrefixes == [] && b.optionalStates == []
    ensures var p := PushEdgeFrom(b, b.state, x, None, true);
            PushEdge(b, x, None, true) ==
            if p.None? then None else Some(p.value.0.(state := p.value.1, lastEdges := [LastEdge(b.state, x, true)]))
  {
    assert PushOptionalPrefixes(b) == Some(b);
  }

  // The tries once the prefix behind `n` has a state.
  function Step(b: Builder<Action>, t: Trie, n: Node, x: byte): Trie {
    if Child(n, x) in t.states then t else AddNode(t, Child(n, x), b.numStates)
  }

  lemma StepKnown(b: Builder<Action>, t: Trie, n: Node, x: byte)
    requires At(b, t, n) && Child(n, x) in t.states
    ensures PushEdgeFrom(b, b.state, x, None, true) == Some((b, t.states[Child(n, x)]))
  {
    assert Get(b.edges, b.state, x) == Expected(t, b.state, x);
  }

  lemma StepNew(b: Builder<Action>, t: Trie, n: Node, x: byte)
    requires At(b, t, n) && Child(n, x) !in t.states
    ensures PushEdgeFrom(b, b.state, x, None, true) ==
            if b.numStates + 1 >= U16 then None
            else Some((b.(numStates := b.numStates + 1,
                           edges := b.edges[(b.state, x) := Edge(b.numStates, None)]), b.numStates))
  {
    assert Get(b.edges, b.state, x) == Expected(t, b.state, x);
  }

  // Pushing a byte goes to the state of the longer prefix, creating it if there is none. It
  // only fails once there are no state ids left.
  lemma PushByte(b: Builder<Action>, t: Trie, n: Node, x: byte)
    requires At(b, t, n)
    ensures b.numStates + 1 < U16 ==> PushEdge(b, x, None, true).Some?
    ensures PushEdge(b, x, None, true).Some? ==>
            var r := PushEdge(b, x, None, true).value;
            && At(r, Step(b, t, n, x), Child(n, x))
            && r.lastEdges == [LastEdge(t.states[n], x, true)]
            && b.numStates <= r.numStates <= b.numStates + 1
  {
    PlainEdge(b, x);
    if Child(n, x) in t.states {
      StepKnown(b, t, n, x);
    } else {
      StepNew(b, t, n, x);
      AddNodeHolds(b.edges, b.numStates, t, n, x);
    }
  }

  lemma {:induction false} PushSnoc(b: Builder<Action>, w: seq<nat>, x: nat)
    ensures Push(b, w + [x], true) ==
            if Push(b, w, true).None? then None else PushEdge(Push(b, w, true).value, x, None, true)
    decreases |w|
  {
    var r := PushEdge(b, (w + [x])[0], None, true);
    if w == [] {
      assert w + [x] == [x] && (w + [x])[1..] == [];
      assert r.Some? ==> PushTo(r.value, (w + [x])[1..], None, true) == r;
    } else {
      if r.Some? {
        PushSnoc(r.value, w[1..], x);
      }
      assert (w + [x])[1..] == w[1..] + [x];
    }
  }

  // Pushing a name goes to its state, creating the states of its prefixes.
  lemma {:induction false} PushBytes(b: Builder<Action>, t: Trie, root: nat, w: seq<byte>) returns (t': Trie)
    requires At(b, t, Node(root, []))
    ensures b.numStates + |w| < U16 ==> Push(b, w, true).Some?
    ensures Push(b, w, true).Some? ==>
              var r := Push(b, w, true).value;
              At(r, t', Node(root, w)) && t'.names == t.names && b.numStates <= r.numStates <= b.numStates + |w|
    ensures Push(b, w, true).Some? && w != [] ==>
              var p := Node(root, w[..|w| - 1]);
              p in t'.states && Push(b, w, true).value.lastEdges == [LastEdge(t'.states[p], w[|w| - 1], true)]
    decreases |w|
  {
    t' := t;
    if w != [] {
      var v, x := w[..|w| - 1], w[|w| - 1];
      assert w == v + [x];
      var t1 := PushBytes(b, t, root, v);
      PushSnoc(b, v, x);
      if Push(b, v, true).Some? {
        var b1 := Push(b, v, true).value;
        PushByte(b1, t1, Node(root, v), x);
        t' := Step(b1, t1, Node(root, v), x);
      }
    }
  }

  // The tries once the prefix `n` is a name to capture.
  function Name(t: Trie, n: Node, mid: u16): Trie {
    t.(names := t.names[n := mid])
  }

  lemma NameHolds(es: Edges<Action>, numStates: nat, t: Trie, p: Node, x: byte, mid: u16)
    requires Holds(es, numStates, t) && p in t.states && Child(p, x) in t.states
    ensures var c := Child(p, x);
            Holds(es[(t.states[p], x) := Edge(t.states[c], Some(Action(Capture, mid, 0)))], numStates, Name(t, c, mid))
  {
    var c := Child(p, x);
    var es' := es[(t.states[p], x) := Edge(t.states[c], Some(Action(Capture, mid, 0)))];
    forall s: nat, y: nat
      ensures Get(es', s, y) == Expected(Name(t, c, mid), s, y)
    {
      assert Get(es, s, y) == Expected(t, s, y);
      if s in t.labels && y < 256 && Child(t.labels[s], y) == c {
        ChildIsInjective(t.labels[s], p, y, x);
      }
    }
  }

  // Attaching an action to a single edge that carries none.
  lemma PlainWith(b: Builder<Action>, from: nat, x: nat, a: Action)
    requires b.optionalPrefixes == [] && b.lastEdges == [LastEdge(from, x, true)]
    requires (from, x) in b.edges && b.edges[(from, x)].action.None?
    ensures With(b, a) == Some(b.(edges := b.edges[(from, x) := Edge(b.edges[(from, x)].to, Some(a))]))
  {
    assert PushOptionalPrefixes(b) == Some(b);
    var l := b.lastEdges;
    assert l[1..] == [];
    var e := AddAction(b.edges, from, x, a).value;
    assert AddActions(e, l[1..], a) == Some(e);
  }

  lemma WithName(b: Builder<Action>, t: Trie, root: nat, v: seq<byte>, x: byte, mid: u16)
    requires At(b, t, Node(root, v + [x])) && Node(root, v) in t.states && Node(root, v + [x]) !in t.names
    requires b.lastEdges == [LastEdge(t.states[Node(root, v)], x, true)]
    ensures var r := With(b, Action(Capture, mid, 0));
            r.Some? && Holds(r.value.edges, r.value.numStates, Name(t, Node(root, v + [x]), mid))
            && r.value.numStates == b.numStates
  {
    var s := t.states[Node(root, v)];
    assert Get(b.edges, s, x) == Expected(t, s, x);
    PlainWith(b, s, x, Action(Capture, mid, 0));
    NameHolds(b.edges, b.numStates, t, Node(root, v), x, mid);
  }

  lemma AtRoot(b: Builder<Action>, t: Trie, root: nat)
    requires Holds(b.edges, b.numStates, t) && (root == S_NAME || root == S_NAME_PLAIN)
    requires b == StartPattern(b.numStates, b.edges, root)
    ensures At(b, t, Node(root, []))
  {}

  // Nothing was read that an action could be attached to.
  lemma WithNothing(b: Builder<Action>, t: Trie, n: Node, mid: u16)
    requires At(b, t, n) && b.lastEdges == []
    ensures With(b, Action(Capture, mid, 0)) == Some(b) && Holds(b.edges, b.numStates, t)
  {
    assert PushOptionalPrefixes(b) == Some(b);
  }

  lemma PushNothing(b: Builder<Action>)
    ensures Push(b, [], true) == Some(b)
  {}

  // What the DFA is after the pattern of a name was built, which only fails once there are
  // no state ids left.
  lemma NameAdded(numStates: nat, es: Edges<Action>, t: Trie, root: nat, w: seq<byte>, mid: u16) returns (t': Trie)
    requires Holds(es, numStates, t) && (root == S_NAME || root == S_NAME_PLAIN) && Node(root, w) !in t.names
    ensures var b := StartPattern(numStates, es, root);
            && (numStates + |w| < U16 ==> Push(b, w, true).Some?)
            && (Push(b, w, true).Some? ==>
                  var r := With(Push(b, w, true).value, Action(Capture, mid, 0));
                  r.Some? && Holds(r.value.edges, r.value.numStates, t') && r.value.numStates <= numStates + |w|)
    ensures t'.names == if w == [] then t.names else t.names[Node(root, w) := mid]
  {
    hide Holds, Push, With, At;
    var b := StartPattern(numStates, es, root);
    AtRoot(b, t, root);
    t' := t;
    if Push(b, w, true).Some? {
      t' := PushBytes(b, t, root, w);
      var q := Push(b, w, true).value;
      if w == [] {
        PushNothing(b);
        WithNothing(q, t', Node(root, w), mid);
      } else {
        var v, x := w[..|w| - 1], w[|w| - 1];
        assert w == v + [x];
        WithName(q, t', root, v, x, mid);
        t' := Name(t', Node(root, w), mid);
      }
    } else {
      var _ := PushBytes(b, t, root, w);
      t' := if w == [] then t else Name(t, Node(root, w), mid);
    }
  }

  // --- Matching a name ---

  // What the byte just read captures, or -1.
  function Capturing(a: Option<Action>): int {
    if a.Some? && a.value.kind.Capture? then a.value.val % MAX_MATCHES else -1
  }

  // The state the bytes of a name lead to, and what the last of them captures.
  function WalkName(es: Edges<Action>, s: nat, key: seq<byte>): (r: (nat, int))
    ensures -1 <= r.1 < MAX_MATCHES
  {
    if key == [] then (s, -1)
    else
      var n := Inject.Follow2(es, S_DEAD, WalkName(es, s, key[..|key| - 1]).0, key[|key| - 1]);
      (n.0, Capturing(n.1))
  }

  // A name captures what it is the name of.
  lemma {:induction false} WalkNameMatches(es: Edges<Action>, numStates: nat, t: Trie, root: nat, key: seq<byte>)
    requires Holds(es, numStates, t) && (root == S_NAME || root == S_NAME_PLAIN)
    ensures var n := Node(root, key);
            WalkName(es, root, key) ==
            (if n in t.states then t.states[n] else S_DEAD, if n in t.names then t.names[n] % MAX_MATCHES else -1)
  {
    if key != [] {
      var v, x := key[..|key| - 1], key[|key| - 1];
      assert key == v + [x];
      WalkNameMatches(es, numStates, t, root, v);
      var s := WalkName(es, root, v).0;
      assert Get(es, s, x) == Expected(t, s, x);
      if Node(root, v) !in t.states {
        assert S_DEAD !in t.labels;
        NoGrandchild(t, Node(root, v), x);
      }
    }
  }

  // The DFA that was just built holds no names.
  lemma NoNames(es: Edges<Action>)
    requires forall q: nat, c: nat :: Get(es, q, c) == if c < 256 then RowOf(q, c) else None
    ensures Holds(es, S_RESERVED, EMPTY_TRIE)
  {}
}
