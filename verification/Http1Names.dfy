// Capturing names one after the other, and then stopping at the empty line, keeps the DFA in
// the layout of module Http1Layout.
module Http1Names {
  import opened Base
  import opened Dfa
  import opened Http1Action
  import opened Http1Layout
  import opened Http1Build

  // --- The pattern of a header ---

  // The layout once the name `p` has its states, where `n` was the next id.
  function AddHdr(l: Layout, p: seq<byte>, mid: byte, n: nat): Layout {
    l.(hdrs := l.hdrs[p := Hdr(mid, n + 2, n + 5, n + 7, n + 10)],
       spots := l.spots[n + 2 := AtValue(p)][n + 5 := InValue(p)][n + 7 := AtCr][n + 10 := AtCr])
  }

  // The edges of a header, one by one.
  function HeaderRow(old': Row, l: nat, s: nat, n: nat, mid: byte, k: nat, x: nat): Row {
    var v, w := n + 2, n + 5;
    if k == s && (x == TAB || x == SP) then To(s)
    else if k == s && x == COLON then Do(v, StartCapture(mid))
    else if k == v && (x == TAB || x == SP) then Do(v, StartCapture(mid))
    else if (k == v || k == w) && x == ANY_INPUT then Do(w, EndCapture(mid))
    else if k == w && x == CR then To(n + 7)
    else if k == v && x == CR then To(n + 10)
    else if (k == v || k == w || k == n + 7 || k == n + 10) && x == LF then To(l)
    else old'
  }

  lemma ColonGet(es: Es, s: nat, n: nat, mid: byte, k: nat, x: nat)
    requires s < n
    ensures Get(ColonEdges(es, s, n, mid), k, x) ==
            if k == s && (x == TAB || x == SP) then To(s)
            else if (k == s && x == COLON) || (k == n + 2 && (x == TAB || x == SP)) then Do(n + 2, StartCapture(mid))
            else Get(es, k, x)
  {}

  lemma ValueGet(es: Es, v: nat, w: nat, mid: byte, k: nat, x: nat)
    ensures Get(ValueEdges(es, v, w, mid), k, x) ==
            if (k == v || k == w) && x == ANY_INPUT then Do(w, EndCapture(mid)) else Get(es, k, x)
  {}

  lemma LineGet(es: Es, s: nat, cr: nat, l: nat, k: nat, x: nat)
    requires s != cr
    ensures Get(LineEdges(es, s, cr, l), k, x) ==
            if k == s && x == CR then To(cr) else if (k == s || k == cr) && x == LF then To(l) else Get(es, k, x)
  {}

  lemma HeaderGet(es: Es, l: nat, s: nat, n: nat, mid: byte, k: nat, x: nat)
    requires s < n
    ensures Get(HeaderEdges(es, l, s, n, mid), k, x) == HeaderRow(Get(es, k, x), l, s, n, mid, k, x)
  {
    hide ColonEdges, ValueEdges, LineEdges, Get;
    var v, w := n + 2, n + 5;
    var e1 := ColonEdges(es, s, n, mid);
    var e2 := ValueEdges(e1, v, w, mid);
    var e3 := LineEdges(e2, w, n + 7, l);
    ColonGet(es, s, n, mid, k, x);
    ValueGet(e1, v, w, mid, k, x);
    LineGet(e2, w, n + 7, l, k, x);
    LineGet(e3, v, n + 10, l, k, x);
  }

  // The state of the name reads blanks and a colon now.
  lemma ExpectedAtName(l: Layout, p: seq<byte>, mid: byte, n: nat, x: nat)
    requires WellFormed(l, n) && p in l.nodes && p != [] && p !in l.hdrs && [] in l.nodes
    ensures var k := l.nodes[p];
            Expected(AddHdr(l, p, mid, n), k, x) == HeaderRow(Expected(l, k, x), l.nodes[[]], k, n, mid, k, x)
  {
    assert IsSpot(l, l.nodes[p], AtPrefix(p));
    if x < 256 && p + [Lower(x)] in l.nodes {
      assert Lower(x) in p + [Lower(x)];
      assert IsNameByte(Lower(x));
    }
  }

  lemma ExpectedNew(l: Layout, p: seq<byte>, mid: byte, n: nat, k: nat, x: nat)
    requires WellFormed(l, n) && p in l.nodes && p != [] && p !in l.hdrs && [] in l.nodes
    requires k == n + 2 || k == n + 5 || k == n + 7 || k == n + 10
    ensures Expected(AddHdr(l, p, mid, n), k, x) == HeaderRow(Expected(l, k, x), l.nodes[[]], l.nodes[p], n, mid, k, x)
  {
    assert IsSpot(l, l.nodes[p], AtPrefix(p));
    assert k !in l.spots;
  }

  lemma ExpectedOld(l: Layout, p: seq<byte>, mid: byte, n: nat, k: nat, x: nat)
    requires WellFormed(l, n) && p in l.nodes && p != [] && p !in l.hdrs && [] in l.nodes
    requires k != l.nodes[p] && k != n + 2 && k != n + 5 && k != n + 7 && k != n + 10
    ensures Expected(AddHdr(l, p, mid, n), k, x) == Expected(l, k, x)
  {
    if k in l.spots {
      match l.spots[k]
      case AtPrefix(q) => assert q != p;
      case AtValue(q) => assert q in l.hdrs;
      case InValue(q) => assert q in l.hdrs;
      case _ =>
    }
  }

  lemma HeaderExpected(l: Layout, p: seq<byte>, mid: byte, n: nat, k: nat, x: nat)
    requires WellFormed(l, n) && p in l.nodes && p != [] && p !in l.hdrs && [] in l.nodes
    ensures Expected(AddHdr(l, p, mid, n), k, x) == HeaderRow(Expected(l, k, x), l.nodes[[]], l.nodes[p], n, mid, k, x)
  {
    hide Expected, WellFormed, AddHdr;
    if k == l.nodes[p] {
      ExpectedAtName(l, p, mid, n, x);
    } else if k == n + 2 || k == n + 5 || k == n + 7 || k == n + 10 {
      ExpectedNew(l, p, mid, n, k, x);
    } else {
      ExpectedOld(l, p, mid, n, k, x);
    }
  }

  lemma AddHdrHdr(l: Layout, p: seq<byte>, mid: byte, n: nat, q: seq<byte>)
    requires SpotsWellFormed(l, n) && q in l.hdrs && HdrWellFormed(l, q) && q != p
    ensures HdrWellFormed(AddHdr(l, p, mid, n), q)
  {}

  lemma AddHdrHdrs(l: Layout, p: seq<byte>, mid: byte, n: nat)
    requires WellFormed(l, n) && p in l.nodes && p != [] && p !in l.hdrs && mid < MAX_MATCHES
    ensures HdrsWellFormed(AddHdr(l, p, mid, n))
  {
    hide NodesWellFormed, SpotsWellFormed;
    forall q <- AddHdr(l, p, mid, n).hdrs
      ensures HdrWellFormed(AddHdr(l, p, mid, n), q)
    {
      if q != p {
        AddHdrHdr(l, p, mid, n, q);
      }
    }
  }

  lemma AddHdrNodes(l: Layout, p: seq<byte>, mid: byte, n: nat)
    requires WellFormed(l, n) && p in l.nodes
    ensures NodesWellFormed(AddHdr(l, p, mid, n))
  {
    hide HdrsWellFormed;
    forall q <- l.nodes
      ensures l.nodes[q] < n
    {
      assert IsSpot(l, l.nodes[q], AtPrefix(q));
    }
  }

  lemma AddHdrSpots(l: Layout, p: seq<byte>, mid: byte, n: nat)
    requires WellFormed(l, n) && p !in l.hdrs
    ensures SpotsWellFormed(AddHdr(l, p, mid, n), n + 13)
  {
    hide HdrsWellFormed, NodesWellFormed;
  }

  lemma AddHdrWellFormed(l: Layout, p: seq<byte>, mid: byte, n: nat)
    requires WellFormed(l, n) && p in l.nodes && p != [] && p !in l.hdrs && mid < MAX_MATCHES
    ensures WellFormed(AddHdr(l, p, mid, n), n + 13)
  {
    hide HdrsWellFormed, NodesWellFormed, SpotsWellFormed;
    AddHdrHdrs(l, p, mid, n);
    AddHdrNodes(l, p, mid, n);
    AddHdrSpots(l, p, mid, n);
    if l.ends.Some? {
      EndsExist(l, n);
    }
  }

  lemma EndsExist(l: Layout, n: nat)
    requires WellFormed(l, n) && l.ends.Some?
    ensures 2 <= l.ends.value.cr < n && 2 <= l.ends.value.crLine < n && 2 <= l.ends.value.done < n
  {
    assert IsSpot(l, l.ends.value.cr, AtCr) && IsSpot(l, l.ends.value.crLine, AtCrLine)
        && IsSpot(l, l.ends.value.done, AtDone);
  }

  lemma HeaderHolds(es: Es, n: nat, l: Layout, p: seq<byte>, mid: byte)
    requires Holds(es, n, l) && p in l.nodes && p != [] && p !in l.hdrs && mid < MAX_MATCHES
    ensures [] in l.nodes && Holds(HeaderEdges(es, l.nodes[[]], l.nodes[p], n, mid), n + 13, AddHdr(l, p, mid, n))
  {
    hide HeaderEdges, HeaderRow, Expected, WellFormed;
    AddHdrWellFormed(l, p, mid, n);
    NodesExist(l, n, p);
    forall k: nat, x: nat
      ensures Get(HeaderEdges(es, l.nodes[[]], l.nodes[p], n, mid), k, x) == Expected(AddHdr(l, p, mid, n), k, x)
    {
      assert Get(es, k, x) == Expected(l, k, x);
      HeaderGet(es, l.nodes[[]], l.nodes[p], n, mid, k, x);
      HeaderExpected(l, p, mid, n, k, x);
    }
  }

  lemma NodesExist(l: Layout, n: nat, p: seq<byte>)
    requires WellFormed(l, n) && p in l.nodes
    ensures [] in l.nodes && 2 <= l.nodes[p] < n && 2 <= l.nodes[[]] < n
  {
    assert IsSpot(l, l.nodes[p], AtPrefix(p)) && IsSpot(l, l.nodes[[]], AtPrefix([]));
  }

  // --- The bytes of a name ---

  // The layout once the prefix `p` has the state `s`.
  function AddNode(l: Layout, p: seq<byte>, s: nat): Layout {
    l.(nodes := l.nodes[p := s], spots := l.spots[s := AtPrefix(p)])
  }

  // The edges to the prefix behind `s`, for both cases of a letter.
  function NameEdges(es: Es, s: nat, x: byte, t: nat): Es {
    var e := es[(s, x as nat) := Edge(t, None)];
    if OtherCase(x).Some? then e[(s, OtherCase(x).value) := Edge(t, None)] else e
  }

  lemma NameGet(es: Es, s: nat, x: byte, t: nat, k: nat, y: nat)
    requires IsNameByte(x)
    ensures Get(NameEdges(es, s, x, t), k, y) == if k == s && y < 256 && Lower(y) == x then To(t) else Get(es, k, y)
  {}

  lemma NodeWellFormed(l: Layout, n: nat, p: seq<byte>, x: byte)
    requires WellFormed(l, n) && p in l.nodes && IsNameByte(x) && p + [x] !in l.nodes
    ensures WellFormed(AddNode(l, p + [x], n), n + 1)
  {
    var l', q := AddNode(l, p + [x], n), p + [x];
    assert q[..|q| - 1] == p;
    NodesExist(l, n, p);
    NodeHdrs(l, n, q);
    NodeSpots(l, n, q);
    NodeNodes(l, n, p, x);
    if l.ends.Some? {
      EndsExist(l, n);
    }
  }

  lemma NodeHdrs(l: Layout, n: nat, q: seq<byte>)
    requires HdrsWellFormed(l) && SpotsWellFormed(l, n) && q !in l.nodes
    ensures HdrsWellFormed(AddNode(l, q, n))
  {
    forall p <- l.hdrs
      ensures HdrWellFormed(AddNode(l, q, n), p)
    {
      assert HdrWellFormed(l, p);
    }
  }

  lemma NodeSpots(l: Layout, n: nat, q: seq<byte>)
    requires n >= 2 && SpotsWellFormed(l, n) && q !in l.nodes
    ensures SpotsWellFormed(AddNode(l, q, n), n + 1)
  {}

  lemma NodeNodes(l: Layout, n: nat, p: seq<byte>, x: byte)
    requires NodesWellFormed(l) && SpotsWellFormed(l, n) && p in l.nodes && IsNameByte(x) && p + [x] !in l.nodes
    ensures NodesWellFormed(AddNode(l, p + [x], n))
  {
    var q := p + [x];
    assert q[..|q| - 1] == p;
    forall r <- l.nodes
      ensures l.nodes[r] != n
    {
      assert IsSpot(l, l.nodes[r], AtPrefix(r));
    }
  }

  lemma SamePrefix(p: seq<byte>, x: byte, q: seq<byte>, y: byte)
    requires p + [x] == q + [y]
    ensures p == q && x == y
  {
    assert (p + [x])[..|p|] == p && (q + [y])[..|p|] == q && (p + [x])[|p|] == x;
  }

  lemma NamesHaveNodes(l: Layout, q: seq<byte>)
    requires HdrsWellFormed(l) && q !in l.nodes
    ensures q !in l.hdrs
  {
    assert forall p <- l.hdrs :: HdrWellFormed(l, p);
  }

  // The new state has no transition yet.
  lemma ExpectedAtNew(l: Layout, n: nat, q: seq<byte>, y: nat)
    requires WellFormed(l, n) && q !in l.nodes && q != []
    ensures Expected(AddNode(l, q, n), n, y) == None && Expected(l, n, y) == None
  {
    assert n !in l.spots;
    NamesHaveNodes(l, q);
    if y < 256 {
      assert (q + [Lower(y)])[..|q + [Lower(y)]| - 1] == q;
      assert q + [Lower(y)] !in l.nodes && q + [Lower(y)] != q;
    }
  }

  lemma NodeExpected(l: Layout, n: nat, p: seq<byte>, x: byte, k: nat, y: nat)
    requires WellFormed(l, n) && p in l.nodes && IsNameByte(x) && p + [x] !in l.nodes
    ensures Expected(AddNode(l, p + [x], n), k, y) ==
            if k == l.nodes[p] && y < 256 && Lower(y) == x then To(n) else Expected(l, k, y)
  {
    var q := p + [x];
    NodesExist(l, n, p);
    if k == n {
      ExpectedAtNew(l, n, q, y);
    } else if k in l.spots && l.spots[k].AtPrefix? && y < 256 {
      ExpectedAtPrefix(l, n, p, x, k, y);
    }
  }

  lemma ExpectedAtPrefix(l: Layout, n: nat, p: seq<byte>, x: byte, k: nat, y: byte)
    requires WellFormed(l, n) && p in l.nodes && IsNameByte(x) && p + [x] !in l.nodes
    requires k != n && k in l.spots && l.spots[k].AtPrefix?
    ensures Expected(AddNode(l, p + [x], n), k, y) ==
            if k == l.nodes[p] && Lower(y) == x then To(n) else Expected(l, k, y)
  {
    assert IsSpot(l, l.nodes[p], AtPrefix(p));
    if l.spots[k].p + [Lower(y)] == p + [x] {
      SamePrefix(l.spots[k].p, Lower(y), p, x);
    }
  }

  lemma NodeHolds(es: Es, n: nat, l: Layout, p: seq<byte>, x: byte)
    requires Holds(es, n, l) && p in l.nodes && IsNameByte(x) && p + [x] !in l.nodes
    ensures Holds(NameEdges(es, l.nodes[p], x, n), n + 1, AddNode(l, p + [x], n))
  {
    hide NameEdges, Expected, WellFormed, Get;
    NodeWellFormed(l, n, p, x);
    forall k: nat, y: nat
      ensures Get(NameEdges(es, l.nodes[p], x, n), k, y) == Expected(AddNode(l, p + [x], n), k, y)
    {
      assert Get(es, k, y) == Expected(l, k, y);
      NameGet(es, l.nodes[p], x, n, k, y);
      NodeExpected(l, n, p, x, k, y);
    }
  }

  // --- Pushing the name ---

  // A builder in the state `l` gives the prefix `p`, with nothing pending.
  ghost predicate At(b: B, l: Layout, p: seq<byte>) {
    && Holds(b.edges, b.numStates, l)
    && p in l.nodes && b.state == l.nodes[p]
    && b.optionalPrefixes == [] && b.optionalStates == []
  }

  // A new edge for both cases of a byte.
  lemma FreshName(b: B, x: byte)
    requires IsNameByte(x) && (b.state, x as nat) !in b.edges && b.numStates + 1 < U16
    requires OtherCase(x).Some? ==> (b.state, OtherCase(x).value) !in b.edges
    ensures PushEdgeFrom(b, b.state, x, None, false) ==
            Some((b.(numStates := b.numStates + 1, edges := NameEdges(b.edges, b.state, x, b.numStates)), b.numStates))
  {}

  lemma KnownName(b: B, x: byte, t: nat)
    requires (b.state, x as nat) in b.edges && b.edges[(b.state, x as nat)] == Edge(t, None)
    requires OtherCase(x).Some? ==>
               (b.state, OtherCase(x).value) in b.edges && b.edges[(b.state, OtherCase(x).value)] == Edge(t, None)
    ensures PushEdgeFrom(b, b.state, x, None, false) == Some((b, t))
  {}

  // The layout once the prefix behind `p` has a state.
  function Grown(b: B, l: Layout, p: seq<byte>, x: byte): Layout {
    if p + [x] in l.nodes then l else AddNode(l, p + [x], b.numStates)
  }

  lemma StepRead(b: B, l: Layout, p: seq<byte>, x: byte)
    requires At(b, l, p) && IsNameByte(x)
    ensures var row := if p + [x] in l.nodes then To(l.nodes[p + [x]]) else None;
            && Get(b.edges, b.state, x) == row
            && (OtherCase(x).Some? ==> Get(b.edges, b.state, OtherCase(x).value) == row)
  {
    assert IsSpot(l, l.nodes[p], AtPrefix(p));
    assert Get(b.edges, b.state, x) == Expected(l, b.state, x);
    if OtherCase(x).Some? {
      assert Get(b.edges, b.state, OtherCase(x).value) == Expected(l, b.state, OtherCase(x).value);
    }
  }

  lemma PushNameByte(b: B, l: Layout, p: seq<byte>, x: byte)
    requires At(b, l, p) && IsNameByte(x)
    ensures b.numStates + 1 < U16 || p + [x] in l.nodes ==> PushEdge(b, x, None, false).Some?
    ensures PushEdge(b, x, None, false).Some? ==>
            var r := PushEdge(b, x, None, false).value;
            At(r, Grown(b, l, p, x), p + [x]) && b.numStates <= r.numStates <= b.numStates + 1
  {
    hide PushEdge, PushOptionalPrefixes, PushEdgeFrom, NameEdges, Expected, WellFormed;
    NoPrefixes(b);
    EdgeBehind(b, b, x, None, false);
    StepRead(b, l, p, x);
    if p + [x] in l.nodes {
      KnownName(b, x, l.nodes[p + [x]]);
    } else if b.numStates + 1 < U16 {
      FreshName(b, x);
      NodeHolds(b.edges, b.numStates, l, p, x);
    } else {
      NoneLeft(b, x);
    }
  }

  lemma NoneLeft(b: B, x: nat)
    requires (b.state, x) !in b.edges && b.numStates + 1 >= U16
    ensures PushEdgeFrom(b, b.state, x, None, false).None?
  {}

  lemma {:induction false} PushNameSnoc(b: B, w: seq<nat>, x: nat)
    ensures Push(b, w + [x], false) ==
            if Push(b, w, false).None? then None else PushEdge(Push(b, w, false).value, x, None, false)
    decreases |w|
  {
    hide PushEdge;
    var r := PushEdge(b, (w + [x])[0], None, false);
    if w == [] {
      assert w + [x] == [x] && (w + [x])[1..] == [];
      assert r.Some? ==> PushTo(r.value, (w + [x])[1..], None, false) == r;
    } else {
      if r.Some? {
        PushNameSnoc(r.value, w[1..], x);
      }
      assert (w + [x])[1..] == w[1..] + [x];
    }
  }

  // Pushing a name goes to its state. It only fails once there are no state ids left.
  lemma {:induction false} PushName(b: B, l: Layout, w: seq<byte>) returns (l': Layout)
    requires At(b, l, []) && forall x <- w :: IsNameByte(x)
    ensures b.numStates + |w| < U16 ==> Push(b, w, false).Some?
    ensures Push(b, w, false).Some? ==>
              var r := Push(b, w, false).value;
              At(r, l', w) && l'.hdrs == l.hdrs && l'.ends == l.ends && b.numStates <= r.numStates <= b.numStates + |w|
    decreases |w|
  {
    hide PushEdge, Holds;
    l' := l;
    if w != [] {
      var v, x := w[..|w| - 1], w[|w| - 1];
      assert w == v + [x];
      var l1 := PushName(b, l, v);
      PushNameSnoc(b, v, x);
      if Push(b, v, false).Some? {
        var b1 := Push(b, v, false).value;
        PushNameByte(b1, l1, v, x);
        l' := Grown(b1, l1, v, x);
      }
    }
  }

  // --- The start of a line ---

  lemma NamesAreNodes(l: Layout)
    requires HdrsWellFormed(l)
    ensures forall p <- l.hdrs :: p in l.nodes
  {
    assert forall p <- l.hdrs :: HdrWellFormed(l, p);
  }

  // The layout once a line begins in the state `t`.
  lemma LineHolds(es: Es, n: nat, l: Layout, t: nat, m: nat)
    requires Holds(es, n, l) && [] !in l.nodes && n <= t < m
    ensures Holds(es[(ANY_STATE, LF as nat) := Edge(t, None)], m, AddNode(l, [], t))
  {
    var l', es' := AddNode(l, [], t), es[(ANY_STATE, LF as nat) := Edge(t, None)];
    assert l.nodes == map[] && l.spots == map[] && l.ends.None?;
    NamesAreNodes(l);
    assert l.hdrs == map[];
    forall k: nat, x: nat
      ensures Get(es', k, x) == Expected(l', k, x)
    {
      assert Get(es, k, x) == Expected(l, k, x);
      assert x < 256 ==> [] + [Lower(x)] != [];
    }
  }

  // Behind a line feed, from anywhere.
  lemma PushLine(n: nat, es: Es, l: Layout) returns (l': Layout)
    requires Holds(es, n, l) && n + 1 < U16
    ensures var r := Push(StartPattern(n, es, ANY_STATE), [LF as nat], true);
            r.Some? && At(r.value, l', []) && n <= r.value.numStates <= n + 1
    ensures l'.hdrs == l.hdrs && l'.ends == l.ends
  {
    hide PushEdge, PushOptionalPrefixes, PushEdgeFrom, WellFormed;
    var b := StartPattern(n, es, ANY_STATE);
    NoPrefixes(b);
    PushOne(b, LF, None, true);
    EdgeBehind(b, b, LF, None, true);
    assert Get(es, ANY_STATE, LF) == Expected(l, ANY_STATE, LF);
    if [] in l.nodes {
      l' := l;
      Known(b, ANY_STATE, LF, None, true);
    } else {
      l' := AddNode(l, [], n);
      Fresh(b, ANY_STATE, LF, None, true);
      LineHolds(es, n, l, n, n + 1);
    }
  }

  // --- A whole header ---

  // What `capture_new_hdr` makes of the DFA.
  function CaptureNewHdr(n: nat, es: Es, name: seq<byte>, mid: byte): Option<B> {
    var b1 := Push(StartPattern(n, es, ANY_STATE), [LF as nat], true);
    if b1.None? then None
    else
      var b2 := Push(b1.value, name, false);
      if b2.None? then None else PushHeader(b2.value, mid)
  }

  lemma HoldsEdges(es: Es, n: nat, l: Layout, p: seq<byte>)
    requires Holds(es, n, l) && p in l.nodes && p != [] && p !in l.hdrs && [] in l.nodes
    ensures Lines(es, l.nodes[[]]) && Clear(es, n) && 2 <= l.nodes[p] < n
    ensures var s := l.nodes[p]; (s, TAB as nat) !in es && (s, SP as nat) !in es && (s, COLON as nat) !in es
  {
    NodesExist(l, n, p);
    assert Get(es, ANY_STATE, LF) == Expected(l, ANY_STATE, LF);
    forall k: nat, x: nat {:trigger (k, x)} | k >= n
      ensures (k, x) !in es
    {
      assert Get(es, k, x) == Expected(l, k, x);
    }
    var s := l.nodes[p];
    assert IsSpot(l, s, AtPrefix(p));
    NotNameBytes(l, p);
    assert Get(es, s, TAB) == Expected(l, s, TAB) && Get(es, s, SP) == Expected(l, s, SP)
        && Get(es, s, COLON) == Expected(l, s, COLON);
  }

  // No name goes on with a blank, a colon or the end of a line.
  lemma NotNameBytes(l: Layout, p: seq<byte>)
    requires NodesWellFormed(l)
    ensures forall x: byte :: x == TAB || x == SP || x == COLON || x == CR || x == LF ==>
            Lower(x) == x && p + [x] !in l.nodes
  {
    forall x: byte
      ensures p + [x] in l.nodes ==> IsNameByte(x)
    {
      assert x in p + [x];
    }
  }

  // The DFA keeps its layout, to which the new name is added.
  lemma NewHdrHolds(n: nat, es: Es, l: Layout, name: seq<byte>, mid: byte) returns (l': Layout)
    requires Holds(es, n, l) && IsName(name) && name !in l.hdrs && mid < MAX_MATCHES && n + |name| + 14 < U16
    ensures var r := CaptureNewHdr(n, es, name, mid);
            r.Some? && Holds(r.value.edges, r.value.numStates, l') && r.value.numStates <= n + |name| + 14
    ensures name in l'.hdrs && l'.hdrs[name].mid == mid && l'.hdrs == l.hdrs[name := l'.hdrs[name]] && l'.ends == l.ends
  {
    hide Holds, Push, PushHeader;
    var l1 := PushLine(n, es, l);
    var b1 := Push(StartPattern(n, es, ANY_STATE), [LF as nat], true).value;
    var l2 := PushName(b1, l1, name);
    var b2 := Push(b1, name, false).value;
    LineExists(b2.edges, b2.numStates, l2, name);
    HoldsEdges(b2.edges, b2.numStates, l2, name);
    HeaderPushed(b2, l2.nodes[[]], mid);
    HeaderHolds(b2.edges, b2.numStates, l2, name, mid);
    l' := AddHdr(l2, name, mid, b2.numStates);
  }

  lemma LineExists(es: Es, n: nat, l: Layout, p: seq<byte>)
    requires Holds(es, n, l) && p in l.nodes
    ensures [] in l.nodes
  {}

  // --- The empty line ---

  // What `done_on_hdr_end` makes of the DFA.
  function DoneOnHdrEnd(n: nat, es: Es): Option<B> {
    var b1 := Push(PushOptional(StartPattern(n, es, ANY_STATE), [CR as nat], false), [LF as nat], true);
    if b1.None? then None
    else
      var b2 := Push(PushOptional(b1.value, [CR as nat], false), [LF as nat], true);
      if b2.None? then None else With(b2.value, Done)
  }

  // A line end, which may be there already.
  lemma LinePushed(b: B, t: nat, known: bool)
    requires b.optionalPrefixes == [] && b.optionalStates == [] && b.numStates + 3 < U16 && b.state < b.numStates
    requires (b.state, CR as nat) !in b.edges && (b.numStates, LF as nat) !in b.edges
    requires if known then (b.state, LF as nat) in b.edges && b.edges[(b.state, LF as nat)] == Edge(t, None)
             else (b.state, LF as nat) !in b.edges && t == b.numStates + 1
    ensures var s, n := b.state, b.numStates;
            var r := Push(PushOptional(b, [CR as nat], false), [LF as nat], true);
            && r.Some?
            && r.value == StartPattern(if known then n + 2 else n + 3, LineEdges(b.edges, s, n, t), t)
                            .(lastEdges := [LastEdge(s, LF, true), LastEdge(n, LF, true)])
  {
    hide PushEdge, PushOptionalPrefixes, PushEdgeFrom;
    var s, n := b.state, b.numStates;
    assert [] + [OPTIONAL_CR[0]] == OPTIONAL_CR;
    var b1 := b.(optionalPrefixes := OPTIONAL_CR);
    FlushCr(b1);
    var f := PushOptionalPrefixes(b1).value;
    PushOne(b1, LF, None, true);
    if known {
      Known(f, s, LF, None, true);
      assert f.edges[(s, LF as nat) := Edge(t, None)] == f.edges;
    } else {
      Fresh(f, s, LF, None, true);
    }
    var g := PushEdgeFrom(f, s, LF, None, true).value.0;
    EdgeBehindOne(b1, f, n, LF, None, true, g, t);
  }

  // Both edges into the state behind the empty line are done.
  lemma DonePushed(b: B, s: nat, q: nat, d: nat)
    requires b.optionalPrefixes == [] && s != q && b.lastEdges == [LastEdge(s, LF, true), LastEdge(q, LF, true)]
    requires (s, LF as nat) in b.edges && b.edges[(s, LF as nat)] == Edge(d, None)
    requires (q, LF as nat) in b.edges && b.edges[(q, LF as nat)] == Edge(d, None)
    ensures With(b, Done) ==
            Some(b.(edges := b.edges[(s, LF as nat) := Edge(d, Some(Done))][(q, LF as nat) := Edge(d, Some(Done))]))
  {
    hide PushOptionalPrefixes, AddActions;
    NoPrefixes(b);
    WithBehind(b, b, Done);
    var l0, l1 := LastEdge(s, LF, true), LastEdge(q, LF, true);
    assert b.lastEdges == [l0] + [l1] && [l1] == [l1] + [];
    OneAction(b.edges, l0, [l1], Done);
    var e0 := b.edges[(s, LF as nat) := Edge(d, Some(Done))];
    OneAction(e0, l1, [], Done);
    NoActions(e0[(q, LF as nat) := Edge(d, Some(Done))], Done);
  }

  // The edges of the empty line, where `t` begins a line.
  function DoneEdges(es: Es, t: nat, c: nat, q: nat, d: nat): Es {
    LineEdges(LineEdges(es, ANY_STATE, c, t), t, q, d)
        [(t, LF as nat) := Edge(d, Some(Done))][(q, LF as nat) := Edge(d, Some(Done))]
  }

  lemma DoneBuilt(n: nat, es: Es, t: nat, known: bool)
    requires Clear(es, n) && (ANY_STATE, CR as nat) !in es && n + 6 < U16 && n >= 2
    requires if known then Lines(es, t) && 2 <= t < n && (t, CR as nat) !in es && (t, LF as nat) !in es
             else (ANY_STATE, LF as nat) !in es && t == n + 1
    ensures var m := if known then n + 2 else n + 3;
            var r := DoneOnHdrEnd(n, es);
            r.Some? && r.value.numStates == m + 3 && r.value.edges == DoneEdges(es, t, n, m, m + 1)
  {
    hide Push, With;
    var b := StartPattern(n, es, ANY_STATE);
    LinePushed(b, t, known);
    var b1 := Push(PushOptional(b, [CR as nat], false), [LF as nat], true).value;
    var m := b1.numStates;
    var b2 := b1.(lastEdges := []);
    LinePushedAnyway(b1, m + 1);
    var b3 := Push(PushOptional(b1, [CR as nat], false), [LF as nat], true).value;
    DonePushed(b3, t, m, m + 1);
  }

  lemma LinePushedAnyway(b: B, t: nat)
    requires b.optionalPrefixes == [] && b.optionalStates == [] && b.numStates + 3 < U16 && b.state < b.numStates
    requires (b.state, CR as nat) !in b.edges && (b.numStates, LF as nat) !in b.edges
    requires (b.state, LF as nat) !in b.edges
    requires t == b.numStates + 1
    ensures var s, n := b.state, b.numStates;
            Push(PushOptional(b, [CR as nat], false), [LF as nat], true) ==
            Some(StartPattern(n + 3, LineEdges(b.edges, s, n, t), t)
              .(lastEdges := [LastEdge(s, LF, true), LastEdge(n, LF, true)]))
  {
    hide Push;
    LinePushed(b, t, false);
  }

  // The layout with the empty line, whose states are `c`, `q` and `d`.
  function AddEnds(l: Layout, c: nat, q: nat, d: nat): Layout {
    l.(ends := Some(Ends(c, q, d)), spots := l.spots[c := AtCr][q := AtCrLine][d := AtDone])
  }

  function DoneRow(old': Row, t: nat, c: nat, q: nat, d: nat, k: nat, x: nat): Row {
    if k == ANY_STATE && x == CR then To(c)
    else if (k == ANY_STATE || k == c) && x == LF then To(t)
    else if k == t && x == CR then To(q)
    else if (k == t || k == q) && x == LF then Do(d, Done)
    else old'
  }

  lemma DoneGet(es: Es, t: nat, c: nat, q: nat, d: nat, k: nat, x: nat)
    requires t != ANY_STATE && c != ANY_STATE && q != ANY_STATE && t != c && t != q && c != q
    ensures Get(DoneEdges(es, t, c, q, d), k, x) == DoneRow(Get(es, k, x), t, c, q, d, k, x)
  {
    hide LineEdges;
    var e1 := LineEdges(es, ANY_STATE, c, t);
    LineGet(es, ANY_STATE, c, t, k, x);
    LineGet(e1, t, q, d, k, x);
  }

  // Whether `c`, `q` and `d` are new states below `m`.
  predicate NewStates(l: Layout, c: nat, q: nat, d: nat, m: nat) {
    && 2 <= c < m && 2 <= q < m && 2 <= d < m && c != q && c != d && q != d
    && c !in l.spots && q !in l.spots && d !in l.spots
  }

  lemma DoneExpected(l: Layout, n: nat, c: nat, q: nat, d: nat, m: nat, k: nat, x: nat)
    requires WellFormed(l, n) && [] in l.nodes && l.ends.None? && NewStates(l, c, q, d, m)
    ensures Expected(AddEnds(l, c, q, d), k, x) == DoneRow(Expected(l, k, x), l.nodes[[]], c, q, d, k, x)
  {
    assert IsSpot(l, l.nodes[[]], AtPrefix([]));
    NotNameBytes(l, []);
    NamesNotEmpty(l);
    if k in l.spots && l.spots[k].AtPrefix? && k != l.nodes[[]] {
      assert l.spots[k].p != [];
    }
  }

  lemma NamesNotEmpty(l: Layout)
    requires HdrsWellFormed(l)
    ensures [] !in l.hdrs
  {
    assert forall p <- l.hdrs :: HdrWellFormed(l, p) && p != [];
  }

  lemma EndsWellFormed(l: Layout, n: nat, c: nat, q: nat, d: nat, m: nat)
    requires WellFormed(l, n) && [] in l.nodes && l.ends.None? && NewStates(l, c, q, d, m) && n <= m
    ensures WellFormed(AddEnds(l, c, q, d), m)
  {
    var l' := AddEnds(l, c, q, d);
    forall p <- l.hdrs
      ensures HdrWellFormed(l', p)
    {
      assert HdrWellFormed(l, p);
    }
    forall p <- l.nodes
      ensures IsSpot(l', l.nodes[p], AtPrefix(p))
    {
      assert IsSpot(l, l.nodes[p], AtPrefix(p));
    }
  }

  lemma DoneHolds(es: Es, n: nat, l: Layout, c: nat, q: nat, d: nat, m: nat)
    requires Holds(es, n, l) && [] in l.nodes && l.ends.None? && NewStates(l, c, q, d, m) && n <= m
    ensures Holds(DoneEdges(es, l.nodes[[]], c, q, d), m, AddEnds(l, c, q, d))
  {
    hide DoneEdges, DoneRow, Expected, WellFormed, Get;
    EndsWellFormed(l, n, c, q, d, m);
    LineSpot(l, n);
    forall k: nat, x: nat
      ensures Get(DoneEdges(es, l.nodes[[]], c, q, d), k, x) == Expected(AddEnds(l, c, q, d), k, x)
    {
      assert Get(es, k, x) == Expected(l, k, x);
      DoneGet(es, l.nodes[[]], c, q, d, k, x);
      DoneExpected(l, n, c, q, d, m, k, x);
    }
  }

  lemma LineSpot(l: Layout, n: nat)
    requires WellFormed(l, n) && [] in l.nodes
    ensures 2 <= l.nodes[[]] < n && l.nodes[[]] in l.spots
  {
    assert IsSpot(l, l.nodes[[]], AtPrefix([]));
  }

  lemma EndEdgesFree(es: Es, n: nat, l: Layout)
    requires Holds(es, n, l) && l.ends.None?
    ensures Clear(es, n) && (ANY_STATE, CR as nat) !in es
    ensures if [] in l.nodes then var t := l.nodes[[]];
               Lines(es, t) && 2 <= t < n && (t, CR as nat) !in es && (t, LF as nat) !in es
            else (ANY_STATE, LF as nat) !in es
  {
    assert Get(es, ANY_STATE, CR) == Expected(l, ANY_STATE, CR) && Get(es, ANY_STATE, LF) == Expected(l, ANY_STATE, LF);
    forall k: nat, x: nat {:trigger (k, x)} | k >= n
      ensures (k, x) !in es
    {
      assert Get(es, k, x) == Expected(l, k, x);
    }
    if [] in l.nodes {
      var t := l.nodes[[]];
      LineSpot(l, n);
      assert IsSpot(l, t, AtPrefix([]));
      NotNameBytes(l, []);
      NamesNotEmpty(l);
      assert Get(es, t, CR) == Expected(l, t, CR) && Get(es, t, LF) == Expected(l, t, LF);
    }
  }

  lemma SpotsBelow(es: Es, n: nat, l: Layout)
    requires Holds(es, n, l)
    ensures n >= 2 && forall s <- l.spots :: s < n
  {}

  // The DFA keeps its layout, to which the empty line is added.
  lemma DoneOnHdrEndHolds(n: nat, es: Es, l: Layout) returns (l': Layout)
    requires Holds(es, n, l) && l.ends.None? && n + 6 < U16
    ensures var r := DoneOnHdrEnd(n, es);
            r.Some? && Holds(r.value.edges, r.value.numStates, l') && r.value.numStates <= n + 6
    ensures l'.hdrs == l.hdrs && l'.ends.Some?
  {
    hide DoneOnHdrEnd, Expected, DoneEdges, Lines, Clear, WellFormed, Holds, Get;
    EndEdgesFree(es, n, l);
    SpotsBelow(es, n, l);
    if [] in l.nodes {
      DoneBuilt(n, es, l.nodes[[]], true);
      DoneHolds(es, n, l, n, n + 2, n + 3, n + 5);
      l' := AddEnds(l, n, n + 2, n + 3);
    } else {
      DoneBuilt(n, es, n + 1, false);
      var es0, l0 := es[(ANY_STATE, LF as nat) := Edge(n + 1, None)], AddNode(l, [], n + 1);
      LineHolds(es, n, l, n + 1, n + 2);
      DoneHolds(es0, n + 2, l0, n, n + 3, n + 4, n + 6);
      LineAgain(es, n + 1, n, n + 3, n + 4);
      l' := AddEnds(l0, n, n + 3, n + 4);
    }
  }

  lemma LineAgain(es: Es, t: nat, c: nat, q: nat, d: nat)
    ensures DoneEdges(es[(ANY_STATE, LF as nat) := Edge(t, None)], t, c, q, d) == DoneEdges(es, t, c, q, d)
  {
    assert LineEdges(es[(ANY_STATE, LF as nat) := Edge(t, None)], ANY_STATE, c, t) == LineEdges(es, ANY_STATE, c, t);
  }

  // --- Any names ---

  predicate AreNames(names: seq<seq<byte>>) {
    && |names| <= MAX_MATCHES
    && (forall p <- names :: IsName(p))
    && (forall i, j :: 0 <= i < j < |names| ==> names[i] != names[j])
  }

  // The state ids that many names may take.
  function IdsFor(names: seq<seq<byte>>): nat {
    if names == [] then 2 else IdsFor(names[..|names| - 1]) + |names[|names| - 1]| + 14
  }

  // The DFA behind the names, which are given the match ids 0, 1, and so on.
  function CaptureAll(names: seq<seq<byte>>): Option<B>
    requires |names| <= MAX_MATCHES
  {
    if names == [] then Some(StartPattern(2, map[], ANY_STATE))
    else
      var k := |names| - 1;
      var b := CaptureAll(names[..k]);
      if b.None? then None else CaptureNewHdr(b.value.numStates, b.value.edges, names[k], k)
  }

  // The layout captures the names, each with its index, and nothing else.
  ghost predicate Lists(l: Layout, names: seq<seq<byte>>) {
    && (forall p <- l.hdrs :: p in names)
    && (forall i :: 0 <= i < |names| ==> names[i] in l.hdrs && l.hdrs[names[i]].mid == i)
  }

  lemma {:induction false} AllNamesHold(names: seq<seq<byte>>) returns (l: Layout)
    requires AreNames(names) && IdsFor(names) < U16
    ensures var b := CaptureAll(names);
            b.Some? && Holds(b.value.edges, b.value.numStates, l) && b.value.numStates <= IdsFor(names)
    ensures Lists(l, names) && l.ends.None?
  {
    hide Holds, CaptureNewHdr, IsName, WellFormed, Expected, Lists;
    if names == [] {
      l := EMPTY_LAYOUT;
      NoNamesHold();
    } else {
      var k := |names| - 1;
      var init, last := names[..k], names[k];
      assert last in names && forall p <- init :: p in names;
      var l0 := AllNamesHold(init);
      var b := CaptureAll(init).value;
      NotListed(l0, names);
      l := NewHdrHolds(b.numStates, b.edges, l0, last, k);
      ListsMore(l0, l, names);
    }
  }

  lemma NoNamesHold()
    ensures Holds(map[], 2, EMPTY_LAYOUT) && Lists(EMPTY_LAYOUT, [])
  {}

  lemma NotListed(l: Layout, names: seq<seq<byte>>)
    requires names != [] && AreNames(names) && Lists(l, names[..|names| - 1])
    ensures names[|names| - 1] !in l.hdrs
  {}

  lemma ListsMore(l: Layout, l': Layout, names: seq<seq<byte>>)
    requires names != [] && AreNames(names) && Lists(l, names[..|names| - 1])
    requires var p := names[|names| - 1];
             p in l'.hdrs && l'.hdrs[p].mid == |names| - 1 && l'.hdrs == l.hdrs[p := l'.hdrs[p]]
    ensures Lists(l', names)
  {
    var init := names[..|names| - 1];
    forall i | 0 <= i < |init|
      ensures names[i] in l'.hdrs && l'.hdrs[names[i]].mid == i
    {
      assert init[i] in l.hdrs && l.hdrs[init[i]].mid == i;
    }
    forall p <- l.hdrs
      ensures p in names
    {
      assert p in init;
    }
  }

  // Capturing any names, and then stopping at the empty line, builds the DFA of a layout that
  // has exactly these names.
  lemma ConfiguredHolds(names: seq<seq<byte>>) returns (l: Layout)
    requires AreNames(names) && IdsFor(names) + 6 < U16
    ensures CaptureAll(names).Some?
    ensures var b := CaptureAll(names).value;
            var r := DoneOnHdrEnd(b.numStates, b.edges);
            r.Some? && Holds(r.value.edges, r.value.numStates, l)
    ensures Lists(l, names) && l.ends.Some?
  {
    hide Holds, DoneOnHdrEnd, CaptureAll;
    var l0 := AllNamesHold(names);
    var b := CaptureAll(names).value;
    l := DoneOnHdrEndHolds(b.numStates, b.edges, l0);
  }
}
