// The DFA the HTTP/1 parser builds for a set of header names: which transitions it has.
module Http1Layout {
  import opened Base
  import opened Dfa
  import opened Http1Action

  const TAB: byte := 0x09
  const LF: byte := 0x0A
  const CR: byte := 0x0D
  const SP: byte := 0x20
  const COLON: byte := 0x3A

  type Es = Edges<Action>
  type Row = Option<Edge<Action>>

  // The bytes of a name, which is matched in lower case.
  predicate IsNameByte(x: byte) {
    x != TAB && x != LF && x != CR && x != SP && x != COLON && !(0x41 <= x <= 0x5A)
  }

  predicate IsName(p: seq<byte>) {
    p != [] && forall x <- p :: IsNameByte(x)
  }

  function Lower(x: byte): byte {
    if 0x41 <= x <= 0x5A then x + 0x20 else x
  }

  // The states of one name: the one behind the colon, the one within the value, and the ones
  // behind a CR in either of them.
  datatype Hdr = Hdr(mid: byte, value: nat, inside: nat, crInside: nat, crValue: nat)

  // The states of the empty line: behind a CR anywhere, behind a CR at the start of a line,
  // and behind the line.
  datatype Ends = Ends(cr: nat, crLine: nat, done: nat)

  // What a state stands for.
  datatype Spot = AtPrefix(p: seq<byte>) | AtValue(p: seq<byte>) | InValue(p: seq<byte>) | AtCr | AtCrLine | AtDone

  // The prefixes of names at the start of a line, the first of which is the empty one.
  datatype Layout = Layout(nodes: map<seq<byte>, nat>, spots: map<nat, Spot>, hdrs: map<seq<byte>, Hdr>,
                           ends: Option<Ends>)

  const EMPTY_LAYOUT := Layout(map[], map[], map[], None)

  function Get(es: Es, s: nat, x: nat): Row {
    if (s, x) in es then Some(es[(s, x)]) else None
  }

  function To(s: nat): Row {
    Some(Edge(s, None))
  }

  function Do(s: nat, a: Action): Row {
    Some(Edge(s, Some(a)))
  }

  function FromAny(l: Layout, x: nat): Row {
    if x == LF && [] in l.nodes then To(l.nodes[[]])
    else if x == CR && l.ends.Some? then To(l.ends.value.cr)
    else None
  }

  function FromPrefix(l: Layout, s: nat, p: seq<byte>, x: nat): Row {
    if x < 256 && p + [Lower(x)] in l.nodes then To(l.nodes[p + [Lower(x)]])
    else if p in l.hdrs then
      if x == TAB || x == SP then To(s)
      else if x == COLON then Do(l.hdrs[p].value, StartCapture(l.hdrs[p].mid))
      else None
    else if p == [] && l.ends.Some? then
      if x == CR then To(l.ends.value.crLine)
      else if x == LF then Do(l.ends.value.done, Done)
      else None
    else None
  }

  // Behind the colon, blanks start the value over.
  function FromValue(l: Layout, s: nat, h: Hdr, x: nat): Row {
    if x == TAB || x == SP then Do(s, StartCapture(h.mid))
    else if x == CR then To(h.crValue)
    else if x == LF && [] in l.nodes then To(l.nodes[[]])
    else if x == ANY_INPUT then Do(h.inside, EndCapture(h.mid))
    else None
  }

  function FromInside(l: Layout, s: nat, h: Hdr, x: nat): Row {
    if x == CR then To(h.crInside)
    else if x == LF && [] in l.nodes then To(l.nodes[[]])
    else if x == ANY_INPUT then Do(s, EndCapture(h.mid))
    else None
  }

  // The transition the DFA has to have.
  function Expected(l: Layout, s: nat, x: nat): Row {
    if s == ANY_STATE then FromAny(l, x)
    else if s !in l.spots then None
    else
      match l.spots[s]
      case AtPrefix(p) => FromPrefix(l, s, p, x)
      case AtValue(p) => if p in l.hdrs then FromValue(l, s, l.hdrs[p], x) else None
      case InValue(p) => if p in l.hdrs then FromInside(l, s, l.hdrs[p], x) else None
      case AtCr => if x == LF && [] in l.nodes then To(l.nodes[[]]) else None
      case AtCrLine => if x == LF && l.ends.Some? then Do(l.ends.value.done, Done) else None
      case AtDone => None
  }

  predicate IsSpot(l: Layout, s: nat, spot: Spot) {
    s in l.spots && l.spots[s] == spot
  }

  predicate HdrWellFormed(l: Layout, p: seq<byte>)
    requires p in l.hdrs
  {
    && p in l.nodes && p != [] && l.hdrs[p].mid < MAX_MATCHES
    && IsSpot(l, l.hdrs[p].value, AtValue(p)) && IsSpot(l, l.hdrs[p].inside, InValue(p))
    && IsSpot(l, l.hdrs[p].crValue, AtCr) && IsSpot(l, l.hdrs[p].crInside, AtCr)
  }

  ghost predicate HdrsWellFormed(l: Layout) {
    forall p <- l.hdrs :: HdrWellFormed(l, p)
  }

  ghost predicate NodesWellFormed(l: Layout) {
    && ([] !in l.nodes ==> l.nodes == map[] && l.spots == map[])
    && (forall p <- l.nodes :: IsSpot(l, l.nodes[p], AtPrefix(p)))
    && (forall p <- l.nodes, x <- p :: IsNameByte(x))
    && (forall p <- l.nodes :: p != [] ==> p[..|p| - 1] in l.nodes)
  }

  ghost predicate SpotsWellFormed(l: Layout, n: nat) {
    forall s <- l.spots ::
      && 2 <= s < n
      && match l.spots[s]
         case AtPrefix(p) => p in l.nodes && l.nodes[p] == s
         case AtValue(p) => p in l.hdrs && l.hdrs[p].value == s
         case InValue(p) => p in l.hdrs && l.hdrs[p].inside == s
         case AtCr => true
         case AtCrLine => l.ends.Some? && l.ends.value.crLine == s
         case AtDone => l.ends.Some? && l.ends.value.done == s
  }

  ghost predicate WellFormed(l: Layout, n: nat) {
    && n >= 2
    && NodesWellFormed(l) && HdrsWellFormed(l) && SpotsWellFormed(l, n)
    && (l.ends.Some? ==>
          && [] in l.nodes
          && IsSpot(l, l.ends.value.cr, AtCr) && IsSpot(l, l.ends.value.crLine, AtCrLine)
          && IsSpot(l, l.ends.value.done, AtDone))
  }

  // The DFA has these transitions and no others.
  ghost predicate Holds(es: Es, n: nat, l: Layout) {
    WellFormed(l, n) && forall s: nat, x: nat :: Get(es, s, x) == Expected(l, s, x)
  }
}
