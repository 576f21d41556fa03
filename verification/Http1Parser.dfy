// The header names user space configures to be captured out of HTTP/1 messages, and the DFA
// that is built for them (http1/parser.rs).
module Http1Parser {
  import opened Base
  import opened Http1Action
  import opened Http1Layout
  import opened Http1Names
  import B = DfaBuilder
  import D = Dfa
  import Http1Build
  import Inject

  const MAX_STATES: nat := 512
  const MAX_EDGES: nat := 257
  const MAX_ACTIONS: nat := 256

  datatype Outcome = Captured(mid: nat) | MatchLimitExceeded | Panicked

  type Captures = map<seq<byte>, nat>

  function ToLower(name: seq<byte>): (p: seq<byte>)
    ensures |p| == |name|
  {
    seq(|name|, i requires 0 <= i < |name| => Lower(name[i]))
  }

  // The layout captures every name of `caps`, and nothing else.
  ghost predicate Configures(l: Layout, caps: Captures) {
    && (forall p <- caps :: p in l.hdrs && l.hdrs[p].mid == caps[p])
    && (forall p <- l.hdrs :: p in caps)
  }

  // Every match id is the one of at most one name.
  ghost predicate Numbered(caps: Captures, n: nat) {
    && n <= MAX_MATCHES
    && (forall p <- caps :: caps[p] < n)
    && (forall p, q :: p in caps && q in caps && caps[p] == caps[q] ==> p == q)
  }

  lemma ConfiguresMore(l: Layout, l': Layout, caps: Captures, p: seq<byte>, mid: nat)
    requires Configures(l, caps) && Numbered(caps, mid) && mid < MAX_MATCHES && p !in caps
    requires p in l'.hdrs && l'.hdrs[p].mid == mid && l'.hdrs == l.hdrs[p := l'.hdrs[p]]
    ensures Configures(l', caps[p := mid]) && Numbered(caps[p := mid], mid + 1)
  {}

  // No transition of the DFA leads to state 0 or to one that is not there, and every one
  // reads a byte or any.
  lemma TargetsInRange(es: Es, n: nat, l: Layout)
    requires Holds(es, n, l)
    ensures forall k <- es :: k.0 < n && k.1 < MAX_EDGES && 1 <= es[k].to < n
    ensures Inject.Visible(es)
  {
    forall k <- es
      ensures k.0 < n && k.1 < MAX_EDGES && 1 <= es[k].to < n
    {
      var (s, x) := k;
      assert Get(es, s, x) == Expected(l, s, x);
      RowInRange(l, n, s, x);
    }
  }

  lemma RowInRange(l: Layout, n: nat, s: nat, x: nat)
    requires WellFormed(l, n) && Expected(l, s, x).Some?
    ensures s < n && x < MAX_EDGES && 2 <= Expected(l, s, x).value.to < n
  {
    hide SpotsWellFormed, HdrsWellFormed;
    forall p <- l.nodes
      ensures 2 <= l.nodes[p] < n
    {
      NodesExist(l, n, p);
    }
    if l.ends.Some? {
      EndsExist(l, n);
    }
    forall p <- l.hdrs
      ensures 2 <= l.hdrs[p].value < n && 2 <= l.hdrs[p].inside < n && 2 <= l.hdrs[p].crInside < n
      ensures 2 <= l.hdrs[p].crValue < n
    {
      HdrInRange(l, n, p);
    }
    SpotInRange(l, n, s);
  }

  lemma SpotInRange(l: Layout, n: nat, s: nat)
    requires SpotsWellFormed(l, n)
    ensures s in l.spots ==> 2 <= s < n
  {}

  lemma HdrInRange(l: Layout, n: nat, p: seq<byte>)
    requires WellFormed(l, n) && p in l.hdrs
    ensures 2 <= l.hdrs[p].value < n && 2 <= l.hdrs[p].inside < n && 2 <= l.hdrs[p].crInside < n
    ensures 2 <= l.hdrs[p].crValue < n
  {
    assert HdrWellFormed(l, p);
  }

  // The pseudo headers ":method", ":path" and ":status", which other patterns capture.
  predicate IsPseudo(p: seq<byte>) {
    || p == [0x3A, 0x6D, 0x65, 0x74, 0x68, 0x6F, 0x64]
    || p == [0x3A, 0x70, 0x61, 0x74, 0x68]
    || p == [0x3A, 0x73, 0x74, 0x61, 0x74, 0x75, 0x73]
  }

  // Whether there are state ids left for the name `p`.
  predicate HasIds(n: nat, p: seq<byte>) {
    n + |p| + 14 < U16
  }

  class Parser {
    var dfa: B.Dfa<Action>
    var numMatches: nat
    var captures: Captures
    ghost var layout: Layout

    ghost predicate Valid()
      reads this, dfa
    {
      && Holds(dfa.edges, dfa.numStates, layout)
      && Configures(layout, captures)
      && Numbered(captures, numMatches)
    }

    constructor ()
      ensures Valid() && fresh(dfa) && captures == map[] && numMatches == 0 && dfa.numStates == 2 && layout.ends.None?
    {
      dfa := new B.Dfa<Action>(0);
      numMatches, captures, layout := 0, map[], EMPTY_LAYOUT;
      new;
      NoNamesHold();
    }

    // The optional blanks of a header.
    method PushBlanks(pattern: B.DfaBuilder<Action>)
      modifies pattern
      ensures pattern.View() == Http1Build.PushBlanks(old(pattern.View()))
    {
      pattern.PushOptional([TAB as nat], true);
      pattern.PushOptional([SP as nat], true);
    }

    // The end of a line.
    method EndLine(pattern: B.DfaBuilder<Action>) returns (ok: bool)
      modifies pattern, pattern.dfa
      ensures var r := Http1Build.EndLine(old(pattern.View())); ok == r.Some? && (ok ==> r.value == pattern.View())
    {
      pattern.PushOptional([CR as nat], false);
      ok := pattern.RestartWith([LF as nat]);
    }

    // Everything a header consists of behind its name.
    method PushHeader(pattern: B.DfaBuilder<Action>, mid: byte) returns (ok: bool)
      modifies pattern, pattern.dfa
      ensures var r := Http1Build.PushHeader(old(pattern.View()), mid);
              ok == r.Some? && (ok ==> r.value.numStates == pattern.dfa.numStates && r.value.edges == pattern.dfa.edges)
    {
      hide D.Push, D.With, D.PushAny, Http1Build.EndLine, Http1Build.PushBlanks;
      PushBlanks(pattern);
      ok := pattern.Push([COLON as nat], false);
      if !ok {
        return;
      }
      PushBlanks(pattern);
      ok := pattern.With(StartCapture(mid));
      if !ok {
        return;
      }
      var value := pattern.state;
      ok := pattern.PushAny(1, None);
      if !ok {
        return;
      }
      ok := pattern.With(EndCapture(mid));
      if !ok {
        return;
      }
      ok := EndLine(pattern);
      if !ok {
        return;
      }
      var empty := new B.DfaBuilder<Action>(pattern.dfa, value);
      ok := EndLine(empty);
    }

    // `capture_new_hdr`. It fails if there are no state ids left.
    method CaptureNewHdr(name: seq<byte>, mid: byte) returns (ok: bool)
      modifies dfa
      ensures var r := Http1Names.CaptureNewHdr(old(dfa.numStates), old(dfa.edges), name, mid);
              ok == r.Some? && (ok ==> dfa.numStates == r.value.numStates && dfa.edges == r.value.edges)
    {
      hide D.Push, Http1Build.PushHeader;
      var pattern := new B.DfaBuilder<Action>(dfa, D.ANY_STATE);
      ok := pattern.Push([LF as nat], true);
      if !ok {
        return;
      }
      ok := pattern.Push(name, false);
      if !ok {
        return;
      }
      ok := PushHeader(pattern, mid);
    }

    // `capture_hdr` for a name that is not one of a pseudo header. The DFA is known to be right
    // if the name can be one of a field and there were state ids left for it.
    method CaptureHdr(name: seq<byte>) returns (r: Outcome)
      requires Valid() && !IsPseudo(ToLower(name)) && layout.ends.None?
      modifies this, dfa
      ensures dfa == old(dfa)
      ensures var p := ToLower(name);
              if p in old(captures) then r == Captured(old(captures)[p])
              else if old(numMatches) >= 32 then r == MatchLimitExceeded
              else r == Captured(old(numMatches)) || (r == Panicked && !(IsName(p) && HasIds(old(dfa.numStates), p)))
      ensures r.Captured? ==> captures == old(captures)[ToLower(name) := r.mid]
      ensures r.MatchLimitExceeded? ==> captures == old(captures)
      ensures var p := ToLower(name);
              p in old(captures) || r.MatchLimitExceeded? || (IsName(p) && HasIds(old(dfa.numStates), p)) ==>
                Valid() && layout.ends.None? && dfa.numStates <= old(dfa.numStates) + |p| + 14
    {
      hide Holds, D.Push, Http1Build.PushHeader, Http1Names.CaptureNewHdr;
      var p := ToLower(name);
      if p in captures {
        return Captured(captures[p]);
      }
      if numMatches >= MAX_MATCHES {
        return MatchLimitExceeded;
      }
      var mid := numMatches;
      numMatches := numMatches + 1;
      if IsName(p) && HasIds(dfa.numStates, p) {
        ghost var l := NewHdrHolds(dfa.numStates, dfa.edges, layout, p, mid);
        ConfiguresMore(layout, l, captures, p, mid);
        layout := l;
      }
      var ok := CaptureNewHdr(p, mid);
      if !ok {
        return Panicked;
      }
      captures := captures[p := mid];
      r := Captured(mid);
    }

    // `done_on_hdr_end`.
    method DoneOnHdrEnd() returns (ok: bool)
      requires Valid() && layout.ends.None?
      modifies this`layout, dfa
      ensures old(dfa.numStates) + 6 < U16 ==> ok && Valid() && layout.ends.Some?
    {
      hide D.Push, D.With, Holds;
      ghost var n, es := dfa.numStates, dfa.edges;
      if n + 6 < U16 {
        ghost var l := DoneOnHdrEndHolds(n, es, layout);
        layout := l;
      }
      var pattern := new B.DfaBuilder<Action>(dfa, D.ANY_STATE);
      pattern.PushOptional([CR as nat], false);
      ok := pattern.Push([LF as nat], true);
      if !ok {
        return;
      }
      pattern.PushOptional([CR as nat], false);
      ok := pattern.Push([LF as nat], true);
      if !ok {
        return;
      }
      ok := pattern.With(Done);
    }
  }

  // What the DFA reads like in the parser program, see `Inject`.
  method Load(parser: Parser) returns (ok: bool, data: Inject.Rodata<CAction>)
    requires parser.Valid()
    ensures fresh(data) && fresh(data.states) && fresh(data.actions)
    ensures data.states.Length0 == 512 && data.states.Length1 == 257 && data.zero == NOOP
    ensures ok ==> Inject.Loaded(data, parser.dfa.edges, Encode)
    ensures ok <==> parser.dfa.numStates <= 512 && |Inject.Actions(parser.dfa.edges)| <= 256
  {
    TargetsInRange(parser.dfa.edges, parser.dfa.numStates, parser.layout);
    data := new Inject.Rodata<CAction>(MAX_STATES, MAX_EDGES, MAX_ACTIONS, NOOP);
    ok := Inject.Inject(data, parser.dfa.edges, parser.dfa.numStates, Encode);
  }
}
