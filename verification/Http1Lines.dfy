// What the HTTP/1 walk makes of the lines of a header block.
module Http1Lines {
  import opened Base
  import opened Http1Action
  import opened Http1Layout
  import opened Http1Names
  import opened Http1Walk
  import D = Dfa
  import Inject

  // --- Transitions of the layout ---

  // A DFA with the layout `l`, which reads the empty line and so the start of a line.
  ghost predicate Reads(es: Es, n: nat, l: Layout) {
    Holds(es, n, l) && l.ends.Some?
  }

  function Follow(l: Layout, s: nat, c: byte): (nat, Option<Action>) {
    if Expected(l, s, c).Some? then (Expected(l, s, c).value.to, Expected(l, s, c).value.action)
    else if Expected(l, s, D.ANY_INPUT).Some? then
      (Expected(l, s, D.ANY_INPUT).value.to, Expected(l, s, D.ANY_INPUT).value.action)
    else (D.ANY_STATE, None)
  }

  function Goes(l: Layout, s: nat, c: byte): (nat, Option<Action>) {
    var n := Follow(l, s, c);
    if n.0 == D.ANY_STATE then Follow(l, D.ANY_STATE, c) else n
  }

  lemma GoesRight(es: Es, n: nat, l: Layout, s: nat, c: byte)
    requires Holds(es, n, l)
    ensures Transit(es, s, c) == Goes(l, s, c)
  {
    hide Expected, WellFormed;
    assert Get(es, s, c) == Expected(l, s, c) && Get(es, s, D.ANY_INPUT) == Expected(l, s, D.ANY_INPUT);
    assert Get(es, D.ANY_STATE, c) == Expected(l, D.ANY_STATE, c);
    assert Get(es, D.ANY_STATE, D.ANY_INPUT) == Expected(l, D.ANY_STATE, D.ANY_INPUT);
  }

  predicate IsBlank(c: byte) {
    c == 0x09 || c == 0x20
  }

  predicate IsPlain(c: byte) {
    c != 0x0D && c != 0x0A
  }

  // Nothing is being read, be it that nothing has been or that it matches nothing.
  predicate IsLost(s: nat) {
    s == D.INIT_STATE || s == D.ANY_STATE
  }

  lemma FromLost(l: Layout, n: nat, s: nat, c: byte)
    requires WellFormed(l, n) && l.ends.Some? && IsLost(s)
    ensures Goes(l, s, c) == (if c == CR then l.ends.value.cr else if c == LF then l.nodes[[]] else D.ANY_STATE, None)
  {
    EndsExist(l, n);
    LineSpot(l, n);
  }

  lemma FromCr(l: Layout, n: nat, s: nat)
    requires WellFormed(l, n) && l.ends.Some? && IsSpot(l, s, AtCr)
    ensures Goes(l, s, LF) == (l.nodes[[]], None)
  {
    LineSpot(l, n);
  }

  // At the prefix `p` of a name.
  lemma FromNode(l: Layout, n: nat, p: seq<byte>, c: byte)
    requires WellFormed(l, n) && l.ends.Some? && p in l.nodes && IsPlain(c)
    ensures var s := l.nodes[p];
            Goes(l, s, c) ==
            if p + [Lower(c)] in l.nodes then (l.nodes[p + [Lower(c)]], None)
            else if p in l.hdrs && IsBlank(c) then (s, None)
            else if p in l.hdrs && c == COLON then (l.hdrs[p].value, Some(StartCapture(l.hdrs[p].mid)))
            else (D.ANY_STATE, None)
  {
    NodesExist(l, n, p);
    assert IsSpot(l, l.nodes[p], AtPrefix(p));
    if p + [Lower(c)] in l.nodes {
      NodesExist(l, n, p + [Lower(c)]);
    }
    if p in l.hdrs {
      assert HdrWellFormed(l, p);
    }
  }

  // The end of a line behind a prefix that is not empty.
  lemma FromNodeEnd(l: Layout, n: nat, p: seq<byte>, c: byte)
    requires WellFormed(l, n) && l.ends.Some? && p in l.nodes && p != [] && !IsPlain(c)
    ensures Goes(l, l.nodes[p], c) == (if c == CR then l.ends.value.cr else l.nodes[[]], None)
  {
    assert IsSpot(l, l.nodes[p], AtPrefix(p));
    NotNameBytes(l, p);
    EndsExist(l, n);
    LineSpot(l, n);
  }

  // An empty line.
  lemma FromLineEnd(l: Layout, n: nat)
    requires WellFormed(l, n) && l.ends.Some?
    ensures [] in l.nodes
    ensures Goes(l, l.nodes[[]], LF) == (l.ends.value.done, Some(Done))
    ensures Goes(l, l.nodes[[]], CR) == (l.ends.value.crLine, None)
    ensures Goes(l, l.ends.value.crLine, LF) == (l.ends.value.done, Some(Done))
  {
    assert IsSpot(l, l.nodes[[]], AtPrefix([]));
    NotNameBytes(l, []);
    NamesNotEmpty(l);
    EndsExist(l, n);
  }

  lemma FromValueByte(l: Layout, n: nat, p: seq<byte>, c: byte)
    requires WellFormed(l, n) && l.ends.Some? && p in l.hdrs
    ensures var h := l.hdrs[p];
            Goes(l, h.value, c) ==
            if IsBlank(c) then (h.value, Some(StartCapture(h.mid)))
            else if c == CR then (h.crValue, None)
            else if c == LF then (l.nodes[[]], None)
            else (h.inside, Some(EndCapture(h.mid)))
  {
    assert HdrWellFormed(l, p);
    LineSpot(l, n);
    assert 2 <= l.hdrs[p].value && 2 <= l.hdrs[p].inside && 2 <= l.hdrs[p].crValue;
  }

  lemma FromInsideByte(l: Layout, n: nat, p: seq<byte>, c: byte)
    requires WellFormed(l, n) && l.ends.Some? && p in l.hdrs
    ensures var h := l.hdrs[p];
            Goes(l, h.inside, c) ==
            if c == CR then (h.crInside, None)
            else if c == LF then (l.nodes[[]], None)
            else (h.inside, Some(EndCapture(h.mid)))
  {
    assert HdrWellFormed(l, p);
    LineSpot(l, n);
    assert 2 <= l.hdrs[p].inside && 2 <= l.hdrs[p].crInside;
  }

  // --- The text of a line ---

  // What has been read of a line: part of a name, something that is none, blanks behind the
  // colon of a name, or part of its value, which begins at `k`.
  datatype Reading = Naming(p: seq<byte>) | Lost | Blanks(p: seq<byte>, k: nat) | Inside(p: seq<byte>, k: nat)

  function ReadByte(l: Layout, r: Reading, at: nat, c: byte): Reading {
    match r
    case Naming(p) =>
      if p + [Lower(c)] in l.nodes then Naming(p + [Lower(c)])
      else if p in l.hdrs && IsBlank(c) then r
      else if p in l.hdrs && c == COLON then Blanks(p, at + 1)
      else Lost
    case Lost => Lost
    case Blanks(p, k) => if IsBlank(c) then Blanks(p, at + 1) else Inside(p, k)
    case Inside(_, _) => r
  }

  function ReadText(l: Layout, t: seq<byte>): Reading {
    if t == [] then Naming([]) else ReadByte(l, ReadText(l, t[..|t| - 1]), |t| - 1, t[|t| - 1])
  }

  // Whether a reading is one of the layout, and of no more than `m` bytes.
  predicate Sane(l: Layout, r: Reading, m: nat) {
    match r
    case Naming(p) => p in l.nodes && |p| <= m && (m > 0 ==> p != [])
    case Lost => true
    case Blanks(p, k) => p in l.hdrs && k == m
    case Inside(p, k) => p in l.hdrs && k < m
  }

  // The walk `w` once the text of `m` bytes that begins at the offset `o` has been read as `r`.
  function After(l: Layout, w: Walk, o: nat, m: nat, r: Reading): Walk
    requires Sane(l, r, m)
  {
    match r
    case Naming(p) => Walk(l.nodes[p], w.open, w.ms, None)
    case Lost => Walk(D.ANY_STATE, w.open, w.ms, None)
    case Blanks(p, k) =>
      Walk(l.hdrs[p].value, w.open[l.hdrs[p].mid % MAX_MATCHES := (o + k) % U32], w.ms, None)
    case Inside(p, k) =>
      var mid := l.hdrs[p].mid % MAX_MATCHES;
      Walk(l.hdrs[p].inside, w.open[mid := (o + k) % U32], w.ms[mid := Range((o + k) % U16, (m - k) % U16)], None)
  }

  lemma ReadIsSane(l: Layout, n: nat, r: Reading, m: nat, c: byte)
    requires WellFormed(l, n) && Sane(l, r, m) && IsPlain(c)
    ensures Sane(l, ReadByte(l, r, m, c), m + 1)
  {
    NamesNotEmpty(l);
  }

  // What a step does that goes to `s` with the action `a`.
  lemma StepGoes(es: Es, n: nat, l: Layout, w: Walk, i: nat, c: byte)
    requires Holds(es, n, l) && w.done.None?
    ensures var g := Goes(l, w.s, c); Step(es, w, i, c) == Act(w, g.0, Inject.Coded(Encode, NOOP, g.1), i)
  {
    GoesRight(es, n, l, w.s, c);
    hide Transit, Goes, Act;
  }

  lemma MidInRange(l: Layout, n: nat, p: seq<byte>)
    requires WellFormed(l, n) && p in l.hdrs
    ensures l.hdrs[p].mid < MAX_MATCHES
  {
    assert HdrWellFormed(l, p);
  }

  // A blank or the first byte of the value, behind the colon.
  lemma AfterBlanks(l: Layout, n: nat, w: Walk, o: nat, m: nat, p: seq<byte>, c: byte)
    requires WellFormed(l, n) && l.ends.Some? && p in l.hdrs && IsPlain(c) && o + m + 1 < U32
    ensures var w1 := After(l, w, o, m, Blanks(p, m));
            var g := Goes(l, w1.s, c);
            var r := ReadByte(l, Blanks(p, m), m, c);
            Sane(l, r, m + 1) && Act(w1, g.0, Inject.Coded(Encode, NOOP, g.1), o + m) == After(l, w, o, m + 1, r)
  {
    hide Goes, WellFormed, Expected;
    MidInRange(l, n, p);
    FromValueByte(l, n, p, c);
    var mid := l.hdrs[p].mid;
    if IsBlank(c) {
      assert w.open[mid := (o + m) % U32][mid := (o + m + 1) % U32] == w.open[mid := (o + m + 1) % U32];
    }
  }

  // A byte of the value.
  lemma AfterInside(l: Layout, n: nat, w: Walk, o: nat, m: nat, p: seq<byte>, k: nat, c: byte)
    requires WellFormed(l, n) && l.ends.Some? && p in l.hdrs && k < m && IsPlain(c) && o + m + 1 < U32
    ensures var w1 := After(l, w, o, m, Inside(p, k));
            var g := Goes(l, w1.s, c);
            Act(w1, g.0, Inject.Coded(Encode, NOOP, g.1), o + m) == After(l, w, o, m + 1, Inside(p, k))
  {
    hide Goes, WellFormed, Expected;
    MidInRange(l, n, p);
    FromInsideByte(l, n, p, c);
    var mid := l.hdrs[p].mid;
    var a, b := Range((o + k) % U16, (m - k) % U16), Range((o + k) % U16, (m + 1 - k) % U16);
    assert w.ms[mid := a][mid := b] == w.ms[mid := b];
  }

  // A byte of the name, or of none.
  lemma AfterNaming(l: Layout, n: nat, w: Walk, o: nat, m: nat, p: seq<byte>, c: byte)
    requires WellFormed(l, n) && l.ends.Some? && Sane(l, Naming(p), m) && IsPlain(c) && o + m + 1 < U32
    ensures var w1 := After(l, w, o, m, Naming(p));
            var g := Goes(l, w1.s, c);
            var r := ReadByte(l, Naming(p), m, c);
            Sane(l, r, m + 1) && Act(w1, g.0, Inject.Coded(Encode, NOOP, g.1), o + m) == After(l, w, o, m + 1, r)
  {
    ReadIsSane(l, n, Naming(p), m, c);
    FromNode(l, n, p, c);
    hide Goes, WellFormed, Expected;
  }

  // One more byte of the text.
  lemma AfterByte(es: Es, n: nat, l: Layout, w: Walk, o: nat, m: nat, r: Reading, c: byte)
    requires Reads(es, n, l) && Sane(l, r, m) && IsPlain(c) && o + m + 1 < U32
    ensures Sane(l, ReadByte(l, r, m, c), m + 1)
    ensures Step(es, After(l, w, o, m, r), o + m, c) == After(l, w, o, m + 1, ReadByte(l, r, m, c))
  {
    hide Act, Goes, WellFormed, Step, Expected, Transit;
    ReadIsSane(l, n, r, m, c);
    var w1 := After(l, w, o, m, r);
    StepGoes(es, n, l, w1, o + m, c);
    match r
    case Naming(p) => AfterNaming(l, n, w, o, m, p, c);
    case Lost =>
      FromLost(l, n, D.ANY_STATE, c);
      NoAct(w1, D.ANY_STATE, o + m);
    case Blanks(p, k) => AfterBlanks(l, n, w, o, m, p, c);
    case Inside(p, k) => AfterInside(l, n, w, o, m, p, k, c);
  }

  lemma NoAct(w: Walk, s: nat, i: nat)
    ensures Act(w, s, NOOP, i) == w.(s := s, done := None)
  {}

  predicate IsText(t: seq<byte>) {
    forall c <- t :: IsPlain(c)
  }

  // The text of a line is read as it stands in the layout.
  lemma {:induction false} OverText(es: Es, n: nat, l: Layout, w: Walk, o: nat, t: seq<byte>)
    requires Reads(es, n, l) && IsText(t) && o + |t| < U32
    requires [] in l.nodes && w.s == l.nodes[[]] && w.done.None?
    ensures Sane(l, ReadText(l, t), |t|) && Over(es, w, o, t) == After(l, w, o, |t|, ReadText(l, t))
  {
    hide Step, Reads, Sane, After;
    if t == [] {
      NothingRead(l, w, o);
    } else {
      var m := |t| - 1;
      OverText(es, n, l, w, o, t[..m]);
      AfterByte(es, n, l, w, o, m, ReadText(l, t[..m]), t[m]);
    }
  }

  lemma NothingRead(l: Layout, w: Walk, o: nat)
    requires [] in l.nodes && w.s == l.nodes[[]] && w.done.None?
    ensures Sane(l, Naming([]), 0) && After(l, w, o, 0, Naming([])) == w
  {}

  // --- Lines ---

  function Eol(crlf: bool): seq<byte> {
    if crlf then [0x0D, 0x0A] else [0x0A]
  }

  // What ends the text of a line: LF, or a CR and whatever is between that and the next LF.
  predicate IsEnd(end: seq<byte>) {
    && end != [] && end[|end| - 1] == 0x0A && 0x0A !in end[..|end| - 1]
    && (|end| > 1 ==> end[0] == 0x0D)
  }

  // The part of such an end that has arrived so far.
  predicate IsCut(j: seq<byte>) {
    0x0A !in j && (j != [] ==> j[0] == 0x0D)
  }

  // The walk behind a line that is not empty.
  function AfterLine(l: Layout, w: Walk, o: nat, t: seq<byte>): Walk
    requires [] in l.nodes && Sane(l, ReadText(l, t), |t|)
  {
    After(l, w, o, |t|, ReadText(l, t)).(s := l.nodes[[]])
  }

  // A byte that has no action.
  lemma StepQuiet(es: Es, n: nat, l: Layout, w: Walk, i: nat, c: byte, s: nat)
    requires Holds(es, n, l) && w.done.None? && Goes(l, w.s, c) == (s, None)
    ensures Step(es, w, i, c) == w.(s := s)
  {
    hide Goes, Act, Step;
    StepGoes(es, n, l, w, i, c);
    NoAct(w, s, i);
  }

  // A state that only goes on with LF, or with what has nothing to do with it.
  predicate IsAdrift(l: Layout, s: nat) {
    s == D.ANY_STATE || IsSpot(l, s, AtCr) || IsSpot(l, s, AtCrLine)
  }

  lemma FromAdrift(l: Layout, n: nat, s: nat, c: byte)
    requires WellFormed(l, n) && l.ends.Some? && IsAdrift(l, s) && c != LF
    ensures Goes(l, s, c) == (if c == CR then l.ends.value.cr else D.ANY_STATE, None)
    ensures IsSpot(l, l.ends.value.cr, AtCr)
  {
    EndsExist(l, n);
    LineSpot(l, n);
  }

  // Bytes behind a CR, up to the next LF.
  lemma {:induction false} OverAdrift(es: Es, n: nat, l: Layout, w: Walk, i: nat, j: seq<byte>) returns (to: nat)
    requires Reads(es, n, l) && w.done.None? && IsAdrift(l, w.s) && LF !in j
    ensures Over(es, w, i, j) == w.(s := to) && IsAdrift(l, to)
    ensures j != [] ==> to == D.ANY_STATE || IsSpot(l, to, AtCr)
    decreases |j|
  {
    hide Goes, Step, WellFormed, Expected;
    if j == [] {
      to := w.s;
    } else {
      var k := |j| - 1;
      assert j[k] in j && forall c <- j[..k] :: c in j;
      var q := OverAdrift(es, n, l, w, i, j[..k]);
      FromAdrift(l, n, q, j[k]);
      to := if j[k] == CR then l.ends.value.cr else D.ANY_STATE;
      StepQuiet(es, n, l, w.(s := q), i + k, j[k], to);
    }
  }

  // A CR and what follows it, in a state that has only the line to end.
  lemma OverCut(es: Es, n: nat, l: Layout, w: Walk, i: nat, j: seq<byte>, cr: nat) returns (to: nat)
    requires Reads(es, n, l) && w.done.None? && IsCut(j) && j != []
    requires Goes(l, w.s, CR) == (cr, None) && (IsSpot(l, cr, AtCr) || IsSpot(l, cr, AtCrLine))
    ensures Over(es, w, i, j) == w.(s := to)
    ensures |j| == 1 ==> to == cr
    ensures |j| > 1 || IsSpot(l, cr, AtCr) ==> to == D.ANY_STATE || IsSpot(l, to, AtCr)
  {
    hide Goes, Over, Step, WellFormed, Expected;
    assert j == [j[0]] + j[1..] && forall c <- j[1..] :: c in j;
    OverAppend(es, w, i, [CR], j[1..]);
    OverOne(es, w, i, CR);
    StepQuiet(es, n, l, w, i, CR, cr);
    to := OverAdrift(es, n, l, w.(s := cr), i + 1, j[1..]);
    if |j| == 1 {
      assert j[1..] == [];
      OverNothing(es, w.(s := cr), i + 1);
    }
  }

  lemma OverNothing(es: Es, w: Walk, i: nat)
    ensures Over(es, w, i, []) == w
  {}

  // The end of a line, in a state that has only the line to end.
  lemma OverEnd(es: Es, n: nat, l: Layout, w: Walk, i: nat, end: seq<byte>, cr: nat)
    requires Reads(es, n, l) && w.done.None? && [] in l.nodes && IsEnd(end)
    requires |end| == 1 ==> Goes(l, w.s, LF) == (l.nodes[[]], None)
    requires Goes(l, w.s, CR) == (cr, None) && (IsSpot(l, cr, AtCr) || (IsSpot(l, cr, AtCrLine) && |end| > 2))
    ensures Over(es, w, i, end) == w.(s := l.nodes[[]])
  {
    hide Goes, Step, Over, WellFormed, Expected;
    var k := |end| - 1;
    assert end == end[..k] + [LF];
    OverAppend(es, w, i, end[..k], [LF]);
    if k == 0 {
      OverNothing(es, w, i);
      OverOne(es, w, i, LF);
      StepQuiet(es, n, l, w, i, LF, l.nodes[[]]);
    } else {
      var s := OverCut(es, n, l, w, i, end[..k], cr);
      if s == D.ANY_STATE {
        FromLost(l, n, s, LF);
      } else {
        FromCr(l, n, s);
      }
      OverOne(es, w.(s := s), i + k, LF);
      StepQuiet(es, n, l, w.(s := s), i + k, LF, l.nodes[[]]);
    }
  }

  // The state of a reading has only the line to end.
  lemma EndsLine(l: Layout, n: nat, r: Reading, m: nat, w: Walk, o: nat) returns (cr: nat)
    requires WellFormed(l, n) && l.ends.Some? && Sane(l, r, m) && m > 0 && [] in l.nodes
    ensures var s := After(l, w, o, m, r).s;
            Goes(l, s, LF) == (l.nodes[[]], None) && Goes(l, s, CR) == (cr, None) && IsSpot(l, cr, AtCr)
  {
    hide Goes, Expected;
    match r
    case Naming(p) =>
      FromNodeEnd(l, n, p, CR);
      FromNodeEnd(l, n, p, LF);
      cr := l.ends.value.cr;
    case Lost =>
      FromLost(l, n, D.ANY_STATE, CR);
      FromLost(l, n, D.ANY_STATE, LF);
      cr := l.ends.value.cr;
    case Blanks(p, k) =>
      assert HdrWellFormed(l, p);
      FromValueByte(l, n, p, CR);
      FromValueByte(l, n, p, LF);
      cr := l.hdrs[p].crValue;
    case Inside(p, k) =>
      assert HdrWellFormed(l, p);
      FromInsideByte(l, n, p, CR);
      FromInsideByte(l, n, p, LF);
      cr := l.hdrs[p].crInside;
  }

  // At the start of a line, a CR leads to where only the empty line ends.
  lemma EndsNothing(l: Layout, n: nat)
    requires WellFormed(l, n) && l.ends.Some?
    ensures [] in l.nodes && Goes(l, l.nodes[[]], CR) == (l.ends.value.crLine, None)
    ensures IsSpot(l, l.ends.value.crLine, AtCrLine)
  {
    FromLineEnd(l, n);
  }

  // A line that is not empty.
  predicate IsHeader(ln: Line) {
    IsText(ln.text) && IsEnd(ln.end) && (ln.text != [] || |ln.end| > 2)
  }

  lemma OverLine(es: Es, n: nat, l: Layout, w: Walk, o: nat, ln: Line)
    requires Reads(es, n, l) && IsHeader(ln) && o + |ln.text| < U32
    requires [] in l.nodes && w.s == l.nodes[[]] && w.done.None?
    ensures Sane(l, ReadText(l, ln.text), |ln.text|) && Over(es, w, o, LineBytes(ln)) == AfterLine(l, w, o, ln.text)
  {
    hide Over, Goes, WellFormed, Expected, Sane, ReadText, IsEnd;
    var t := ln.text;
    OverText(es, n, l, w, o, t);
    OverAppend(es, w, o, t, ln.end);
    var w1 := After(l, w, o, |t|, ReadText(l, t));
    AfterGoesOn(l, w, o, |t|, ReadText(l, t));
    if t == [] {
      EndsNothing(l, n);
      TextIsNothing(l, w, o);
      OverEnd(es, n, l, w1, o, ln.end, l.ends.value.crLine);
    } else {
      var cr := EndsLine(l, n, ReadText(l, t), |t|, w, o);
      OverEnd(es, n, l, w1, o + |t|, ln.end, cr);
    }
  }

  lemma TextIsNothing(l: Layout, w: Walk, o: nat)
    requires [] in l.nodes && w.s == l.nodes[[]] && w.done.None?
    ensures After(l, w, o, 0, ReadText(l, [])) == w
  {}

  // A line that has arrived in part.
  lemma OverPart(es: Es, n: nat, l: Layout, w: Walk, o: nat, t: seq<byte>, j: seq<byte>) returns (to: nat)
    requires Reads(es, n, l) && IsText(t) && IsCut(j) && o + |t| < U32
    requires [] in l.nodes && w.s == l.nodes[[]] && w.done.None?
    ensures Sane(l, ReadText(l, t), |t|) && Over(es, w, o, t + j) == AfterLine(l, w, o, t).(s := to)
  {
    hide Over, Goes, WellFormed, Expected, Sane, ReadText, IsCut;
    OverText(es, n, l, w, o, t);
    OverAppend(es, w, o, t, j);
    var w1 := After(l, w, o, |t|, ReadText(l, t));
    AfterGoesOn(l, w, o, |t|, ReadText(l, t));
    if j == [] {
      OverNothing(es, w1, o + |t|);
      to := w1.s;
    } else if t == [] {
      EndsNothing(l, n);
      TextIsNothing(l, w, o);
      to := OverCut(es, n, l, w1, o, j, l.ends.value.crLine);
    } else {
      var cr := EndsLine(l, n, ReadText(l, t), |t|, w, o);
      to := OverCut(es, n, l, w1, o + |t|, j, cr);
    }
  }

  lemma AfterGoesOn(l: Layout, w: Walk, o: nat, m: nat, r: Reading)
    requires Sane(l, r, m)
    ensures After(l, w, o, m, r).done.None?
  {}

  // The first line of a message, whatever it is, is none of a header.
  lemma {:induction false} OverFirstText(es: Es, n: nat, l: Layout, w: Walk, o: nat, t: seq<byte>)
    requires Reads(es, n, l) && IsText(t) && IsLost(w.s) && w.done.None?
    ensures Over(es, w, o, t) == w.(s := if t == [] then w.s else D.ANY_STATE)
  {
    hide Step, Goes, WellFormed, Expected;
    if t != [] {
      var m := |t| - 1;
      OverFirstText(es, n, l, w, o, t[..m]);
      var w1 := Over(es, w, o, t[..m]);
      assert IsPlain(t[m]);
      FromLost(l, n, w1.s, t[m]);
      StepQuiet(es, n, l, w1, o + m, t[m], D.ANY_STATE);
    }
  }

  lemma OverFirst(es: Es, n: nat, l: Layout, w: Walk, o: nat, ln: Line)
    requires Reads(es, n, l) && IsText(ln.text) && IsEnd(ln.end) && IsLost(w.s) && w.done.None?
    ensures [] in l.nodes && Over(es, w, o, LineBytes(ln)) == w.(s := l.nodes[[]])
  {
    hide Over, Goes, Expected;
    OverFirstText(es, n, l, w, o, ln.text);
    OverAppend(es, w, o, ln.text, ln.end);
    var w1 := Over(es, w, o, ln.text);
    FromLost(l, n, w1.s, CR);
    FromLost(l, n, w1.s, LF);
    OverEnd(es, n, l, w1, o + |ln.text|, ln.end, l.ends.value.cr);
  }

  lemma OverFirstPart(es: Es, n: nat, l: Layout, w: Walk, o: nat, t: seq<byte>, j: seq<byte>) returns (to: nat)
    requires Reads(es, n, l) && IsText(t) && IsCut(j) && IsLost(w.s) && w.done.None?
    ensures Over(es, w, o, t + j) == w.(s := to)
  {
    hide Over, Goes, Expected, IsCut;
    OverFirstText(es, n, l, w, o, t);
    OverAppend(es, w, o, t, j);
    var w1 := Over(es, w, o, t);
    FromLost(l, n, w1.s, CR);
    if j == [] {
      OverNothing(es, w1, o + |t|);
      to := w1.s;
    } else {
      to := OverCut(es, n, l, w1, o + |t|, j, l.ends.value.cr);
    }
  }

  // The empty line ends the walk, just behind it.
  lemma OverEmpty(es: Es, n: nat, l: Layout, w: Walk, i: nat, crlf: bool)
    requires Reads(es, n, l) && [] in l.nodes && w.s == l.nodes[[]] && w.done.None?
    ensures Over(es, w, i, Eol(crlf)) == w.(s := l.ends.value.done, done := Some(i + |Eol(crlf)|))
  {
    hide Goes, Step, Expected, WellFormed;
    FromLineEnd(l, n);
    if crlf {
      assert [CR, LF] == [CR] + [LF];
      OverAppend(es, w, i, [CR], [LF]);
      OverOne(es, w, i, CR);
      StepQuiet(es, n, l, w, i, CR, l.ends.value.crLine);
      OverOne(es, w.(s := l.ends.value.crLine), i + 1, LF);
      StepGoes(es, n, l, w.(s := l.ends.value.crLine), i + 1, LF);
    } else {
      OverOne(es, w, i, LF);
      StepGoes(es, n, l, w, i, LF);
    }
  }

  // --- A header block ---

  // The text of a line goes up to its first CR or LF.
  datatype Line = Line(text: seq<byte>, end: seq<byte>)

  function LineBytes(ln: Line): seq<byte> {
    ln.text + ln.end
  }

  function LinesBytes(ls: seq<Line>): seq<byte> {
    if ls == [] then [] else LinesBytes(ls[..|ls| - 1]) + LineBytes(ls[|ls| - 1])
  }

  // Lines none of which is empty.
  predicate AreHeaders(ls: seq<Line>) {
    forall ln <- ls :: IsHeader(ln)
  }

  // The walk behind lines that begin at the offset `o`.
  lemma {:induction false} OverLines(es: Es, n: nat, l: Layout, w: Walk, o: nat, ls: seq<Line>)
    requires Reads(es, n, l) && AreHeaders(ls) && o + |LinesBytes(ls)| < U32
    requires [] in l.nodes && w.s == l.nodes[[]] && w.done.None?
    ensures var w' := Over(es, w, o, LinesBytes(ls));
            w'.s == w.s && w'.done.None? && Over(es, w, o, LinesBytes(ls)) == AfterLines(l, n, w, o, ls)
    decreases |ls|
  {
    hide Step, Reads, AfterLine, IsHeader, ReadText, Sane;
    if ls != [] {
      var k := |ls| - 1;
      var init, last := ls[..k], ls[k];
      assert last in ls;
      OverLines(es, n, l, w, o, init);
      OverAppend(es, w, o, LinesBytes(init), LineBytes(last));
      OverLine(es, n, l, Over(es, w, o, LinesBytes(init)), o + |LinesBytes(init)|, last);
      LineGoesOn(l, Over(es, w, o, LinesBytes(init)), o + |LinesBytes(init)|, last.text);
    }
  }

  lemma LineGoesOn(l: Layout, w: Walk, o: nat, t: seq<byte>)
    requires [] in l.nodes && Sane(l, ReadText(l, t), |t|)
    ensures AfterLine(l, w, o, t).s == l.nodes[[]] && AfterLine(l, w, o, t).done.None?
  {
    hide ReadText;
  }

  lemma {:induction false} TextIsSane(l: Layout, n: nat, t: seq<byte>)
    requires WellFormed(l, n) && [] in l.nodes && IsText(t)
    ensures Sane(l, ReadText(l, t), |t|)
  {
    if t != [] {
      assert t[|t| - 1] in t;
      TextIsSane(l, n, t[..|t| - 1]);
      ReadIsSane(l, n, ReadText(l, t[..|t| - 1]), |t| - 1, t[|t| - 1]);
    }
  }

  function AfterLines(l: Layout, n: nat, w: Walk, o: nat, ls: seq<Line>): Walk
    requires WellFormed(l, n) && [] in l.nodes && AreHeaders(ls)
    decreases |ls|
  {
    if ls == [] then w
    else
      var init, t := ls[..|ls| - 1], ls[|ls| - 1].text;
      assert ls[|ls| - 1] in ls;
      TextIsSane(l, n, t);
      AfterLine(l, AfterLines(l, n, w, o, init), o + |LinesBytes(init)|, t)
  }
}
