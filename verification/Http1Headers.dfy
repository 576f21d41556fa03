// The captures of the HTTP/1 walk against the field lines of section 5 of RFC 9112.
module Http1Headers {
  import opened Base
  import opened Http1Layout
  import opened Http1Lines
  import opened Http1Names
  import opened Http1Parser
  import opened Http1Walk

  // --- Field lines ---

  // The index of the first colon.
  function Colon(t: seq<byte>): (c: Option<nat>)
    ensures c.Some? ==> c.value < |t| && t[c.value] == 0x3A && forall i :: 0 <= i < c.value ==> t[i] != 0x3A
    ensures c.None? ==> 0x3A !in t
  {
    if t == [] then None
    else
      var c := Colon(t[..|t| - 1]);
      if c.Some? then c
      else if t[|t| - 1] == 0x3A then Some(|t| - 1)
      else None
  }

  // Without the blanks it ends with.
  function Strip(u: seq<byte>): (v: seq<byte>)
    ensures v <= u && forall i :: |v| <= i < |u| ==> IsBlank(u[i])
  {
    if u != [] && IsBlank(u[|u| - 1]) then Strip(u[..|u| - 1]) else u
  }

  // How many blanks it begins with.
  function Lead(v: seq<byte>): (k: nat)
    ensures k <= |v| && (forall i :: 0 <= i < k ==> IsBlank(v[i])) && (k < |v| ==> !IsBlank(v[k]))
  {
    if v != [] && IsBlank(v[0]) then 1 + Lead(v[1..]) else 0
  }

  // The field of a line: its name in lower case, without blanks before the colon, and where
  // its value begins, without blanks behind the colon.
  function FieldOf(t: seq<byte>): Option<(seq<byte>, nat)> {
    var c := Colon(t);
    if c.None? then None else Some((ToLower(Strip(t[..c.value])), c.value + 1 + Lead(t[c.value + 1..])))
  }

  // A name that has no blank inside, as section 5.1 of RFC 9112 demands.
  predicate IsPure(u: seq<byte>) {
    forall x <- Strip(u) :: !IsBlank(x)
  }

  predicate IsRegular(t: seq<byte>) {
    Colon(t).Some? ==> IsPure(t[..Colon(t).value])
  }

  predicate AreRegular(ls: seq<Line>) {
    forall ln <- ls :: IsRegular(ln.text)
  }

  // The value of the last of `ls` that is called `p` and has one.
  function LastValue(ls: seq<Line>, p: seq<byte>): Option<seq<byte>> {
    if ls == [] then None
    else
      var t := ls[|ls| - 1].text;
      var f := FieldOf(t);
      if f.Some? && f.value.0 == p && f.value.1 < |t| then Some(t[f.value.1..]) else LastValue(ls[..|ls| - 1], p)
  }

  // --- The names the parser reads ---

  // What the name `u` of a line is read as: blanks are passed over wherever what has been read
  // so far is one of `names`.
  function NameRead(names: set<seq<byte>>, u: seq<byte>): seq<byte> {
    if u == [] then []
    else
      var v := NameRead(names, u[..|u| - 1]);
      if IsBlank(u[|u| - 1]) && v in names then v else v + [Lower(u[|u| - 1])]
  }

  function FieldRead(names: set<seq<byte>>, t: seq<byte>): Option<(seq<byte>, nat)> {
    var c := Colon(t);
    if c.None? then None else Some((NameRead(names, t[..c.value]), c.value + 1 + Lead(t[c.value + 1..])))
  }

  function LastRead(names: set<seq<byte>>, ls: seq<Line>, p: seq<byte>): Option<seq<byte>> {
    if ls == [] then None
    else
      var t := ls[|ls| - 1].text;
      var f := FieldRead(names, t);
      if f.Some? && f.value.0 == p && f.value.1 < |t| then Some(t[f.value.1..]) else LastRead(names, ls[..|ls| - 1], p)
  }

  predicate HasBlank(u: seq<byte>) {
    exists x <- u :: IsBlank(x)
  }

  predicate AreBlankless(names: set<seq<byte>>) {
    forall p <- names :: !HasBlank(p)
  }

  lemma {:induction false} PlainNameRead(names: set<seq<byte>>, u: seq<byte>)
    requires !HasBlank(u)
    ensures NameRead(names, u) == ToLower(u)
  {
    if u == [] {
      assert ToLower(u) == [];
    } else {
      var v := u[..|u| - 1];
      assert u[|u| - 1] in u && forall y <- v :: y in u;
      PlainNameRead(names, v);
      LowerMore(u);
    }
  }

  // Blanks behind a name.
  lemma {:induction false} TrailingRead(names: set<seq<byte>>, u: seq<byte>, k: nat)
    requires AreBlankless(names) && k <= |u| && forall i :: k <= i < |u| ==> IsBlank(u[i])
    ensures var r, v := NameRead(names, u), NameRead(names, u[..k]);
            if v in names then r == v else r !in names
    decreases |u|
  {
    if k == |u| {
      assert u[..k] == u;
    } else {
      var w, x := u[..|u| - 1], u[|u| - 1];
      assert w[..k] == u[..k];
      TrailingRead(names, w, k);
      assert x in NameRead(names, w) + [x];
    }
  }

  lemma LowerBlanks(u: seq<byte>)
    ensures HasBlank(ToLower(u)) <==> HasBlank(u)
  {
    forall i | 0 <= i < |u|
      ensures IsBlank(ToLower(u)[i]) <==> IsBlank(u[i])
    {}
    if HasBlank(u) {
      var i :| 0 <= i < |u| && IsBlank(u[i]);
      assert ToLower(u)[i] in ToLower(u);
    }
  }

  // The parser reads a name as RFC 9112 has it just if the name has no blank inside, or is not
  // read as one of `names` at all.
  lemma NamesAgree(names: set<seq<byte>>, u: seq<byte>)
    requires AreBlankless(names)
    ensures (forall p <- names :: NameRead(names, u) == p <==> ToLower(Strip(u)) == p) <==>
            IsPure(u) || NameRead(names, u) !in names
  {
    var v, r := Strip(u), NameRead(names, u);
    LowerBlanks(v);
    if IsPure(u) {
      assert u[..|v|] == v;
      PlainNameRead(names, v);
      TrailingRead(names, u, |v|);
    } else {
      assert HasBlank(v);
      assert ToLower(v) !in names;
    }
  }

  lemma {:induction false} LastAgrees(names: set<seq<byte>>, ls: seq<Line>, p: seq<byte>)
    requires AreBlankless(names) && AreRegular(ls) && p in names
    ensures LastRead(names, ls, p) == LastValue(ls, p)
  {
    hide NameRead, Strip, ToLower, Lead;
    if ls != [] {
      var t := ls[|ls| - 1].text;
      assert ls[|ls| - 1] in ls && forall ln <- ls[..|ls| - 1] :: ln in ls;
      LastAgrees(names, ls[..|ls| - 1], p);
      if Colon(t).Some? {
        NamesAgree(names, t[..Colon(t).value]);
      }
    }
  }

  // --- Reading one ---

  lemma LowerMore(u: seq<byte>)
    requires u != []
    ensures ToLower(u) == ToLower(u[..|u| - 1]) + [Lower(u[|u| - 1])]
  {}

  // The name of a line, as far as it has been read.
  lemma {:induction false} ReadName(l: Layout, n: nat, u: seq<byte>)
    requires WellFormed(l, n) && [] in l.nodes && COLON !in u
    ensures var name := NameRead(l.hdrs.Keys, u);
            ReadText(l, u) == if name in l.nodes then Naming(name) else Lost
  {
    if u != [] {
      var w, x := u[..|u| - 1], u[|u| - 1];
      assert x in u && forall y <- w :: y in u;
      ReadName(l, n, w);
      NamesAreNodes(l);
      var v := NameRead(l.hdrs.Keys, w);
      assert (v + [Lower(x)])[..|v|] == v;
      NotNameBytes(l, v);
    }
  }

  lemma {:induction false} ReadLost(l: Layout, t: seq<byte>, k: nat)
    requires k <= |t| && ReadText(l, t[..k]).Lost?
    ensures ReadText(l, t).Lost?
    decreases |t|
  {
    if k == |t| {
      assert t[..k] == t;
    } else {
      assert t[..|t| - 1][..k] == t[..k];
      ReadLost(l, t[..|t| - 1], k);
    }
  }

  // Blanks behind the colon.
  lemma {:induction false} ReadBlanks(l: Layout, t: seq<byte>, k: nat, p: seq<byte>)
    requires k <= |t| && ReadText(l, t[..k]) == Blanks(p, k) && forall i :: k <= i < |t| ==> IsBlank(t[i])
    ensures ReadText(l, t) == Blanks(p, |t|)
    decreases |t|
  {
    if k == |t| {
      assert t[..k] == t;
    } else {
      assert t[..|t| - 1][..k] == t[..k];
      ReadBlanks(l, t[..|t| - 1], k, p);
    }
  }

  // The value.
  lemma {:induction false} ReadInside(l: Layout, t: seq<byte>, k: nat, p: seq<byte>)
    requires k < |t| && ReadText(l, t[..k]) == Blanks(p, k) && !IsBlank(t[k])
    ensures ReadText(l, t) == Inside(p, k)
    decreases |t|
  {
    if k + 1 == |t| {
    } else {
      assert t[..|t| - 1][..k] == t[..k];
      ReadInside(l, t[..|t| - 1], k, p);
    }
  }

  // What the layout reads a line as.
  lemma ReadField(l: Layout, n: nat, t: seq<byte>)
    requires WellFormed(l, n) && [] in l.nodes
    ensures var r, f := ReadText(l, t), FieldRead(l.hdrs.Keys, t);
            if f.None? then r.Naming? || r.Lost?
            else if f.value.0 !in l.hdrs then r.Lost?
            else if f.value.1 < |t| then r == Inside(f.value.0, f.value.1)
            else r == Blanks(f.value.0, |t|)
  {
    hide ReadText, NameRead, Lead;
    var c := Colon(t);
    if c.None? {
      NoField(l, t);
    } else {
      var u := t[..c.value];
      ReadName(l, n, u);
      NamesAreNodes(l);
      ReadColon(l, n, t, c.value, NameRead(l.hdrs.Keys, u));
    }
  }

  lemma {:induction false} NoField(l: Layout, t: seq<byte>)
    requires COLON !in t
    ensures ReadText(l, t).Naming? || ReadText(l, t).Lost?
  {
    if t != [] {
      NoField(l, t[..|t| - 1]);
    }
  }

  lemma ReadColonByte(l: Layout, n: nat, t: seq<byte>, c: nat, name: seq<byte>)
    requires WellFormed(l, n) && c < |t| && t[c] == COLON
    requires ReadText(l, t[..c]) == Naming(name) || (ReadText(l, t[..c]).Lost? && name !in l.hdrs)
    ensures ReadText(l, t[..c + 1]) == if name in l.hdrs then Blanks(name, c + 1) else Lost
  {
    NotNameBytes(l, name);
    hide WellFormed;
    assert t[..c + 1][..c] == t[..c];
  }

  lemma ReadColon(l: Layout, n: nat, t: seq<byte>, c: nat, name: seq<byte>)
    requires WellFormed(l, n) && c < |t| && t[c] == COLON
    requires ReadText(l, t[..c]) == Naming(name) || (ReadText(l, t[..c]).Lost? && name !in l.hdrs)
    ensures var r, k := ReadText(l, t), c + 1 + Lead(t[c + 1..]);
            if name !in l.hdrs then r.Lost? else if k < |t| then r == Inside(name, k) else r == Blanks(name, |t|)
  {
    ReadColonByte(l, n, t, c, name);
    hide WellFormed, ReadText;
    if name !in l.hdrs {
      ReadLost(l, t, c + 1);
    } else {
      ReadBehindColon(l, t, c + 1, name);
    }
  }

  lemma ReadBehindColon(l: Layout, t: seq<byte>, c: nat, name: seq<byte>)
    requires c <= |t| && ReadText(l, t[..c]) == Blanks(name, c)
    ensures var r, k := ReadText(l, t), c + Lead(t[c..]);
            if k < |t| then r == Inside(name, k) else r == Blanks(name, |t|)
  {
    hide ReadText;
    var rest := t[c..];
    var k := c + Lead(rest);
    assert forall i :: c <= i < |t| ==> t[i] == rest[i - c];
    assert t[..k][..c] == t[..c];
    ReadBlanks(l, t[..k], c, name);
    if k < |t| {
      ReadInside(l, t, k, name);
    } else {
      assert t[..k] == t;
    }
  }

  // --- Captures ---

  // `get_match_msg`: the bytes of a range, if anything was captured.
  function GetMatch(d: seq<byte>, r: Range): Option<seq<byte>> {
    if r.len == 0 || r.idx + r.len > |d| then None else Some(d[r.idx..r.idx + r.len])
  }

  // Whether the bytes `bs` are the ones at the offset `o`.
  predicate IsAt(d: seq<byte>, o: nat, bs: seq<byte>) {
    o + |bs| <= |d| && d[o..o + |bs|] == bs
  }

  lemma IsAtParts(d: seq<byte>, o: nat, a: seq<byte>, b: seq<byte>)
    requires IsAt(d, o, a + b)
    ensures IsAt(d, o, a) && IsAt(d, o + |a|, b)
  {
    SliceOfSlice(d, o, o + |a + b|, 0, |a|);
    SliceOfSlice(d, o, o + |a + b|, |a|, |a + b|);
    assert (a + b)[0..|a|] == a && (a + b)[|a|..|a + b|] == b;
  }

  // Every name has a match id of its own.
  ghost predicate Apart(l: Layout) {
    forall p, q :: p in l.hdrs && q in l.hdrs && l.hdrs[p].mid == l.hdrs[q].mid ==> p == q
  }

  lemma RangeMatches(d: seq<byte>, o: nat, t: seq<byte>, k: nat)
    requires IsAt(d, o, t) && o + |t| < U16 && k < |t|
    ensures GetMatch(d, Range((o + k) % U16, (|t| - k) % U16)) == Some(t[k..])
  {
    SliceOfSlice(d, o, o + |t|, k, |t|);
    assert t[k..|t|] == t[k..];
  }

  // What a line captures, by what it is read as.
  function Taken(l: Layout, ms: Ranges, o: nat, t: seq<byte>): Ranges {
    match ReadText(l, t)
    case Inside(p, k) =>
      if p in l.hdrs && k <= |t| then ms[l.hdrs[p].mid % MAX_MATCHES := Range((o + k) % U16, (|t| - k) % U16)] else ms
    case _ => ms
  }

  lemma LineTakes(l: Layout, w: Walk, o: nat, t: seq<byte>)
    requires [] in l.nodes && Sane(l, ReadText(l, t), |t|) && o + |t| < U16
    ensures AfterLine(l, w, o, t).ms == Taken(l, w.ms, o, t)
  {
    hide ReadText;
  }

  // One line captures its value for its name, and nothing else.
  lemma LineCaptures(l: Layout, n: nat, ms: Ranges, o: nat, t: seq<byte>, d: seq<byte>, p: seq<byte>)
    requires WellFormed(l, n) && [] in l.nodes && Apart(l) && IsText(t) && p in l.hdrs
    requires IsAt(d, o, t) && o + |t| < U16
    ensures l.hdrs[p].mid < MAX_MATCHES
    ensures var f, m := FieldRead(l.hdrs.Keys, t), GetMatch(d, Taken(l, ms, o, t)[l.hdrs[p].mid]);
            if f.Some? && f.value.0 == p && f.value.1 < |t| then m == Some(t[f.value.1..])
            else m == GetMatch(d, ms[l.hdrs[p].mid])
  {
    hide WellFormed, ReadText, FieldRead, GetMatch, IsAt, IsText;
    ReadField(l, n, t);
    MidInRange(l, n, p);
    var r := ReadText(l, t);
    if r.Inside? {
      TextIsSane(l, n, t);
      MidInRange(l, n, r.p);
      RangeMatches(d, o, t, r.k);
    }
  }

  lemma {:induction false} LinesCapture(l: Layout, n: nat, w: Walk, o: nat, ls: seq<Line>, d: seq<byte>, p: seq<byte>)
    requires WellFormed(l, n) && [] in l.nodes && Apart(l) && AreHeaders(ls) && p in l.hdrs
    requires IsAt(d, o, LinesBytes(ls)) && o + |LinesBytes(ls)| < U16
    ensures l.hdrs[p].mid < MAX_MATCHES
    ensures GetMatch(d, AfterLines(l, n, w, o, ls).ms[l.hdrs[p].mid]) ==
            if LastRead(l.hdrs.Keys, ls, p).Some? then LastRead(l.hdrs.Keys, ls, p)
            else GetMatch(d, w.ms[l.hdrs[p].mid])
    decreases |ls|
  {
    hide WellFormed, GetMatch, FieldRead, Apart, AfterLine, Sane, Taken, IsAt, IsText, ReadText, IsHeader, AreHeaders;
    MidInRange(l, n, p);
    if ls != [] {
      var k := |ls| - 1;
      var init, t := ls[..k], ls[k].text;
      var o1 := o + |LinesBytes(init)|;
      LinesParts(ls, d, o);
      LinesCapture(l, n, w, o, init, d, p);
      TextIsSane(l, n, t);
      var w1 := AfterLines(l, n, w, o, init);
      LineTakes(l, w1, o1, t);
      LineCaptures(l, n, w1.ms, o1, t, d, p);
    }
  }

  lemma LinesParts(ls: seq<Line>, d: seq<byte>, o: nat)
    requires ls != [] && AreHeaders(ls) && IsAt(d, o, LinesBytes(ls))
    ensures var init, t := ls[..|ls| - 1], ls[|ls| - 1].text;
            && AreHeaders(init) && IsText(t)
            && IsAt(d, o, LinesBytes(init)) && IsAt(d, o + |LinesBytes(init)|, t)
            && |LinesBytes(init)| + |t| <= |LinesBytes(ls)|
  {
    hide IsAt, IsText;
    var init, last := ls[..|ls| - 1], ls[|ls| - 1];
    assert last in ls;
    IsAtParts(d, o, LinesBytes(init), LineBytes(last));
    IsAtParts(d, o + |LinesBytes(init)|, last.text, last.end);
  }

  // --- Whole messages ---

  predicate IsLine(ln: Line) {
    IsText(ln.text) && IsEnd(ln.end)
  }

  // A message: its first line, its header lines, and the empty line.
  function BlockBytes(first: Line, ls: seq<Line>, crlf: bool): seq<byte> {
    LineBytes(first) + LinesBytes(ls) + Eol(crlf)
  }

  // The walk over a header block.
  lemma BlockWalked(es: Es, n: nat, l: Layout, first: Line, ls: seq<Line>, crlf: bool)
    requires Reads(es, n, l) && IsLine(first) && AreHeaders(ls) && |BlockBytes(first, ls, crlf)| <= 0x8000
    ensures [] in l.nodes
    ensures var w := Over(es, Start(), 0, BlockBytes(first, ls, crlf));
            var w1 := Start().(s := l.nodes[[]]);
            w.done == Some(|BlockBytes(first, ls, crlf)|) && w.ms == AfterLines(l, n, w1, |LineBytes(first)|, ls).ms
  {
    hide Over, Reads;
    var a, b := LineBytes(first), LinesBytes(ls);
    OverAppend(es, Start(), 0, a + b, Eol(crlf));
    OverAppend(es, Start(), 0, a, b);
    OverFirst(es, n, l, Start(), 0, first);
    var w1 := Start().(s := l.nodes[[]]);
    OverLines(es, n, l, w1, |a|, ls);
    OverEmpty(es, n, l, Over(es, w1, |a|, b), |a + b|, crlf);
  }

  lemma NoRangesMatch(d: seq<byte>, i: nat)
    requires i < MAX_MATCHES
    ensures GetMatch(d, NoRanges()[i]) == None
  {
    assert NoRanges()[i] in NoRanges();
  }

  // A message is parsed up to just behind the first empty line behind its first line, which
  // may be empty itself. For each configured name, the value is captured of the last line that
  // is read as having that name, and a value that is not empty: all of the line but the blanks
  // in front of it. Nothing is if there is no such line. All of that holds whatever part of
  // the message is exposed at first, and for any bytes that follow.
  lemma HeadersCaptured(es: Es, n: nat, l: Layout, first: Line, ls: seq<Line>, crlf: bool, rest: seq<byte>, shown: nat,
                        p: seq<byte>)
    requires Reads(es, n, l) && Apart(l) && IsLine(first) && AreHeaders(ls)
    requires |BlockBytes(first, ls, crlf)| <= Limit(shown) && shown <= |BlockBytes(first, ls, crlf) + rest|
    requires p in l.hdrs
    ensures l.hdrs[p].mid < MAX_MATCHES
    ensures var d := BlockBytes(first, ls, crlf) + rest;
            var r := ParseMsg(es, d, shown);
            r.0 == Parsed(|BlockBytes(first, ls, crlf)|)
                && GetMatch(d, r.1[l.hdrs[p].mid]) == LastRead(l.hdrs.Keys, ls, p)
  {
    hide Over, Reads, AfterLines, GetMatch, LastRead, Apart, AreHeaders, IsLine;
    var bs := BlockBytes(first, ls, crlf);
    var d := bs + rest;
    BlockWalked(es, n, l, first, ls, crlf);
    BlockParsed(es, d, bs, shown);
    WellFormedReads(es, n, l);
    var w1 := Start().(s := l.nodes[[]]);
    BlockIsAt(first, ls, crlf, rest);
    LinesCapture(l, n, w1, |LineBytes(first)|, ls, d, p);
    NoRangesMatch(d, l.hdrs[p].mid);
  }

  // For a configured parser, and lines whose names have no blanks inside, what is captured
  // under the match id of a name is the value of the last line of that name, in any case and
  // with or without blanks before its colon.
  lemma ConfiguredHeaders(es: Es, n: nat, l: Layout, caps: Captures, ids: nat,
                          first: Line, ls: seq<Line>, crlf: bool, rest: seq<byte>, shown: nat, p: seq<byte>)
    requires Holds(es, n, l) && l.ends.Some? && Configures(l, caps) && Numbered(caps, ids) && p in caps
    requires IsLine(first) && AreHeaders(ls) && AreRegular(ls)
    requires |BlockBytes(first, ls, crlf)| <= Limit(shown) && shown <= |BlockBytes(first, ls, crlf) + rest|
    ensures var d := BlockBytes(first, ls, crlf) + rest;
            var r := ParseMsg(es, d, shown);
            r.0 == Parsed(|BlockBytes(first, ls, crlf)|) && GetMatch(d, r.1[caps[p]]) == LastValue(ls, p)
  {
    NamesBlankless(es, n, l);
    hide Holds, ParseMsg, LastRead, LastValue, AreBlankless;
    HeadersCaptured(es, n, l, first, ls, crlf, rest, shown, p);
    LastAgrees(l.hdrs.Keys, ls, p);
  }

  lemma NamesBlankless(es: Es, n: nat, l: Layout)
    requires Holds(es, n, l)
    ensures AreBlankless(l.hdrs.Keys)
  {
    NamesAreNodes(l);
  }

  lemma BlockIsAt(first: Line, ls: seq<Line>, crlf: bool, rest: seq<byte>)
    ensures IsAt(BlockBytes(first, ls, crlf) + rest, |LineBytes(first)|, LinesBytes(ls))
  {
    var a, b, c := LineBytes(first), LinesBytes(ls), Eol(crlf);
    assert a + b + c + rest == a + (b + (c + rest));
    assert IsAt(a + (b + (c + rest)), 0, a + (b + (c + rest)));
    IsAtParts(a + (b + (c + rest)), 0, a, b + (c + rest));
    IsAtParts(a + (b + (c + rest)), |a|, b, c + rest);
  }

  lemma WellFormedReads(es: Es, n: nat, l: Layout)
    requires Reads(es, n, l)
    ensures WellFormed(l, n)
  {}

  // A walk that is done within the bytes that are walked is the result.
  lemma BlockParsed(es: Es, d: seq<byte>, bs: seq<byte>, shown: nat)
    requires bs <= d && |bs| <= Limit(shown) && shown <= |d| && Over(es, Start(), 0, bs).done == Some(|bs|)
    ensures ParseMsg(es, d, shown) == (Parsed(|bs|), Over(es, Start(), 0, bs).ms)
  {
    hide Over, ParseMsg;
    WalkedOnce(es, d, shown);
    var stop := Min(|d|, Limit(shown));
    assert d[..stop] == bs + d[|bs|..stop];
    OverAppend(es, Start(), 0, bs, d[|bs|..stop]);
    OverDone(es, Over(es, Start(), 0, bs), |bs|, d[|bs|..stop]);
  }

  // --- Messages without an empty line ---

  // A message whose empty line has not arrived is not parsed.
  lemma NotYetParsed(es: Es, n: nat, l: Layout, first: Line, ls: seq<Line>, shown: nat)
    requires Reads(es, n, l) && IsLine(first) && AreHeaders(ls)
    requires var d := LineBytes(first) + LinesBytes(ls); shown <= |d| < 0x7FFF
    ensures ParseMsg(es, LineBytes(first) + LinesBytes(ls), shown).0 == Again
  {
    hide Over, Reads, AfterLines;
    var a, b := LineBytes(first), LinesBytes(ls);
    OverAppend(es, Start(), 0, a, b);
    OverFirst(es, n, l, Start(), 0, first);
    OverLines(es, n, l, Start().(s := l.nodes[[]]), |a|, ls);
    assert (a + b)[..|a + b|] == a + b;
    NotDoneSooner(es, a + b, shown);
    WalkedOnce(es, a + b, shown);
  }

  // A walk that is not done was not done before.
  lemma NotDoneSooner(es: Es, d: seq<byte>, shown: nat)
    requires |d| < 0x7FFF && Over(es, Start(), 0, d).done.None?
    ensures Over(es, Start(), 0, d[..Min(|d|, Limit(shown))]).done.None?
  {
    hide Over;
    var k := Min(|d|, Limit(shown));
    assert d == d[..k] + d[k..];
    OverAppend(es, Start(), 0, d[..k], d[k..]);
    if Over(es, Start(), 0, d[..k]).done.Some? {
      OverDone(es, Over(es, Start(), 0, d[..k]), k, d[k..]);
    }
  }

  // The walk over whole lines and part of one more.
  lemma LinesWalked(es: Es, n: nat, l: Layout, first: Line, ls: seq<Line>, t: seq<byte>, j: seq<byte>)
    requires Reads(es, n, l) && IsLine(first) && AreHeaders(ls) && IsText(t) && IsCut(j)
    requires |LineBytes(first) + LinesBytes(ls) + (t + j)| <= 0x8000
    ensures [] in l.nodes && Sane(l, ReadText(l, t), |t|)
    ensures var a, b := LineBytes(first), LinesBytes(ls);
            var w := Over(es, Start(), 0, a + b + (t + j));
            var w2 := AfterLines(l, n, Start().(s := l.nodes[[]]), |a|, ls);
            w.done.None? && w.ms == Taken(l, w2.ms, |a + b|, t)
  {
    hide Over, Reads, AfterLines, AreHeaders, IsLine, IsText, IsCut, LineBytes, LinesBytes;
    var a, b, c := LineBytes(first), LinesBytes(ls), t + j;
    OverAppend(es, Start(), 0, a + b, c);
    OverAppend(es, Start(), 0, a, b);
    FirstOver(es, n, l, first);
    var w1 := Start().(s := l.nodes[[]]);
    OverLines(es, n, l, w1, |a|, ls);
    var w2 := Over(es, w1, |a|, b);
    var s := OverPart(es, n, l, w2, |a + b|, t, j);
    PartDone(l, w2, |a + b|, t, s);
    LineTakes(l, w2, |a + b|, t);
  }

  // A message of which no empty line has arrived, or none within the bytes that are walked, is
  // not parsed. What was captured up to there is kept even so: for each name, the value of the
  // last line that is read as having that name and a value, the last one of which may be cut
  // off by the end.
  lemma UnfinishedCaptured(es: Es, n: nat, l: Layout, first: Line, ls: seq<Line>, t: seq<byte>, j: seq<byte>,
                           msg: seq<byte>, shown: nat, p: seq<byte>)
    requires Reads(es, n, l) && Apart(l) && IsLine(first) && AreHeaders(ls) && IsText(t) && IsCut(j) && p in l.hdrs
    requires shown <= |msg| && msg[..Min(|msg|, Limit(shown))] == LineBytes(first) + LinesBytes(ls) + (t + j)
    ensures l.hdrs[p].mid < MAX_MATCHES
    ensures var r := ParseMsg(es, msg, shown);
            && r.0 == (if |msg| >= 0x7FFF then TooBig else Again)
            && GetMatch(msg, r.1[l.hdrs[p].mid]) == LastRead(l.hdrs.Keys, ls + [Line(t, j)], p)
  {
    hide Over, Reads, AfterLines, GetMatch, Apart, AreHeaders, IsLine, FieldRead, IsText, IsCut, LineBytes, LinesBytes;
    hide ParseMsg, Taken, LastRead, Sane, ReadText;
    var a, b := LineBytes(first), LinesBytes(ls);
    LinesWalked(es, n, l, first, ls, t, j);
    WalkedOnce(es, msg, shown);
    assert a + b + (t + j) == msg[..Min(|msg|, Limit(shown))];
    WellFormedReads(es, n, l);
    PrefixIsAt(msg, Min(|msg|, Limit(shown)), a, b, t, j);
    var w1 := Start().(s := l.nodes[[]]);
    LinesCapture(l, n, w1, |a|, ls, msg, p);
    LineCaptures(l, n, AfterLines(l, n, w1, |a|, ls).ms, |a + b|, t, msg, p);
    NoRangesMatch(msg, l.hdrs[p].mid);
    LastReadMore(l.hdrs.Keys, ls, Line(t, j), p);
  }

  lemma FirstOver(es: Es, n: nat, l: Layout, first: Line)
    requires Reads(es, n, l) && IsLine(first)
    ensures [] in l.nodes && Over(es, Start(), 0, LineBytes(first)) == Start().(s := l.nodes[[]])
  {
    OverFirst(es, n, l, Start(), 0, first);
  }

  lemma PartDone(l: Layout, w: Walk, o: nat, t: seq<byte>, s: nat)
    requires [] in l.nodes && Sane(l, ReadText(l, t), |t|)
    ensures AfterLine(l, w, o, t).(s := s).done.None? && AfterLine(l, w, o, t).(s := s).ms == AfterLine(l, w, o, t).ms
  {
    hide ReadText;
  }

  lemma LastReadMore(names: set<seq<byte>>, ls: seq<Line>, ln: Line, p: seq<byte>)
    ensures var t, f := ln.text, FieldRead(names, ln.text);
            LastRead(names, ls + [ln], p) ==
            if f.Some? && f.value.0 == p && f.value.1 < |t| then Some(t[f.value.1..]) else LastRead(names, ls, p)
  {
    hide FieldRead;
    assert (ls + [ln])[..|ls|] == ls;
  }

  lemma PrefixIsAt(msg: seq<byte>, k: nat, a: seq<byte>, b: seq<byte>, t: seq<byte>, j: seq<byte>)
    requires k <= |msg| && msg[..k] == a + b + (t + j)
    ensures IsAt(msg, |a|, b) && IsAt(msg, |a + b|, t)
  {
    assert msg[0..k] == msg[..k];
    assert IsAt(msg, 0, a + b + (t + j));
    IsAtParts(msg, 0, a + b, t + j);
    IsAtParts(msg, 0, a, b);
    IsAtParts(msg, |a + b|, t, j);
  }

  // Nothing is captured in the first line.
  lemma FirstUnfinished(es: Es, n: nat, l: Layout, t: seq<byte>, j: seq<byte>, msg: seq<byte>, shown: nat, i: nat)
    requires Reads(es, n, l) && IsText(t) && IsCut(j) && i < MAX_MATCHES
    requires shown <= |msg| && msg[..Min(|msg|, Limit(shown))] == t + j
    ensures var r := ParseMsg(es, msg, shown);
            r.0 == (if |msg| >= 0x7FFF then TooBig else Again) && GetMatch(msg, r.1[i]) == None
  {
    hide Over, Reads, GetMatch;
    var s := OverFirstPart(es, n, l, Start(), 0, t, j);
    WalkedOnce(es, msg, shown);
    NoRangesMatch(msg, i);
  }

  // --- Any bytes ---

  // Any bytes are lines, and part of one more.
  lemma {:induction false} AreLines(d: seq<byte>) returns (ls: seq<Line>, t: seq<byte>, j: seq<byte>)
    ensures d == LinesBytes(ls) + (t + j) && IsText(t) && IsCut(j) && forall ln <- ls :: IsLine(ln)
  {
    hide LinesBytes, IsText, IsCut, IsLine;
    if d == [] {
      ls, t, j := [], [], [];
      NoLines();
    } else {
      var k := |d| - 1;
      ls, t, j := AreLines(d[..k]);
      assert d == LinesBytes(ls) + ((t + j) + [d[k]]);
      if d[k] == 0x0A {
        LineEnds(ls, t, j);
        ls, t, j := ls + [Line(t, j + [d[k]])], [], [];
        NoLines();
        assert LinesBytes(ls) + ([] + []) == LinesBytes(ls);
      } else if j == [] && d[k] != 0x0D {
        TextGoesOn(t, d[k]);
        assert (t + []) + [d[k]] == (t + [d[k]]) + [];
        t := t + [d[k]];
      } else {
        CutGoesOn(j, d[k]);
        assert (t + j) + [d[k]] == t + (j + [d[k]]);
        j := j + [d[k]];
      }
    }
  }

  lemma NoLines()
    ensures LinesBytes([]) == [] && IsText([]) && IsCut([])
  {}

  lemma TextGoesOn(t: seq<byte>, c: byte)
    requires IsText(t) && c != 0x0A && c != 0x0D
    ensures IsText(t + [c])
  {}

  lemma CutGoesOn(j: seq<byte>, c: byte)
    requires IsCut(j) && c != 0x0A && (j == [] ==> c == 0x0D)
    ensures IsCut(j + [c])
  {}

  lemma LineEnds(ls: seq<Line>, t: seq<byte>, j: seq<byte>)
    requires IsText(t) && IsCut(j)
    ensures var ln := Line(t, j + [0x0A]);
            IsLine(ln) && LinesBytes(ls + [ln]) == LinesBytes(ls) + ((t + j) + [0x0A])
  {
    var ln := Line(t, j + [0x0A]);
    assert (j + [0x0A])[..|j|] == j && (ls + [ln])[..|ls|] == ls;
    assert LineBytes(ln) == (t + j) + [0x0A];
  }

  predicate IsEmpty(ln: Line) {
    ln.text == [] && |ln.end| <= 2
  }

  // So every message is one that ends its first line, and then its header block, or that does
  // not: the results about captures leave none out.
  lemma AnyMessage(d: seq<byte>)
    returns (first: Option<Line>, ls: seq<Line>, crlf: Option<bool>, t: seq<byte>, j: seq<byte>, rest: seq<byte>)
    ensures AreHeaders(ls) && IsText(t) && IsCut(j) && (first.Some? ==> IsLine(first.value))
    ensures if first.None? then d == t + j
            else if crlf.None? then d == LineBytes(first.value) + LinesBytes(ls) + (t + j)
            else d == BlockBytes(first.value, ls, crlf.value) + rest
  {
    hide LineBytes, IsText, IsCut, IsEnd;
    var all;
    all, t, j := AreLines(d);
    first, ls, crlf, rest := None, [], None, [];
    if all == [] {
      assert d == t + j;
    } else {
      assert all[0] in all;
      first := Some(all[0]);
      FirstOfLines(all);
      assert forall ln <- all[1..] :: ln in all;
      var k := UpToEmpty(all[1..]);
      ls := all[1..][..k];
      if k < |all[1..]| {
        var e := all[1..][k];
        LinesSplit(all[1..], k);
        assert e in all;
        EmptyIs(e);
        crlf := Some(|e.end| == 2);
        rest := LinesBytes(all[1..][k + 1..]) + (t + j);
        assert d == LineBytes(first.value) + (LinesBytes(ls) + (Eol(crlf.value) + LinesBytes(all[1..][k + 1..])))
                    + (t + j);
      } else {
        assert ls == all[1..];
      }
    }
  }

  lemma EmptyIs(ln: Line)
    requires IsLine(ln) && IsEmpty(ln)
    ensures LineBytes(ln) == Eol(|ln.end| == 2)
  {}

  // How many lines there are before the first empty one.
  lemma {:induction false} UpToEmpty(ls: seq<Line>) returns (k: nat)
    requires forall ln <- ls :: IsLine(ln)
    ensures k <= |ls| && (forall i :: 0 <= i < k ==> IsHeader(ls[i])) && (k < |ls| ==> IsEmpty(ls[k]))
  {
    k := 0;
    while k < |ls| && !IsEmpty(ls[k])
      invariant k <= |ls| && forall i :: 0 <= i < k ==> IsHeader(ls[i])
    {
      assert ls[k] in ls;
      k := k + 1;
    }
  }

  lemma FirstOfLines(ls: seq<Line>)
    requires ls != []
    ensures LinesBytes(ls) == LineBytes(ls[0]) + LinesBytes(ls[1..])
  {
    LinesSplit(ls, 0);
    assert ls[..0] == [];
  }

  lemma {:induction false} LinesSplit(ls: seq<Line>, k: nat)
    requires k < |ls|
    ensures LinesBytes(ls) == LinesBytes(ls[..k]) + (LineBytes(ls[k]) + LinesBytes(ls[k + 1..]))
    decreases |ls|
  {
    hide LineBytes;
    var m := |ls| - 1;
    if k == m {
      assert ls[k + 1..] == [];
    } else {
      LinesSplit(ls[..m], k);
      assert ls[..m][..k] == ls[..k] && ls[..m][k + 1..] == ls[k + 1..][..m - k - 1];
    }
  }

  // --- Names with blanks inside ---

  // Where both "a" and "ab" are captured, a line that begins with "a b:" is taken for one of
  // "ab", although no line that RFC 9112 allows has such a name.
  lemma BlankInside(names: set<seq<byte>>, a: byte, b: byte)
    requires IsNameByte(a) && IsNameByte(b) && [a] in names && [a, b] in names
    ensures FieldRead(names, [a, SP, b, COLON, a]) == Some(([a, b], 4))
    ensures !IsRegular([a, SP, b, COLON, a])
  {
    var t, u := [a, SP, b, COLON, a], [a, SP, b];
    assert t[..4][..3] == u && t[..4][3] == COLON && t[..4][..|t[..4]| - 1] == u;
    assert Colon(t[..4]) == Some(3) && t[..3] == u && t[4..] == [a];
    assert u[..2] == [a, SP] && [a, SP][..1] == [a] && [a][..0] == [] && [] + [a] == [a] && [a] + [b] == [a, b];
    assert NameRead(names, [a]) == [a];
    assert NameRead(names, [a, SP]) == [a];
    assert Strip(u) == u && u[1] in u && IsBlank(SP);
  }
}
