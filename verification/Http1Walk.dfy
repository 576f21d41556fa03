// The walk of http1/parser.bpf.c over the DFA of module Http1Layout.
module Http1Walk {
  import opened Base
  import opened Http1Action
  import opened Http1Layout
  import D = Dfa
  import Inject

  // A captured range of the message, in 16 bits.
  datatype Range = Range(idx: u16, len: u16)

  type Opens = s: seq<u32> | |s| == MAX_MATCHES witness seq(MAX_MATCHES, _ => 0)
  type Ranges = s: seq<Range> | |s| == MAX_MATCHES witness seq(MAX_MATCHES, _ => Range(0, 0))

  // The state of the DFA, where each open capture began, what was captured, and the offset
  // behind the byte the walk was done at.
  datatype Walk = Walk(s: nat, open: Opens, ms: Ranges, done: Option<nat>)

  // A walk begins with nothing captured and nothing open.
  function NoRanges(): (ms: Ranges)
    ensures forall m <- ms :: m == Range(0, 0)
  {
    seq(MAX_MATCHES, i => Range(0, 0))
  }

  function Start(): Walk {
    Walk(D.INIT_STATE, seq(MAX_MATCHES, i => 0), NoRanges(), None)
  }

  // The transition the byte `c` takes. What leads to the any state is looked at once more
  // from there.
  function Transit(es: Es, s: nat, c: byte): (nat, Option<Action>) {
    var n := Inject.Follow1(es, s, c);
    if n.0 == D.ANY_STATE then Inject.Follow1(es, D.ANY_STATE, c) else n
  }

  function Opened(open: Opens, act: CAction, i: nat): Opens {
    if act.kind == START_CAPTURE then open[act.mid % MAX_MATCHES := (i + 1) % U32] else open
  }

  function Ended(ms: Ranges, open: Opens, act: CAction, i: nat): Ranges {
    var mid := act.mid % MAX_MATCHES;
    if act.kind == END_CAPTURE then ms[mid := Range(open[mid] % U16, (i - open[mid] + 1) % U16)] else ms
  }

  // Runs the action of the byte at the offset `i`.
  function Act(w: Walk, s: nat, act: CAction, i: nat): Walk {
    Walk(s, Opened(w.open, act, i), Ended(w.ms, w.open, act, i), if act.flags % 2 == F_DONE then Some(i + 1) else None)
  }

  // Nothing is read behind the byte the walk was done at.
  function Step(es: Es, w: Walk, i: nat, c: byte): Walk {
    if w.done.Some? then w
    else
      var t := Transit(es, w.s, c);
      Act(w, t.0, Inject.Coded(Encode, NOOP, t.1), i)
  }

  function Stepper(es: Es): (Walk, nat, byte) -> Walk {
    (w: Walk, i: nat, c: byte) => Step(es, w, i, c)
  }

  // The walk over `bs` from the offset `i` on.
  function Over(es: Es, w: Walk, i: nat, bs: seq<byte>): Walk {
    Fold(Stepper(es), w, i, bs)
  }

  lemma OverAppend(es: Es, w: Walk, i: nat, a: seq<byte>, b: seq<byte>)
    ensures Over(es, w, i, a + b) == Over(es, Over(es, w, i, a), i + |a|, b)
  {
    hide Step;
    FoldAppend(Stepper(es), w, i, a, b);
  }

  lemma OverOne(es: Es, w: Walk, i: nat, c: byte)
    ensures Over(es, w, i, [c]) == Step(es, w, i, c)
  {
    hide Step;
    FoldOne(Stepper(es), w, i, c);
  }

  lemma {:induction false} OverDone(es: Es, w: Walk, i: nat, bs: seq<byte>)
    requires w.done.Some?
    ensures Over(es, w, i, bs) == w
  {
    hide Transit, Act;
    if bs != [] {
      OverDone(es, w, i, bs[..|bs| - 1]);
    }
  }

  // --- Calls ---

  // `_parse_from`: the number of bytes up to where the walk was done, the negative number of
  // bytes there are if it was not, or 0 if there are none to walk.
  function ParseFrom(es: Es, d: seq<byte>, start: nat, w: Walk): (int, Walk) {
    var len := Min(|d|, MAX_BYTES);
    if start >= len then (0, w)
    else
      var w' := Over(es, w, start, d[start..Min(len + 1, |d|)]);
      if w'.done.Some? then (w'.done.value, w') else (-len, w')
  }

  datatype Verdict = Parsed(n: nat) | Again | TooBig

  // The walk over what is exposed, and over the rest of the message if it was not done there.
  function WalkMsg(es: Es, msg: seq<byte>, shown: nat): (int, Walk)
    requires shown <= |msg|
  {
    var first := ParseFrom(es, msg[..shown], 0, Start());
    if first.0 < 0 && |msg| > -first.0 then ParseFrom(es, msg, -first.0, first.1) else first
  }

  // `parse_msg` on the message `msg`, of which the first `shown` bytes are exposed.
  function ParseMsg(es: Es, msg: seq<byte>, shown: nat): (Verdict, Ranges)
    requires shown <= |msg|
  {
    var w := WalkMsg(es, msg, shown);
    (if w.0 > 0 then Parsed(w.0) else if |msg| >= MAX_BYTES then TooBig else Again, w.1.ms)
  }

  // --- Resuming ---

  // A walk that is done was done at one of its bytes.
  lemma {:induction false} DoneWithin(es: Es, w: Walk, i: nat, bs: seq<byte>)
    requires w.done.None?
    ensures var w' := Over(es, w, i, bs); w'.done.Some? ==> i < w'.done.value <= i + |bs|
  {
    hide Transit, Inject.Coded;
    if bs != [] {
      DoneWithin(es, w, i, bs[..|bs| - 1]);
    }
  }

  // Walking part of the message and going on with the state and the open captures is one
  // walk.
  lemma OverSplit(es: Es, w: Walk, d: seq<byte>, k: nat, stop: nat)
    requires k <= stop <= |d|
    ensures Over(es, w, 0, d[..stop]) == Over(es, Over(es, w, 0, d[..k]), k, d[k..stop])
  {
    assert d[..stop] == d[..k] + d[k..stop];
    OverAppend(es, w, 0, d[..k], d[k..stop]);
  }

  // The linear part of a message is walked first and the rest of it behind that, which comes
  // to the same as one walk over the whole message, captures included.
  lemma ResumeSame(es: Es, msg: seq<byte>, shown: nat)
    requires 0 < shown <= |msg| && shown != MAX_BYTES
    ensures ParseMsg(es, msg, shown) == ParseMsg(es, msg, |msg|)
  {
    hide Over;
    var stop := Min(Min(|msg|, MAX_BYTES) + 1, |msg|);
    assert msg[..|msg|] == msg;
    if shown < MAX_BYTES {
      var d := msg[..shown];
      assert d[0..shown] == d && msg[0..stop] == msg[..stop];
      OverSplit(es, Start(), msg, shown, stop);
      DoneWithin(es, Start(), 0, d);
      DoneWithin(es, Start(), 0, msg[..stop]);
      var w := Over(es, Start(), 0, d);
      if w.done.Some? {
        OverDone(es, w, shown, msg[shown..stop]);
      } else {
        DoneWithin(es, w, shown, msg[shown..stop]);
        assert shown == |msg| ==> msg[shown..stop] == [];
      }
    } else {
      assert msg[..shown][0..MAX_BYTES + 1] == msg[0..MAX_BYTES + 1];
    }
  }

  // The verdict depends on what is exposed in exactly two cases: if nothing is, the message
  // is never walked, and if exactly as much is as the parser walks, the byte behind it, which
  // one walk over the whole message reads as well, is not.
  lemma ResumeExactly(es: Es, msg: seq<byte>, shown: nat)
    requires shown <= |msg|
    ensures var whole := ParseMsg(es, msg, |msg|).0;
            ParseMsg(es, msg, shown).0 != whole <==>
            (shown == 0 && whole.Parsed?) || (shown == MAX_BYTES < |msg| && whole == Parsed(MAX_BYTES + 1))
  {
    hide Over, ParseFrom;
    assert msg[..|msg|] == msg;
    if shown == 0 {
      NothingShown(es, msg);
    } else if shown == MAX_BYTES < |msg| {
      LimitShown(es, msg);
    } else if shown == MAX_BYTES {
    } else {
      ResumeSame(es, msg, shown);
    }
  }

  lemma NothingShown(es: Es, msg: seq<byte>)
    ensures ParseMsg(es, msg, 0).0 == if |msg| >= MAX_BYTES then TooBig else Again
  {}

  lemma LimitShown(es: Es, msg: seq<byte>)
    requires |msg| > MAX_BYTES
    ensures var v, whole := ParseMsg(es, msg, MAX_BYTES).0, ParseMsg(es, msg, |msg|).0;
            v != whole <==> whole == Parsed(MAX_BYTES + 1)
  {
    hide Over;
    var d := msg[..MAX_BYTES];
    assert msg[..|msg|] == msg && d[0..MAX_BYTES] == d && msg[0..MAX_BYTES + 1] == msg[..MAX_BYTES + 1];
    OverSplit(es, Start(), msg, MAX_BYTES, MAX_BYTES + 1);
    DoneWithin(es, Start(), 0, d);
    var w := Over(es, Start(), 0, d);
    if w.done.Some? {
      OverDone(es, w, MAX_BYTES, msg[MAX_BYTES..MAX_BYTES + 1]);
    } else {
      DoneWithin(es, w, MAX_BYTES, msg[MAX_BYTES..MAX_BYTES + 1]);
    }
  }

  // How many bytes of a message are walked at most, if `shown` of them are exposed at first.
  function Limit(shown: nat): nat {
    if shown == 0 then 0 else if shown == 0x7FFF then 0x7FFF else 0x8000
  }

  // A call comes to one walk over the bytes up to that limit.
  lemma WalkedOnce(es: Es, msg: seq<byte>, shown: nat)
    requires shown <= |msg|
    ensures var w := Over(es, Start(), 0, msg[..Min(|msg|, Limit(shown))]);
            && ParseMsg(es, msg, shown).1 == w.ms
            && ParseMsg(es, msg, shown).0 == (if w.done.Some? then Parsed(w.done.value)
                                              else if |msg| >= 0x7FFF then TooBig else Again)
  {
    hide Over;
    var bs := msg[..Min(|msg|, Limit(shown))];
    DoneWithin(es, Start(), 0, bs);
    if shown == 0 {
      OverNone(es, Start(), bs);
    } else if shown == 0x7FFF {
      assert msg[..shown] == bs && bs[0..0x7FFF] == bs;
    } else {
      ResumeSame(es, msg, shown);
      assert msg[..|msg|] == msg && msg[0..Min(|msg|, 0x8000)] == bs;
    }
  }

  lemma OverNone(es: Es, w: Walk, bs: seq<byte>)
    requires bs == []
    ensures Over(es, w, 0, bs) == w
  {}
}
