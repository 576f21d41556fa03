// A whole stream of frames, however it arrives, against its frames and header blocks one by one.
module Http2Streams {
  import opened Base
  import opened Http2Action
  import opened Http2Answers
  import opened Http2Blocks
  import opened Http2Drive
  import opened Http2Frames
  import opened Http2Retry
  import opened Http2Split
  import HpackMachine

  // --- Units ---

  predicate IsLone(u: seq<RawFrame>) {
    |u| == 1 && Sendable(u[0]) && IsAlone(u[0])
  }

  predicate IsWholeBlock(u: seq<RawFrame>) {
    IsBlock(u, None) && HoldBlock(u, Joined(u, None)) && |Joined(u, None)| <= 16382
  }

  // What is read at once: a frame, or the frames of a header block that does not exceed the
  // limits of the program.
  predicate IsUnit(u: seq<RawFrame>) {
    u != [] && Sendable(u[0]) && (IsLone(u) || IsWholeBlock(u))
  }

  predicate AreUnits(us: seq<seq<RawFrame>>) {
    forall u <- us :: IsUnit(u)
  }

  function StreamBytes(us: seq<seq<RawFrame>>): seq<byte> {
    if us == [] then [] else AllBytes(us[0]) + StreamBytes(us[1..])
  }

  // --- What is to be told about a stream ---

  // What is known behind some units: the connection, an event for each of them, and whether
  // the last one was an error that ends it all.
  datatype Told = Told(link: Link, log: seq<Event>, dead: bool)

  function HeaderOf(f: RawFrame): Frame {
    Frame(|f.payload|, f.kind, f.flags, f.sid)
  }

  // A unit is read by itself, with none of the bytes around it.
  function TellOne(s: Setup, t: Told, u: seq<RawFrame>): Told
    requires IsUnit(u)
  {
    var r := ParseMsg(s, t.link, NO_MATCHES, AllBytes(u), |AllBytes(u)|);
    var captured := if r.verdict.Consumed? then GetCaptures(s, r) else [];
    Told(r.link, t.log + [Event(HeaderOf(u[0]), r.verdict, captured)], r.verdict.Failed? && r.verdict.e != Proto)
  }

  function Tell(s: Setup, t: Told, us: seq<seq<RawFrame>>): Told
    requires AreUnits(us)
    decreases |us|
  {
    if us == [] || t.dead then t else Tell(s, TellOne(s, t, us[0]), us[1..])
  }

  // --- One unit ---

  lemma OneFrame(f: RawFrame)
    ensures AllBytes([f]) == FrameBytes(f)
  {
    hide FrameBytes;
    assert [f][1..] == [];
    assert FrameBytes(f) + [] == FrameBytes(f);
  }

  lemma WholeIsHeld(bs: seq<byte>)
    ensures Holds(bs, 0, bs)
  {
    assert bs[0..|bs|] == bs;
  }

  // The answer on a block by itself.
  lemma BlockAnswer(s: Setup, link: Link, u: seq<RawFrame>)
    requires IsUnit(u) && |u| > 1
    ensures |AllBytes(u)| >= 9 && FrameAt(AllBytes(u), 0) == HeaderOf(u[0])
    ensures var d := AllBytes(u); var v := ParseMsg(s, link, NO_MATCHES, d, |d|).verdict;
            v == Consumed(|d|) || (v.Failed? && v.e != Proto)
  {
    hide FrameAt, FrameBytes, HasFlag, FragmentOf, HpackMachine.Feed, Holds, Collect, IsBlock, AllBytes;
    var d := AllBytes(u);
    WholeIsHeld(d);
    FirstFrame(d, u);
    assert d[..Min(|d|, MAX_BYTES)] == d;
    BlockIsCollected(d, 0, None, [], u);
    assert [] + Joined(u, None) == Joined(u, None);
  }

  // The answer on a unit by itself is final, and consumes all of it unless it is an error.
  lemma UnitAnswer(s: Setup, link: Link, u: seq<RawFrame>)
    requires IsUnit(u)
    ensures |AllBytes(u)| >= 9 && FrameAt(AllBytes(u), 0) == HeaderOf(u[0])
    ensures var d := AllBytes(u); var v := ParseMsg(s, link, NO_MATCHES, d, |d|).verdict;
            if IsRefused(u[0]) then v == Failed(Proto) && |u| == 1
            else v == Consumed(|d|) || (!IsUnread(u[0]) && v.Failed? && v.e != Proto)
  {
    hide FrameAt, FrameBytes, HasFlag, ParseMsg, Sendable, IsBlock, AllBytes;
    if |u| > 1 {
      BlockAnswer(s, link, u);
    } else {
      var f := u[0];
      OneFrame(f);
      assert u == [f];
      var d := FrameBytes(f);
      WholeIsHeld(d);
      HeaderIsHeld(d, f);
      FrameIsRead(d, 0, f);
      if IsRefused(f) {
        RefusedFrame(s, link, NO_MATCHES, d, |d|, f);
      } else if IsUnread(f) {
        UnreadFrame(s, link, NO_MATCHES, d, |d|, f);
      } else {
        LoneFrame(s, link, d, |d|, f);
      }
    }
  }

  lemma HeaderIsHeld(d: seq<byte>, f: RawFrame)
    requires Holds(d, 0, FrameBytes(f))
    ensures Holds(d, 0, Header(f)) && |d| >= |FrameBytes(f)| >= 9
  {
    HoldsParts(d, 0, Header(f), f.payload);
  }

  // --- Streams ---

  // The driver behind the units told of, with `rest` held back.
  function Behind(t: Told, rest: seq<byte>): Driver {
    Driver(t.link, if t.dead then [] else rest, 0, 0, t.log, t.dead)
  }

  // One unit is read as it is by itself, and no byte behind it.
  lemma UnitIsRead(s: Setup, e: Exposure, t: Told, u: seq<RawFrame>, more: seq<byte>)
    requires Exposes(e) && IsUnit(u) && !t.dead
    ensures Loop(s, e, Behind(t, AllBytes(u) + more)) == Loop(s, e, Behind(TellOne(s, t, u), more))
  {
    hide ParseMsg, GetCaptures, FrameAt, AllBytes, IsLone, IsWholeBlock, Loop;
    var d, all := AllBytes(u), AllBytes(u) + more;
    var dr := Behind(t, all);
    UnitAnswer(s, t.link, u);
    HeaderMore(d, all, 0);
    assert Shows(all, e(|dr.log|, dr.rest));
    AnswerStays(s, t.link, d, |d|, all, e(|dr.log|, dr.rest));
    LoopOnce(s, e, dr);
    assert all[|d|..] == more;
    if IsRefused(u[0]) {
      assert u == [u[0]];
      OneFrame(u[0]);
    }
    assert Follow(s, dr, Answer(s, e, dr)) == Behind(TellOne(s, t, u), more);
  }

  // Nothing runs any more once an error ended it all.
  lemma DeadStays(s: Setup, e: Exposure, t: Told, rest: seq<byte>)
    requires Exposes(e) && (t.dead || rest == [])
    ensures Loop(s, e, Behind(t, rest)) == Behind(t, rest)
  {}

  lemma {:induction false} UnitsAreRead(s: Setup, e: Exposure, t: Told, us: seq<seq<RawFrame>>, more: seq<byte>)
    requires Exposes(e) && AreUnits(us)
    ensures Loop(s, e, Behind(t, StreamBytes(us) + more)) == Loop(s, e, Behind(Tell(s, t, us), more))
    decreases |us|
  {
    hide Loop, AllBytes, TellOne, IsLone, IsWholeBlock;
    if us == [] {
      assert StreamBytes(us) + more == more;
    } else if t.dead {
      assert Behind(t, StreamBytes(us) + more) == Behind(t, more);
    } else {
      var rest := StreamBytes(us[1..]) + more;
      assert IsUnit(us[0]);
      assert StreamBytes(us) + more == AllBytes(us[0]) + rest;
      UnitIsRead(s, e, t, us[0], rest);
      UnitsAreRead(s, e, TellOne(s, t, us[0]), us[1..], more);
    }
  }

  // Whether the event `i` is what it should be: of the very frame its unit begins with, which
  // is skipped if it has no place there, and consumed to the last byte otherwise.
  predicate IsToldOf(v: Event, u: seq<RawFrame>) {
    && u != [] && v.frame == HeaderOf(u[0])
    && (if IsRefused(u[0]) then v.verdict == Failed(Proto) else v.verdict == Consumed(|AllBytes(u)|))
  }

  lemma {:induction false} AllAreTold(s: Setup, t: Told, us: seq<seq<RawFrame>>)
    requires AreUnits(us) && !t.dead
    ensures var t' := Tell(s, t, us); var n, k := |t.log|, |t'.log| - |t.log|;
            && 0 <= k <= |us| && t'.log[..n] == t.log
            && (!t'.dead ==> k == |us|)
            && (forall i :: 0 <= i < (if t'.dead then k - 1 else k) ==> IsToldOf(t'.log[n + i], us[i]))
    decreases |us|
  {
    hide ParseMsg, GetCaptures, AllBytes, IsLone, IsWholeBlock;
    if us != [] {
      assert IsUnit(us[0]);
      UnitAnswer(s, t.link, us[0]);
      var t1 := TellOne(s, t, us[0]);
      if !t1.dead {
        AllAreTold(s, t1, us[1..]);
        var t', n := Tell(s, t, us), |t.log|;
        assert t'.log[n] == t'.log[..n + 1][n] == t1.log[n];
        assert t'.log[..n] == t'.log[..n + 1][..n] == t.log;
        forall i | 0 < i < (if t'.dead then |t'.log| - n - 1 else |t'.log| - n)
          ensures IsToldOf(t'.log[n + i], us[i])
        {
          assert us[i] == us[1..][i - 1] && t'.log[n + i] == t'.log[n + 1 + (i - 1)];
        }
      }
    }
  }

  // Each unit has its event, in the order they were sent, up to an error.
  predicate AreToldOf(log: seq<Event>, us: seq<seq<RawFrame>>, dead: bool) {
    && |log| <= |us| && (!dead ==> |log| == |us|)
    && (forall i :: 0 <= i < |log| - (if dead then 1 else 0) ==> IsToldOf(log[i], us[i]))
  }

  lemma EachIsTold(s: Setup, link: Link, us: seq<seq<RawFrame>>)
    requires AreUnits(us)
    ensures var t := Tell(s, Told(link, [], false), us); AreToldOf(t.log, us, t.dead)
  {
    hide Tell, IsLone, IsWholeBlock, IsToldOf;
    AllAreTold(s, Told(link, [], false), us);
    var t := Tell(s, Told(link, [], false), us);
    forall i | 0 <= i < |t.log| - (if t.dead then 1 else 0)
      ensures IsToldOf(t.log[i], us[i])
    {
      assert t.log[0 + i] == t.log[i];
    }
  }

  lemma ReadAtOnce(s: Setup, e: Exposure, link: Link, chunks: seq<seq<byte>>, us: seq<seq<RawFrame>>, more: seq<byte>)
    requires Exposes(e) && AreUnits(us) && Flatten(chunks) == StreamBytes(us) + more
    ensures ArriveAll(s, e, Fresh(link), chunks) == Loop(s, e, Behind(Tell(s, Told(link, [], false), us), more))
  {
    hide ArriveAll, Loop, Tell, IsLone, IsWholeBlock, StreamBytes, Settled;
    ArriveAtOnce(s, e, link, chunks);
    var all := StreamBytes(us) + more;
    assert [] + all[0..] == all;
    UnitsAreRead(s, e, Told(link, [], false), us, more);
  }

  // However a stream arrives, each of its frames and header blocks is read as if it were all
  // there is, on the connection the ones in front of it left. None is left out or read twice,
  // and nothing is held back or still to be skipped at the end.
  lemma StreamIsRead(s: Setup, e: Exposure, link: Link, chunks: seq<seq<byte>>, us: seq<seq<RawFrame>>)
    requires Exposes(e) && AreUnits(us) && Flatten(chunks) == StreamBytes(us)
    ensures var dr, t := ArriveAll(s, e, Fresh(link), chunks), Tell(s, Told(link, [], false), us);
            dr == Driver(t.link, [], 0, 0, t.log, t.dead) && AreToldOf(dr.log, us, dr.dead)
  {
    hide ArriveAll, Loop, Tell, IsLone, IsWholeBlock, StreamBytes, AllBytes, AreToldOf, AreUnits;
    var t := Told(link, [], false);
    assert StreamBytes(us) + [] == StreamBytes(us);
    ReadAtOnce(s, e, link, chunks, us, []);
    DeadStays(s, e, Tell(s, t, us), []);
    EachIsTold(s, link, us);
  }

  // --- Streams that are not at their end ---

  // What a driver is left with when `part` of the unit `u` has arrived: it asks for the rest of
  // the frame header or else of the frame that arrives, and passes a frame on that is not read
  // as soon as it knows the length.
  function Halfway(s: Setup, t: Told, u: seq<RawFrame>, k: nat, part: seq<byte>): Driver
    requires IsUnit(u) && k < |u| && part < FrameBytes(u[k])
  {
    var held := AllBytes(u[..k]) + part;
    if held == [] then Driver(t.link, [], 0, 0, t.log, false)
    else if k == 0 && |part| >= 9 && IsUnread(u[0]) then
      Driver(t.link, [], |FrameBytes(u[0])| - |part|, 0, TellOne(s, t, u).log, false)
    else Driver(t.link, held, 0, |AllBytes(u[..k])| + MissingOf(u[k], part), t.log, false)
  }

  lemma HalfOfFrame(s: Setup, link: Link, f: RawFrame, part: seq<byte>, linear: nat)
    requires Sendable(f) && 9 <= |part| && part < FrameBytes(f) && 9 <= linear <= |part|
    ensures FrameAt(part, 0) == HeaderOf(f)
    ensures var r := ParseMsg(s, link, NO_MATCHES, part, linear);
            && r.verdict == (if IsUnread(f) then Consumed(|FrameBytes(f)|) else Again(|FrameBytes(f)|))
            && KeepsAll(r, link, NO_MATCHES)
  {
    hide FrameAt, FrameBytes, HasFlag, ParseMsg;
    assert part[0..] == part;
    PartIsRead(part, 0, f, part);
    if IsUnread(f) {
      UnreadFrame(s, link, NO_MATCHES, part, linear, f);
    } else {
      PartOfFrame(s, link, part, linear, f);
    }
  }

  // The answer on the beginning of a unit.
  lemma HalfAnswer(s: Setup, t: Told, u: seq<RawFrame>, k: nat, part: seq<byte>, linear: nat)
    requires IsUnit(u) && k < |u| && part < FrameBytes(u[k])
    requires 9 <= |AllBytes(u[..k]) + part| && 9 <= linear <= |AllBytes(u[..k]) + part|
    ensures var held := AllBytes(u[..k]) + part;
            var r := ParseMsg(s, t.link, NO_MATCHES, held, linear);
            && KeepsAll(r, t.link, NO_MATCHES) && FrameAt(held, 0) == HeaderOf(u[0])
            && r.verdict == (if k == 0 && IsUnread(u[0]) then Consumed(|FrameBytes(u[0])|)
                             else Again(|AllBytes(u[..k])| + MissingOf(u[k], part)))
  {
    hide FrameAt, FrameBytes, HasFlag, ParseMsg, IsBlock, AllBytes, Joined;
    var held := AllBytes(u[..k]) + part;
    if k == 0 {
      NoFrames(u[..0]);
      assert held == part;
      HalfOfFrame(s, t.link, u[0], part, linear);
    } else {
      PartOfBlock(s, t.link, held, linear, u, Joined(u, None), k, part);
    }
  }

  lemma NoFrames(fs: seq<RawFrame>)
    requires fs == []
    ensures AllBytes(fs) == []
  {}

  // Less than a frame header is the beginning of the first frame.
  lemma ShortHeld(u: seq<RawFrame>, k: nat, part: seq<byte>)
    requires k < |u| && |AllBytes(u[..k]) + part| < 9
    ensures k == 0 && AllBytes(u[..k]) == []
  {
    hide FrameBytes;
    NoFrames(u[..0]);
    if k > 0 {
      FirstOf(u, k);
    }
  }

  // What is captured in a frame that is passed on early is what is captured in the whole of it.
  lemma EarlyIsSame(s: Setup, t: Told, u: seq<RawFrame>, part: seq<byte>, linear: nat)
    requires IsUnit(u) && IsUnread(u[0]) && part < FrameBytes(u[0]) && 9 <= linear <= |part|
    ensures |u| == 1 && AllBytes(u) == FrameBytes(u[0])
    ensures Same(s, ParseMsg(s, t.link, NO_MATCHES, part, linear),
                 ParseMsg(s, t.link, NO_MATCHES, AllBytes(u), |AllBytes(u)|))
  {
    hide FrameAt, FrameBytes, HasFlag, ParseMsg, IsBlock, AllBytes, Joined, Same;
    assert u == [u[0]];
    OneFrame(u[0]);
    HalfOfFrame(s, t.link, u[0], part, linear);
    AnswerStays(s, t.link, part, linear, AllBytes(u), |AllBytes(u)|);
  }

  lemma HalfIsRead(s: Setup, e: Exposure, t: Told, u: seq<RawFrame>, k: nat, part: seq<byte>)
    requires Exposes(e) && IsUnit(u) && k < |u| && part < FrameBytes(u[k]) && !t.dead
    ensures Loop(s, e, Behind(t, AllBytes(u[..k]) + part)) == Halfway(s, t, u, k, part)
  {
    hide ParseMsg, GetCaptures, FrameAt, AllBytes, FrameBytes, IsLone, IsWholeBlock;
    var held := AllBytes(u[..k]) + part;
    var dr := Behind(t, held);
    NoFrames(u[..0]);
    if held != [] {
      var linear := e(|dr.log|, held);
      assert Shows(held, linear);
      Passes(s, t.link, held, linear);
      if |held| < 9 {
        ShortHeld(u, k, part);
        WholeFrameIsRead(s, dr, linear);
      } else {
        HalfAnswer(s, t, u, k, part, linear);
        if k == 0 && IsUnread(u[0]) {
          assert held == part;
          EarlyIsSame(s, t, u, part, linear);
          LoopOnce(s, e, dr);
          assert held[|held|..] == [];
          assert Follow(s, dr, Answer(s, e, dr)) == Halfway(s, t, u, 0, part);
        }
      }
    }
  }

  // A stream of which the last unit is not all there is held back from that unit on, but for
  // a frame that is not read, of which the rest is passed on unseen.
  lemma StreamIsHeld(s: Setup, e: Exposure, link: Link, chunks: seq<seq<byte>>, us: seq<seq<RawFrame>>,
                     u: seq<RawFrame>, k: nat, part: seq<byte>)
    requires Exposes(e) && AreUnits(us) && IsUnit(u) && k < |u| && part < FrameBytes(u[k])
    requires Flatten(chunks) == StreamBytes(us) + (AllBytes(u[..k]) + part)
    ensures var dr, t := ArriveAll(s, e, Fresh(link), chunks), Tell(s, Told(link, [], false), us);
            dr == if t.dead then Driver(t.link, [], 0, 0, t.log, true) else Halfway(s, t, u, k, part)
  {
    hide ArriveAll, Loop, Tell, IsLone, IsWholeBlock, StreamBytes, AllBytes, AreUnits, Halfway;
    var t := Tell(s, Told(link, [], false), us);
    ReadAtOnce(s, e, link, chunks, us, AllBytes(u[..k]) + part);
    if t.dead {
      DeadStays(s, e, t, AllBytes(u[..k]) + part);
    } else {
      HalfIsRead(s, e, t, u, k, part);
    }
  }
}
