// Driving the parser by its results, as `msg_verdict` of utils/src/prog.bpf.c does: wait for
// the bytes it asks for, skip a frame it rejects, and go on behind what it consumed.
module Http2Drive {
  import opened Base
  import opened DynamicTable
  import opened Http2Frames
  import opened Http2Retry
  import opened Http2Action
  import HpackMachine

  // A frame that was read or skipped, and what was captured in it.
  datatype Event = Event(frame: Frame, verdict: Verdict, captured: seq<Option<Bytes>>)

  // `rest` has arrived and is held back, the `skip` bytes that come next are passed on unseen,
  // and the program runs again once `cork` bytes are there. After any other error nothing is
  // read any more.
  datatype Driver = Driver(link: Link, rest: seq<byte>, skip: nat, cork: nat, log: seq<Event>, dead: bool) {
    predicate Valid() {
      skip > 0 ==> rest == []
    }
  }

  function Fresh(link: Link): Driver {
    Driver(link, [], 0, 0, [], false)
  }

  // How much of a message the kernel exposes of its own accord.
  type Exposure = (nat, seq<byte>) -> nat

  ghost predicate Exposes(e: Exposure) {
    forall n: nat, b: seq<byte> :: Shows(b, e(n, b))
  }

  // Passes `n` bytes on, which may not all have arrived.
  function Pass(dr: Driver, n: nat): Driver {
    dr.(rest := dr.rest[Min(n, |dr.rest|)..], skip := n - Min(n, |dr.rest|), cork := 0)
  }

  // Records a result. Nothing counts as captured in a message that could not be parsed.
  function Record(s: Setup, dr: Driver, r: Reply): Driver
    requires |dr.rest| >= FRAME_HDR_LEN
  {
    dr.(link := r.link,
        log := dr.log + [Event(FrameAt(dr.rest, 0), r.verdict, if r.verdict.Consumed? then GetCaptures(s, r) else [])])
  }

  // Goes by the result of a run of the program on what is held back.
  function Follow(s: Setup, dr: Driver, r: Reply): Driver
    requires |dr.rest| < FRAME_HDR_LEN ==> r.verdict.Wait?
  {
    match r.verdict
    case Wait => dr.(cork := FRAME_HDR_LEN)
    case Again(need) => dr.(cork := need)
    case Consumed(n) => Pass(Record(s, dr, r), n)
    case Failed(e) =>
      if e.Proto? then Pass(Record(s, dr, r), FRAME_HDR_LEN + FrameAt(dr.rest, 0).len)
      else Record(s, dr, r).(rest := [], cork := 0, dead := true)
  }

  ghost function Answer(s: Setup, e: Exposure, dr: Driver): Reply
    requires Exposes(e)
  {
    ParseMsg(s, dr.link, NO_MATCHES, dr.rest, e(|dr.log|, dr.rest))
  }

  predicate IsFinal(v: Verdict) {
    v.Consumed? || v.Failed?
  }

  // A run that consumes anything consumes at least a frame header.
  lemma Passes(s: Setup, link: Link, msg: seq<byte>, linear: nat)
    requires Shows(msg, linear)
    ensures var v := ParseMsg(s, link, NO_MATCHES, msg, linear).verdict;
            && (|msg| < FRAME_HDR_LEN ==> v.Wait?)
            && (v.Consumed? ==> v.n > 0)
  {
    hide HpackMachine.Feed, Settings, TableSizeOf, HasFlag;
  }

  // Whether `rest` holds the whole of a frame that is not the first of several.
  predicate IsWhole(rest: seq<byte>) {
    && |rest| >= FRAME_HDR_LEN
    && FRAME_HDR_LEN + FrameAt(rest, 0).len <= |rest|
    && !IsOpen(FrameAt(rest, 0))
  }

  // A run looks at no frame of which less than a frame header is exposed, however much of it
  // has arrived. It then asks for bytes that may be there already, and that frame is not read
  // before more bytes arrive. This is what `Exposes` shuts out.
  lemma WholeFrameIsRead(s: Setup, dr: Driver, linear: nat)
    requires linear <= |dr.rest|
    ensures var r := ParseMsg(s, dr.link, NO_MATCHES, dr.rest, linear);
            && (r.verdict.Wait? <==> linear < FRAME_HDR_LEN)
            && (r.verdict.Wait? ==> Follow(s, dr, r) == dr.(cork := FRAME_HDR_LEN))
            && (IsWhole(dr.rest) ==> (|Follow(s, dr, r).log| > |dr.log| <==> linear >= FRAME_HDR_LEN))
  {
    hide HpackMachine.Feed, Settings, TableSizeOf, HasFlag, GetCaptures;
  }

  // Runs the program until it asks for more bytes, or none are held back any more.
  ghost function Loop(s: Setup, e: Exposure, dr: Driver): Driver
    requires Exposes(e)
    decreases |dr.rest|
  {
    if dr.dead || dr.rest == [] then dr
    else
      Passes(s, dr.link, dr.rest, e(|dr.log|, dr.rest));
      var r := Answer(s, e, dr);
      var next := Follow(s, dr, r);
      if IsFinal(r.verdict) && !next.dead then Loop(s, e, next) else next
  }

  // The bytes `chunk` arrive, some of which may have been passed on already.
  function Absorb(dr: Driver, chunk: seq<byte>): Driver {
    var n := Min(dr.skip, |chunk|);
    if dr.dead then dr else dr.(rest := dr.rest + chunk[n..], skip := dr.skip - n)
  }

  // The program does not run before the bytes it is corked for are there.
  ghost function Arrive(s: Setup, e: Exposure, dr: Driver, chunk: seq<byte>): Driver
    requires Exposes(e)
  {
    var dr1 := Absorb(dr, chunk);
    if |dr1.rest| < dr1.cork then dr1 else Loop(s, e, dr1)
  }

  ghost function ArriveAll(s: Setup, e: Exposure, dr: Driver, chunks: seq<seq<byte>>): Driver
    requires Exposes(e)
  {
    if chunks == [] then dr
    else Arrive(s, e, ArriveAll(s, e, dr, chunks[..|chunks| - 1]), chunks[|chunks| - 1])
  }

  function Flatten(chunks: seq<seq<byte>>): seq<byte> {
    if chunks == [] then [] else Flatten(chunks[..|chunks| - 1]) + chunks[|chunks| - 1]
  }

  // --- Chunks ---

  lemma AbsorbMore(dr: Driver, a: seq<byte>, b: seq<byte>)
    ensures Absorb(Absorb(dr, a), b) == Absorb(dr, a + b)
  {
    var n := Min(dr.skip, |a|);
    if dr.skip <= |a| {
      assert (a + b)[n..] == a[n..] + b;
      assert dr.rest + a[n..] + b == dr.rest + (a[n..] + b);
      assert b[0..] == b;
    } else {
      assert a[n..] == [] && dr.rest + [] == dr.rest;
      assert (a + b)[Min(dr.skip, |a + b|)..] == b[Min(dr.skip - n, |b|)..];
    }
  }

  // A result is followed alike whether or not more bytes have arrived.
  lemma FollowMore(s: Setup, dr: Driver, b: seq<byte>, r: Reply, r': Reply)
    requires dr.skip == 0 && !dr.dead && |dr.rest| >= FRAME_HDR_LEN && IsFinal(r.verdict) && Same(s, r, r')
    ensures |Absorb(dr, b).rest| >= FRAME_HDR_LEN
    ensures Follow(s, Absorb(dr, b), r') == Absorb(Follow(s, dr, r), b)
  {
    hide GetCaptures;
    var dr1 := Absorb(dr, b);
    assert b[0..] == b;
    HeaderMore(dr.rest, dr1.rest, 0);
    var d, d' := Record(s, dr, r), Record(s, dr1, r');
    assert d'.link == d.link && d'.log == d.log;
    PassMore(d, b, if r.verdict.Consumed? then r.verdict.n else FRAME_HDR_LEN + FrameAt(dr.rest, 0).len);
  }

  lemma PassMore(dr: Driver, b: seq<byte>, n: nat)
    requires dr.skip == 0 && !dr.dead
    ensures Pass(dr.(rest := dr.rest + b), n) == Absorb(Pass(dr, n), b)
  {
    if n <= |dr.rest| {
      assert (dr.rest + b)[n..] == dr.rest[n..] + b && b[0..] == b;
    } else {
      var k := Min(n - |dr.rest|, |b|);
      assert (dr.rest + b)[|dr.rest| + k..] == b[k..];
      assert dr.rest[|dr.rest|..] + b[k..] == b[k..];
    }
  }

  lemma AnswerSame(s: Setup, e: Exposure, e': Exposure, dr: Driver)
    requires Exposes(e) && Exposes(e')
    ensures Same(s, Answer(s, e, dr), Answer(s, e', dr))
  {
    hide ParseMsg, Same;
    assert Shows(dr.rest, e(|dr.log|, dr.rest)) && Shows(dr.rest, e'(|dr.log|, dr.rest));
    AnswerStays(s, dr.link, dr.rest, e(|dr.log|, dr.rest), dr.rest, e'(|dr.log|, dr.rest));
  }

  lemma FollowSame(s: Setup, dr: Driver, cork: nat, r: Reply, r': Reply)
    requires Same(s, r, r') && (|dr.rest| < FRAME_HDR_LEN ==> r.verdict.Wait?)
    ensures r'.verdict == r.verdict && Follow(s, dr.(cork := cork), r') == Follow(s, dr, r)
  {
    hide GetCaptures, FrameAt;
  }

  // The loop goes the same way with whatever the kernel exposes, and with whatever cork.
  lemma {:induction false} LoopSame(s: Setup, e: Exposure, e': Exposure, dr: Driver, cork: nat)
    requires Exposes(e) && Exposes(e')
    ensures dr.rest != [] && !dr.dead ==> Loop(s, e', dr.(cork := cork)) == Loop(s, e, dr)
    ensures Loop(s, e', dr) == Loop(s, e, dr)
    decreases |dr.rest|
  {
    hide ParseMsg, Same, GetCaptures;
    if !dr.dead && dr.rest != [] {
      AnswerSame(s, e, e', dr);
      Passes(s, dr.link, dr.rest, e(|dr.log|, dr.rest));
      var r := Answer(s, e, dr);
      FollowSame(s, dr, cork, r, Answer(s, e', dr));
      FollowSame(s, dr, dr.cork, r, Answer(s, e', dr));
      if IsFinal(r.verdict) && !Follow(s, dr, r).dead {
        LoopSame(s, e, e', Follow(s, dr, r), 0);
      }
    }
  }

  // Bytes that arrive later are read as if they had been there before.
  lemma {:induction false} LoopMore(s: Setup, e: Exposure, dr: Driver, b: seq<byte>)
    requires Exposes(e) && dr.Valid()
    ensures Loop(s, e, Absorb(dr, b)) == Loop(s, e, Absorb(Loop(s, e, dr), b))
    ensures Loop(s, e, dr).Valid()
    decreases |dr.rest|
  {
    hide GetCaptures, Settings, FrameAt, Same, ParseMsg;
    if !dr.dead && dr.rest != [] {
      var dr1 := Absorb(dr, b);
      assert dr1.rest == dr.rest + b by { assert b[0..] == b; }
      assert Shows(dr.rest, e(|dr.log|, dr.rest)) && Shows(dr1.rest, e(|dr1.log|, dr1.rest));
      AnswerStays(s, dr.link, dr.rest, e(|dr.log|, dr.rest), dr1.rest, e(|dr1.log|, dr1.rest));
      Passes(s, dr.link, dr.rest, e(|dr.log|, dr.rest));
      Passes(s, dr1.link, dr1.rest, e(|dr1.log|, dr1.rest));
      var r, r' := Answer(s, e, dr), Answer(s, e, dr1);
      var next := Follow(s, dr, r);
      if IsFinal(r.verdict) {
        SameVerdict(s, r, r');
        FollowMore(s, dr, b, r, r');
        if !next.dead {
          LoopMore(s, e, next, b);
        }
        LoopOnce(s, e, dr1);
      } else {
        LoopSame(s, e, e, dr1, next.cork);
        assert Absorb(next, b) == dr1.(cork := next.cork);
      }
    }
  }

  lemma SameVerdict(s: Setup, r: Reply, r': Reply)
    requires Same(s, r, r')
    ensures r'.verdict == r.verdict
  {}

  // A loop that gets past a frame goes on behind it.
  lemma LoopOnce(s: Setup, e: Exposure, dr: Driver)
    requires Exposes(e) && !dr.dead && dr.rest != []
    ensures var r := Answer(s, e, dr);
            (|dr.rest| < FRAME_HDR_LEN ==> r.verdict.Wait?)
                && (IsFinal(r.verdict) ==> Loop(s, e, dr) == Loop(s, e, Follow(s, dr, r)))
  {
    hide ParseMsg, GetCaptures;
    Passes(s, dr.link, dr.rest, e(|dr.log|, dr.rest));
    var next := Follow(s, dr, Answer(s, e, dr));
    assert next.dead ==> Loop(s, e, next) == next;
  }

  // What is held back is held back for what the parser asked for.
  ghost predicate Settled(s: Setup, e: Exposure, dr: Driver)
    requires Exposes(e)
  {
    && dr.Valid()
    && (dr.cork > 0 ==>
          && !dr.dead && dr.rest != [] && dr.skip == 0
          && var v := Answer(s, e, dr).verdict;
             (v.Wait? && dr.cork == FRAME_HDR_LEN) || v == Again(dr.cork))
  }

  lemma {:induction false} LoopSettles(s: Setup, e: Exposure, dr: Driver)
    requires Exposes(e) && dr.Valid() && (dr.dead || dr.rest == [] ==> dr.cork == 0)
    ensures Settled(s, e, Loop(s, e, dr))
    decreases |dr.rest|
  {
    hide ParseMsg, GetCaptures, FrameAt;
    if !dr.dead && dr.rest != [] {
      Passes(s, dr.link, dr.rest, e(|dr.log|, dr.rest));
      var r := Answer(s, e, dr);
      var next := Follow(s, dr, r);
      if IsFinal(r.verdict) && !next.dead {
        LoopSettles(s, e, next);
      }
    }
  }

  // Running the program before the bytes it asked for are there would change nothing.
  lemma CorkHolds(s: Setup, e: Exposure, dr: Driver, b: seq<byte>)
    requires Exposes(e) && Settled(s, e, dr) && |Absorb(dr, b).rest| < dr.cork
    ensures Loop(s, e, Absorb(dr, b)) == Absorb(dr, b) && Settled(s, e, Absorb(dr, b))
  {
    hide ParseMsg, GetCaptures, FrameAt;
    var dr1 := Absorb(dr, b);
    assert dr1.rest == dr.rest + b by { assert b[0..] == b; }
    assert Shows(dr.rest, e(|dr.log|, dr.rest)) && Shows(dr1.rest, e(|dr1.log|, dr1.rest));
    AnswerStays(s, dr.link, dr.rest, e(|dr.log|, dr.rest), dr1.rest, e(|dr1.log|, dr1.rest));
    Passes(s, dr1.link, dr1.rest, e(|dr1.log|, dr1.rest));
    assert Follow(s, dr1, Answer(s, e, dr1)) == dr1;
  }

  // However a stream arrives, it is read as if it had arrived at once.
  lemma {:induction false} ArriveAtOnce(s: Setup, e: Exposure, link: Link, chunks: seq<seq<byte>>)
    requires Exposes(e)
    ensures var dr := ArriveAll(s, e, Fresh(link), chunks);
            Settled(s, e, dr) && dr == Loop(s, e, Absorb(Fresh(link), Flatten(chunks)))
  {
    hide Follow, ParseMsg, Answer;
    if chunks == [] {
      assert Absorb(Fresh(link), []) == Fresh(link);
    } else {
      var k := |chunks| - 1;
      var init, c := chunks[..k], chunks[k];
      ArriveAtOnce(s, e, link, init);
      var dr := ArriveAll(s, e, Fresh(link), init);
      var whole := Absorb(Fresh(link), Flatten(init));
      LoopMore(s, e, whole, c);
      AbsorbMore(Fresh(link), Flatten(init), c);
      if |Absorb(dr, c).rest| < dr.cork {
        CorkHolds(s, e, dr, c);
      } else {
        LoopSettles(s, e, Absorb(dr, c));
      }
    }
  }

  // The frames that are read, the bytes captured in them, the dynamic table behind them and
  // what is still held back are the same for every way of splitting a stream into chunks, and
  // for every part of it the kernel may expose.
  lemma ChunksDoNotMatter(s: Setup, e: Exposure, e': Exposure, link: Link, chunks: seq<seq<byte>>,
                          chunks': seq<seq<byte>>)
    requires Exposes(e) && Exposes(e') && Flatten(chunks) == Flatten(chunks')
    ensures ArriveAll(s, e, Fresh(link), chunks) == ArriveAll(s, e', Fresh(link), chunks')
  {
    hide Loop, ArriveAll, Settled;
    ArriveAtOnce(s, e, link, chunks);
    ArriveAtOnce(s, e', link, chunks');
    LoopSame(s, e, e', Absorb(Fresh(link), Flatten(chunks)), 0);
  }
}
