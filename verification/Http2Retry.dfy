// What the parser answers on a message of which more arrives.
module Http2Retry {
  import opened Base
  import opened DynamicTable
  import opened HpackMachine
  import opened Http2Action
  import opened Http2Frames
  import Inject

  // --- Blocks do not look at anything else ---

  // Whether two contexts differ at most in what a block that is read from `src` does not
  // look at: the message if it is read out of the block buffer, and the other way round.
  predicate Agree(ctx: Ctx, ctx': Ctx, src: Source) {
    && ctx'.conn == ctx.conn && !src.Table?
    && if src.Buf? then ctx'.buf == ctx.buf else ctx'.msg == ctx.msg
  }

  // A match that refers to nothing else.
  predicate Near(m: Match, src: Source) {
    m.source == src || m.source.Table?
  }

  lemma MatchElsewhere(cfg: Config, ctx: Ctx, ctx': Ctx, src: Source, tab: Tab, m: Match, isKey: bool)
    requires Agree(ctx, ctx', src) && Near(m, src)
    ensures tab.GetMatch(cfg, ctx', m, isKey) == tab.GetMatch(cfg, ctx, m, isKey)
  {}

  lemma AddElsewhere(env: Env, ctx': Ctx, add: bool, key: Match, tab: Tab, val: Match)
    requires Agree(env.ctx, ctx', env.src) && Near(key, env.src) && Near(val, env.src)
    ensures Added(env.(ctx := ctx'), add, key, tab, val) == Added(env, add, key, tab, val)
  {
    hide Tab.GetMatch, Tab.Place;
    MatchElsewhere(env.cfg, env.ctx, ctx', env.src, tab, key, true);
    MatchElsewhere(env.cfg, env.ctx, ctx', env.src, tab, val, false);
  }

  // Each match refers to nothing else, or is none.
  predicate AllNear(ms: Matches, src: Source) {
    forall m <- ms :: Near(m, src) || !IsCaptured(m)
  }

  lemma RunElsewhere(env: Env, ctx': Ctx, ps: State, w: World, i: nat, kind: nat, v: u32, flags: nat)
    requires Agree(env.ctx, ctx', env.src) && Near(ps.key, env.src)
    ensures var o := Run(env, ps, w, i, kind, v, flags);
            && Run(env.(ctx := ctx'), ps, w, i, kind, v, flags) == o
            && Near(o.ps.key, env.src) && (AllNear(w.ms, env.src) ==> AllNear(o.w.ms, env.src))
  {
    hide Added, Tab.Resize, Tab.Lookup, MatchField, Reported, Masked;
    AddElsewhere(env, ctx', ps.addToDt, ps.key, w.tab, StringMatch(env.src, i, v, flags));
  }

  lemma StepElsewhere(env: Env, ctx': Ctx, ps: State, w: World, i: nat, c: byte)
    requires Agree(env.ctx, ctx', env.src) && Near(ps.key, env.src)
    ensures var o := Step(env, ps, w, i, c);
            && Step(env.(ctx := ctx'), ps, w, i, c) == o
            && Near(o.ps.key, env.src) && (AllNear(w.ms, env.src) ==> AllNear(o.w.ms, env.src))
  {
    hide Run, Inject.Follow2, Inject.Coded, AllNear, Agree;
    var n := Inject.Follow2(env.es, S_DEAD, ps.s, c);
    var act := Inject.Coded(Encode, NOOP, n.1);
    var ps1 := ps.(s := n.0);
    RunElsewhere(env, ctx', ps1, w, i, act.kind, ValueOf(ps1, act, c), act.flags);
  }

  lemma {:induction false} FeedElsewhere(env: Env, ctx': Ctx, ps: State, w: World, i: nat, bs: seq<byte>)
    requires Agree(env.ctx, ctx', env.src) && Near(ps.key, env.src)
    ensures var o := Feed(env, ps, w, i, bs);
            && Feed(env.(ctx := ctx'), ps, w, i, bs) == o
            && Near(o.ps.key, env.src) && (AllNear(w.ms, env.src) ==> AllNear(o.w.ms, env.src))
  {
    hide Step, AllNear, Agree, Near;
    if bs != [] {
      var k := |bs| - 1;
      FeedElsewhere(env, ctx', ps, w, i, bs[..k]);
      var o := Feed(env, ps, w, i, bs[..k]);
      StepElsewhere(env, ctx', o.ps, o.w, i + k, bs[k]);
    }
  }

  // --- Collecting ---

  // What has been collected stays so, and what is missing stays missing until it has arrived.
  lemma {:induction false} CollectMore(d: seq<byte>, d': seq<byte>, o: nat, sid: Option<nat>, bytes: seq<byte>)
    requires d <= d'
    ensures var r := Collect(d, o, sid, bytes);
            !r.NeedMore? || |d'| < r.need ==> Collect(d', o, sid, bytes) == r
    decreases |d| - o
  {
    hide HasFlag, FrameAt, Fragment;
    if o <= MAX_BYTES && o + FRAME_HDR_LEN <= |d| {
      HeaderMore(d, d', o);
      var f := FrameAt(d, o);
      var end := o + FRAME_HDR_LEN + f.len;
      if end <= |d| {
        FragmentMore(d, d', o, f, sid.None?);
        var frag := Fragment(d, o, f, sid.None?);
        if frag.Some? {
          CollectMore(d, d', end, if sid.None? then Some(f.sid) else sid, bytes + frag.value);
        }
      }
    }
  }

  lemma HeaderMore(d: seq<byte>, d': seq<byte>, o: nat)
    requires d <= d' && o + FRAME_HDR_LEN <= |d|
    ensures FrameAt(d', o) == FrameAt(d, o)
  {
    assert d'[o..o + 3] == d[o..o + 3] && d'[o + 5..o + 9] == d[o + 5..o + 9];
  }

  lemma FragmentMore(d: seq<byte>, d': seq<byte>, o: nat, f: Frame, headers: bool)
    requires d <= d' && o + FRAME_HDR_LEN + f.len <= |d|
    ensures Fragment(d', o, f, headers) == Fragment(d, o, f, headers)
  {
    var m := Margins(d, o, f, headers);
    if m.Some? {
      assert d'[o + m.value.0..o + FRAME_HDR_LEN + f.len - m.value.1] ==
             d[o + m.value.0..o + FRAME_HDR_LEN + f.len - m.value.1];
    }
  }

  // --- Messages ---

  // Two calls with the same outcome: the verdict, what is kept, and the bytes captured.
  ghost predicate Same(s: Setup, r: Reply, r': Reply) {
    r'.verdict == r.verdict && r'.link == r.link && r'.ms == r.ms && GetCaptures(s, r') == GetCaptures(s, r)
  }

  lemma NothingCaptured(s: Setup, r: Reply, r': Reply)
    requires r.ms == NO_MATCHES && r'.ms == NO_MATCHES && r'.verdict == r.verdict && r'.link == r.link
    ensures Same(s, r, r')
  {
    hide Tab.GetMatch;
  }

  // Captures do not depend on what they do not refer to.
  lemma NearCaptured(s: Setup, r: Reply, ctx': Ctx, src: Source)
    requires Agree(r.ctx, ctx', src) && AllNear(r.ms, src)
    ensures GetCaptures(s, r.(ctx := ctx')) == GetCaptures(s, r)
  {
    hide Tab.GetMatch, Agree;
    var tab := if r.link.tab.Some? then r.link.tab.value else NEW_TAB;
    forall i | 0 <= i < MAX_MATCHES
      ensures GetCapture(s, r.(ctx := ctx'), i) == GetCapture(s, r, i)
    {
      if IsCaptured(r.ms[i]) {
        assert Near(r.ms[i], src);
        MatchElsewhere(s.cfg, r.ctx, ctx', src, tab, r.ms[i], false);
      }
    }
  }

  lemma BlockMore(s: Setup, link: Link, d: seq<byte>, d': seq<byte>)
    requires d <= d'
    ensures var r, r' := ParseBlock(s, link, NO_MATCHES, d), ParseBlock(s, link, NO_MATCHES, d');
            && (r.verdict.Again? ==> r.link == link && r.ms == NO_MATCHES && r.verdict.need > |d|)
            && (r.verdict == Failed(Proto) ==> r.link == link)
            && (!r.verdict.Again? || |d'| < r.verdict.need ==> Same(s, r, r'))
  {
    hide Feed, Collect, GetCaptures;
    CollectMore(d, d', 0, None, []);
    var c := Collect(d, 0, None, []);
    var r, r' := ParseBlock(s, link, NO_MATCHES, d), ParseBlock(s, link, NO_MATCHES, d');
    if c.Block? && Open(s, link).Some? {
      var env := EnvOf(s, Ctx(s.conn, d, c.bytes), Buf);
      FeedElsewhere(env, Ctx(s.conn, d', c.bytes), New(Buf), World(Open(s, link).value, NO_MATCHES), 0, c.bytes);
      NearCaptured(s, r, Ctx(s.conn, d', c.bytes), Buf);
    } else if !c.NeedMore? || |d'| < c.need {
      NothingCaptured(s, r, r');
    }
  }

  lemma OpenMore(s: Setup, link: Link, msg: seq<byte>, msg': seq<byte>)
    requires msg <= msg'
    ensures var r, r' := ParseOpen(s, link, NO_MATCHES, msg), ParseOpen(s, link, NO_MATCHES, msg');
            && !r.verdict.Wait?
            && (r.verdict.Again? ==> r.verdict.need > |msg|)
            && (r.verdict.Again? || r.verdict == Failed(Proto) ==> r.link == link)
            && (!r.verdict.Again? || |msg'| < r.verdict.need ==> Same(s, r, r'))
  {
    var d, d' := msg[..Min(|msg|, MAX_BYTES)], msg'[..Min(|msg'|, MAX_BYTES)];
    hide ParseBlock, GetCaptures;
    BlockVerdict(s, link, d);
    BlockMore(s, link, d, d');
    if |msg| >= MAX_BYTES {
      assert d == d';
    }
  }

  lemma BlockVerdict(s: Setup, link: Link, d: seq<byte>)
    ensures !ParseBlock(s, link, NO_MATCHES, d).verdict.Wait?
  {}

  lemma FrameVerdict(s: Setup, link: Link, d: seq<byte>, f: Frame)
    requires FRAME_HDR_LEN + f.len == |d|
    ensures var v := ParseFrame(s, link, NO_MATCHES, d, f).verdict;
            !v.Wait? && !v.Again? && v != Failed(Proto) && (v.Consumed? ==> v.n == |d|)
  {
    hide Feed, TableSizeOf, Settings;
  }

  // The end of a block is kept in 16 bits. So a frame is rejected for its length just if the
  // length without its padding is too large modulo 65536, and one that is slightly longer than
  // 65536 bytes is taken for an empty one.
  lemma TooBigExactly(s: Setup, link: Link, d: seq<byte>, f: Frame)
    requires FRAME_HDR_LEN + f.len == |d|
    ensures var m := Margins(d, 0, f, f.kind == HEADERS_FRAME);
            var r := ParseFrame(s, link, NO_MATCHES, d, f);
            && (r.verdict == Failed(TooBig) <==> m.Some? && (|d| - m.value.1) % 0x1_0000 > 0x7FFF)
            && (f.kind != SETTINGS_FRAME && m.Some? && (|d| - m.value.1) % 0x1_0000 <= m.value.0
                && Open(s, link).Some? ==>
                  r == Reply(Consumed(|d|), Link(Open(s, link)), NO_MATCHES, Ctx(s.conn, d, [])))
  {
    hide Step, HasFlag, TableSizeOf, Settings;
  }

  lemma FrameStays(s: Setup, link: Link, msg: seq<byte>, msg': seq<byte>, f: Frame)
    requires msg <= msg' && FRAME_HDR_LEN + f.len <= |msg|
    ensures var n := FRAME_HDR_LEN + f.len;
            var r, r' := ParseFrame(s, link, NO_MATCHES, msg[..n], f), ParseFrame(s, link, NO_MATCHES, msg'[..n], f);
            !r.verdict.Wait? && !r.verdict.Again? && r.verdict != Failed(Proto) && Same(s, r, r')
  {
    var n := FRAME_HDR_LEN + f.len;
    assert msg[..n] == msg'[..n];
    FrameVerdict(s, link, msg[..n], f);
    hide ParseFrame, GetCaptures;
  }

  // How much of a message a call sees at least.
  predicate Shows(msg: seq<byte>, linear: nat) {
    Min(FRAME_HDR_LEN, |msg|) <= linear <= |msg|
  }

  // A call that asks for more asks for more than there is, and changes nothing, and so does
  // one that rejects a frame. Once it has answered anything else, the answer is the same
  // however many bytes follow, and until what it asks for has arrived, it asks for the same.
  lemma AnswerStays(s: Setup, link: Link, msg: seq<byte>, linear: nat, msg': seq<byte>, linear': nat)
    requires msg <= msg' && Shows(msg, linear) && Shows(msg', linear')
    ensures var r, r' := ParseMsg(s, link, NO_MATCHES, msg, linear), ParseMsg(s, link, NO_MATCHES, msg', linear');
            && (r.verdict.Wait? <==> |msg| < FRAME_HDR_LEN)
            && (r.verdict.Again? ==> r.verdict.need > |msg|)
            && (r.verdict.Wait? || r.verdict.Again? || r.verdict == Failed(Proto) ==> r.link == link)
            && (match r.verdict
                case Wait => |msg'| < FRAME_HDR_LEN ==> Same(s, r, r')
                case Again(need) => |msg'| < need ==> Same(s, r, r')
                case _ => Same(s, r, r'))
  {
    hide ParseFrame, ParseBlock, FrameAt, HasFlag, Same;
    var r, r' := ParseMsg(s, link, NO_MATCHES, msg, linear), ParseMsg(s, link, NO_MATCHES, msg', linear');
    if |msg| < FRAME_HDR_LEN {
      if |msg'| < FRAME_HDR_LEN {
        NothingCaptured(s, r, r');
      }
    } else {
      HeaderMore(msg, msg', 0);
      var f := FrameAt(msg, 0);
      var n := FRAME_HDR_LEN + f.len;
      if Violates(f) || !IsParsed(f) || n > |msg| {
        if !r.verdict.Again? || |msg'| < n {
          NothingCaptured(s, r, r');
        }
      } else if IsOpen(f) {
        OpenMore(s, link, msg, msg');
      } else {
        FrameStays(s, link, msg, msg', f);
      }
    }
  }
}
