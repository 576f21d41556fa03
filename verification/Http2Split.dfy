// A header block in one frame against the same block in several.
module Http2Split {
  import opened Base
  import opened DynamicTable
  import opened HpackFields
  import opened HpackMachine
  import opened HpackRefines
  import opened Http2Action
  import opened Http2Blocks
  import opened Http2Frames
  import H = HpackWire

  // --- The same block at two places ---

  // Two places the same fields can be decoded at, into the same table.
  predicate Twins(e: Env, e': Env) {
    e'.cfg == e.cfg && e'.es == e.es && e'.room == e.room && !e.src.Table? && !e'.src.Table?
  }

  // Two matches that refer to the same entry or to the same bytes.
  ghost predicate Alike(e: Env, e': Env, m: Match, m': Match) {
    if m.source.Table? then m' == m
    else
      && !m'.source.Table?
      && IsCaptured(m') == IsCaptured(m)
      && (IsCaptured(m) ==>
            NEW_TAB.GetMatch(e.cfg, e.ctx, m, false) == NEW_TAB.GetMatch(e'.cfg, e'.ctx, m', false))
  }

  ghost predicate AllAlike(e: Env, e': Env, ms: Matches, ms': Matches) {
    forall i :: 0 <= i < MAX_MATCHES ==> Alike(e, e', ms[i], ms'[i])
  }

  lemma StrAlike(e: Env, e': Env, at: nat, at': nat, s: Str)
    requires Twins(e, e') && StrFits(s) && Carries(e, at, StrBytes(s)) && Carries(e', at', StrBytes(s))
    ensures Alike(e, e', StrMatch(e, at, s), StrMatch(e', at', s))
  {
    hide Carries, Tab.GetMatch;
    CarriesInRange(e, at, StrBytes(s));
    CarriesInRange(e', at', StrBytes(s));
    StrResolves(e, NEW_TAB, at, s);
    StrResolves(e', NEW_TAB, at', s);
  }

  // Adding the same bytes gives the same table.
  lemma AddAlike(e: Env, e': Env, t: Tab, key: Match, key': Match, val: Match, val': Match)
    requires Twins(e, e')
    requires t.GetMatch(e.cfg, e.ctx, key, true) == t.GetMatch(e'.cfg, e'.ctx, key', true)
    requires t.GetMatch(e.cfg, e.ctx, val, false) == t.GetMatch(e'.cfg, e'.ctx, val', false)
    ensures Added(e, true, key, t, val) == Added(e', true, key', t, val')
  {
    hide Tab.GetMatch, Tab.Place;
  }

  lemma KeyAlike(e: Env, e': Env, t: Tab, at: nat, at': nat, form: H.Form, name: Name, value: Str)
    requires Twins(e, e') && Fits(Literal(form, name, value))
    requires Carries(e, at, NameBytes(form, name)) && Carries(e', at', NameBytes(form, name))
    ensures at + |NameBytes(form, name)| <= MAX_BYTES && at' + |NameBytes(form, name)| <= MAX_BYTES
    ensures t.GetMatch(e.cfg, e.ctx, KeyMatch(e, t, at, form, name), true) ==
            t.GetMatch(e'.cfg, e'.ctx, KeyMatch(e', t, at', form, name), true)
  {
    hide Carries, Reported;
    CarriesInRange(e, at, NameBytes(form, name));
    CarriesInRange(e', at', NameBytes(form, name));
    if name.Spelt? {
      SpeltCarries(e, at, form, name.str);
      SpeltCarries(e', at', form, name.str);
      StrResolves(e, t, at + 1, name.str);
      StrResolves(e', t, at' + 1, name.str);
    }
  }

  lemma LiteralAlike(e: Env, e': Env, w: World, w': World, at: nat, at': nat, form: H.Form, name: Name, value: Str)
    requires Twins(e, e') && Fits(Literal(form, name, value)) && w.tab == w'.tab && AllAlike(e, e', w.ms, w'.ms)
    requires Carries(e, at, FieldBytes(Literal(form, name, value)))
    requires Carries(e', at', FieldBytes(Literal(form, name, value)))
    ensures at + |FieldBytes(Literal(form, name, value))| <= MAX_BYTES
    ensures at' + |FieldBytes(Literal(form, name, value))| <= MAX_BYTES
    ensures var d, d' := DecodedLiteral(e, w, at, form, name, value), DecodedLiteral(e', w', at', form, name, value);
            d.tab == d'.tab && AllAlike(e, e', d.ms, d'.ms)
  {
    hide Carries, Tab.GetMatch, Tab.Add, MatchField, Alike;
    CarriesInRange(e, at, FieldBytes(Literal(form, name, value)));
    CarriesInRange(e', at', FieldBytes(Literal(form, name, value)));
    LiteralCarries(e, at, form, name, value);
    LiteralCarries(e', at', form, name, value);
    var n := |NameBytes(form, name)|;
    StrResolves(e, w.tab, at + n, value);
    StrResolves(e', w.tab, at' + n, value);
    StrAlike(e, e', at + n, at' + n, value);
    KeyAlike(e, e', w.tab, at, at', form, name, value);
    if form.Incremental? {
      AddAlike(e, e', w.tab, KeyMatch(e, w.tab, at, form, name), KeyMatch(e', w.tab, at', form, name),
               StrMatch(e, at + n, value), StrMatch(e', at' + n, value));
    }
  }

  lemma FieldAlike(e: Env, e': Env, w: World, w': World, at: nat, at': nat, f: WireField)
    requires Twins(e, e') && Fits(f) && w.tab == w'.tab && AllAlike(e, e', w.ms, w'.ms)
    requires Carries(e, at, FieldBytes(f)) && Carries(e', at', FieldBytes(f))
    ensures at + |FieldBytes(f)| <= MAX_BYTES && at' + |FieldBytes(f)| <= MAX_BYTES
    ensures var d, d' := Decoded(e, w, at, f), Decoded(e', w', at', f);
            d.tab == d'.tab && AllAlike(e, e', d.ms, d'.ms)
  {
    hide Carries, Tab.Resize, MatchField, Reported, DecodedLiteral, FieldBytes;
    CarriesInRange(e, at, FieldBytes(f));
    CarriesInRange(e', at', FieldBytes(f));
    if f.Literal? {
      LiteralAlike(e, e', w, w', at, at', f.form, f.name, f.value);
    }
  }

  // What a block of whole fields makes of the table and the captures does not depend on where
  // it is.
  lemma {:induction false} BlockAlike(e: Env, e': Env, ps: State, ps': State, w: World, w': World, at: nat, at': nat,
                                      fs: seq<WireField>)
    requires Twins(e, e') && H.HasRows(e.es) && AtField(ps) && AtField(ps') && AllFit(fs)
    requires w.tab == w'.tab && AllAlike(e, e', w.ms, w'.ms)
    requires Carries(e, at, BlockBytes(fs)) && Carries(e', at', BlockBytes(fs))
    ensures var o, o' := Feed(e, ps, w, at, BlockBytes(fs)), Feed(e', ps', w', at', BlockBytes(fs));
            && !o.err && !o'.err && AtField(o.ps) && AtField(o'.ps)
            && o.w.tab == o'.w.tab && AllAlike(e, e', o.w.ms, o'.w.ms)
    decreases |fs|
  {
    hide Carries, Feed, Fits, FieldBytes, AllAlike, H.HasRows, Decoded;
    if fs == [] {
      FeedNothing(e, ps, w, at);
      FeedNothing(e', ps', w', at');
    } else {
      var k := |fs| - 1;
      var init, last := fs[..k], fs[k];
      var bs := BlockBytes(init);
      CarriesParts(e, at, bs, FieldBytes(last));
      CarriesParts(e', at', bs, FieldBytes(last));
      BlockAlike(e, e', ps, ps', w, w', at, at', init);
      var o, o' := Feed(e, ps, w, at, bs), Feed(e', ps', w', at', bs);
      FeedThen(e, ps, w, at, bs, FieldBytes(last));
      FeedThen(e', ps', w', at', bs, FieldBytes(last));
      FieldAlike(e, e', o.w, o'.w, at + |bs|, at' + |bs|, last);
      FeedField(e, o.ps, o.w, at + |bs|, last);
      FeedField(e', o'.ps, o'.w, at' + |bs|, last);
    }
  }

  // --- The same block in one frame and in several ---

  // A HEADERS frame that holds the whole block `bs`, behind whatever padding length and
  // priority and before whatever padding.
  predicate HoldsBlock(f: RawFrame, bs: seq<byte>) {
    && Sendable(f) && f.kind == 0x01 && f.sid != 0 && HasFlag(f.flags, 0x04)
    && 9 + |f.payload| <= 0x7FFF
    && FragmentOf(f, true) == Some(bs)
  }

  // A HEADERS frame and CONTINUATION frames that hold `bs` together.
  predicate HoldBlock(fs: seq<RawFrame>, bs: seq<byte>) {
    && |fs| > 1 && IsBlock(fs, None) && fs[0].kind == 0x01 && fs[0].sid != 0
    && |AllBytes(fs)| <= 0x7FFF
    && Joined(fs, None) == bs
  }

  lemma WholeFrame(msg: seq<byte>, f: RawFrame, bs: seq<byte>) returns (start: nat)
    requires HoldsBlock(f, bs) && Holds(msg, 0, FrameBytes(f))
    ensures var d, h := FrameBytes(f), FrameAt(msg, 0);
            && |msg| >= |d| == FRAME_HDR_LEN + h.len && msg[..|d|] == d
            && h == Frame(|f.payload|, f.kind, f.flags, f.sid)
            && BlockOf(d, h) == Some((start, start + |bs|)) && Holds(d, start, bs)
  {
    hide FrameAt, FrameBytes, HasFlag, FragmentOf;
    var d := FrameBytes(f);
    HoldsInRange(msg, 0, f);
    assert msg[..|d|] == msg[0..|d|] == d;
    FragmentIsRead(msg, 0, f, true);
    assert Holds(d, 0, d) by { assert d[0..|d|] == d; }
    FragmentIsRead(d, 0, f, true);
    start := Margins(d, 0, FrameAt(d, 0), true).value.0;
  }

  lemma FirstFrame(msg: seq<byte>, fs: seq<RawFrame>)
    requires IsBlock(fs, None) && |fs| > 1 && Holds(msg, 0, AllBytes(fs))
    ensures |msg| >= FRAME_HDR_LEN + FrameAt(msg, 0).len && !HasFlag(fs[0].flags, END_HEADERS_FLAG)
    ensures FrameAt(msg, 0) == Frame(|fs[0].payload|, fs[0].kind, fs[0].flags, fs[0].sid)
  {
    hide FrameAt, FrameBytes, HasFlag, FragmentOf, Holds;
    HoldsParts(msg, 0, FrameBytes(fs[0]), AllBytes(fs[1..]));
    HoldsInRange(msg, 0, fs[0]);
    FragmentIsRead(msg, 0, fs[0], true);
  }

  // What a frame that holds a whole block is read as.
  lemma WholeDecodes(s: Setup, link: Link, d: seq<byte>, h: Frame, start: nat, bs: seq<byte>)
    requires FRAME_HDR_LEN + h.len == |d| <= MAX_BYTES && h.kind == HEADERS_FRAME && Open(s, link).Some?
    requires BlockOf(d, h) == Some((start, start + |bs|)) && start + |bs| <= |d| && d[start..start + |bs|] == bs
    ensures var ctx := Ctx(s.conn, d, []);
            var e := EnvOf(s, ctx, Msg);
            var o := Feed(e, New(Msg), World(Open(s, link).value, NO_MATCHES), start, bs);
            && Carries(e, start, bs)
            && ParseFrame(s, link, NO_MATCHES, d, h) ==
               Reply(if o.err then Failed(BadMsg) else Consumed(|d|), Link(Some(o.w.tab)), o.w.ms, ctx)
  {
    hide BlockOf, Feed, TableSizeOf, Settings;
    assert bs == [] ==> d[start..start + |bs|] == [];
  }

  lemma FrameDecodes(s: Setup, link: Link, msg: seq<byte>, linear: nat, f: RawFrame, bs: seq<byte>) returns (start: nat)
    requires HoldsBlock(f, bs) && Holds(msg, 0, FrameBytes(f)) && FRAME_HDR_LEN <= linear <= |msg|
    requires Open(s, link).Some?
    ensures var ctx := Ctx(s.conn, FrameBytes(f), []);
            var e := EnvOf(s, ctx, Msg);
            var o := Feed(e, New(Msg), World(Open(s, link).value, NO_MATCHES), start, bs);
            && Carries(e, start, bs)
            && ParseMsg(s, link, NO_MATCHES, msg, linear) ==
               Reply(if o.err then Failed(BadMsg) else Consumed(|FrameBytes(f)|), Link(Some(o.w.tab)), o.w.ms, ctx)
  {
    start := WholeFrame(msg, f, bs);
    hide FrameAt, FrameBytes, HasFlag, FragmentOf, BlockOf, Feed, Holds, ParseFrame, Carries;
    WholeDecodes(s, link, FrameBytes(f), FrameAt(msg, 0), start, bs);
  }

  lemma SeveralDecode(s: Setup, link: Link, d: seq<byte>, total: nat, bs: seq<byte>)
    requires Collect(d, 0, None, []) == Block(total, bs) && Open(s, link).Some?
    ensures var ctx := Ctx(s.conn, d, bs);
            var e := EnvOf(s, ctx, Buf);
            var o := Feed(e, New(Buf), World(Open(s, link).value, NO_MATCHES), 0, bs);
            && Carries(e, 0, bs)
            && ParseBlock(s, link, NO_MATCHES, d) ==
               Reply(if o.err then Failed(BadMsg) else Consumed(total), Link(Some(o.w.tab)), o.w.ms, ctx)
  {
    hide Feed, Collect;
    assert bs[0..|bs|] == bs;
  }

  lemma HoldsPrefix(msg: seq<byte>, max: nat, bs: seq<byte>)
    requires Holds(msg, 0, bs) && |bs| <= max
    ensures Holds(msg[..Min(|msg|, max)], 0, bs)
  {
    assert msg[..Min(|msg|, max)][0..|bs|] == msg[0..|bs|];
  }

  // What a block in several frames is read as.
  lemma FramesDecode(s: Setup, link: Link, msg: seq<byte>, linear: nat, fs: seq<RawFrame>, bs: seq<byte>)
    requires HoldBlock(fs, bs) && |bs| <= 16382
    requires Holds(msg, 0, AllBytes(fs)) && FRAME_HDR_LEN <= linear <= |msg| && Open(s, link).Some?
    ensures var ctx := Ctx(s.conn, msg[..Min(|msg|, MAX_BYTES)], bs);
            var e := EnvOf(s, ctx, Buf);
            var o := Feed(e, New(Buf), World(Open(s, link).value, NO_MATCHES), 0, bs);
            && Carries(e, 0, bs)
            && ParseMsg(s, link, NO_MATCHES, msg, linear) ==
               Reply(if o.err then Failed(BadMsg) else Consumed(|AllBytes(fs)|), Link(Some(o.w.tab)), o.w.ms, ctx)
  {
    hide FrameAt, FrameBytes, HasFlag, FragmentOf, Feed, Holds, Collect, IsBlock, AllBytes, ParseBlock, Carries;
    var d := msg[..Min(|msg|, MAX_BYTES)];
    FirstFrame(msg, fs);
    HoldsPrefix(msg, MAX_BYTES, AllBytes(fs));
    BlockIsCollected(d, 0, None, [], fs);
    assert [] + bs == bs;
    SeveralDecode(s, link, d, |AllBytes(fs)|, bs);
  }

  lemma AlikeCaptured(s: Setup, e: Env, e': Env, r: Reply, r': Reply)
    requires Twins(e, e') && e.cfg == s.cfg && r.ctx == e.ctx && r'.ctx == e'.ctx && AllAlike(e, e', r.ms, r'.ms)
    requires r.link == r'.link
    ensures GetCaptures(s, r) == GetCaptures(s, r')
  {
    forall i | 0 <= i < MAX_MATCHES
      ensures GetCapture(s, r, i) == GetCapture(s, r', i)
    {
      assert Alike(e, e', r.ms[i], r'.ms[i]);
    }
  }

  lemma NothingAlike(e: Env, e': Env)
    ensures AllAlike(e, e', NO_MATCHES, NO_MATCHES)
  {}

  // A header block leaves the same dynamic table and the same captured bytes whether it is
  // sent in one frame or split anywhere into several, whatever the padding and the priority.
  lemma SplitDoesNotMatter(s: Setup, link: Link, msg: seq<byte>, linear: nat, msg': seq<byte>, linear': nat,
                           f: RawFrame, fs: seq<RawFrame>, block: seq<WireField>)
    requires H.HasRows(s.es) && AllFit(block) && |BlockBytes(block)| <= 16382
    requires Open(s, link).Some?
    requires HoldsBlock(f, BlockBytes(block)) && Holds(msg, 0, FrameBytes(f)) && FRAME_HDR_LEN <= linear <= |msg|
    requires HoldBlock(fs, BlockBytes(block)) && Holds(msg', 0, AllBytes(fs)) && FRAME_HDR_LEN <= linear' <= |msg'|
    ensures var r, r' := ParseMsg(s, link, NO_MATCHES, msg, linear), ParseMsg(s, link, NO_MATCHES, msg', linear');
            && r.verdict == Consumed(|FrameBytes(f)|) && r'.verdict == Consumed(|AllBytes(fs)|)
            && r'.link == r.link && GetCaptures(s, r') == GetCaptures(s, r)
  {
    hide Feed, ParseMsg, Carries, AllAlike, GetCaptures, HoldsBlock, HoldBlock, Holds, FrameBytes, H.HasRows, AllFit;
    var bs := BlockBytes(block);
    var start := FrameDecodes(s, link, msg, linear, f, bs);
    FramesDecode(s, link, msg', linear', fs, bs);
    var e := EnvOf(s, Ctx(s.conn, FrameBytes(f), []), Msg);
    var e' := EnvOf(s, Ctx(s.conn, msg'[..Min(|msg'|, MAX_BYTES)], bs), Buf);
    var w := World(Open(s, link).value, NO_MATCHES);
    NothingAlike(e, e');
    BlockAlike(e, e', New(Msg), New(Buf), w, w, start, 0, block);
    AlikeCaptured(s, e, e', ParseMsg(s, link, NO_MATCHES, msg, linear), ParseMsg(s, link, NO_MATCHES, msg', linear'));
  }
}
