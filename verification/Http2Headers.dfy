// A whole message against the decoder of RFC 7541: configured names in, captured bytes out.
module Http2Headers {
  import opened Base
  import opened DynamicTable
  import opened HpackFields
  import opened HpackMachine
  import opened HpackRefines
  import opened Http2Blocks
  import opened Http2Frames
  import opened Http2Split
  import opened Huffman
  import opened TableMirror
  import H = HpackWire
  import P = Http2Parser
  import R = Rfc7541

  // Whether the bytes `b` that were captured for the match `m` are the value `v`, coded as it
  // was sent, and cut off if it was read out of a table. There are none if the entry they were
  // in has been evicted by the same block.
  ghost predicate IsValue(cfg: Config, t: Tab, m: Match, b: Option<Bytes>, v: seq<byte>) {
    match b
    case None => m.source.Table? && m.idx >= DYNAMIC_TABLE_BASE && t.At(m.idx).None?
    case Some(c) =>
      if m.source.Table? then Keeps(cfg.coding, c.bytes, c.huff, v) else SentAs(cfg.coding, c.bytes, c.huff, v)
  }

  // Whether what is captured for the match id `i` is `v`, or nothing.
  ghost predicate Gives(s: Setup, r: Reply, i: nat, v: Option<seq<byte>>)
    requires i < MAX_MATCHES && r.link.tab.Some?
  {
    match v
    case None => GetCapture(s, r, i) == None
    case Some(w) => IsValue(s.cfg, r.link.tab.value, r.ms[i], GetCapture(s, r, i), w)
  }

  // Whether a reply leaves the table `rt`, and reports the last values of the fields `hs`.
  ghost predicate Reports(s: Setup, r: Reply, rt: R.Table, hs: seq<R.HField>, caps: P.Captures) {
    && r.link.tab.Some? && Mirrors(s.cfg, r.link.tab.value, rt)
    && forall name <- caps :: name != [] && caps[name] < 32 ==> Gives(s, r, caps[name], R.LastValue(hs, name))
  }

  lemma DenotedIsValue(s: Setup, r: Reply, i: nat, v: seq<byte>)
    requires i < MAX_MATCHES && r.link.tab.Some? && Denotes(s.cfg, r.ctx, r.link.tab.value, r.ms[i], v)
    ensures IsValue(s.cfg, r.link.tab.value, r.ms[i], GetCapture(s, r, i), v)
  {
    hide SentAs;
  }

  lemma RefinesReports(s: Setup, e: Env, w: World, o: Out, k: nat, r: Reply, rt: R.Table, hs: seq<R.HField>,
                       caps: P.Captures)
    requires Refines(e, w, o, k, rt, hs, caps) && w.ms == NO_MATCHES && e.cfg == s.cfg
    requires r.link == Link(Some(o.w.tab)) && r.ms == o.w.ms && r.ctx == e.ctx
    ensures Reports(s, r, rt, hs, caps)
  {
    hide Mirrors, Denotes, IsValue, R.LastValue, Tab.GetMatch;
    forall name <- caps | name != [] && caps[name] < MAX_MATCHES
      ensures Gives(s, r, caps[name], R.LastValue(hs, name))
    {
      if R.LastValue(hs, name).Some? {
        DenotedIsValue(s, r, caps[name], R.LastValue(hs, name).value);
      }
    }
  }

  // What is known before a block: the tables mirror, the program was loaded for the names
  // `caps`, and there are slots and keys for its fields.
  ghost predicate IsReady(s: Setup, link: Link, rt: R.Table, st: seq<R.HField>, caps: P.Captures, n: nat, m: nat) {
    && H.HasRows(s.es) && Captures(s.cfg.coding, s.es, caps) && P.Numbered(caps, n)
    && StaticsMirror(s.cfg, st) && Open(s, link).Some? && Mirrors(s.cfg, Open(s, link).value, rt)
    && Open(s, link).value.Top() + m <= U16 && |Open(s, link).value.live| + m <= s.room
  }

  lemma BlockReports(s: Setup, link: Link, e: Env, rt: R.Table, st: seq<R.HField>, caps: P.Captures, n: nat, at: nat,
                     block: seq<WireField>, rs: seq<R.Rep>, r: Reply)
    requires IsReady(s, link, rt, st, caps, n, |block|) && AllFit(block) && AllSay(s.cfg.coding, block, rs)
    requires !e.src.Table? && e == EnvOf(s, e.ctx, e.src) && Carries(e, at, BlockBytes(block))
    requires R.DecodeAll(st, rt, rs).Some?
    requires AllRecall(e, New(e.src), World(Open(s, link).value, NO_MATCHES), rt, st, caps, at, block, rs)
    requires var o := Feed(e, New(e.src), World(Open(s, link).value, NO_MATCHES), at, BlockBytes(block));
             !o.err ==> r.link == Link(Some(o.w.tab)) && r.ms == o.w.ms && r.ctx == e.ctx
    ensures !Feed(e, New(e.src), World(Open(s, link).value, NO_MATCHES), at, BlockBytes(block)).err
    ensures var (rt', hs) := R.DecodeAll(st, rt, rs).value; Reports(s, r, rt', hs, caps)
  {
    hide Feed, H.HasRows, AllSay, AllRecall, AllFit, BlockBytes, Carries, Captures, StaticsMirror, Mirrors, P.Numbered;
    hide Reports;
    var w := World(Open(s, link).value, NO_MATCHES);
    BlockRefines(e, New(e.src), w, rt, st, caps, n, at, block, rs);
    var (rt', hs) := R.DecodeAll(st, rt, rs).value;
    RefinesReports(s, e, w, Feed(e, New(e.src), w, at, BlockBytes(block)), |block|, r, rt', hs, caps);
  }

  // A message that holds a header block in one frame, in which it begins at `start`, leaves the
  // table RFC 7541 has the peer keep, and for each configured name the bytes captured are the
  // value of the last field of that name.
  lemma FrameReports(s: Setup, link: Link, rt: R.Table, st: seq<R.HField>, caps: P.Captures, n: nat, msg: seq<byte>,
                     linear: nat,
                     f: RawFrame, block: seq<WireField>, rs: seq<R.Rep>) returns (start: nat)
    requires IsReady(s, link, rt, st, caps, n, |block|) && AllFit(block) && AllSay(s.cfg.coding, block, rs)
    requires HoldsBlock(f, BlockBytes(block)) && Holds(msg, 0, FrameBytes(f)) && FRAME_HDR_LEN <= linear <= |msg|
    requires R.DecodeAll(st, rt, rs).Some?
    ensures var e := EnvOf(s, Ctx(s.conn, FrameBytes(f), []), Msg);
            var w := World(Open(s, link).value, NO_MATCHES);
            var r := ParseMsg(s, link, NO_MATCHES, msg, linear);
            var (rt', hs) := R.DecodeAll(st, rt, rs).value;
            && Carries(e, start, BlockBytes(block))
            && (AllRecall(e, New(Msg), w, rt, st, caps, start, block, rs) ==>
                  r.verdict == Consumed(|FrameBytes(f)|) && Reports(s, r, rt', hs, caps))
  {
    hide Feed, ParseMsg, AllSay, AllRecall, AllFit, BlockBytes, Carries, HoldsBlock, Holds, FrameBytes, IsReady;
    hide Reports;
    ReadyOpens(s, link, rt, st, caps, n, |block|);
    SaysEach(s.cfg.coding, block, rs);
    start := FrameDecodes(s, link, msg, linear, f, BlockBytes(block));
    var e := EnvOf(s, Ctx(s.conn, FrameBytes(f), []), Msg);
    if AllRecall(e, New(Msg), World(Open(s, link).value, NO_MATCHES), rt, st, caps, start, block, rs) {
      BlockReports(s, link, e, rt, st, caps, n, start, block, rs, ParseMsg(s, link, NO_MATCHES, msg, linear));
    }
  }

  lemma ReadyOpens(s: Setup, link: Link, rt: R.Table, st: seq<R.HField>, caps: P.Captures, n: nat, m: nat)
    requires IsReady(s, link, rt, st, caps, n, m)
    ensures Open(s, link).Some?
  {}

  lemma SaysEach(k: Coding, fs: seq<WireField>, rs: seq<R.Rep>)
    requires AllSay(k, fs, rs)
    ensures |fs| == |rs|
  {}

  // The same for a block in several frames.
  lemma FramesReport(s: Setup, link: Link, rt: R.Table, st: seq<R.HField>, caps: P.Captures, n: nat, msg: seq<byte>,
                     linear: nat,
                     fs: seq<RawFrame>, block: seq<WireField>, rs: seq<R.Rep>)
    requires IsReady(s, link, rt, st, caps, n, |block|) && AllFit(block) && AllSay(s.cfg.coding, block, rs)
    requires HoldBlock(fs, BlockBytes(block)) && |BlockBytes(block)| <= 16382
    requires Holds(msg, 0, AllBytes(fs)) && FRAME_HDR_LEN <= linear <= |msg| && R.DecodeAll(st, rt, rs).Some?
    requires var e := EnvOf(s, Ctx(s.conn, msg[..Min(|msg|, MAX_BYTES)], BlockBytes(block)), Buf);
             AllRecall(e, New(Buf), World(Open(s, link).value, NO_MATCHES), rt, st, caps, 0, block, rs)
    ensures var r := ParseMsg(s, link, NO_MATCHES, msg, linear);
            var (rt', hs) := R.DecodeAll(st, rt, rs).value;
            r.verdict == Consumed(|AllBytes(fs)|) && Reports(s, r, rt', hs, caps)
  {
    hide Feed, ParseMsg, AllSay, AllRecall, AllFit, BlockBytes, Carries, HoldBlock, Holds, AllBytes, IsReady, Reports;
    ReadyOpens(s, link, rt, st, caps, n, |block|);
    FramesDecode(s, link, msg, linear, fs, BlockBytes(block));
    var e := EnvOf(s, Ctx(s.conn, msg[..Min(|msg|, MAX_BYTES)], BlockBytes(block)), Buf);
    BlockReports(s, link, e, rt, st, caps, n, 0, block, rs, ParseMsg(s, link, NO_MATCHES, msg, linear));
  }

  // --- Blocks with an error ---

  // The index 0 behind the fields `block` ends a header block, whatever follows it: what those
  // fields have made of the table and the matches stays.
  lemma BlockErrs(e: Env, ps: State, w: World, at: nat, block: seq<WireField>, rest: seq<byte>)
    requires H.HasRows(e.es) && AtField(ps) && AllFit(block) && !e.src.Table? && Carries(e, at, BlockBytes(block))
    ensures var o, o' := Feed(e, ps, w, at, BlockBytes(block)), Feed(e, ps, w, at, BlockBytes(block) + ([0x80] + rest));
            !o.err && AtField(o.ps) && o'.err && o'.w == o.w
  {
    hide Feed, H.HasRows, AllFit, BlockBytes, Carries, AllAlike, Alike;
    var bs := BlockBytes(block);
    SelfAlike(e, w.ms);
    BlockAlike(e, e, ps, ps, w, w, at, at, block);
    var o := Feed(e, ps, w, at, bs);
    FeedThen(e, ps, w, at, bs, [0x80] + rest);
    FeedIndexZero(e, o.ps, o.w, at + |bs|);
    FeedEnded(e, o.ps, o.w, at + |bs|, [0x80], rest);
  }

  lemma SelfAlike(e: Env, ms: Matches)
    ensures AllAlike(e, e, ms, ms)
  {}

  lemma {:induction false} FeedEnded(e: Env, ps: State, w: World, i: nat, a: seq<byte>, b: seq<byte>)
    requires Feed(e, ps, w, i, a).err
    ensures Feed(e, ps, w, i, a + b) == Feed(e, ps, w, i, a)
    decreases |b|
  {
    hide HpackMachine.Step;
    if b == [] {
      assert a + b == a;
    } else {
      assert (a + b)[..|a + b| - 1] == a + b[..|b| - 1];
      FeedEnded(e, ps, w, i, a, b[..|b| - 1]);
    }
  }

  // What an erroneous block leaves is what the fields in front of the error leave.
  lemma BadBlockReports(s: Setup, link: Link, e: Env, rt: R.Table, st: seq<R.HField>, caps: P.Captures, n: nat, at: nat,
                        block: seq<WireField>, rest: seq<byte>, rs: seq<R.Rep>, r: Reply)
    requires IsReady(s, link, rt, st, caps, n, |block|) && AllFit(block) && AllSay(s.cfg.coding, block, rs)
    requires !e.src.Table? && e == EnvOf(s, e.ctx, e.src) && R.DecodeAll(st, rt, rs).Some?
    requires Carries(e, at, BlockBytes(block) + ([0x80] + rest))
    requires AllRecall(e, New(e.src), World(Open(s, link).value, NO_MATCHES), rt, st, caps, at, block, rs)
    requires var w := World(Open(s, link).value, NO_MATCHES);
             var o := Feed(e, New(e.src), w, at, BlockBytes(block) + ([0x80] + rest));
             r.link == Link(Some(o.w.tab)) && r.ms == o.w.ms && r.ctx == e.ctx
    ensures Feed(e, New(e.src), World(Open(s, link).value, NO_MATCHES), at, BlockBytes(block) + ([0x80] + rest)).err
    ensures var (rt', hs) := R.DecodeAll(st, rt, rs).value; Reports(s, r, rt', hs, caps)
  {
    hide Feed, H.HasRows, AllSay, AllRecall, AllFit, BlockBytes, Carries, Captures, StaticsMirror, Mirrors, P.Numbered;
    hide Reports;
    CarriesParts(e, at, BlockBytes(block), [0x80] + rest);
    BlockErrs(e, New(e.src), World(Open(s, link).value, NO_MATCHES), at, block, rest);
    BlockReports(s, link, e, rt, st, caps, n, at, block, rs, r);
  }

  // A message whose header block has an error behind some fields is rejected. The table is the
  // one those fields leave, and what they have is reported.
  lemma BadFrameReports(s: Setup, link: Link, rt: R.Table, st: seq<R.HField>, caps: P.Captures, n: nat,
                        msg: seq<byte>, linear: nat, f: RawFrame, block: seq<WireField>, rest: seq<byte>,
                        rs: seq<R.Rep>) returns (start: nat)
    requires IsReady(s, link, rt, st, caps, n, |block|) && AllFit(block) && AllSay(s.cfg.coding, block, rs)
    requires HoldsBlock(f, BlockBytes(block) + ([0x80] + rest)) && Holds(msg, 0, FrameBytes(f))
    requires 9 <= linear <= |msg| && R.DecodeAll(st, rt, rs).Some?
    ensures var e := EnvOf(s, Ctx(s.conn, FrameBytes(f), []), Msg);
            var w := World(Open(s, link).value, NO_MATCHES);
            var r := ParseMsg(s, link, NO_MATCHES, msg, linear);
            var (rt', hs) := R.DecodeAll(st, rt, rs).value;
            && Carries(e, start, BlockBytes(block) + ([0x80] + rest)) && r.verdict == Failed(BadMsg)
            && (AllRecall(e, New(Msg), w, rt, st, caps, start, block, rs) ==> Reports(s, r, rt', hs, caps))
  {
    hide Feed, ParseMsg, AllSay, AllRecall, AllFit, BlockBytes, Carries, HoldsBlock, Holds, FrameBytes, H.HasRows;
    hide Captures, StaticsMirror, Mirrors, P.Numbered, Reports;
    SaysEach(s.cfg.coding, block, rs);
    var bs := BlockBytes(block) + ([0x80] + rest);
    start := FrameDecodes(s, link, msg, linear, f, bs);
    var e := EnvOf(s, Ctx(s.conn, FrameBytes(f), []), Msg);
    var w := World(Open(s, link).value, NO_MATCHES);
    CarriesParts(e, start, BlockBytes(block), [0x80] + rest);
    BlockErrs(e, New(Msg), w, start, block, rest);
    if AllRecall(e, New(Msg), w, rt, st, caps, start, block, rs) {
      BadBlockReports(s, link, e, rt, st, caps, n, start, block, rest, rs, ParseMsg(s, link, NO_MATCHES, msg, linear));
    }
  }

  // The same for a block in several frames.
  lemma BadFramesReport(s: Setup, link: Link, rt: R.Table, st: seq<R.HField>, caps: P.Captures, n: nat,
                        msg: seq<byte>, linear: nat, fs: seq<RawFrame>, block: seq<WireField>, rest: seq<byte>,
                        rs: seq<R.Rep>)
    requires IsReady(s, link, rt, st, caps, n, |block|) && AllFit(block) && AllSay(s.cfg.coding, block, rs)
    requires var bs := BlockBytes(block) + ([0x80] + rest); HoldBlock(fs, bs) && |bs| <= 16382
    requires Holds(msg, 0, AllBytes(fs)) && 9 <= linear <= |msg| && R.DecodeAll(st, rt, rs).Some?
    ensures var r := ParseMsg(s, link, NO_MATCHES, msg, linear);
            var e := EnvOf(s, Ctx(s.conn, msg[..Min(|msg|, 0x7FFF)], BlockBytes(block) + ([0x80] + rest)), Buf);
            var (rt', hs) := R.DecodeAll(st, rt, rs).value;
            && r.verdict == Failed(BadMsg)
            && (AllRecall(e, New(Buf), World(Open(s, link).value, NO_MATCHES), rt, st, caps, 0, block, rs) ==>
                  Reports(s, r, rt', hs, caps))
  {
    hide Feed, ParseMsg, AllSay, AllRecall, AllFit, BlockBytes, Carries, HoldBlock, Holds, AllBytes, H.HasRows;
    hide Captures, StaticsMirror, Mirrors, P.Numbered, Reports;
    SaysEach(s.cfg.coding, block, rs);
    var bs := BlockBytes(block) + ([0x80] + rest);
    FramesDecode(s, link, msg, linear, fs, bs);
    var e := EnvOf(s, Ctx(s.conn, msg[..Min(|msg|, 0x7FFF)], bs), Buf);
    var w := World(Open(s, link).value, NO_MATCHES);
    CarriesParts(e, 0, BlockBytes(block), [0x80] + rest);
    BlockErrs(e, New(Buf), w, 0, block, rest);
    if AllRecall(e, New(Buf), w, rt, st, caps, 0, block, rs) {
      BadBlockReports(s, link, e, rt, st, caps, n, 0, block, rest, rs, ParseMsg(s, link, NO_MATCHES, msg, linear));
    }
  }
}
