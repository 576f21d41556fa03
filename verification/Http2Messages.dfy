// `parse_msg` of http2/parser.bpf.c and what it is made of, which update the block buffer, the
// dynamic tables and the matches in place. Every method is proved to do what module
// Http2Frames says.
module Http2Messages {
  import opened Base
  import opened DynamicTable
  import opened HpackMachine
  import opened Http2Action
  import opened Http2Frames
  import opened Http2Retry
  import HpackParser
  import DT = DynamicTables
  import Inject

  const BLOCK_BUF_SIZE: nat := 2 * BLOCK_MAXLEN

  // --- Settings ---

  // The settings read so far, and the bytes of the next one.
  lemma {:induction false} SettingsMore(p: seq<byte>, q: seq<byte>)
    requires |p| % 6 == 0 && |q| == 6
    ensures Settings(p + q) == Settings(p) + [(BigEndian(q[..2]), BigEndian(q[2..6]))]
    decreases |p|
  {
    if p == [] {
      assert p + q == q && q[6..] == [];
      assert Settings(q) == [(BigEndian(q[..2]), BigEndian(q[2..6]))] + Settings(q[6..]);
    } else {
      assert (p + q)[6..] == p[6..] + q && (p + q)[..2] == p[..2] && (p + q)[2..6] == p[2..6];
      SettingsMore(p[6..], q);
    }
  }

  lemma {:induction false} SettingsRest(p: seq<byte>, q: seq<byte>)
    requires |p| % 6 == 0 && |q| < 6
    ensures Settings(p + q) == Settings(p)
    decreases |p|
  {
    if p == [] {
      assert p + q == q;
    } else {
      assert (p + q)[6..] == p[6..] + q && (p + q)[..2] == p[..2] && (p + q)[2..6] == p[2..6];
      SettingsRest(p[6..], q);
    }
  }

  lemma {:induction false} BigEndianBound(bs: seq<byte>)
    requires |bs| <= 4
    ensures |bs| <= 2 ==> BigEndian(bs) < U16
    ensures BigEndian(bs) < U32
    ensures |bs| < 4 ==> BigEndian(bs) < 0x100_0000
    ensures |bs| < 3 ==> BigEndian(bs) < 0x1_0000
    ensures |bs| < 2 ==> BigEndian(bs) < 0x100
    ensures |bs| < 1 ==> BigEndian(bs) == 0
  {
    if bs != [] {
      BigEndianBound(bs[..|bs| - 1]);
    }
  }

  // Appends a byte to an integer.
  function Digits(v: nat, c: byte): nat {
    0x100 * v + c
  }

  lemma ThreeBytes(bs: seq<byte>)
    requires |bs| == 3
    ensures BigEndian(bs) == Digits(Digits(bs[0], bs[1]), bs[2])
  {
    assert bs[..2][..1][..0] == [] && bs[..2] == [bs[0], bs[1]];
    assert BigEndian(bs[..2][..1]) == bs[0];
    assert BigEndian(bs[..2]) == Digits(bs[0], bs[1]);
  }

  lemma FourBytes(bs: seq<byte>)
    requires |bs| == 4
    ensures BigEndian(bs) == Digits(Digits(Digits(bs[0], bs[1]), bs[2]), bs[3])
  {
    ThreeBytes(bs[..3]);
  }

  class MessageParser {
    const p: HpackParser.Program
    const block: array<byte>
    var blockLen: nat

    ghost predicate Valid()
      reads this, block, p.tables, p.data.states, p.data.actions
    {
      && p.Valid() && block.Length == BLOCK_BUF_SIZE && blockLen <= BLOCK_MAXLEN
    }

    constructor (p: HpackParser.Program)
      requires p.Valid()
      ensures Valid() && this.p == p && blockLen == 0 && fresh(block)
    {
      this.p := p;
      block := new byte[BLOCK_BUF_SIZE](i => 0);
      blockLen := 0;
    }

    // Copies `bytes` into the block buffer.
    method Copy(pos: nat, bytes: seq<byte>)
      requires pos + |bytes| <= block.Length
      modifies block
      ensures block[..pos + |bytes|] == old(block[..pos]) + bytes
    {
      for i := 0 to |bytes|
        invariant block[..pos] == old(block[..pos])
        invariant block[pos..pos + i] == bytes[..i]
      {
        block[pos + i] := bytes[i];
      }
    }

    // The header of the frame at the offset `o`, put together from its bytes.
    method ReadHeader(d: seq<byte>, o: nat) returns (f: Frame)
      requires o + FRAME_HDR_LEN <= |d|
      ensures f == FrameAt(d, o)
    {
      var len: nat := Digits(Digits(d[o], d[o + 1]), d[o + 2]);
      var sid: nat := Digits(Digits(Digits(d[o + 5], d[o + 6]), d[o + 7]), d[o + 8]);
      ThreeBytes(d[o..o + 3]);
      FourBytes(d[o + 5..o + 9]);
      f := Frame(len, d[o + 3], d[o + 4], sid % 0x8000_0000);
    }

    // One round of `_collect_block`: reads the frame at the offset `o` behind the `pos` bytes
    // of the block that are there already.
    method CollectFrame(d: seq<byte>, o: nat, sid: Option<nat>, pos: nat)
      returns (r: Option<Collected>, o': nat, sid': Option<nat>, pos': nat)
      requires block.Length == BLOCK_BUF_SIZE && pos <= BLOCK_MAXLEN
      modifies block, this`blockLen
      ensures pos' <= BLOCK_MAXLEN
      ensures var bytes := old(block[..pos]);
              match r
              case Some(c) =>
                c == Collect(d, o, sid, bytes)
                && blockLen == (if c.Block? then |c.bytes| else old(blockLen))
                && (c.Block? ==> block[..blockLen] == c.bytes)
              case None =>
                o' >= o + FRAME_HDR_LEN && blockLen == old(blockLen)
                    && Collect(d, o', sid', block[..pos']) == Collect(d, o, sid, bytes)
    {
      hide FrameAt, HasFlag, Margins;
      r, o', sid', pos' := None, o, sid, pos;
      if o > MAX_BYTES {
        r := Some(Rejected(TooBig));
        return;
      }
      if o + FRAME_HDR_LEN > |d| {
        r := Some(NeedMore(o + FRAME_HDR_LEN));
        return;
      }
      var f := ReadHeader(d, o);
      if sid.Some? && (f.kind != CONTINUATION_FRAME || f.sid != sid.value) {
        r := Some(Rejected(Proto));
        return;
      }
      o' := o + FRAME_HDR_LEN + f.len;
      if o' > |d| {
        r := Some(NeedMore(o'));
        return;
      }
      var m := Margins(d, o, f, sid.None?);
      if m.None? {
        r := Some(Rejected(BadMsg));
        return;
      }
      var frag := d[o + m.value.0..o' - m.value.1];
      if pos + |frag| > BLOCK_MAXLEN {
        r := Some(Rejected(TooBig));
        return;
      }
      Copy(pos, frag);
      pos' := pos + |frag|;
      if HasFlag(f.flags, END_HEADERS_FLAG) {
        blockLen := pos';
        r := Some(Block(o', block[..pos']));
        return;
      }
      sid' := if sid.None? then Some(f.sid) else sid;
    }

    // `_collect_block`. The loop is bounded, which makes no difference: no frame is shorter
    // than its header.
    method CollectBlock(d: seq<byte>) returns (r: Collected)
      requires block.Length == BLOCK_BUF_SIZE
      modifies block, this`blockLen
      ensures r == Collect(d, 0, None, [])
      ensures if r.Block? then blockLen == |r.bytes| <= block.Length && block[..blockLen] == r.bytes
              else blockLen == old(blockLen)
    {
      var o: nat, pos: nat := 0, 0;
      var sid: Option<nat> := None;
      for k := 0 to MAX_BYTES / FRAME_HDR_LEN + 1
        invariant o >= FRAME_HDR_LEN * k && pos <= BLOCK_MAXLEN && blockLen == old(blockLen)
        invariant Collect(d, o, sid, block[..pos]) == Collect(d, 0, None, [])
      {
        hide Collect;
        var end;
        end, o, sid, pos := CollectFrame(d, o, sid, pos);
        if end.Some? {
          return end.value;
        }
      }
      assert o > MAX_BYTES;
      r := Rejected(TooBig);
    }

    // Whether a message of `conn` can be parsed into `pres`, with slots left for what it adds.
    ghost predicate Ready(conn: Conn, pres: array<Match>)
      reads this, block, p.tables, p.data.states, p.data.actions
    {
      && Valid() && pres.Length == MAX_MATCHES
      && (conn in p.tables.view ==> p.tables.view[conn].Top() + MAX_BYTES < U32)
    }

    // What the parser is set up with.
    ghost function SetupOf(conn: Conn): Setup
      reads p.tables
    {
      Setup(p.tables.cfg, p.es, conn, p.tables.Room(conn),
            conn in p.tables.view || |p.tables.infos| < DynamicTable.MAP_CAPACITY)
    }

    // What is kept of `conn`.
    ghost function LinkOf(conn: Conn): Link
      reads p.tables
    {
      Link(if conn in p.tables.view then Some(p.tables.view[conn]) else None)
    }

    // Whether what is exposed now, and the block buffer, is all that the matches refer to.
    ghost predicate Resolves(r: Reply, conn: Conn, d: seq<byte>)
      reads this, block
      requires blockLen <= block.Length
    {
      r.ctx.conn == conn && r.ctx.msg == d && (r.ctx.buf == block[..blockLen] || AllNear(r.ms, Msg))
    }

    method UseSetting(conn: Conn, id: u16, val: u32)
      requires Valid() && conn in p.tables.view
      modifies p.tables
      ensures Valid() && p.tables.Room(conn) == old(p.tables.Room(conn)) && conn in p.tables.view
      ensures p.tables.view - {conn} == old(p.tables.view) - {conn}
      ensures var t := old(p.tables.view[conn]);
              p.tables.view[conn] == if id == SETTINGS_HEADER_TABLE_SIZE then t.(maxSize := val) else t
    {
      hide DT.Rep, Inject.Loaded;
      if id == SETTINGS_HEADER_TABLE_SIZE {
        p.tables.SetMax(conn, val);
      }
    }

    // Reads the byte at the offset `i`, the `j`th one of a setting, and uses that if it is
    // whole.
    method ReadSetting(conn: Conn, d: seq<byte>, start: nat, i: nat, j: nat, id: u16, val: u32, ghost t: Tab)
      returns (j': nat, id': u16, val': u32)
      requires Valid() && conn in p.tables.view && j < 6 && start + j <= i < |d| && (i - j - start) % 6 == 0
      requires Partial(d, i - j, j, id, val)
      requires var max := p.tables.view[conn].maxSize;
               p.tables.view[conn] == t.(maxSize := max) && max == TableSizeOf(Settings(d[start..i - j]), t.maxSize)
      modifies p.tables
      ensures Valid() && p.tables.Room(conn) == old(p.tables.Room(conn))
      ensures conn in p.tables.view && p.tables.view - {conn} == old(p.tables.view) - {conn}
      ensures j' < 6 && start + j' <= i + 1 && (i + 1 - j' - start) % 6 == 0 && Partial(d, i + 1 - j', j', id', val')
      ensures var max := p.tables.view[conn].maxSize;
              p.tables.view[conn] == t.(maxSize := max) && max == TableSizeOf(Settings(d[start..i + 1 - j']), t.maxSize)
    {
      hide DT.Rep, Inject.Loaded, Settings, TableSizeOf, BigEndian;
      j', id', val' := j + 1, id, val;
      TakeByte(d, i - j, j, id, val);
      if j < 2 {
        id' := (id * 0x100 + d[i]) % U16;
      } else {
        val' := (val * 0x100 + d[i]) % U32;
      }
      if j' == 6 {
        SettingRead(d, start, i - 5, id', val', t.maxSize);
        UseSetting(conn, id', val');
        j', id', val' := 0, 0, 0;
        NoBytes(d, i + 1);
      }
    }

    // The loop of `_parse_stg_from`: the settings between the offsets `start` and `stop`.
    method ReadSettings(conn: Conn, d: seq<byte>, start: nat, stop: nat)
      requires Valid() && conn in p.tables.view && start <= stop <= |d|
      modifies p.tables
      ensures Valid() && p.tables.Room(conn) == old(p.tables.Room(conn))
      ensures conn in p.tables.view && p.tables.view - {conn} == old(p.tables.view) - {conn}
      ensures var t := old(p.tables.view[conn]);
              p.tables.view[conn] == t.(maxSize := TableSizeOf(Settings(d[start..stop]), t.maxSize) % U32)
    {
      hide DT.Rep, Inject.Loaded, Settings, TableSizeOf, BigEndian, Partial;
      var j: nat, id: u16, val: u32 := 0, 0, 0;
      ghost var t := p.tables.view[conn];
      NoSettings(d, start, t.maxSize);
      for i := start to stop
        invariant j < 6 && j <= i - start && (i - j - start) % 6 == 0
        invariant Valid() && p.tables.Room(conn) == old(p.tables.Room(conn)) && conn in p.tables.view
        invariant p.tables.view - {conn} == old(p.tables.view) - {conn}
        invariant var max := p.tables.view[conn].maxSize;
                  p.tables.view[conn] == t.(maxSize := max) && max == TableSizeOf(Settings(d[start..i - j]), t.maxSize)
        invariant Partial(d, i - j, j, id, val)
      {
        j, id, val := ReadSetting(conn, d, start, i, j, id, val, t);
      }
      Unfinished(d, start, stop - j, stop);
    }

    // `_http2_block`: where the header block of a frame begins and ends, in 16 bits.
    method HeaderBlock(d: seq<byte>, f: Frame) returns (r: Option<(u16, u16)>)
      requires FRAME_HDR_LEN + f.len == |d|
      ensures r == BlockOf(d, f)
    {
      hide HasFlag;
      var off, padLen: nat := FRAME_HDR_LEN, 0;
      if f.kind == HEADERS_FRAME {
        if HasFlag(f.flags, PADDED_FLAG) {
          if off + 1 > |d| {
            return None;
          }
          padLen := d[off];
          off := off + 1;
        }
        if HasFlag(f.flags, PRIORITY_FLAG) {
          off := off + PRIORITY_LEN;
        }
      }
      if off + padLen > FRAME_HDR_LEN + f.len {
        return None;
      }
      r := Some((off, (FRAME_HDR_LEN + f.len - padLen) % U16));
    }

    // `_parse_hdr_frame` on the bytes `d` between `start` and `stop`.
    method ReadBlock(ctx: Ctx, d: seq<byte>, start: nat, stop: nat, src: Source, pres: array<Match>, ghost env: Env)
      returns (err: bool)
      requires Ready(ctx.conn, pres) && ctx.conn in p.tables.view && start <= stop <= |d| && stop - start <= MAX_BYTES
      requires env == Env(p.tables.cfg, ctx, p.es, p.tables.Room(ctx.conn), src)
      modifies p.tables, pres
      ensures Valid() && ctx.conn in p.tables.view && p.tables.view - {ctx.conn} == old(p.tables.view) - {ctx.conn}
      ensures var o := Feed(env, New(src), World(old(p.tables.view[ctx.conn]), old(pres[..])), start, d[start..stop]);
              err == o.err && p.tables.view[ctx.conn] == o.w.tab && pres[..] == o.w.ms
      ensures p.tables.Room(ctx.conn) == old(p.tables.Room(ctx.conn))
    {
      hide DT.Rep, Inject.Loaded, Feed;
      var ps := new HpackParser.ParseState(src);
      ghost var w := World(p.tables.view[ctx.conn], pres[..]);
      var last: nat;
      err, last := ps.FeedAll(p, ctx, pres, d, start, stop, env, New(src), w);
    }

    // What a frame does once it is known where its block is. The block buffer may hold
    // anything.
    method ReadFrame(conn: Conn, d: seq<byte>, f: Frame, start: nat, stop: nat, pres: array<Match>) returns (err: bool)
      requires Ready(conn, pres) && conn in p.tables.view && (start < stop ==> stop <= |d| && stop <= MAX_BYTES)
      modifies p.tables, pres
      ensures Valid() && conn in p.tables.view && p.tables.view - {conn} == old(p.tables.view) - {conn}
      ensures var t, ms := old(p.tables.view[conn]), old(pres[..]);
              var payload := if start < stop then d[start..stop] else [];
              if f.kind == SETTINGS_FRAME then
                !err && p.tables.view[conn] == t.(maxSize := TableSizeOf(Settings(payload), t.maxSize) % U32)
                    && pres[..] == ms
              else
                var env := Env(p.tables.cfg, Ctx(conn, d, []), p.es, old(p.tables.Room(conn)), Msg);
                var o := Feed(env, New(Msg), World(t, ms), start, payload);
                err == o.err && p.tables.view[conn] == o.w.tab && pres[..] == o.w.ms
      ensures p.tables.Room(conn) == old(p.tables.Room(conn))
      ensures AllNear(old(pres[..]), Msg) ==> AllNear(pres[..], Msg)
    {
      hide DT.Rep, Inject.Loaded, Feed, Settings, TableSizeOf, AllNear;
      err := false;
      NoPayload(p.tables.view[conn].maxSize);
      if f.kind == SETTINGS_FRAME {
        if start < stop {
          ReadSettings(conn, d, start, stop);
        }
      } else {
        var ctx := Ctx(conn, d, block[..blockLen]);
        ghost var env := Env(p.tables.cfg, ctx, p.es, p.tables.Room(conn), Msg);
        ghost var w := World(p.tables.view[conn], pres[..]);
        FeedNothing(env.(ctx := Ctx(conn, d, [])), New(Msg), w, start);
        if start < stop {
          FeedElsewhere(env, Ctx(conn, d, []), New(Msg), w, start, d[start..stop]);
          err := ReadBlock(ctx, d, start, stop, Msg, pres, env);
        }
      }
    }

    // `_parse_frame`.
    method ParseFrame(conn: Conn, d: seq<byte>, f: Frame, pres: array<Match>) returns (v: Verdict)
      requires Ready(conn, pres) && FRAME_HDR_LEN + f.len == |d|
      modifies p.tables, pres
      ensures Valid() && p.tables.view - {conn} == old(p.tables.view) - {conn}
      ensures var r := Http2Frames.ParseFrame(old(SetupOf(conn)), old(LinkOf(conn)), old(pres[..]), d, f);
              v == r.verdict && LinkOf(conn) == r.link && pres[..] == r.ms
      ensures SetupOf(conn) == old(SetupOf(conn)) && (AllNear(old(pres[..]), Msg) ==> AllNear(pres[..], Msg))
    {
      hide DT.Rep, Inject.Loaded, Feed, Settings, TableSizeOf, Margins, AllNear;
      var b := HeaderBlock(d, f);
      if b.None? {
        return Failed(if LacksPadLength(f) then Fault else BadMsg);
      }
      var (start, end) := b.value;
      if end > MAX_BYTES {
        return Failed(TooBig);
      }
      var ok := p.tables.GetDynamicTable(conn);
      if !ok {
        return Failed(NoSpace);
      }
      var stop := StopOf(d, start, end);
      var err := ReadFrame(conn, d, f, start, stop, pres);
      if err || LastOf(start, stop) < end - 1 {
        return Failed(BadMsg);
      }
      v := Consumed(|d|);
    }

    // `_parse_block` on the bytes `d` of the message that are exposed.
    method ParseBlock(conn: Conn, d: seq<byte>, pres: array<Match>) returns (v: Verdict)
      requires Ready(conn, pres)
      modifies this`blockLen, block, p.tables, pres
      ensures Valid() && p.tables.view - {conn} == old(p.tables.view) - {conn}
      ensures var r := Http2Frames.ParseBlock(old(SetupOf(conn)), old(LinkOf(conn)), old(pres[..]), d);
              && v == r.verdict && LinkOf(conn) == r.link && pres[..] == r.ms
              && (v.Consumed? ==> r.ctx == Ctx(conn, d, block[..blockLen]))
      ensures SetupOf(conn) == old(SetupOf(conn))
    {
      hide DT.Rep, Inject.Loaded, Feed, Collect;
      var c := CollectBlock(d);
      match c
      case NeedMore(need) =>
        return Again(need);
      case Rejected(e) =>
        return Failed(e);
      case Block(total, bytes) =>
        var ok := p.tables.GetDynamicTable(conn);
        if !ok {
          return Failed(NoSpace);
        }
        var ctx := Ctx(conn, d, block[..blockLen]);
        ghost var env := Env(p.tables.cfg, ctx, p.es, p.tables.Room(conn), Buf);
        assert block[..blockLen][0..blockLen] == bytes;
        var err := ReadBlock(ctx, block[..blockLen], 0, blockLen, Buf, pres, env);
        v := if err then Failed(BadMsg) else Consumed(total);
    }

    // `parse_msg` on the message `msg`, of which the first `linear` bytes are exposed. More may
    // be afterwards, up to `shown`, which is what the matches refer to.
    method ParseMsg(conn: Conn, msg: seq<byte>, linear: nat, pres: array<Match>) returns (v: Verdict, shown: nat)
      requires Ready(conn, pres) && linear <= |msg|
      modifies this`blockLen, block, p.tables, pres
      ensures Valid() && p.tables.view - {conn} == old(p.tables.view) - {conn}
      ensures var r := Http2Frames.ParseMsg(old(SetupOf(conn)), old(LinkOf(conn)), old(pres[..]), msg, linear);
              && v == r.verdict && LinkOf(conn) == r.link && pres[..] == r.ms
              && shown <= |msg| && (v.Consumed? && AllNear(old(pres[..]), Msg) ==> Resolves(r, conn, msg[..shown]))
      ensures SetupOf(conn) == old(SetupOf(conn))
    {
      hide DT.Rep, Inject.Loaded, Http2Frames.ParseFrame, Http2Frames.ParseBlock, FrameAt, HasFlag, AllNear;
      shown := linear;
      if linear < FRAME_HDR_LEN {
        return Wait, shown;
      }
      var f := ReadHeader(msg, 0);
      var n := FRAME_HDR_LEN + f.len;
      if Violates(f) {
        v := if n <= |msg| then Failed(Proto) else Again(n);
        return;
      }
      if !IsParsed(f) {
        return Consumed(n), shown;
      }
      if n > |msg| {
        return Again(n), shown;
      }
      if IsOpen(f) {
        shown := Min(|msg|, MAX_BYTES);
        v := ParseBlock(conn, msg[..shown], pres);
        if v.Again? && v.need <= |msg| {
          v := Failed(TooBig);
        }
      } else {
        shown := n;
        FrameContext(SetupOf(conn), LinkOf(conn), pres[..], msg[..shown], f);
        v := ParseFrame(conn, msg[..shown], f, pres);
      }
    }

    // `get_match_msg` on the part `d` of the message that is exposed.
    method GetCapture(conn: Conn, d: seq<byte>, pres: array<Match>, i: nat) returns (b: Option<Bytes>)
      requires Valid() && pres.Length == MAX_MATCHES && i < MAX_MATCHES
      ensures b == Http2Frames.GetCapture(SetupOf(conn),
                                           Reply(Wait, LinkOf(conn), pres[..], Ctx(conn, d, block[..blockLen])), i)
    {
      hide DT.Rep, Inject.Loaded, Tab.GetMatch;
      if !IsCaptured(pres[i]) {
        return None;
      }
      b := p.tables.GetMatch(Ctx(conn, d, block[..blockLen]), pres[i], false);
    }

    // Every capture of a message that was consumed, one after the other.
    method GetCaptures(conn: Conn, d: seq<byte>, pres: array<Match>, ghost s: Setup, ghost r: Reply)
      returns (bs: seq<Option<Bytes>>)
      requires Valid() && pres.Length == MAX_MATCHES && s == SetupOf(conn)
      requires r.link == LinkOf(conn) && r.ms == pres[..] && Resolves(r, conn, d)
      ensures bs == Http2Frames.GetCaptures(s, r)
    {
      hide DT.Rep, Inject.Loaded, Http2Frames.GetCapture;
      bs := [];
      ghost var r' := Reply(Wait, LinkOf(conn), pres[..], Ctx(conn, d, block[..blockLen]));
      for i := 0 to MAX_MATCHES
        invariant bs == Http2Frames.GetCaptures(s, r')[..i]
      {
        var b := GetCapture(conn, d, pres, i);
        bs := bs + [b];
      }
      CapturesResolve(s, r, r');
    }
  }

  lemma FrameContext(s: Setup, link: Link, ms: Matches, d: seq<byte>, f: Frame)
    requires FRAME_HDR_LEN + f.len == |d|
    ensures Http2Frames.ParseFrame(s, link, ms, d, f).ctx == Ctx(s.conn, d, [])
  {
    hide Feed, Settings, TableSizeOf;
  }

  lemma CapturesResolve(s: Setup, r: Reply, r': Reply)
    requires r'.link == r.link && r'.ms == r.ms && r'.ctx.conn == r.ctx.conn && r'.ctx.msg == r.ctx.msg
    requires r'.ctx.buf == r.ctx.buf || AllNear(r.ms, Msg)
    ensures Http2Frames.GetCaptures(s, r') == Http2Frames.GetCaptures(s, r)
  {
    CapturesOf(s, r.(ctx := r'.ctx), r');
    if r'.ctx.buf == r.ctx.buf {
      assert r'.ctx == r.ctx;
    } else {
      NearCaptured(s, r, r'.ctx, Msg);
    }
  }

  // The verdict is not part of what was captured.
  lemma CapturesOf(s: Setup, r: Reply, r': Reply)
    requires r'.link == r.link && r'.ms == r.ms && r'.ctx == r.ctx
    ensures Http2Frames.GetCaptures(s, r') == Http2Frames.GetCaptures(s, r)
  {
    hide Tab.GetMatch;
  }

  lemma NoPayload(max: nat)
    ensures TableSizeOf(Settings([]), max) == max
  {}

  // The identifier and the value of a setting at the offset `s`, of which `j` bytes are read.
  ghost predicate Partial(d: seq<byte>, s: nat, j: nat, id: nat, val: nat) {
    && s + j <= |d|
    && id == BigEndian(d[s..s + Min(j, 2)])
    && val == if j < 2 then 0 else BigEndian(d[s + 2..s + j])
  }

  lemma NoBytes(d: seq<byte>, s: nat)
    requires s <= |d|
    ensures Partial(d, s, 0, 0, 0)
  {
    assert d[s..s] == [];
  }

  lemma NoSettings(d: seq<byte>, s: nat, max: nat)
    requires s <= |d|
    ensures TableSizeOf(Settings(d[s..s]), max) == max && Partial(d, s, 0, 0, 0)
  {
    assert d[s..s] == [];
  }

  // One more byte.
  lemma TakeByte(d: seq<byte>, s: nat, j: nat, id: u16, val: u32)
    requires Partial(d, s, j, id, val) && j < 6 && s + j < |d|
    ensures j < 2 ==> Partial(d, s, j + 1, (id * 0x100 + d[s + j]) % U16, val)
    ensures j >= 2 ==> Partial(d, s, j + 1, id, (val * 0x100 + d[s + j]) % U32)
  {
    if j < 2 {
      assert d[s..s + j + 1][..j] == d[s..s + j];
      BigEndianBound(d[s..s + j + 1]);
      assert j == 1 ==> d[s + 2..s + 2] == [];
    } else {
      assert d[s + 2..s + j + 1][..j - 2] == d[s + 2..s + j];
      BigEndianBound(d[s + 2..s + j + 1]);
    }
  }

  // A setting that is complete.
  lemma SettingRead(d: seq<byte>, start: nat, s: nat, id: nat, val: nat, max: nat)
    requires start <= s && (s - start) % 6 == 0 && Partial(d, s, 6, id, val)
    ensures TableSizeOf(Settings(d[start..s + 6]), max) ==
            if id == SETTINGS_HEADER_TABLE_SIZE then val else TableSizeOf(Settings(d[start..s]), max)
  {
    var p, q := d[start..s], d[s..s + 6];
    assert d[start..s + 6] == p + q && q[..2] == d[s..s + 2] && q[2..6] == d[s + 2..s + 6];
    SettingsMore(p, q);
    assert (Settings(p) + [(id, val)])[..|Settings(p)|] == Settings(p);
  }

  lemma Unfinished(d: seq<byte>, start: nat, s: nat, stop: nat)
    requires start <= s <= stop <= |d| && (s - start) % 6 == 0 && stop - s < 6
    ensures Settings(d[start..stop]) == Settings(d[start..s])
  {
    assert d[start..stop] == d[start..s] + d[s..stop];
    SettingsRest(d[start..s], d[s..stop]);
  }
}
