// The frames of HTTP/2 (sections 4.1, 6.2 and 6.10 of RFC 9113) as the parser reads them: what
// one call of `parse_msg` makes of a message. Class MessageParser in module Http2Messages does
// it in place.
module Http2Frames {
  import opened Base
  import opened DynamicTable
  import opened HpackMachine
  import opened Http2Action

  const FRAME_HDR_LEN: nat := 9
  const HEADERS_FRAME: nat := 0x01
  const SETTINGS_FRAME: nat := 0x04
  const CONTINUATION_FRAME: nat := 0x09
  const END_HEADERS_FLAG: nat := 0x04
  const PADDED_FLAG: nat := 0x08
  const PRIORITY_FLAG: nat := 0x20
  const PRIORITY_LEN: nat := 5
  const SETTINGS_HEADER_TABLE_SIZE: nat := 1

  // The negative results, but for -EAGAIN.
  datatype Errno = BadMsg | TooBig | Proto | NoSpace | Fault

  // A result of `parse_msg`: 0, -EAGAIN along with `need`, a number of bytes, or an error.
  datatype Verdict = Wait | Again(need: nat) | Consumed(n: nat) | Failed(e: Errno)

  datatype Frame = Frame(len: nat, kind: byte, flags: byte, sid: nat)

  // An unsigned integer in network byte order.
  function BigEndian(bs: seq<byte>): nat {
    if bs == [] then 0 else 0x100 * BigEndian(bs[..|bs| - 1]) + bs[|bs| - 1]
  }

  // The frame header at the offset `o`. The first bit of a stream id does not count.
  function FrameAt(d: seq<byte>, o: nat): Frame
    requires o + FRAME_HDR_LEN <= |d|
  {
    Frame(BigEndian(d[o..o + 3]), d[o + 3], d[o + 4], BigEndian(d[o + 5..o + 9]) % 0x8000_0000)
  }

  // --- Fragments ---

  // Where the fragment of the frame at the offset `o` begins, and how much padding is behind
  // it. Frames other than HEADERS have neither padding nor a priority.
  function Margins(d: seq<byte>, o: nat, f: Frame, headers: bool): (m: Option<(nat, nat)>)
    requires o + FRAME_HDR_LEN + f.len <= |d|
    ensures m.Some? ==> m.value.0 >= FRAME_HDR_LEN && m.value.0 + m.value.1 <= FRAME_HDR_LEN + f.len
  {
    var padded := headers && HasFlag(f.flags, PADDED_FLAG);
    if padded && f.len == 0 then None
    else
      var start := FRAME_HDR_LEN + (if padded then 1 else 0)
          + if headers && HasFlag(f.flags, PRIORITY_FLAG) then PRIORITY_LEN else 0;
      var pad: nat := if padded then d[o + FRAME_HDR_LEN] else 0;
      if start + pad > FRAME_HDR_LEN + f.len then None else Some((start, pad))
  }

  function Fragment(d: seq<byte>, o: nat, f: Frame, headers: bool): Option<seq<byte>>
    requires o + FRAME_HDR_LEN + f.len <= |d|
  {
    var m := Margins(d, o, f, headers);
    if m.None? then None else Some(d[o + m.value.0..o + FRAME_HDR_LEN + f.len - m.value.1])
  }

  // --- Header blocks in more than one frame ---

  datatype Collected = Block(total: nat, bytes: seq<byte>) | NeedMore(need: nat) | Rejected(e: Errno)

  // Goes on to collect a header block at the offset `o`, of which `bytes` have been read out
  // of the frames before it. `sid` is the stream of the HEADERS frame, once that is known.
  function Collect(d: seq<byte>, o: nat, sid: Option<nat>, bytes: seq<byte>): (r: Collected)
    ensures r.Block? ==> o < r.total <= |d| && |r.bytes| <= BLOCK_MAXLEN
    ensures r.NeedMore? ==> r.need > |d|
    decreases |d| - o
  {
    if o > MAX_BYTES then Rejected(TooBig)
    else if o + FRAME_HDR_LEN > |d| then NeedMore(o + FRAME_HDR_LEN)
    else
      var f := FrameAt(d, o);
      var end := o + FRAME_HDR_LEN + f.len;
      if sid.Some? && (f.kind != CONTINUATION_FRAME || f.sid != sid.value) then Rejected(Proto)
      else if end > |d| then NeedMore(end)
      else
        var frag := Fragment(d, o, f, sid.None?);
        if frag.None? then Rejected(BadMsg)
        else if |bytes| + |frag.value| > BLOCK_MAXLEN then Rejected(TooBig)
        else if HasFlag(f.flags, END_HEADERS_FLAG) then Block(end, bytes + frag.value)
        else Collect(d, end, if sid.None? then Some(f.sid) else sid, bytes + frag.value)
  }

  // --- Messages ---

  // What a parser is set up with: its configuration, its DFA, the connection, and what the
  // maps have room for.
  datatype Setup = Setup(cfg: Config, es: Edges, conn: Conn, room: int, canOpen: bool)

  // What is kept of a connection.
  datatype Link = Link(tab: Option<Tab>)

  // The result of a call: `ctx` is what its matches refer to. The block in there is empty
  // unless one was collected: what the buffer held before is of no account.
  datatype Reply = Reply(verdict: Verdict, link: Link, ms: Matches, ctx: Ctx)

  // The table of the connection, created for its first block.
  function Open(s: Setup, link: Link): Option<Tab> {
    if link.tab.Some? then link.tab else if s.canOpen then Some(NEW_TAB) else None
  }

  // The offsets of the header block within a frame that is not one of several. Both are 16
  // bits wide.
  function BlockOf(d: seq<byte>, f: Frame): Option<(u16, u16)>
    requires FRAME_HDR_LEN + f.len <= |d|
  {
    var m := Margins(d, 0, f, f.kind == HEADERS_FRAME);
    if m.None? then None else Some((m.value.0, (FRAME_HDR_LEN + f.len - m.value.1) % U16))
  }

  // A HEADERS frame is too short for the padding length it announces.
  predicate LacksPadLength(f: Frame) {
    f.kind == HEADERS_FRAME && HasFlag(f.flags, PADDED_FLAG) && f.len == 0
  }

  function EnvOf(s: Setup, ctx: Ctx, src: Source): Env {
    Env(s.cfg, ctx, s.es, s.room, src)
  }

  // The settings of a SETTINGS frame, of six bytes each. An unfinished one is left out.
  function Settings(p: seq<byte>): seq<(nat, nat)> {
    if |p| < 6 then []
    else [(BigEndian(p[..2]), BigEndian(p[2..6]))] + Settings(p[6..])
  }

  // The last table size among settings, or `max`.
  function TableSizeOf(ss: seq<(nat, nat)>, max: nat): nat {
    if ss == [] then max
    else if ss[|ss| - 1].0 == SETTINGS_HEADER_TABLE_SIZE then ss[|ss| - 1].1
    else TableSizeOf(ss[..|ss| - 1], max)
  }

  // Where a walk over the bytes between `start` and `end` ends, and the offset it leaves
  // behind, which is the one of the last byte it read.
  function StopOf(d: seq<byte>, start: nat, end: nat): nat {
    var len := Min(Min(|d|, MAX_BYTES), end);
    if start < len then len else start
  }

  function LastOf(start: nat, stop: nat): nat {
    if start < stop then stop - 1 else start
  }

  // A frame that holds all there is to it, which is exactly what of the message is exposed.
  function ParseFrame(s: Setup, link: Link, ms: Matches, d: seq<byte>, f: Frame): Reply
    requires FRAME_HDR_LEN + f.len == |d|
  {
    var ctx := Ctx(s.conn, d, []);
    var block := BlockOf(d, f);
    if block.None? then Reply(Failed(if LacksPadLength(f) then Fault else BadMsg), link, ms, ctx)
    else
      var (start, end) := block.value;
      var tab := Open(s, link);
      if end > MAX_BYTES then Reply(Failed(TooBig), link, ms, ctx)
      else if tab.None? then Reply(Failed(NoSpace), link, ms, ctx)
      else
        var stop := StopOf(d, start, end);
        var enough := LastOf(start, stop) >= end - 1;
        var verdict := if enough then Consumed(|d|) else Failed(BadMsg);
        if f.kind == SETTINGS_FRAME then
          var max := TableSizeOf(Settings(if start < stop then d[start..stop] else []), tab.value.maxSize);
          Reply(verdict, Link(Some(tab.value.(maxSize := max % U32))), ms, ctx)
        else
          var o := Feed(EnvOf(s, ctx, Msg), New(Msg), World(tab.value, ms), start,
                        if start < stop then d[start..stop] else []);
          Reply(if o.err then Failed(BadMsg) else verdict, Link(Some(o.w.tab)), o.w.ms, ctx)
  }

  // A block in more than one frame, of which `d` is exposed.
  function ParseBlock(s: Setup, link: Link, ms: Matches, d: seq<byte>): Reply {
    match Collect(d, 0, None, [])
    case NeedMore(need) => Reply(Again(need), link, ms, Ctx(s.conn, d, []))
    case Rejected(e) => Reply(Failed(e), link, ms, Ctx(s.conn, d, []))
    case Block(total, bytes) =>
      var ctx := Ctx(s.conn, d, bytes);
      var tab := Open(s, link);
      if tab.None? then Reply(Failed(NoSpace), link, ms, ctx)
      else
        var o := Feed(EnvOf(s, ctx, Buf), New(Buf), World(tab.value, ms), 0, bytes);
        Reply(if o.err then Failed(BadMsg) else Consumed(total), Link(Some(o.w.tab)), o.w.ms, ctx)
  }

  // A block of several frames is read out of as much of the message as a walk can cover, and
  // given up if it has all arrived but goes on behind that.
  function ParseOpen(s: Setup, link: Link, ms: Matches, msg: seq<byte>): Reply {
    var r := ParseBlock(s, link, ms, msg[..Min(|msg|, MAX_BYTES)]);
    if r.verdict.Again? && r.verdict.need <= |msg| then r.(verdict := Failed(TooBig)) else r
  }

  // Whether a frame at the start of a message breaks the rules for header blocks.
  predicate Violates(f: Frame) {
    f.kind == CONTINUATION_FRAME || (f.kind == HEADERS_FRAME && f.sid == 0)
  }

  // The frames that are read: header blocks, and settings that acknowledge nothing.
  predicate IsParsed(f: Frame) {
    f.kind == HEADERS_FRAME || f.kind == CONTINUATION_FRAME || (f.kind == SETTINGS_FRAME && f.flags == 0)
  }

  predicate IsOpen(f: Frame) {
    f.kind == HEADERS_FRAME && !HasFlag(f.flags, END_HEADERS_FLAG)
  }

  // `parse_msg` on the message `msg`, of which the first `linear` bytes are exposed.
  function ParseMsg(s: Setup, link: Link, ms: Matches, msg: seq<byte>, linear: nat): Reply
    requires linear <= |msg|
  {
    var ctx := Ctx(s.conn, msg[..linear], []);
    if linear < FRAME_HDR_LEN then Reply(Wait, link, ms, ctx)
    else
      var f := FrameAt(msg, 0);
      var n := FRAME_HDR_LEN + f.len;
      if Violates(f) then Reply(if n <= |msg| then Failed(Proto) else Again(n), link, ms, ctx)
      else if !IsParsed(f) then Reply(Consumed(n), link, ms, ctx)
      else if n > |msg| then Reply(Again(n), link, ms, ctx)
      else if IsOpen(f) then ParseOpen(s, link, ms, msg)
      else ParseFrame(s, link, ms, msg[..n], f)
  }

  // --- Captures ---

  // The result a call begins with.
  const NO_MATCHES: Matches := NoMatches()

  function NoMatches(): Matches {
    seq(MAX_MATCHES, _ => Match(0, 0, Msg, false))
  }

  // A match of length 0 at the offset 0 stands for no capture.
  predicate IsCaptured(m: Match) {
    m.len > 0 || m.idx > 0
  }

  // `get_match_msg`: the bytes captured for the match `i`.
  function GetCapture(s: Setup, r: Reply, i: nat): Option<Bytes>
    requires i < MAX_MATCHES
  {
    var tab := if r.link.tab.Some? then r.link.tab.value else NEW_TAB;
    if IsCaptured(r.ms[i]) then tab.GetMatch(s.cfg, r.ctx, r.ms[i], false) else None
  }

  // Everything that was captured.
  function GetCaptures(s: Setup, r: Reply): seq<Option<Bytes>> {
    seq(MAX_MATCHES, i requires 0 <= i < MAX_MATCHES => GetCapture(s, r, i))
  }
}
