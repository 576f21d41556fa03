// What each kind of frame is answered with (section 6 of RFC 9113).
module Http2Answers {
  import opened Base
  import opened HpackMachine
  import opened Http2Action
  import opened Http2Blocks
  import opened Http2Frames
  import opened Http2Retry
  import opened Http2Split

  // --- Kinds of frames ---

  // A CONTINUATION frame with no block to go on with, or a HEADERS frame of no stream.
  predicate IsRefused(f: RawFrame) {
    f.kind == 0x09 || (f.kind == 0x01 && f.sid == 0)
  }

  // Anything but HEADERS, CONTINUATION, and SETTINGS other than an acknowledgement.
  predicate IsUnread(f: RawFrame) {
    f.kind != 0x01 && f.kind != 0x09 && !(f.kind == 0x04 && f.flags == 0x00)
  }

  // A frame that is not the first of several that hold one header block.
  predicate IsAlone(f: RawFrame) {
    f.kind == 0x01 && f.sid != 0 ==> HasFlag(f.flags, 0x04)
  }

  // Whether a reply leaves everything as it was.
  predicate KeepsAll(r: Reply, link: Link, ms: Matches) {
    r.link == link && r.ms == ms
  }

  // A frame that is not read is passed on in full, whether or not its payload has arrived.
  lemma UnreadFrame(s: Setup, link: Link, ms: Matches, msg: seq<byte>, linear: nat, f: RawFrame)
    requires Sendable(f) && IsUnread(f) && Holds(msg, 0, Header(f)) && 9 <= linear <= |msg|
    ensures var r := ParseMsg(s, link, ms, msg, linear);
            r.verdict == Consumed(|FrameBytes(f)|) && KeepsAll(r, link, ms)
  {
    hide FrameAt, ParseFrame, ParseOpen;
    FrameIsRead(msg, 0, f);
  }

  // A refused frame is waited for, and then rejected.
  lemma RefusedFrame(s: Setup, link: Link, ms: Matches, msg: seq<byte>, linear: nat, f: RawFrame)
    requires Sendable(f) && IsRefused(f) && Holds(msg, 0, Header(f)) && 9 <= linear <= |msg|
    ensures var r, n := ParseMsg(s, link, ms, msg, linear), |FrameBytes(f)|;
            r.verdict == (if n <= |msg| then Failed(Proto) else Again(n)) && KeepsAll(r, link, ms)
  {
    hide FrameAt, ParseFrame, ParseOpen;
    FrameIsRead(msg, 0, f);
  }

  // A call asks for the whole of any other frame.
  lemma PartOfFrame(s: Setup, link: Link, msg: seq<byte>, linear: nat, f: RawFrame)
    requires Sendable(f) && !IsUnread(f) && Holds(msg, 0, Header(f)) && 9 <= linear <= |msg| < |FrameBytes(f)|
    ensures var r := ParseMsg(s, link, NO_MATCHES, msg, linear);
            r.verdict == Again(|FrameBytes(f)|) && KeepsAll(r, link, NO_MATCHES)
  {
    hide FrameAt, ParseFrame, ParseOpen, HasFlag;
    FrameIsRead(msg, 0, f);
  }

  // With the bytes it asked for it gives a final answer: it consumes just them, or gives up.
  lemma LoneFrame(s: Setup, link: Link, msg: seq<byte>, linear: nat, f: RawFrame)
    requires Sendable(f) && !IsUnread(f) && !IsRefused(f) && IsAlone(f)
    requires Holds(msg, 0, FrameBytes(f)) && 9 <= linear <= |msg|
    ensures var v := ParseMsg(s, link, NO_MATCHES, msg, linear).verdict;
            v == Consumed(|FrameBytes(f)|) || (v.Failed? && v.e != Proto)
  {
    hide FrameAt, ParseFrame, ParseOpen, HasFlag;
    HoldsInRange(msg, 0, f);
    HoldsParts(msg, 0, Header(f), f.payload);
    FrameIsRead(msg, 0, f);
    var h := FrameAt(msg, 0);
    assert IsParsed(h) && !Violates(h) && !IsOpen(h);
    FrameVerdict(s, link, msg[..|FrameBytes(f)|], h);
  }

  // A frame whose padding and priority do not fit is rejected.
  lemma CutShort(s: Setup, link: Link, msg: seq<byte>, linear: nat, f: RawFrame)
    requires Sendable(f) && f.kind == 0x01 && f.sid != 0 && IsAlone(f) && FragmentOf(f, true).None?
    requires Holds(msg, 0, FrameBytes(f)) && 9 <= linear <= |msg|
    ensures var r := ParseMsg(s, link, NO_MATCHES, msg, linear);
            && r.verdict == Failed(if HasFlag(f.flags, 0x08) && f.payload == [] then Fault else BadMsg)
            && KeepsAll(r, link, NO_MATCHES)
  {
    hide FrameAt, FrameBytes, HasFlag, FragmentOf;
    var d := FrameBytes(f);
    HoldsInRange(msg, 0, f);
    FragmentIsRead(msg, 0, f, true);
    assert msg[..|d|] == msg[0..|d|] == d;
    assert Holds(d, 0, d) by { assert d[0..|d|] == d; }
    FragmentIsRead(d, 0, f, true);
  }

  // Without a table, and without room for one, no block is read.
  lemma NoRoomForFrame(s: Setup, link: Link, msg: seq<byte>, linear: nat, f: RawFrame, bs: seq<byte>)
    requires HoldsBlock(f, bs) && Holds(msg, 0, FrameBytes(f)) && 9 <= linear <= |msg|
    requires link == Link(None) && !s.canOpen
    ensures var r := ParseMsg(s, link, NO_MATCHES, msg, linear);
            r.verdict == Failed(NoSpace) && KeepsAll(r, link, NO_MATCHES)
  {
    var start := WholeFrame(msg, f, bs);
    hide FrameAt, FrameBytes, HasFlag, FragmentOf, BlockOf, Feed, Holds;
  }

  lemma NoRoomForFrames(s: Setup, link: Link, msg: seq<byte>, linear: nat, fs: seq<RawFrame>, bs: seq<byte>)
    requires HoldBlock(fs, bs) && |bs| <= 16382 && Holds(msg, 0, AllBytes(fs)) && 9 <= linear <= |msg|
    requires link == Link(None) && !s.canOpen
    ensures var r := ParseMsg(s, link, NO_MATCHES, msg, linear);
            r.verdict == Failed(NoSpace) && KeepsAll(r, link, NO_MATCHES)
  {
    hide FrameAt, FrameBytes, HasFlag, FragmentOf, Feed, Holds, Collect, IsBlock, AllBytes;
    FirstFrame(msg, fs);
    HoldsPrefix(msg, MAX_BYTES, AllBytes(fs));
    BlockIsCollected(msg[..Min(|msg|, MAX_BYTES)], 0, None, [], fs);
    assert [] + bs == bs;
  }

  // --- Blocks in several frames ---

  // What is still missing is the rest of a frame header, or else of the frame behind it.
  function MissingOf(f: RawFrame, part: seq<byte>): nat {
    if |part| < 9 then 9 else |FrameBytes(f)|
  }

  lemma FirstOf(fs: seq<RawFrame>, k: nat)
    requires 0 < k <= |fs|
    ensures AllBytes(fs[..k]) == FrameBytes(fs[0]) + AllBytes(fs[1..][..k - 1])
  {
    hide FrameBytes;
    assert fs[..k][1..] == fs[1..][..k - 1];
  }

  // The beginning of a frame, once its header is there, gives its length away.
  lemma PartIsRead(d: seq<byte>, o: nat, f: RawFrame, part: seq<byte>)
    requires Sendable(f) && o <= |d| && d[o..] == part && part < FrameBytes(f)
    ensures |part| >= 9 ==> FrameAt(d, o) == Frame(|f.payload|, f.kind, f.flags, f.sid)
    ensures |part| >= 9 ==> Holds(d, o, Header(f))
    ensures |d| == o + |part| < o + 9 + |f.payload|
  {
    hide Sendable, FrameAt, Header;
    if |part| >= 9 {
      assert d[o..o + 9] == part[..9] == FrameBytes(f)[..9] == Header(f);
      FrameIsRead(d, o, f);
    }
  }

  lemma NextIsMissing(d: seq<byte>, o: nat, sid: Option<nat>, bytes: seq<byte>, f: RawFrame, part: seq<byte>)
    requires o <= |d| <= 0x7FFF && Sendable(f) && d[o..] == part && part < FrameBytes(f)
    requires sid.Some? ==> f.kind == 0x09 && f.sid == sid.value
    ensures Collect(d, o, sid, bytes) == NeedMore(o + MissingOf(f, part))
  {
    hide FrameAt, Fragment, HasFlag, FrameBytes, Sendable, Holds;
    PartIsRead(d, o, f, part);
  }

  // A block of which the last frame that has arrived is not whole.
  lemma {:induction false} PartIsCollected(d: seq<byte>, o: nat, sid: Option<nat>, bytes: seq<byte>, fs: seq<RawFrame>,
                                           k: nat, part: seq<byte>)
    requires o <= |d| <= 0x7FFF && IsBlock(fs, sid) && |bytes| + |Joined(fs, sid)| <= 16382
    requires k < |fs| && part < FrameBytes(fs[k]) && d[o..] == AllBytes(fs[..k]) + part
    ensures Collect(d, o, sid, bytes) == NeedMore(o + |AllBytes(fs[..k])| + MissingOf(fs[k], part))
    decreases |fs|
  {
    hide FrameAt, Fragment, FragmentOf, HasFlag, FrameBytes, Sendable, Holds, MissingOf;
    var f := fs[0];
    if k == 0 {
      assert AllBytes(fs[..0]) == [] && d[o..] == part;
      NextIsMissing(d, o, sid, bytes, f, part);
    } else {
      var rest := AllBytes(fs[1..][..k - 1]);
      FirstOf(fs, k);
      assert d[o..] == FrameBytes(f) + (rest + part);
      FrontHeld(d, o, FrameBytes(f), rest + part);
      FragmentIsRead(d, o, f, sid.None?);
      HoldsInRange(d, o, f);
      var frag := FragmentOf(f, sid.None?).value;
      PartIsCollected(d, o + |FrameBytes(f)|, Some(f.sid), bytes + frag, fs[1..], k - 1, part);
    }
  }

  lemma FrontHeld(d: seq<byte>, o: nat, a: seq<byte>, b: seq<byte>)
    requires o <= |d| && d[o..] == a + b
    ensures Holds(d, o, a) && d[o + |a|..] == b
  {
    assert d[o..o + |a|] == d[o..][..|a|] == a;
    assert d[o + |a|..] == d[o..][|a|..] == b;
  }

  // While a block is on its way, a call asks for what is missing of the frame that arrives, and
  // changes nothing.
  lemma PartOfBlock(s: Setup, link: Link, msg: seq<byte>, linear: nat, fs: seq<RawFrame>, bs: seq<byte>, k: nat,
                    part: seq<byte>)
    requires HoldBlock(fs, bs) && |bs| <= 16382 && 0 < k < |fs| && part < FrameBytes(fs[k])
    requires msg == AllBytes(fs[..k]) + part && 9 <= linear <= |msg|
    ensures FrameAt(msg, 0) == Frame(|fs[0].payload|, fs[0].kind, fs[0].flags, fs[0].sid)
    ensures var r := ParseMsg(s, link, NO_MATCHES, msg, linear);
            r.verdict == Again(|AllBytes(fs[..k])| + MissingOf(fs[k], part)) && KeepsAll(r, link, NO_MATCHES)
  {
    hide FrameAt, FrameBytes, HasFlag, FragmentOf, Collect, Sendable, Holds, Joined;
    UpTo(fs, k);
    assert msg[0..] == msg && msg[..Min(|msg|, MAX_BYTES)] == msg;
    PartIsCollected(msg, 0, None, [], fs, k, part);
    var f, rest := fs[0], AllBytes(fs[1..][..k - 1]);
    FirstOf(fs, k);
    assert msg[0..] == FrameBytes(f) + (rest + part);
    FrontHeld(msg, 0, FrameBytes(f), rest + part);
    FragmentIsRead(msg, 0, f, true);
    HoldsInRange(msg, 0, f);
  }

  lemma {:induction false} UpTo(fs: seq<RawFrame>, k: nat)
    requires k < |fs|
    ensures |AllBytes(fs[..k])| + |FrameBytes(fs[k])| <= |AllBytes(fs)|
  {
    hide FrameBytes;
    if k > 0 {
      assert fs[..k][1..] == fs[1..][..k - 1] && fs[..k][0] == fs[0];
      UpTo(fs[1..], k - 1);
    }
  }

  // A frame that does not carry the block on, behind `k` that do.
  lemma {:induction false} BreakIsFound(d: seq<byte>, o: nat, sid: Option<nat>, bytes: seq<byte>, fs: seq<RawFrame>,
                                        k: nat, g: RawFrame, rest: seq<byte>)
    requires o <= |d| <= 0x7FFF && IsBlock(fs, sid) && |bytes| + |Joined(fs, sid)| <= 16382
    requires k < |fs| && Sendable(g) && d[o..] == AllBytes(fs[..k]) + (Header(g) + rest)
    requires var on := if sid.Some? then sid.value else fs[0].sid;
             (g.kind != 0x09 || g.sid != on) && (sid.Some? || k > 0)
    ensures Collect(d, o, sid, bytes) == Rejected(Proto)
    decreases |fs|
  {
    hide FrameAt, Fragment, FragmentOf, HasFlag, FrameBytes, Sendable, Holds, Header;
    var f := fs[0];
    if k == 0 {
      assert AllBytes(fs[..0]) == [] && d[o..] == Header(g) + rest;
      FrontHeld(d, o, Header(g), rest);
      FrameIsRead(d, o, g);
    } else {
      var tail := AllBytes(fs[1..][..k - 1]);
      FirstOf(fs, k);
      assert d[o..] == FrameBytes(f) + (tail + (Header(g) + rest));
      FrontHeld(d, o, FrameBytes(f), tail + (Header(g) + rest));
      FragmentIsRead(d, o, f, sid.None?);
      HoldsInRange(d, o, f);
      var frag := FragmentOf(f, sid.None?).value;
      BreakIsFound(d, o + |FrameBytes(f)|, Some(f.sid), bytes + frag, fs[1..], k - 1, g, rest);
    }
  }

  // Any other frame, or one of any other stream, between the frames of a block is a violation
  // (section 6.10 of RFC 9113).
  lemma BrokenBlock(s: Setup, link: Link, msg: seq<byte>, linear: nat, fs: seq<RawFrame>, bs: seq<byte>, k: nat,
                    g: RawFrame, rest: seq<byte>)
    requires HoldBlock(fs, bs) && |bs| <= 16382 && 0 < k < |fs| && Sendable(g)
    requires g.kind != 0x09 || g.sid != fs[0].sid
    requires msg == AllBytes(fs[..k]) + (Header(g) + rest) && |AllBytes(fs[..k])| + 9 <= 0x7FFF && 9 <= linear <= |msg|
    ensures var r := ParseMsg(s, link, NO_MATCHES, msg, linear);
            r.verdict == Failed(Proto) && KeepsAll(r, link, NO_MATCHES)
  {
    hide FrameAt, FrameBytes, HasFlag, FragmentOf, Collect, Sendable, Holds, Joined, Header, AllBytes;
    var d := msg[..Min(|msg|, MAX_BYTES)];
    var n := |AllBytes(fs[..k])| + 9;
    assert d[0..] == d == AllBytes(fs[..k]) + (Header(g) + d[n..]);
    BreakIsFound(d, 0, None, [], fs, k, g, d[n..]);
    var tail := AllBytes(fs[1..][..k - 1]);
    FirstOf(fs, k);
    assert msg[0..] == FrameBytes(fs[0]) + (tail + (Header(g) + rest));
    FrontHeld(msg, 0, FrameBytes(fs[0]), tail + (Header(g) + rest));
    FragmentIsRead(msg, 0, fs[0], true);
    HoldsInRange(msg, 0, fs[0]);
  }

  // --- Settings ---

  datatype Setting = Setting(id: u16, value: u32)

  // The payload of a SETTINGS frame (section 6.5.1 of RFC 9113).
  function SettingsBytes(ps: seq<Setting>): seq<byte> {
    if ps == [] then [] else NetworkBytes(ps[0].id, 2) + NetworkBytes(ps[0].value, 4) + SettingsBytes(ps[1..])
  }

  // The value the last SETTINGS_HEADER_TABLE_SIZE gives (section 6.5.2 of RFC 9113), or `max`.
  function LastTableSize(ps: seq<Setting>, max: u32): u32 {
    if ps == [] then max else LastTableSize(ps[1..], if ps[0].id == 0x01 then ps[0].value else max)
  }

  function AsPairs(ps: seq<Setting>): seq<(nat, nat)> {
    if ps == [] then [] else [(ps[0].id, ps[0].value)] + AsPairs(ps[1..])
  }

  lemma {:induction false} SettingsAreRead(ps: seq<Setting>, tail: seq<byte>)
    requires |tail| < 6
    ensures Settings(SettingsBytes(ps) + tail) == AsPairs(ps)
  {
    hide BigEndian, NetworkBytes, Pow2;
    if ps == [] {
      assert SettingsBytes(ps) + tail == tail;
    } else {
      var Setting(id, v) := ps[0];
      var a, b, c := NetworkBytes(id, 2), NetworkBytes(v, 4), SettingsBytes(ps[1..]) + tail;
      var p := SettingsBytes(ps) + tail;
      assert p == a + b + c;
      assert p[..2] == a && p[2..6] == b && p[6..] == c;
      SettingWidths();
      BigEndianRead(id, 2);
      BigEndianRead(v, 4);
      SettingsAreRead(ps[1..], tail);
    }
  }

  lemma SettingWidths()
    ensures Pow2(16) == 0x1_0000 && Pow2(32) == 0x1_0000_0000
  {
    assert Pow2(0) == 1;
    Pow256(0);
    Pow256(1);
    Powers();
  }

  lemma {:induction false} LastIsUsed(ps: seq<Setting>, max: u32)
    ensures TableSizeOf(AsPairs(ps), max) == LastTableSize(ps, max)
  {
    if ps != [] {
      LastIsUsed(ps[1..], if ps[0].id == 0x01 then ps[0].value else max);
      FirstIsUsed(ps[0].id, ps[0].value, AsPairs(ps[1..]), max);
    }
  }

  lemma {:induction false} FirstIsUsed(id: nat, v: nat, ps: seq<(nat, nat)>, max: nat)
    ensures TableSizeOf([(id, v)] + ps, max) == TableSizeOf(ps, if id == 0x01 then v else max)
    decreases |ps|
  {
    var all := [(id, v)] + ps;
    if ps == [] {
      assert all[..0] == [] && all[|all| - 1] == (id, v);
      assert TableSizeOf(all[..|all| - 1], max) == max;
    } else {
      assert all[..|all| - 1] == [(id, v)] + ps[..|ps| - 1] && all[|all| - 1] == ps[|ps| - 1];
      FirstIsUsed(id, v, ps[..|ps| - 1], max);
    }
  }

  // Settings change the maximum size of the dynamic table and nothing else. What is left over
  // behind the last whole setting is not read.
  lemma SettingsFrame(s: Setup, link: Link, ms: Matches, msg: seq<byte>, linear: nat, f: RawFrame, ps: seq<Setting>,
                      tail: seq<byte>)
    requires f.kind == 0x04 && f.flags == 0x00 && f.sid < 0x8000_0000
    requires |tail| < 6 && f.payload == SettingsBytes(ps) + tail
    requires |FrameBytes(f)| <= 0x7FFF && Holds(msg, 0, FrameBytes(f)) && 9 <= linear <= |msg|
    requires Open(s, link).Some?
    ensures var r, t := ParseMsg(s, link, ms, msg, linear), Open(s, link).value;
            && r.verdict == Consumed(|FrameBytes(f)|) && r.ms == ms
            && r.link == Link(Some(t.(maxSize := LastTableSize(ps, t.maxSize))))
  {
    hide FrameAt, FrameBytes, Settings, TableSizeOf, SettingsBytes, LastTableSize, Feed, HasFlag;
    var d, t := FrameBytes(f), Open(s, link).value;
    HoldsInRange(msg, 0, f);
    FragmentIsRead(msg, 0, f, false);
    assert msg[..|d|] == msg[0..|d|] == d;
    assert d[9..|d|] == f.payload by { FrameBehindHeader(f); }
    SettingsAreRead(ps, tail);
    LastIsUsed(ps, t.maxSize);
  }

  lemma FrameBehindHeader(f: RawFrame)
    ensures FrameBytes(f)[9..] == f.payload && FrameBytes(f)[9..|FrameBytes(f)|] == f.payload
  {}
}
