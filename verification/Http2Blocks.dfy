// Header blocks as RFC 9113 has them sent, against the ones the parser puts together.
module Http2Blocks {
  import opened Base
  import opened DynamicTable
  import opened Http2Action
  import opened Http2Frames

  // --- Numbers in network byte order ---

  function NetworkBytes(n: nat, k: nat): (bs: seq<byte>)
    ensures |bs| == k
  {
    if k == 0 then [] else NetworkBytes(n / 0x100, k - 1) + [n % 0x100]
  }

  lemma {:induction false} BigEndianRead(n: nat, k: nat)
    requires n < Pow2(8 * k)
    ensures BigEndian(NetworkBytes(n, k)) == n
  {
    if k > 0 {
      Pow256(k - 1);
      BigEndianRead(n / 0x100, k - 1);
      var bs := NetworkBytes(n, k);
      assert bs[..k - 1] == NetworkBytes(n / 0x100, k - 1);
    }
  }

  lemma {:induction false} BigEndianWritten(bs: seq<byte>)
    ensures NetworkBytes(BigEndian(bs), |bs|) == bs && BigEndian(bs) < Pow2(8 * |bs|)
  {
    if bs != [] {
      var k := |bs| - 1;
      Pow256(k);
      BigEndianWritten(bs[..k]);
      assert BigEndian(bs) / 0x100 == BigEndian(bs[..k]) && BigEndian(bs) % 0x100 == bs[k];
    }
  }

  lemma Pow256(k: nat)
    ensures Pow2(8 * (k + 1)) == 0x100 * Pow2(8 * k)
  {
    var e := 8 * k;
    assert Pow2(e + 8) == 2 * Pow2(e + 7) && Pow2(e + 7) == 2 * Pow2(e + 6) && Pow2(e + 6) == 2 * Pow2(e + 5);
    assert Pow2(e + 5) == 2 * Pow2(e + 4) && Pow2(e + 4) == 2 * Pow2(e + 3) && Pow2(e + 3) == 2 * Pow2(e + 2);
    assert Pow2(e + 2) == 2 * Pow2(e + 1) && Pow2(e + 1) == 2 * Pow2(e);
  }

  // --- Frames ---

  // A frame of section 4.1 of RFC 9113. Its header has one bit to spare.
  datatype RawFrame = RawFrame(kind: byte, flags: byte, spare: bool, sid: nat, payload: seq<byte>)

  predicate Sendable(f: RawFrame) {
    |f.payload| < 0x100_0000 && f.sid < 0x8000_0000
  }

  function Header(f: RawFrame): (bs: seq<byte>)
    ensures |bs| == FRAME_HDR_LEN
  {
    NetworkBytes(|f.payload|, 3) + [f.kind, f.flags] + NetworkBytes(f.sid + if f.spare then 0x8000_0000 else 0, 4)
  }

  function FrameBytes(f: RawFrame): (bs: seq<byte>)
    ensures |bs| == FRAME_HDR_LEN + |f.payload|
  {
    Header(f) + f.payload
  }

  // Whether the bytes of `f` are at the offset `o`.
  predicate Holds(d: seq<byte>, o: nat, bs: seq<byte>) {
    o + |bs| <= |d| && d[o..o + |bs|] == bs
  }

  // The parser reads the header of a frame that was sent.
  lemma FrameIsRead(d: seq<byte>, o: nat, f: RawFrame)
    requires Sendable(f) && Holds(d, o, Header(f))
    ensures FrameAt(d, o) == Frame(|f.payload|, f.kind, f.flags, f.sid)
  {
    hide BigEndian, NetworkBytes, Pow2;
    var h, id := Header(f), f.sid + if f.spare then 0x8000_0000 else 0;
    assert d[o..o + 3] == d[o..o + 9][..3] == h[..3] == NetworkBytes(|f.payload|, 3);
    assert d[o + 5..o + 9] == d[o..o + 9][5..] == h[5..] == NetworkBytes(id, 4);
    assert d[o + 3] == d[o..o + 9][3] == f.kind && d[o + 4] == d[o..o + 9][4] == f.flags;
    Powers();
    BigEndianRead(|f.payload|, 3);
    BigEndianRead(id, 4);
  }

  lemma Powers()
    ensures Pow2(24) == 0x100_0000 && Pow2(32) == 0x1_0000_0000
  {
    assert Pow2(0) == 1;
    Pow256(0);
    Pow256(1);
    Pow256(2);
    Pow256(3);
  }

  // Whatever has arrived whole is a frame that was sent.
  lemma FrameWasSent(d: seq<byte>, o: nat) returns (f: RawFrame)
    requires o + FRAME_HDR_LEN <= |d| && o + FRAME_HDR_LEN + FrameAt(d, o).len <= |d|
    ensures Sendable(f) && Holds(d, o, FrameBytes(f)) && FrameAt(d, o) == Frame(|f.payload|, f.kind, f.flags, f.sid)
  {
    hide BigEndian, NetworkBytes, Pow2;
    var len, id := BigEndian(d[o..o + 3]), BigEndian(d[o + 5..o + 9]);
    BigEndianWritten(d[o..o + 3]);
    BigEndianWritten(d[o + 5..o + 9]);
    Powers();
    f := RawFrame(d[o + 3], d[o + 4], id >= 0x8000_0000, id % 0x8000_0000, d[o + 9..o + 9 + len]);
    assert Header(f) == d[o..o + 3] + [d[o + 3], d[o + 4]] + d[o + 5..o + 9];
    assert d[o..o + 9 + len] == FrameBytes(f);
  }

  // --- Fragments ---

  // The fragment a frame carries (sections 6.2 and 6.10 of RFC 9113): a HEADERS frame may
  // have it behind a padding length and a priority, and before the padding.
  function FragmentOf(f: RawFrame, headers: bool): Option<seq<byte>> {
    var padded := headers && HasFlag(f.flags, 0x08);
    var skip := (if padded then 1 else 0) + if headers && HasFlag(f.flags, 0x20) then 5 else 0;
    var pad: nat := if padded && f.payload != [] then f.payload[0] else 0;
    if (padded && f.payload == []) || skip + pad > |f.payload| then None else Some(f.payload[skip..|f.payload| - pad])
  }

  lemma PayloadSlice(d: seq<byte>, o: nat, f: RawFrame, a: nat, b: nat)
    requires Holds(d, o, FrameBytes(f)) && a <= b <= |f.payload|
    ensures d[o + 9 + a..o + 9 + b] == f.payload[a..b]
    ensures d[o..o + 9] == Header(f)
    ensures f.payload != [] ==> d[o + 9] == f.payload[0]
  {
    hide Header;
    var w, n := d[o..o + |FrameBytes(f)|], |FrameBytes(f)|;
    SliceOfSlice(d, o, o + n, 0, 9);
    SliceOfSlice(d, o, o + n, 9 + a, 9 + b);
    SliceOfSlice(w, 9, n, a, b);
    assert w[..9] == Header(f) && w[9..n] == f.payload;
    assert f.payload != [] ==> d[o + 9] == w[9];
  }

  lemma FragmentIsRead(d: seq<byte>, o: nat, f: RawFrame, headers: bool)
    requires Sendable(f) && Holds(d, o, FrameBytes(f))
    ensures FrameAt(d, o) == Frame(|f.payload|, f.kind, f.flags, f.sid)
    ensures Fragment(d, o, FrameAt(d, o), headers) == FragmentOf(f, headers)
  {
    hide BigEndian, NetworkBytes, HasFlag, FrameAt, Header, FrameBytes, Sendable;
    HoldsInRange(d, o, f);
    PayloadSlice(d, o, f, 0, 0);
    FrameIsRead(d, o, f);
    var m := Margins(d, o, FrameAt(d, o), headers);
    if m.Some? {
      var (start, pad) := m.value;
      PayloadSlice(d, o, f, start - 9, |f.payload| - pad);
    }
  }

  // --- Blocks ---

  // Whether `fs` are the frames of one header block, or the last ones of them, on the
  // stream `sid` once that is known: CONTINUATION frames of the same stream, the last of
  // which alone ends the block.
  predicate IsBlock(fs: seq<RawFrame>, sid: Option<nat>) {
    && fs != [] && Sendable(fs[0])
    && (sid.Some? ==> fs[0].kind == 0x09 && fs[0].sid == sid.value)
    && FragmentOf(fs[0], sid.None?).Some?
    && (HasFlag(fs[0].flags, 0x04) <==> |fs| == 1)
    && (|fs| > 1 ==> IsBlock(fs[1..], Some(fs[0].sid)))
  }

  function AllBytes(fs: seq<RawFrame>): seq<byte> {
    if fs == [] then [] else FrameBytes(fs[0]) + AllBytes(fs[1..])
  }

  // The fragments, put together.
  function Joined(fs: seq<RawFrame>, sid: Option<nat>): seq<byte>
    requires IsBlock(fs, sid)
  {
    FragmentOf(fs[0], sid.None?).value + if |fs| == 1 then [] else Joined(fs[1..], Some(fs[0].sid))
  }

  lemma HoldsParts(d: seq<byte>, o: nat, a: seq<byte>, b: seq<byte>)
    ensures Holds(d, o, a + b) <==> Holds(d, o, a) && Holds(d, o + |a|, b)
  {
    if Holds(d, o, a + b) {
      var w := d[o..o + |a + b|];
      assert d[o..o + |a|] == w[..|a|] == a && d[o + |a|..o + |a| + |b|] == w[|a|..] == b;
    }
    if Holds(d, o, a) && Holds(d, o + |a|, b) {
      assert d[o..o + |a + b|] == a + b;
    }
  }

  // The frames of a block are collected.
  lemma {:induction false} BlockIsCollected(d: seq<byte>, o: nat, sid: Option<nat>, bytes: seq<byte>, fs: seq<RawFrame>)
    requires |d| <= 0x7FFF && IsBlock(fs, sid) && Holds(d, o, AllBytes(fs))
    requires |bytes| + |Joined(fs, sid)| <= 16382
    ensures Collect(d, o, sid, bytes) == Block(o + |AllBytes(fs)|, bytes + Joined(fs, sid))
    decreases |fs|
  {
    hide Holds, FrameAt, Fragment, FragmentOf, HasFlag, FrameBytes, Sendable;
    var f := fs[0];
    HoldsParts(d, o, FrameBytes(f), AllBytes(fs[1..]));
    FragmentIsRead(d, o, f, sid.None?);
    HoldsInRange(d, o, f);
    var frag := FragmentOf(f, sid.None?).value;
    if |fs| == 1 {
      assert AllBytes(fs[1..]) == [];
      assert bytes + Joined(fs, sid) == bytes + frag;
    } else {
      BlockIsCollected(d, o + |FrameBytes(f)|, Some(f.sid), bytes + frag, fs[1..]);
      assert bytes + frag + Joined(fs[1..], Some(f.sid)) == bytes + Joined(fs, sid);
    }
  }

  lemma HoldsInRange(d: seq<byte>, o: nat, f: RawFrame)
    requires Holds(d, o, FrameBytes(f))
    ensures o + FRAME_HDR_LEN + |f.payload| <= |d| && |FrameBytes(f)| == FRAME_HDR_LEN + |f.payload|
  {}

  // Whatever is collected was sent in the frames of a block.
  lemma {:induction false} CollectedIsBlock(d: seq<byte>, o: nat, sid: Option<nat>, bytes: seq<byte>)
    returns (fs: seq<RawFrame>)
    requires Collect(d, o, sid, bytes).Block?
    ensures IsBlock(fs, sid) && Holds(d, o, AllBytes(fs))
    ensures Collect(d, o, sid, bytes) == Block(o + |AllBytes(fs)|, bytes + Joined(fs, sid))
    decreases |d| - o
  {
    hide Holds, FrameAt, Fragment, FragmentOf, HasFlag, FrameBytes, Sendable;
    var f := FrameWasSent(d, o);
    FragmentIsRead(d, o, f, sid.None?);
    HoldsInRange(d, o, f);
    var frag := FragmentOf(f, sid.None?).value;
    if HasFlag(f.flags, END_HEADERS_FLAG) {
      fs := [f];
      assert AllBytes(fs[1..]) == [] && FrameBytes(f) + [] == FrameBytes(f);
      assert bytes + Joined(fs, sid) == bytes + frag;
    } else {
      var rest := CollectedIsBlock(d, o + |FrameBytes(f)|, Some(f.sid), bytes + frag);
      fs := [f] + rest;
      assert fs[1..] == rest;
      HoldsParts(d, o, FrameBytes(f), AllBytes(rest));
      assert bytes + frag + Joined(rest, Some(f.sid)) == bytes + Joined(fs, sid);
    }
  }

  // The parser collects a header block exactly if the message begins with the frames of one,
  // and then with the very bytes of their fragments.
  lemma CollectsExactly(d: seq<byte>, total: nat, bytes: seq<byte>)
    requires |d| <= 0x7FFF
    ensures Collect(d, 0, None, []) == Block(total, bytes) <==>
            |bytes| <= 16382
            && exists fs :: IsBlock(fs, None) && Holds(d, 0, AllBytes(fs))
                           && |AllBytes(fs)| == total && Joined(fs, None) == bytes
  {
    hide Holds, IsBlock, Collect, AllBytes, Joined;
    if Collect(d, 0, None, []) == Block(total, bytes) {
      var fs := CollectedIsBlock(d, 0, None, []);
      assert [] + Joined(fs, None) == Joined(fs, None);
    }
    forall fs | |bytes| <= 16382 && IsBlock(fs, None) && Holds(d, 0, AllBytes(fs)) && |AllBytes(fs)| == total
        && Joined(fs, None) == bytes
      ensures Collect(d, 0, None, []) == Block(total, bytes)
    {
      BlockIsCollected(d, 0, None, [], fs);
      assert [] + Joined(fs, None) == Joined(fs, None);
    }
  }
}
