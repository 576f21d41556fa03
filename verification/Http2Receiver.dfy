// `msg_verdict` of utils/src/prog.bpf.c for a connection that was upgraded to HTTP/2. What the
// kernel keeps of the connection are fields of the receiver.
module Http2Receiver {
  import opened Base
  import opened DynamicTable
  import opened Http2Frames
  import opened Http2Retry
  import opened Http2Drive
  import opened Http2Messages
  import DT = DynamicTables
  import Inject

  class Receiver {
    const parser: MessageParser
    const conn: Conn
    const pres: array<Match>
    var rest: seq<byte>
    var skip: nat
    var cork: nat
    var log: seq<Event>
    var dead: bool

    constructor (parser: MessageParser, conn: Conn)
      requires parser.Valid()
      ensures this.parser == parser && this.conn == conn && fresh(pres) && pres.Length == MAX_MATCHES
      ensures State() == Fresh(parser.LinkOf(conn))
    {
      this.parser, this.conn := parser, conn;
      pres := new Match[MAX_MATCHES](i => Match(0, 0, Msg, false));
      rest, skip, cork, log, dead := [], 0, 0, [], false;
    }

    ghost function State(): Driver
      reads this, parser.p.tables
    {
      Driver(parser.LinkOf(conn), rest, skip, cork, log, dead)
    }

    // `bpf_msg_apply_bytes`: the next `n` bytes are sent on, whether they are there or not.
    method ApplyBytes(n: nat)
      requires skip == 0
      modifies `rest, `skip
      ensures State() == Pass(old(State()), n).(cork := cork)
    {
      var here := Min(n, |rest|);
      rest := rest[here..];
      skip := n - here;
    }

    // Goes by the result `v` of a call, which `r` is the specification of.
    method Settle(v: Verdict, shown: nat, ghost dr: Driver, ghost r: Reply)
      requires parser.Valid() && pres.Length == MAX_MATCHES && skip == 0 && shown <= |rest|
      requires v == r.verdict && r.link == parser.LinkOf(conn) && r.ms == pres[..]
      requires v.Consumed? ==> parser.Resolves(r, conn, rest[..shown])
      requires dr == State().(link := dr.link) && (v.Wait? || v.Again? ==> r.link == dr.link)
      requires |rest| < FRAME_HDR_LEN ==> v.Wait?
      modifies this
      ensures State() == Follow(parser.SetupOf(conn), dr, r)
    {
      hide DT.Rep, Inject.Loaded, FrameAt, GetCaptures, AllNear;
      cork := 0;
      if v.Wait? || v.Again? {
        cork := if v.Wait? then FRAME_HDR_LEN else v.need;
        return;
      }
      var f := parser.ReadHeader(rest, 0);
      if v.Failed? {
        log := log + [Event(f, v, [])];
        if v.e.Proto? {
          ApplyBytes(FRAME_HDR_LEN + f.len);
        } else {
          rest, dead := [], true;
        }
        return;
      }
      var captured := parser.GetCaptures(conn, rest[..shown], pres, parser.SetupOf(conn), r);
      log := log + [Event(f, v, captured)];
      ApplyBytes(v.n);
    }

    // One run on the bytes that are held back, of which the first `linear` are exposed.
    method MsgVerdict(linear: nat)
      requires parser.Ready(conn, pres) && skip == 0 && !dead && linear <= |rest|
      modifies this, pres, parser`blockLen, parser.block, parser.p.tables
      ensures parser.Valid() && parser.SetupOf(conn) == old(parser.SetupOf(conn))
      ensures parser.p.tables.view - {conn} == old(parser.p.tables.view) - {conn}
      ensures var s, dr := old(parser.SetupOf(conn)), old(State());
              var r := ParseMsg(s, dr.link, NO_MATCHES, dr.rest, linear);
              && (|dr.rest| < FRAME_HDR_LEN ==> r.verdict.Wait?)
              && State() == Follow(s, dr, r)
    {
      hide DT.Rep, Inject.Loaded, ParseMsg, Follow, AllNear;
      ghost var s, dr := parser.SetupOf(conn), State();
      ghost var r := ParseMsg(s, dr.link, NO_MATCHES, dr.rest, linear);
      WholeFrameIsRead(s, dr, linear);
      LinkStays(s, dr.link, dr.rest, linear);
      ClearMatches();
      var v, shown := parser.ParseMsg(conn, rest, linear, pres);
      Settle(v, shown, dr, r);
    }

    method ClearMatches()
      requires pres.Length == MAX_MATCHES
      modifies pres
      ensures pres[..] == NO_MATCHES && AllNear(pres[..], Msg)
    {
      forall i | 0 <= i < pres.Length {
        pres[i] := Match(0, 0, Msg, false);
      }
    }
  }

  // A call that asks for more changes nothing.
  lemma LinkStays(s: Setup, link: Link, msg: seq<byte>, linear: nat)
    requires linear <= |msg|
    ensures var r := ParseMsg(s, link, NO_MATCHES, msg, linear);
            r.verdict.Wait? || r.verdict.Again? ==> r.link == link
  {
    hide Same, ParseFrame, ParseOpen, GetCaptures, FrameAt;
    if linear >= FRAME_HDR_LEN {
      AnswerStays(s, link, msg, linear, msg, linear);
    }
  }
}
