// `_parse_from` and `parse_msg` of http1/parser.bpf.c, which update the state, the open
// captures and the matches in place. Every method is proved to do what module Http1Walk says.
module Http1Messages {
  import opened Base
  import opened Http1Action
  import opened Http1Layout
  import opened Http1Walk
  import D = Dfa
  import Http1Parser
  import Inject

  // The parser program the DFA `es` was written into.
  class Program {
    const data: Inject.Rodata<CAction>
    ghost const es: Es

    // No transition leads into a state the tables have no row for.
    ghost predicate Valid()
      reads data.states, data.actions
    {
      && Inject.Loaded(data, es, Encode) && Inject.Visible(es)
      && data.zero == NOOP && data.states.Length1 == 257 && 2 <= data.states.Length0
      && forall k <- es :: es[k].to < data.states.Length0
    }

    constructor (data: Inject.Rodata<CAction>, ghost es: Es)
      ensures this.data == data && this.es == es
    {
      this.data := data;
      this.es := es;
    }

    method Next(s: nat, c: byte) returns (next: nat, act: CAction)
      requires Valid() && s < data.states.Length0
      ensures var f := Inject.Follow1(es, s, c);
              next == f.0 && act == Inject.Coded(Encode, NOOP, f.1) && next < data.states.Length0
    {
      next, act := Inject.Next1(data, es, Encode, s, c);
    }
  }

  // Loads the DFA of a configured parser, if the program has room for it.
  method Load(parser: Http1Parser.Parser) returns (ok: bool, p: Program)
    requires parser.Valid()
    ensures ok ==> p.Valid() && p.es == parser.dfa.edges
    ensures ok <==>
            parser.dfa.numStates <= Http1Parser.MAX_STATES
            && |Inject.Actions(parser.dfa.edges)| <= Http1Parser.MAX_ACTIONS
  {
    Http1Parser.TargetsInRange(parser.dfa.edges, parser.dfa.numStates, parser.layout);
    var data: Inject.Rodata<CAction>;
    ok, data := Http1Parser.Load(parser);
    p := new Program(data, parser.dfa.edges);
  }

  class MessageWalk {
    var s: nat
    const open: array<u32>
    const ms: array<Range>

    ghost predicate Valid(p: Program)
      reads this, p.data.states, p.data.actions
    {
      p.Valid() && open.Length == MAX_MATCHES && ms.Length == MAX_MATCHES && s < p.data.states.Length0
    }

    ghost function Value(done: Option<nat>): Walk
      requires open.Length == MAX_MATCHES && ms.Length == MAX_MATCHES
      reads this, open, ms
    {
      Walk(s, open[..], ms[..], done)
    }

    constructor ()
      ensures fresh(open) && fresh(ms) && open.Length == MAX_MATCHES && ms.Length == MAX_MATCHES && s == D.INIT_STATE
      ensures Value(None) == Start()
    {
      s := D.INIT_STATE;
      open := new u32[MAX_MATCHES](i => 0);
      ms := new Range[MAX_MATCHES](i => Range(0, 0));
      new;
      assert open[..] == Start().open && ms[..] == Start().ms;
    }

    // Runs the action of the byte at the offset `i`. It is the last one if the walk is done.
    method RunAction(act: CAction, i: nat) returns (done: bool)
      requires open.Length == MAX_MATCHES && ms.Length == MAX_MATCHES
      modifies open, ms
      ensures open[..] == Opened(old(open[..]), act, i) && ms[..] == Ended(old(ms[..]), old(open[..]), act, i)
      ensures done <==> act.flags % 2 == F_DONE
    {
      var mid := act.mid % MAX_MATCHES;
      if act.kind == START_CAPTURE {
        open[mid] := (i + 1) % U32;
      } else if act.kind == END_CAPTURE {
        ms[mid] := Range(open[mid] % U16, (i - open[mid] + 1) % U16);
      }
      done := act.flags % 2 == F_DONE;
    }

    // Walks the byte `c` at the offset `i`.
    method WalkByte(p: Program, i: nat, c: byte) returns (done: bool)
      requires Valid(p)
      modifies this, open, ms
      ensures Valid(p) && Value(if done then Some(i + 1) else None) == Step(p.es, old(Value(None)), i, c)
    {
      var next, act := p.Next(s, c);
      if next == D.ANY_STATE {
        next, act := p.Next(D.ANY_STATE, c);
      }
      s := next;
      done := RunAction(act, i);
    }

    // `_parse_from`.
    method ParseFrom(p: Program, d: seq<byte>, start: nat) returns (res: int)
      requires Valid(p)
      modifies this, open, ms
      ensures Valid(p)
      ensures var r := Http1Walk.ParseFrom(p.es, d, start, old(Value(None)));
              res == r.0 && Value(r.1.done) == r.1 && (res <= 0 ==> r.1.done.None?)
    {
      hide Step;
      var len := Min(|d|, MAX_BYTES);
      if start >= len {
        return 0;
      }
      ghost var w := Value(None);
      var stop := Min(len + 1, |d|);
      assert d[start..start] == [];
      for i := start to stop
        invariant Valid(p) && Value(None) == Over(p.es, w, start, d[start..i])
      {
        WalkMore(p.es, w, start, d, i);
        var done := WalkByte(p, i, d[i]);
        if done {
          StopEarly(p.es, w, start, d, i + 1, stop);
          return i + 1;
        }
      }
      res := -len;
    }

    static lemma WalkMore(es: Es, w: Walk, start: nat, d: seq<byte>, i: nat)
      requires start <= i < |d|
      ensures Over(es, w, start, d[start..i + 1]) == Step(es, Over(es, w, start, d[start..i]), i, d[i])
    {
      hide Step;
      assert d[start..i + 1][..i - start] == d[start..i];
    }

    static lemma StopEarly(es: Es, w: Walk, start: nat, d: seq<byte>, i: nat, stop: nat)
      requires start <= i <= stop <= |d| && Over(es, w, start, d[start..i]).done.Some?
      ensures Over(es, w, start, d[start..stop]) == Over(es, w, start, d[start..i])
    {
      assert d[start..stop] == d[start..i] + d[i..stop];
      OverAppend(es, w, start, d[start..i], d[i..stop]);
      OverDone(es, Over(es, w, start, d[start..i]), i, d[i..stop]);
    }
  }

  // `parse_msg` on the message `msg`, of which the first `shown` bytes are exposed.
  method ParseMsg(p: Program, msg: seq<byte>, shown: nat) returns (v: Verdict, ms: Ranges)
    requires p.Valid() && shown <= |msg|
    ensures (v, ms) == Http1Walk.ParseMsg(p.es, msg, shown)
  {
    hide Http1Walk.ParseFrom;
    var w := new MessageWalk();
    var res := w.ParseFrom(p, msg[..shown], 0);
    if res < 0 && |msg| > -res {
      res := w.ParseFrom(p, msg, -res);
    }
    v := if res > 0 then Parsed(res) else if |msg| >= MAX_BYTES then TooBig else Again;
    ms := w.ms[..];
  }
}
