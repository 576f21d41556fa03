// Loading the configured DFA into the parser program (`inject` of http2/parser.rs).
module Http2Inject {
  import opened Base
  import opened Http2Action
  import opened HpackMachine
  import DT = DynamicTables
  import HpackParser
  import HpackRefines
  import HpackWire
  import Http2Parser
  import Huffman
  import Inject
  import NameTrie

  const MAX_STATES: nat := 1024
  const MAX_EDGES: nat := 256
  const MAX_ACTIONS: nat := 1024

  // No transition of the DFA leads to one of the first two states, or to one that is not
  // there, and every one carries a byte.
  lemma TargetsInRange(es: Edges, numStates: nat, t: NameTrie.Trie)
    requires NameTrie.Holds(es, numStates, t)
    ensures forall k <- es :: k.0 < numStates && k.1 < 256 && 2 <= es[k].to < numStates
    ensures Inject.Visible(es)
  {
    forall k <- es
      ensures k.0 < numStates && k.1 < 256 && 2 <= es[k].to < numStates
    {
      var (s, x) := k;
      assert Get(es, s, x) == NameTrie.Expected(t, s, x);
      if s !in t.labels {
        RowTargets(s, x);
      }
    }
  }

  lemma RowTargets(s: nat, c: byte)
    ensures RowOf(s, c).Some? ==> s < S_RESERVED && 2 <= RowOf(s, c).value.to < S_RESERVED
  {}

  // The DFA the parser was configured with decodes by the rows of HPACK and captures the
  // configured names, in either coding, and nothing else.
  lemma ConfiguredDfa(k: Huffman.Coding, es: Edges, numStates: nat, t: NameTrie.Trie, caps: Http2Parser.Captures,
                      n: nat)
    requires NameTrie.Holds(es, numStates, t) && Http2Parser.Configures(k, t.names, caps)
    requires Http2Parser.Numbered(caps, n)
    ensures HpackWire.HasRows(es) && HpackRefines.Captures(k, es, caps)
  {
    HpackWire.HoldsRows(es, numStates, t);
    forall w: seq<byte>, huff: bool, s: seq<byte> | Huffman.SentAs(k, w, huff, s)
      ensures NameTrie.WalkName(es, Http2Parser.Root(huff), w).1 == Http2Parser.Lookup(caps, s)
    {
      Http2Parser.NameIsCaptured(k, es, numStates, t, caps, n, w, huff, s);
    }
  }

  // Fails if and only if the program has no room for the states or the actions.
  method Load(parser: Http2Parser.Parser, tables: DT.DynamicTables) returns (ok: bool, p: HpackParser.Program)
    requires parser.Valid() && tables.Valid()
    ensures ok ==> p.Valid() && p.tables == tables && p.es == parser.dfa.edges
    ensures ok ==> HpackWire.HasRows(p.es) && HpackRefines.Captures(parser.coding, p.es, parser.captures)
    ensures ok <==> parser.dfa.numStates <= 1024 && |Inject.Actions(parser.dfa.edges)| <= 1024
  {
    TargetsInRange(parser.dfa.edges, parser.dfa.numStates, parser.trie);
    ConfiguredDfa(parser.coding, parser.dfa.edges, parser.dfa.numStates, parser.trie,
                  parser.captures, parser.numMatches);
    var data := new Inject.Rodata<CAction>(MAX_STATES, MAX_EDGES, MAX_ACTIONS, NOOP);
    p := new HpackParser.Program(tables, data, parser.dfa.edges);
    ok := Inject.Inject(data, parser.dfa.edges, parser.dfa.numStates, Encode);
  }
}
