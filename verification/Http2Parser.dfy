// The set of names user space configures to be captured (http2/parser.rs).
module Http2Parser {
  import opened Base
  import opened Http2Action
  import opened Huffman
  import opened NameTrie
  import D = Dfa
  import B = DfaBuilder
  import HpackDfa

  datatype Outcome = Captured(mid: nat) | NotEncodable | MatchLimitExceeded | Panicked

  type Captures = map<seq<byte>, nat>

  // The root of the trie a name is looked up in.
  function Root(huff: bool): nat {
    if huff then S_NAME else S_NAME_PLAIN
  }

  // The tries hold every name of `caps` in both codings, and nothing else.
  ghost predicate Configures(k: Coding, names: map<Node, u16>, caps: Captures) {
    && (forall s <- caps, w: seq<byte>, huff: bool ::
          s != [] && SentAs(k, w, huff, s) ==> Node(Root(huff), w) in names && names[Node(Root(huff), w)] == caps[s])
    && (forall w: seq<byte>, huff: bool :: Node(Root(huff), w) in names ==>
          exists s <- caps :: s != [] && SentAs(k, w, huff, s))
  }

  // Every match id is the one of at most one name.
  ghost predicate Numbered(caps: Captures, n: nat) {
    && n <= MAX_MATCHES
    && (forall s <- caps :: caps[s] < n)
    && (forall s, s' :: s in caps && s' in caps && caps[s] == caps[s'] ==> s == s')
  }

  lemma NumberedMore(caps: Captures, n: nat, s: seq<byte>)
    requires Numbered(caps, n) && n < MAX_MATCHES
    ensures Numbered(caps[s := n], n + 1)
  {}

  // The match id of the name `s`, or -1.
  function Lookup(caps: Captures, s: seq<byte>): int {
    if s in caps && s != [] then caps[s] else -1
  }

  // The empty string is sent as no bytes at all, in either coding.
  lemma EmptySent(k: Coding, w: seq<byte>, huff: bool, s: seq<byte>)
    requires SentAs(k, w, huff, s)
    ensures w == [] <==> s == []
  {
    assert SentAs(k, [], huff, []);
    if w == [] {
      SentAsIsInjective(k, w, huff, s);
    }
    if s == [] {
      SentAsIsUnique(k, w, [], huff, s);
    }
  }

  lemma NotYet(k: Coding, names: map<Node, u16>, caps: Captures, w: seq<byte>, huff: bool, s: seq<byte>)
    requires Configures(k, names, caps) && s !in caps && SentAs(k, w, huff, s)
    ensures Node(Root(huff), w) !in names
  {
    SentAsIsInjective(k, w, huff, s);
  }

  lemma PlainSent(k: Coding, s: seq<byte>)
    ensures SentAs(k, s, false, s)
  {}

  // Both tries get the new name.
  lemma ConfiguresMore(k: Coding, names: map<Node, u16>, caps: Captures, s: seq<byte>, w: seq<byte>, mid: nat,
                       names': map<Node, u16>)
    requires Configures(k, names, caps) && s !in caps && SentAs(k, w, true, s) && mid < U16
    requires names' == if s == [] then names else names[Node(S_NAME, w) := mid][Node(S_NAME_PLAIN, s) := mid]
    ensures Configures(k, names', caps[s := mid])
  {
    hide SentAs;
    PlainSent(k, s);
    forall s' <- caps[s := mid], w': seq<byte>, huff: bool | s' != [] && SentAs(k, w', huff, s')
      ensures Node(Root(huff), w') in names' && names'[Node(Root(huff), w')] == caps[s := mid][s']
    {
      SentAsIsInjective(k, w', huff, s');
      if s' == s {
        SentAsIsUnique(k, w', if huff then w else s, huff, s);
      }
    }
    forall w': seq<byte>, huff: bool | Node(Root(huff), w') in names'
      ensures exists s' <- caps[s := mid] :: s' != [] && SentAs(k, w', huff, s')
    {
      if Node(Root(huff), w') in names {
        var s' :| s' in caps && s' != [] && SentAs(k, w', huff, s');
        assert s' in caps[s := mid];
      } else {
        assert SentAs(k, w', huff, s);
      }
    }
  }

  lemma NameIsListed(k: Coding, names: map<Node, u16>, caps: Captures, n: nat, w: seq<byte>, huff: bool, s: seq<byte>)
    requires Configures(k, names, caps) && Numbered(caps, n) && SentAs(k, w, huff, s)
    ensures (if Node(Root(huff), w) in names then names[Node(Root(huff), w)] % MAX_MATCHES else -1) == Lookup(caps, s)
  {
    SentAsIsInjective(k, w, huff, s);
    EmptySent(k, w, huff, s);
  }

  // A field name is captured exactly when it is, byte for byte, one of the configured names
  // in the coding it was sent in.
  lemma NameIsCaptured(k: Coding, es: D.Edges<Action>, numStates: nat, t: Trie, caps: Captures, n: nat, w: seq<byte>,
                       huff: bool, s: seq<byte>)
    requires Holds(es, numStates, t) && Configures(k, t.names, caps) && Numbered(caps, n)
    requires SentAs(k, w, huff, s)
    ensures WalkName(es, Root(huff), w).1 == Lookup(caps, s)
  {
    WalkNameMatches(es, numStates, t, Root(huff), w);
    NameIsListed(k, t.names, caps, n, w, huff, s);
  }

  class Parser {
    const coding: Coding
    var dfa: B.Dfa<Action>
    var numMatches: nat
    var captures: Captures
    ghost var trie: Trie

    ghost predicate Valid()
      reads this, dfa
    {
      && Holds(dfa.edges, dfa.numStates, trie)
      && Configures(coding, trie.names, captures)
      && Numbered(captures, numMatches)
    }

    constructor (coding: Coding)
      ensures Valid() && fresh(dfa) && captures == map[] && numMatches == 0 && dfa.numStates == S_RESERVED
    {
      this.coding := coding;
      var d := HpackDfa.Build();
      dfa := d;
      numMatches, captures, trie := 0, map[], EMPTY_TRIE;
      new;
      NoNames(dfa.edges);
    }

    // The pattern of one name, behind one of the roots.
    method PushName(huff: bool, w: seq<byte>, mid: u16) returns (ok: bool)
      requires Holds(dfa.edges, dfa.numStates, trie) && Node(Root(huff), w) !in trie.names
      modifies this`trie, dfa
      ensures ok ==> Holds(dfa.edges, dfa.numStates, trie) && dfa.numStates <= old(dfa.numStates) + |w|
      ensures ok ==> trie.names == if w == [] then old(trie.names) else old(trie.names)[Node(Root(huff), w) := mid]
      ensures !ok ==> old(dfa.numStates) + |w| >= U16
    {
      ghost var t' := NameAdded(dfa.numStates, dfa.edges, trie, Root(huff), w, mid);
      trie := t';
      var builder := new B.DfaBuilder<Action>(dfa, Root(huff));
      ok := builder.Push(w, true);
      if ok {
        ok := builder.With(Action(Capture, mid, 0));
      }
    }

    // Both patterns of a name, one for each coding.
    method PushNames(name: seq<byte>, encoded: seq<byte>, mid: u16) returns (ok: bool)
      requires Valid() && SentAs(coding, encoded, true, name) && name !in captures
      modifies this`trie, dfa
      ensures ok ==> Holds(dfa.edges, dfa.numStates, trie) && Configures(coding, trie.names, captures[name := mid])
      ensures !ok ==> old(dfa.numStates) + |encoded| + |name| >= U16
    {
      hide Holds, Configures, Numbered, SentAs;
      ghost var names := trie.names;
      EmptySent(coding, encoded, true, name);
      NotYet(coding, names, captures, encoded, true, name);
      NotYet(coding, names, captures, name, false, name);
      ok := PushName(true, encoded, mid);
      if ok {
        ok := PushName(false, name, mid);
      }
      if ok {
        ConfiguresMore(coding, names, captures, name, encoded, mid, trie.names);
      }
    }

    // Captures the value of the field `name`. `encoded` is what the Huffman coder makes of it.
    method CaptureHdr(name: seq<byte>, encoded: Option<seq<byte>>) returns (r: Outcome)
      requires Valid() && (encoded.Some? ==> SentAs(coding, encoded.value, true, name))
      modifies this, dfa
      ensures dfa == old(dfa) && (r.Panicked? || Valid())
      ensures r.Captured? ==> captures == old(captures)[name := r.mid]
      ensures numMatches == if name in old(captures) || r.NotEncodable? || r.MatchLimitExceeded? then old(numMatches)
                            else old(numMatches) + 1
      ensures r.Captured? && name !in old(captures) ==> r.mid == old(numMatches)
      ensures name in old(captures) ==> r == Captured(old(captures)[name])
      ensures r.NotEncodable? || r.MatchLimitExceeded? ==> captures == old(captures)
      ensures r.NotEncodable? <==> name !in old(captures) && encoded.None?
      ensures r.MatchLimitExceeded? <==> name !in old(captures) && encoded.Some? && old(numMatches) >= 32
      ensures r.Panicked? ==> encoded.Some? && old(dfa.numStates) + |encoded.value| + |name| >= U16
    {
      if name in captures {
        return Captured(captures[name]);
      }
      if encoded.None? {
        return NotEncodable;
      }
      if numMatches >= MAX_MATCHES {
        return MatchLimitExceeded;
      }
      var mid := numMatches;
      numMatches := numMatches + 1;
      var ok := PushNames(name, encoded.value, mid);
      if !ok {
        return Panicked;
      }
      NumberedMore(captures, mid, name);
      captures := captures[name := mid];
      r := Captured(mid);
    }
  }
}
