// The HPACK DFA as hpack.rs builds it, one transition after the other.
module HpackDfa {
  import opened Base
  import opened Http2Action
  import D = Dfa
  import B = DfaBuilder

  // `es` is `es0` with the row of `s` from `lo` up to `hi` filled in.
  ghost predicate Filled(es0: D.Edges<Action>, es: D.Edges<Action>, s: nat, lo: nat, hi: nat) {
    forall q: nat, c: nat :: Get(es, q, c) == if q == s && lo <= c < hi && c < 256 then RowOf(s, c) else Get(es0, q, c)
  }

  // Whether none of the row of `s` from `lo` up to `hi` is there yet.
  ghost predicate Empty(es: D.Edges<Action>, s: nat, lo: nat, hi: nat) {
    forall c: nat :: lo <= c < hi ==> Get(es, s, c) == None
  }

  // Inserts a transition no other one is in the way of.
  method Insert(dfa: B.Dfa<Action>, from: nat, input: byte, to: nat, action: Action)
    requires Get(dfa.edges, from, input) == None
    modifies dfa`edges
    ensures forall q: nat, c: nat ::
              Get(dfa.edges, q, c) ==
                if q == from && c == input then Some(D.Edge(to, Some(action))) else Get(old(dfa.edges), q, c)
  {
    var ok := dfa.InsertEdge(from, input, to, Some(action));
    assert ok;
  }

  method InsertFieldRow(dfa: B.Dfa<Action>)
    requires Empty(dfa.edges, S_FIELD, 0, 256)
    modifies dfa`edges
    ensures Filled(old(dfa.edges), dfa.edges, S_FIELD, 0, 256)
  {
    InsertIndexed(dfa);
    InsertIncremental(dfa);
    InsertTableSize(dfa);
    InsertUnindexed(dfa, 0x00);
    InsertUnindexed(dfa, 0x10);
  }

  // The upper half of the row: a reference to a whole field, where 0x80 is an error.
  method InsertIndexed(dfa: B.Dfa<Action>)
    requires Empty(dfa.edges, S_FIELD, 0x80, 256)
    modifies dfa`edges
    ensures Filled(old(dfa.edges), dfa.edges, S_FIELD, 0x80, 256)
  {
    Insert(dfa, S_FIELD, 0x80, S_DEAD, Action(Err, 0, 0));
    for idx := 1 to 0x7F
      invariant Filled(old(dfa.edges), dfa.edges, S_FIELD, 0x80, 0x80 + idx)
    {
      Insert(dfa, S_FIELD, 0x80 + idx, S_FIELD, Action(Indexed, idx, 0));
    }
    Insert(dfa, S_FIELD, 0xFF, S_IDX7_CONT, Action(IntStart, 0x7F, 0));
  }

  // The second quarter: literal fields that become entries.
  method InsertIncremental(dfa: B.Dfa<Action>)
    requires Empty(dfa.edges, S_FIELD, 0x40, 0x80)
    modifies dfa`edges
    ensures Filled(old(dfa.edges), dfa.edges, S_FIELD, 0x40, 0x80)
  {
    Insert(dfa, S_FIELD, 0x40, S_KEY_LEN, Action(LitName, 0, F_ADD_DT));
    for idx := 1 to 0x3F
      invariant Filled(old(dfa.edges), dfa.edges, S_FIELD, 0x40, 0x40 + idx)
    {
      Insert(dfa, S_FIELD, 0x40 + idx, S_VAL_LEN, Action(IdxName, idx, F_ADD_DT));
    }
    Insert(dfa, S_FIELD, 0x7F, S_IDX6_CONT, Action(IntStart, 0x3F, 0));
  }

  // The second eighth: new table sizes.
  method InsertTableSize(dfa: B.Dfa<Action>)
    requires Empty(dfa.edges, S_FIELD, 0x20, 0x40)
    modifies dfa`edges
    ensures Filled(old(dfa.edges), dfa.edges, S_FIELD, 0x20, 0x40)
  {
    for size := 0 to 0x1F
      invariant Filled(old(dfa.edges), dfa.edges, S_FIELD, 0x20, 0x20 + size)
    {
      Insert(dfa, S_FIELD, 0x20 + size, S_FIELD, Action(TableSize, size, 0));
    }
    Insert(dfa, S_FIELD, 0x3F, S_STG_CONT, Action(IntStart, 0x1F, 0));
  }

  // Either of the two first sixteenths: literal fields that leave the table alone.
  method InsertUnindexed(dfa: B.Dfa<Action>, base: nat)
    requires base == 0 || base == 0x10
    requires Empty(dfa.edges, S_FIELD, base, base + 0x10)
    modifies dfa`edges
    ensures Filled(old(dfa.edges), dfa.edges, S_FIELD, base, base + 0x10)
  {
    Insert(dfa, S_FIELD, base, S_KEY_LEN, Action(LitName, 0, 0));
    for idx := 1 to 0x0F
      invariant Filled(old(dfa.edges), dfa.edges, S_FIELD, base, base + idx)
    {
      Insert(dfa, S_FIELD, base + idx, S_VAL_LEN, Action(IdxName, idx, 0));
    }
    Insert(dfa, S_FIELD, base + 0x0F, S_IDX4_CONT, Action(IntStart, 0x0F, 0));
  }

  // One half of the row of a length, for strings that are not coded or for ones that are.
  method InsertLengths(dfa: B.Dfa<Action>, from: nat, kind: Kind, base: nat, flags: nat, to: nat, cont: nat)
    requires base == 0 || base == 0x80
    requires forall len: nat :: len < 0x7F ==> RowOf(from, base + len) == To(to, kind, len, flags)
    requires RowOf(from, base + 0x7F) == To(cont, IntStart, 0x7F, 0)
    requires Empty(dfa.edges, from, base, base + 0x80)
    modifies dfa`edges
    ensures Filled(old(dfa.edges), dfa.edges, from, base, base + 0x80)
  {
    for len := 0 to 0x7F
      invariant Filled(old(dfa.edges), dfa.edges, from, base, base + len)
    {
      assert RowOf(from, base + len) == To(to, kind, len, flags);
      Insert(dfa, from, base + len, to, Action(kind, len, flags));
    }
    Insert(dfa, from, base + 0x7F, cont, Action(IntStart, 0x7F, 0));
  }

  method InsertLengthRows(dfa: B.Dfa<Action>)
    requires Empty(dfa.edges, S_KEY_LEN, 0, 256) && Empty(dfa.edges, S_VAL_LEN, 0, 256)
    modifies dfa`edges
    ensures forall q: nat, c: nat ::
              Get(dfa.edges, q, c) ==
                if (q == S_KEY_LEN || q == S_VAL_LEN) && c < 256 then RowOf(q, c) else Get(old(dfa.edges), q, c)
  {
    InsertLengths(dfa, S_KEY_LEN, KeyLen, 0x00, 0, S_NAME_PLAIN, S_KEY_LEN_CONT);
    InsertLengths(dfa, S_KEY_LEN, KeyLen, 0x80, F_HUFF, S_NAME, S_KEY_LEN_CONT_HUFF);
    InsertLengths(dfa, S_VAL_LEN, ValLen, 0x00, 0, S_FIELD, S_VAL_LEN_CONT);
    InsertLengths(dfa, S_VAL_LEN, ValLen, 0x80, F_HUFF, S_FIELD, S_VAL_LEN_CONT_HUFF);
  }

  // One row of the bytes an integer goes on with, its two halves at a time.
  method InsertContinuations(dfa: B.Dfa<Action>, from: nat, kind: Kind, to: nat, flags: nat)
    requires forall c: byte :: RowOf(from, c) == ContRow(from, kind, to, flags, c)
    requires Empty(dfa.edges, from, 0, 256)
    modifies dfa`edges
    ensures Filled(old(dfa.edges), dfa.edges, from, 0, 256)
  {
    for input := 0 to 0x80
      invariant forall q: nat, c: nat ::
                  Get(dfa.edges, q, c) ==
                  if q == from && (c < input || 0x80 <= c < 0x80 + input) && c < 256 then RowOf(from, c)
                  else Get(old(dfa.edges), q, c)
    {
      Insert(dfa, from, input, to, Action(kind, 0, flags + F_CONT));
      Insert(dfa, from, 0x80 + input, from, Action(IntCont, 0, 0));
    }
  }

  method InsertContinuationRows(dfa: B.Dfa<Action>)
    requires forall s: nat :: S_IDX7_CONT <= s <= S_VAL_LEN_CONT_HUFF ==> Empty(dfa.edges, s, 0, 256)
    modifies dfa`edges
    ensures forall q: nat, c: nat ::
              Get(dfa.edges, q, c) ==
              if S_IDX7_CONT <= q <= S_VAL_LEN_CONT_HUFF && c < 256 then RowOf(q, c) else Get(old(dfa.edges), q, c)
  {
    var rows := [
      (Indexed, S_FIELD, 0), (IdxName, S_VAL_LEN, F_ADD_DT), (IdxName, S_VAL_LEN, 0), (TableSize, S_FIELD, 0),
      (KeyLen, S_NAME_PLAIN, 0), (KeyLen, S_NAME, F_HUFF), (ValLen, S_FIELD, 0), (ValLen, S_FIELD, F_HUFF)
    ];
    for i := 0 to 8
      invariant forall q: nat, c: nat ::
                  Get(dfa.edges, q, c) ==
                  if S_IDX7_CONT <= q < S_IDX7_CONT + i && c < 256 then RowOf(q, c) else Get(old(dfa.edges), q, c)
    {
      var s := S_IDX7_CONT + i;
      assert old(Empty(dfa.edges, s, 0, 256));
      InsertContinuations(dfa, s, rows[i].0, rows[i].1, rows[i].2);
    }
  }

  // The DFA holds every row and nothing else.
  method Build() returns (dfa: B.Dfa<Action>)
    ensures fresh(dfa) && dfa.numStates == S_RESERVED
    ensures forall q: nat, c: nat :: Get(dfa.edges, q, c) == if c < 256 then RowOf(q, c) else None
  {
    dfa := new B.Dfa<Action>(S_RESERVED);
    InsertFieldRow(dfa);
    InsertLengthRows(dfa);
    InsertContinuationRows(dfa);
  }
}
