// The states and actions of the HPACK DFA (http2/action.rs), and the rows of transitions it
// is made of (http2/hpack.rs).
module Http2Action {
  import opened Base
  import D = Dfa

  // What no transition was found for leads here.
  const S_DEAD: nat := 2
  // The first byte of a field, of the length of its name, and of the length of its value.
  const S_FIELD: nat := 3
  const S_KEY_LEN: nat := 4
  const S_VAL_LEN: nat := 5
  // The root of the names to capture, Huffman coded.
  const S_NAME: nat := 6
  // The bytes an integer goes on with.
  const S_IDX7_CONT: nat := 7
  const S_IDX6_CONT: nat := 8
  const S_IDX4_CONT: nat := 9
  const S_STG_CONT: nat := 10
  const S_KEY_LEN_CONT: nat := 11
  const S_KEY_LEN_CONT_HUFF: nat := 12
  const S_VAL_LEN_CONT: nat := 13
  const S_VAL_LEN_CONT_HUFF: nat := 14
  // The root of the names to capture, not coded.
  const S_NAME_PLAIN: nat := 15
  const S_RESERVED: nat := 16

  const F_HUFF: nat := 1
  const F_ADD_DT: nat := 2
  const F_CONT: nat := 4

  datatype Kind =
    | Indexed | IdxName | LitName | KeyLen | ValLen | TableSize | IntStart | IntCont | Capture | Err

  datatype Action = Action(kind: Kind, val: u16, flags: nat)

  // An action as the parser program reads it. `kind` 0 is none.
  datatype CAction = CAction(val: u16, kind: nat, flags: nat)

  const NOOP := CAction(0, 0, 0)

  function KindCode(k: Kind): nat {
    match k
    case Indexed => 1
    case IdxName => 2
    case LitName => 3
    case KeyLen => 4
    case ValLen => 5
    case TableSize => 6
    case IntStart => 7
    case IntCont => 8
    case Capture => 9
    case Err => 10
  }

  function Encode(a: Action): CAction {
    CAction(a.val, KindCode(a.kind), a.flags)
  }

  predicate HasFlag(flags: nat, f: nat)
    requires f > 0
  {
    flags / f % 2 == 1
  }

  // --- The rows, as sections 5 and 6 of RFC 7541 lay the first bits out ---

  type Row = Option<D.Edge<Action>>

  function To(to: nat, kind: Kind, val: u16, flags: nat): Row {
    Some(D.Edge(to, Some(Action(kind, val, flags))))
  }

  function Get(es: D.Edges<Action>, s: nat, c: nat): Row {
    if (s, c) in es then Some(es[(s, c)]) else None
  }

  // The first byte of a representation: an indexed field, a literal one with incremental
  // indexing, a table size update, or a literal one without indexing.
  function FieldRow(c: byte): Row {
    if c == 0x80 then To(S_DEAD, Err, 0, 0)
    else if 0x80 < c < 0xFF then To(S_FIELD, Indexed, c - 0x80, 0)
    else if c == 0xFF then To(S_IDX7_CONT, IntStart, 0x7F, 0)
    else if c == 0x40 then To(S_KEY_LEN, LitName, 0, F_ADD_DT)
    else if 0x40 < c < 0x7F then To(S_VAL_LEN, IdxName, c - 0x40, F_ADD_DT)
    else if c == 0x7F then To(S_IDX6_CONT, IntStart, 0x3F, 0)
    else if 0x20 <= c < 0x3F then To(S_FIELD, TableSize, c - 0x20, 0)
    else if c == 0x3F then To(S_STG_CONT, IntStart, 0x1F, 0)
    else if c % 0x10 == 0 then To(S_KEY_LEN, LitName, 0, 0)
    else if c % 0x10 < 0x0F then To(S_VAL_LEN, IdxName, c % 0x10, 0)
    else To(S_IDX4_CONT, IntStart, 0x0F, 0)
  }

  // The first byte of the length of a string, whose first bit tells whether it is coded.
  function LengthRow(kind: Kind, plain: nat, huff: nat, cont: nat, contHuff: nat, c: byte): Row {
    if c < 0x7F then To(plain, kind, c, 0)
    else if c == 0x7F then To(cont, IntStart, 0x7F, 0)
    else if c < 0xFF then To(huff, kind, c - 0x80, F_HUFF)
    else To(contHuff, IntStart, 0x7F, 0)
  }

  // A byte of an integer that did not fit into its first one: the last one or not.
  function ContRow(from: nat, kind: Kind, to: nat, flags: nat, c: byte): Row {
    if c < 0x80 then To(to, kind, 0, flags + F_CONT) else To(from, IntCont, 0, 0)
  }

  function RowOf(s: nat, c: byte): Row {
    if s == S_FIELD then FieldRow(c)
    else if s == S_KEY_LEN then LengthRow(KeyLen, S_NAME_PLAIN, S_NAME, S_KEY_LEN_CONT, S_KEY_LEN_CONT_HUFF, c)
    else if s == S_VAL_LEN then LengthRow(ValLen, S_FIELD, S_FIELD, S_VAL_LEN_CONT, S_VAL_LEN_CONT_HUFF, c)
    else if s == S_IDX7_CONT then ContRow(s, Indexed, S_FIELD, 0, c)
    else if s == S_IDX6_CONT then ContRow(s, IdxName, S_VAL_LEN, F_ADD_DT, c)
    else if s == S_IDX4_CONT then ContRow(s, IdxName, S_VAL_LEN, 0, c)
    else if s == S_STG_CONT then ContRow(s, TableSize, S_FIELD, 0, c)
    else if s == S_KEY_LEN_CONT then ContRow(s, KeyLen, S_NAME_PLAIN, 0, c)
    else if s == S_KEY_LEN_CONT_HUFF then ContRow(s, KeyLen, S_NAME, F_HUFF, c)
    else if s == S_VAL_LEN_CONT then ContRow(s, ValLen, S_FIELD, 0, c)
    else if s == S_VAL_LEN_CONT_HUFF then ContRow(s, ValLen, S_FIELD, F_HUFF, c)
    else None
  }
}
