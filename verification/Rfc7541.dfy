// HPACK as RFC 7541 describes it, on plain strings and a plain list: the reference the
// parser is compared with. Nothing in here comes from the parser.
module Rfc7541 {
  import opened Base

  datatype HField = HField(name: seq<byte>, value: seq<byte>)

  // --- Section 4: the dynamic table ---

  // Section 4.1.
  function Size(f: HField): nat {
    |f.name| + |f.value| + 32
  }

  function TotalSize(es: seq<HField>): nat {
    if es == [] then 0 else TotalSize(es[..|es| - 1]) + Size(es[|es| - 1])
  }

  // Sections 4.3 and 4.4: drops the oldest entries until the others take up at most `room`.
  function Evict(es: seq<HField>, room: int): seq<HField> {
    if es == [] || TotalSize(es) <= room then es else Evict(es[..|es| - 1], room)
  }

  // A dynamic table, its newest entry first.
  datatype Table = Table(entries: seq<HField>, maxSize: nat) {
    // Section 4.4.
    function Add(f: HField): Table {
      var kept := Evict(entries, maxSize - Size(f));
      this.(entries := if Size(f) <= maxSize then [f] + kept else kept)
    }

    // Section 4.3.
    function Resize(max: nat): Table {
      Table(Evict(entries, max), max)
    }

    // Section 2.3.3. `statics` holds the static table behind an unused entry 0.
    function Lookup(statics: seq<HField>, idx: nat): Option<HField> {
      if 0 < idx < |statics| then Some(statics[idx])
      else if |statics| <= idx < |statics| + |entries| then Some(entries[idx - |statics|])
      else None
    }
  }

  // --- Section 6: the field representations ---

  datatype FieldName = AtIndex(idx: nat) | Spelt(name: seq<byte>)

  datatype Rep =
    | Indexed(idx: nat)
    | Literal(add: bool, name: FieldName, value: seq<byte>)
    | SizeUpdate(max: nat)

  function NameOf(statics: seq<HField>, t: Table, n: FieldName): Option<seq<byte>> {
    match n
    case AtIndex(idx) =>
      var f := t.Lookup(statics, idx);
      if f.None? then None else Some(f.value.name)
    case Spelt(name) => Some(name)
  }

  // The table and the field, if any, that a representation stands for, or None for an index
  // that names nothing, which is an error (section 2.3.3).
  function Decode(statics: seq<HField>, t: Table, r: Rep): Option<(Table, Option<HField>)> {
    match r
    case Indexed(idx) =>
      var f := t.Lookup(statics, idx);
      if f.None? then None else Some((t, f))
    case Literal(add, n, value) =>
      var name := NameOf(statics, t, n);
      if name.None? then None
      else
        var f := HField(name.value, value);
        Some((if add then t.Add(f) else t, Some(f)))
    case SizeUpdate(max) => Some((t.Resize(max), None))
  }

  // A header block: the table behind it, and the list of its fields.
  function DecodeAll(statics: seq<HField>, t: Table, rs: seq<Rep>): Option<(Table, seq<HField>)> {
    if rs == [] then Some((t, []))
    else
      var before := DecodeAll(statics, t, rs[..|rs| - 1]);
      if before.None? then None
      else
        var last := Decode(statics, before.value.0, rs[|rs| - 1]);
        if last.None? then None
        else Some((last.value.0, before.value.1 + if last.value.1.Some? then [last.value.1.value] else []))
  }

  // The value of the last field called `name`.
  function LastValue(fs: seq<HField>, name: seq<byte>): Option<seq<byte>> {
    if fs == [] then None
    else if fs[|fs| - 1].name == name then Some(fs[|fs| - 1].value)
    else LastValue(fs[..|fs| - 1], name)
  }
}
