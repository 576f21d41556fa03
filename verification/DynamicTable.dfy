// The dynamic table of one connection as http2/parser.bpf.c means it to be: what the maps
// and counters of module DynamicTables stand for, and what each operation makes of it.
module DynamicTable {
  import opened Base
  import Huffman

  const STATIC_TABLE_SIZE: nat := 61

  // The slot the first entry of a table is stored under.
  const DYNAMIC_TABLE_BASE: nat := 62

  // Longer strings are cut off to this length when they are stored.
  const FIELD_MAXLEN := Huffman.HEADER_FIELD_MAXLEN

  // The length of the longest header block that is put together from fragments.
  const BLOCK_MAXLEN: nat := 16382

  // The number of keys either map holds.
  const MAP_CAPACITY: nat := 16384

  // The largest size of an entry: two strings of which a match keeps the length.
  const ENTRY_MAXSIZE: nat := 2 * (U16 - 1) + 32

  datatype Addr = Addr(ip4: u32, port: u32)
  datatype Conn = Conn(local: Addr, remote: Addr)

  type Kept = s: seq<byte> | |s| <= FIELD_MAXLEN witness []

  // A field as it is kept, up to FIELD_MAXLEN bytes of its name and of its value.
  datatype Field = Field(key: Kept, keyHuff: bool, val: Kept, valHuff: bool)
  datatype Entry = Entry(field: Field, size: u32)

  // What the offsets of a match refer to.
  datatype Source = Msg | Table | Buf
  datatype Match = Match(idx: u16, len: u16, source: Source, huff: bool)
  datatype Bytes = Bytes(bytes: seq<byte>, huff: bool)

  // What a header block is read out of: the message, and the block it was put together in.
  datatype Ctx = Ctx(conn: Conn, msg: seq<byte>, buf: seq<byte>)

  type StaticTable = s: seq<Field> | |s| == STATIC_TABLE_SIZE + 1
    witness seq(STATIC_TABLE_SIZE + 1, i => Field([], true, [], true))

  // What user space loads: the static table behind an unused entry 0, and the Huffman code.
  datatype Config = Config(statics: StaticTable, coding: Huffman.Coding)

  datatype Code = Ok | EBADMSG | ENOENT | E2BIG | ENOSPC

  // Whether an entry can be sized: a Huffman coded string has to be kept whole for that.
  predicate Sizable(b: Bytes) {
    |b.bytes| < U16 && (b.huff ==> |b.bytes| <= FIELD_MAXLEN)
  }

  function KeptBytes(b: Bytes): Kept {
    b.bytes[..Min(|b.bytes|, FIELD_MAXLEN)]
  }

  // The entry for two strings. What was cut off or coded counts for its size in full.
  function NewEntry(cfg: Config, key: Bytes, val: Bytes): (e: Entry)
    requires Sizable(key) && Sizable(val)
    ensures e.size <= ENTRY_MAXSIZE
  {
    Huffman.ReadBound(cfg.coding.t, Huffman.BytesBits(key.bytes));
    Huffman.ReadBound(cfg.coding.t, Huffman.BytesBits(val.bytes));
    Entry(Field(KeptBytes(key), key.huff, KeptBytes(val), val.huff),
          Huffman.Len(cfg.coding, key.bytes, key.huff) + Huffman.Len(cfg.coding, val.bytes, val.huff) + 32)
  }

  function Sum(es: seq<Entry>): nat {
    if es == [] then 0 else Sum(es[..|es| - 1]) + es[|es| - 1].size
  }

  // How many of the newest of `es` take up at most `room`.
  function KeptCount(es: seq<Entry>, room: int): (m: nat)
    ensures KeptCount(es, room) <= |es| && (m == 0 || Sum(es[..KeptCount(es, room)]) <= room)
  {
    if es == [] || Sum(es) <= room then assert es[..|es|] == es; |es|
    else
      assert forall k :: 0 <= k < |es| ==> es[..|es| - 1][..k] == es[..k];
      KeptCount(es[..|es| - 1], room)
  }

  // The table of a connection: its entries, the newest first, and how many have been
  // evicted so far.
  datatype Tab = Tab(live: seq<Entry>, deleted: nat, maxSize: u32, dirty: bool) {
    // The slot the next entry is stored under. No slot is used twice.
    function Top(): nat {
      DYNAMIC_TABLE_BASE + deleted + |live|
    }

    function At(slot: nat): Option<Entry> {
      if DYNAMIC_TABLE_BASE + deleted <= slot < Top() then Some(live[Top() - 1 - slot]) else None
    }

    predicate IsValidIndex(idx: nat) {
      0 < idx <= STATIC_TABLE_SIZE + |live|
    }

    // The slot of the entry with the HPACK index `idx`.
    function SlotOf(idx: nat): int {
      STATIC_TABLE_SIZE + |live| + deleted - idx + DYNAMIC_TABLE_BASE
    }

    function Lookup(cfg: Config, idx: nat): Option<Field>
    {
      if !IsValidIndex(idx) then None
      else if idx <= STATIC_TABLE_SIZE then Some(cfg.statics[idx])
      else if dirty then None
      else Some(live[idx - STATIC_TABLE_SIZE - 1].field)
    }

    // The bytes a match stands for, if there still are any.
    function GetMatch(cfg: Config, ctx: Ctx, m: Match, isKey: bool): (b: Option<Bytes>)
      ensures b.Some? ==> |b.value.bytes| < U16
    {
      match m.source
      case Msg => if m.idx + m.len > |ctx.msg| then None else Some(Bytes(ctx.msg[m.idx..m.idx + m.len], m.huff))
      case Buf => if m.idx + m.len > |ctx.buf| then None else Some(Bytes(ctx.buf[m.idx..m.idx + m.len], m.huff))
      case Table =>
        var f :=
          if m.idx >= DYNAMIC_TABLE_BASE then
            if At(m.idx).Some? then Some(At(m.idx).value.field) else None
          else if m.idx == 0 then None
          else Some(cfg.statics[m.idx]);
        if f.None? then None
        else if isKey then Some(Bytes(f.value.key, f.value.keyHuff))
        else Some(Bytes(f.value.val, f.value.valHuff))
    }

    // Drops all but the newest `m` entries.
    function Keep(m: nat): Tab
      requires m <= |live|
    {
      this.(live := live[..m], deleted := deleted + |live| - m)
    }

    // Evicts the oldest entries until one of the size `need` fits.
    function Evict(need: nat): Tab {
      Keep(KeptCount(live, maxSize - need))
    }

    // A dynamic table size update within a header block.
    function Resize(max: u32): Tab {
      this.(maxSize := max).Evict(0)
    }

    function Insert(e: Entry): Tab {
      this.(live := [e] + live)
    }

    // Makes room for `e` and inserts it, unless it is larger than the table, or the map all
    // connections share holds no more than the `free` keys it has left.
    function Place(e: Entry, free: nat): (Tab, Code) {
      var t := Evict(e.size);
      if Sum(t.live) + e.size > maxSize then (t, Ok)
      else if free + |live| - |t.live| == 0 then (t, ENOSPC)
      else (t.Insert(e), Ok)
    }

    // The keys that are left if there are `room` for the entries of this table.
    function Left(room: int): nat {
      if room >= |live| then room - |live| else 0
    }

    // What an insertion leaves of the table, and its result.
    function Add(cfg: Config, ctx: Ctx, key: Match, val: Match, free: nat): (Tab, Code)
    {
      var k := GetMatch(cfg, ctx, key, true);
      var v := GetMatch(cfg, ctx, val, false);
      if dirty then (this, EBADMSG)
      else if k.None? then (this, if key.source.Table? then ENOENT else EBADMSG)
      else if v.None? then (this, if val.source.Table? then ENOENT else EBADMSG)
      else if !Sizable(k.value) || !Sizable(v.value) then (this.(dirty := true), E2BIG)
      else Place(NewEntry(cfg, k.value, v.value), free)
    }

    // No slot given out so far holds anything else in `t`.
    ghost predicate Before(t: Tab) {
      && deleted <= t.deleted && Top() <= t.Top()
      && forall slot: nat :: slot < Top() && t.At(slot).Some? ==> t.At(slot) == At(slot)
    }
  }

  // A connection nothing was seen of yet.
  const NEW_TAB := Tab([], 0, 4096, false)

  // --- What every operation keeps ---

  lemma {:induction false} SumAppend(e: Entry, es: seq<Entry>)
    ensures Sum([e] + es) == e.size + Sum(es)
  {
    if es == [] {
      assert [e] + es == [e];
      assert [e][..0] == [];
    } else {
      assert ([e] + es)[..|es|] == [e] + es[..|es| - 1];
      SumAppend(e, es[..|es| - 1]);
    }
  }

  lemma KeepBefore(t: Tab, m: nat)
    requires m <= |t.live|
    ensures t.Before(t.Keep(m)) && t.Keep(m).Top() == t.Top()
  {}

  // Eviction frees one entry after the other.
  lemma EvictOneMore(t: Tab, need: nat)
    ensures t.live != [] && Sum(t.live) + need > t.maxSize ==> t.Keep(|t.live| - 1).Evict(need) == t.Evict(need)
    ensures t.live == [] || Sum(t.live) + need <= t.maxSize ==> t.Evict(need) == t
  {
    var n := |t.live| - 1;
    if t.live != [] && Sum(t.live) + need > t.maxSize {
      var m := KeptCount(t.live[..n], t.maxSize - need);
      assert t.live[..n][..m] == t.live[..m];
    }
  }

  // An attempt to insert an entry leaves a table within its maximum size, even if a SETTINGS
  // frame had lowered that before, and no slot is ever used again.
  lemma PlaceKeeps(t: Tab, e: Entry, free: nat)
    ensures var t' := t.Place(e, free).0;
            && Sum(t'.live) <= t'.maxSize == t.maxSize && t'.dirty == t.dirty
            && t.Before(t') && t'.Top() <= t.Top() + 1
            && |t'.live| <= |t.live| + free
  {
    var d := t.Evict(e.size);
    KeepBefore(t, |d.live|);
    assert Sum([]) == 0;
    assert d.live == [] || Sum(d.live) + e.size <= t.maxSize;
    SumAppend(e, d.live);
    var i := d.Insert(e);
    forall slot: nat | slot < d.Top() && i.At(slot).Some?
      ensures i.At(slot) == d.At(slot)
    {}
  }

  lemma AddKeeps(t: Tab, cfg: Config, ctx: Ctx, key: Match, val: Match, free: nat)
    ensures var r := t.Add(cfg, ctx, key, val, free);
            && t.Before(r.0) && r.0.Top() <= t.Top() + 1 && |r.0.live| <= |t.live| + free
            && r.0.maxSize == t.maxSize
            && (r.1 in {Ok, ENOSPC} ==> Sum(r.0.live) <= r.0.maxSize)
  {
    var k, v := t.GetMatch(cfg, ctx, key, true), t.GetMatch(cfg, ctx, val, false);
    if k.Some? && v.Some? && Sizable(k.value) && Sizable(v.value) {
      PlaceKeeps(t, NewEntry(cfg, k.value, v.value), free);
    }
  }

  lemma ResizeKeeps(t: Tab, max: u32)
    ensures var t' := t.Resize(max);
            t.Before(t') && t'.Top() == t.Top() && Sum(t'.live) <= t'.maxSize == max
  {
    var s := t.(maxSize := max);
    KeepBefore(s, |t.Resize(max).live|);
    assert Sum([]) == 0;
  }
}
