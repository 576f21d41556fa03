// The maps of http2/parser.bpf.c the dynamic tables of all connections are kept in, and the
// operations that update them in place.
module DynamicTables {
  import opened Base
  import opened DynamicTable
  import Huffman

  datatype Key = Key(conn: Conn, idx: u32)
  datatype Info = Info(count: u32, size: u32, maxSize: u32, deleted: u32, dirty: bool)

  // What the two maps hold at one point in time.
  datatype Maps = Maps(infos: map<Conn, Info>, entries: map<Key, Entry>) {
    function Get(k: Key): Option<Entry> {
      if k in entries then Some(entries[k]) else None
    }

    // The oldest live entry of `c` is the one right above the evicted ones.
    function Oldest(c: Conn): Key
      requires c in infos
    {
      Key(c, Add32(DYNAMIC_TABLE_BASE, infos[c].deleted))
    }

    function DropOldest(c: Conn): Maps
      requires c in infos && Oldest(c) in entries
    {
      var i := infos[c];
      var size := entries[Oldest(c)].size;
      Maps(infos[c := i.(size := Sub32(i.size, size), count := Sub32(i.count, 1), deleted := Add32(i.deleted, 1))],
           entries - {Oldest(c)})
    }

    function Insert(c: Conn, e: Entry): Maps
      requires c in infos
    {
      var i := infos[c];
      Maps(infos[c := i.(size := Add32(i.size, e.size), count := Add32(i.count, 1))],
           entries[Key(c, Add32(DYNAMIC_TABLE_BASE, Add32(i.count, i.deleted))) := e])
    }
  }

  function ViewAt(view: map<Conn, Tab>, k: Key): Option<Entry> {
    if k.conn in view then view[k.conn].At(k.idx) else None
  }

  ghost predicate Counts(i: Info, t: Tab) {
    && i.count == |t.live|
    && i.size == Sum(t.live)
    && i.maxSize == t.maxSize
    && i.deleted == t.deleted
    && i.dirty == t.dirty
    && t.Top() < U32
    && forall e <- t.live :: e.size <= ENTRY_MAXSIZE
  }

  // The maps hold the tables `view`, and nothing else.
  ghost predicate Rep(m: Maps, view: map<Conn, Tab>) {
    && |m.infos| <= MAP_CAPACITY && |m.entries| <= MAP_CAPACITY
    && m.infos.Keys == view.Keys
    && (forall c <- view :: Counts(m.infos[c], view[c]))
    && (forall k: Key :: m.Get(k) == ViewAt(view, k))
  }

  lemma {:induction false} SumBound(es: seq<Entry>)
    requires forall e <- es :: e.size <= ENTRY_MAXSIZE
    ensures Sum(es) <= |es| * ENTRY_MAXSIZE
  {
    if es != [] {
      SumBound(es[..|es| - 1]);
    }
  }

  lemma {:induction false} IntervalSize(c: Conn, lo: nat, n: nat, ks: set<Key>)
    requires lo + n <= U32
    requires forall slot: u32 :: lo <= slot < lo + n ==> Key(c, slot) in ks
    ensures n <= |ks|
  {
    if n > 0 {
      IntervalSize(c, lo, n - 1, ks - {Key(c, lo + n - 1)});
    }
  }

  // However many connections share the maps, no table grows past their capacity, and no size
  // past 32 bits.
  lemma NoOverflow(m: Maps, view: map<Conn, Tab>, c: Conn)
    requires Rep(m, view) && c in view
    ensures |view[c].live| <= |m.entries|
    ensures m.infos[c].size + ENTRY_MAXSIZE < U32
  {
    var t := view[c];
    assert Counts(m.infos[c], t);
    forall slot: u32 | t.Top() - |t.live| <= slot < t.Top()
      ensures Key(c, slot) in m.entries.Keys
    {
      assert m.Get(Key(c, slot)) == ViewAt(view, Key(c, slot));
    }
    IntervalSize(c, t.Top() - |t.live|, |t.live|, m.entries.Keys);
    SumBound(t.live);
  }

  // The keys of a connection are exactly the interval its counters give, which is what
  // forgetting it relies on.
  lemma LiveKeys(m: Maps, view: map<Conn, Tab>, k: Key)
    requires Rep(m, view)
    ensures k in m.entries <==>
            k.conn in m.infos
            && 0 <= k.idx - DYNAMIC_TABLE_BASE - m.infos[k.conn].deleted < m.infos[k.conn].count
  {
    assert m.Get(k) == ViewAt(view, k);
    assert k.conn in view ==> Counts(m.infos[k.conn], view[k.conn]);
  }

  lemma {:induction false} IntervalExact(c: Conn, lo: nat, n: nat, ks: set<Key>)
    requires lo + n <= U32
    requires forall k: Key :: k in ks <==> k.conn == c && lo <= k.idx < lo + n
    ensures |ks| == n
  {
    if n == 0 {
      if k :| k in ks {
        assert false;
      }
    } else {
      IntervalExact(c, lo, n - 1, ks - {Key(c, lo + n - 1)});
    }
  }

  // The keys of `c` among `ks`, or the other ones.
  function Of(ks: set<Key>, c: Conn, own: bool): set<Key> {
    set k <- ks | (k.conn == c) == own
  }

  lemma OwnKeys(m: Maps, view: map<Conn, Tab>, c: Conn)
    requires Rep(m, view) && c in view
    ensures |m.entries| == |view[c].live| + |Of(m.entries.Keys, c, false)|
  {
    var own, t := Of(m.entries.Keys, c, true), view[c];
    assert Counts(m.infos[c], t);
    forall k: Key
      ensures k in own <==> k.conn == c && t.Top() - |t.live| <= k.idx < t.Top()
    {
      assert m.Get(k) == ViewAt(view, k);
    }
    IntervalExact(c, t.Top() - |t.live|, |t.live|, own);
    assert m.entries.Keys == own + Of(m.entries.Keys, c, false);
  }

  // The keys the map has left follow the number of entries of the one table that changes.
  lemma RoomStays(m: Maps, view: map<Conn, Tab>, c: Conn, m': Maps, t: Tab)
    requires Rep(m, view) && c in view && Rep(m', view[c := t])
    ensures |m'.entries| - |t.live| == |m.entries| - |view[c].live|
  {
    OwnKeys(m, view, c);
    OwnKeys(m', view[c := t], c);
    forall k: Key | k.conn != c
      ensures k in m.entries <==> k in m'.entries
    {
      assert m.Get(k) == ViewAt(view, k);
      assert m'.Get(k) == ViewAt(view[c := t], k);
    }
    assert Of(m.entries.Keys, c, false) == Of(m'.entries.Keys, c, false);
  }

  // Changing what is kept of `c` alone leaves the maps holding every other table.
  lemma ChangeOne(m: Maps, view: map<Conn, Tab>, c: Conn, i: Info, entries: map<Key, Entry>, t: Tab)
    requires Rep(m, view) && Counts(i, t)
    requires |m.infos[c := i]| <= MAP_CAPACITY && |entries| <= MAP_CAPACITY
    requires Becomes(m, entries, c, t)
    ensures Rep(Maps(m.infos[c := i], entries), view[c := t])
  {
    var m', view' := Maps(m.infos[c := i], entries), view[c := t];
    forall k: Key
      ensures m'.Get(k) == ViewAt(view', k)
    {
      assert Maps(map[], entries).Get(k) == if k.conn == c then t.At(k.idx) else m.Get(k);
      assert m.Get(k) == ViewAt(view, k);
    }
    forall d <- view'
      ensures Counts(m'.infos[d], view'[d])
    {
      assert d != c ==> Counts(m.infos[d], view[d]);
    }
    assert m'.infos.Keys == view'.Keys;
  }

  lemma CountsLess(i: Info, t: Tab)
    requires Counts(i, t) && t.live != []
    ensures var n := |t.live| - 1;
            && t.live[n].size <= i.size && i.deleted + 1 < U32
            && Counts(i.(size := i.size - t.live[n].size, count := n, deleted := i.deleted + 1), t.Keep(n))
  {
    var n := |t.live| - 1;
    assert Sum(t.live) == Sum(t.live[..n]) + t.live[n].size;
    assert forall e <- t.live[..n] :: e in t.live;
  }

  lemma CountsMore(i: Info, t: Tab, e: Entry)
    requires Counts(i, t) && e.size <= ENTRY_MAXSIZE && t.Top() + 1 < U32 && i.size + e.size < U32
    ensures Counts(i.(size := i.size + e.size, count := i.count + 1), t.Insert(e))
  {
    SumAppend(e, t.live);
  }

  lemma KeepOneLess(t: Tab, slot: nat)
    requires t.live != []
    ensures t.Keep(|t.live| - 1).At(slot) == if slot == DYNAMIC_TABLE_BASE + t.deleted then None else t.At(slot)
  {}

  lemma InsertAt(t: Tab, e: Entry, slot: nat)
    ensures t.Insert(e).At(slot) == if slot == t.Top() then Some(e) else t.At(slot)
  {}

  // `entries` is what the maps hold once the table of `c` is `t`.
  ghost predicate Becomes(m: Maps, entries: map<Key, Entry>, c: Conn, t: Tab) {
    forall k: Key :: Maps(map[], entries).Get(k) == if k.conn == c then t.At(k.idx) else m.Get(k)
  }

  lemma DropBecomes(m: Maps, view: map<Conn, Tab>, c: Conn)
    requires Rep(m, view) && c in view && view[c].live != []
    ensures var t, key := view[c], m.Oldest(c);
            && key in m.entries && m.entries[key] == t.live[|t.live| - 1]
            && |m.entries - {key}| == |m.entries| - 1
            && Becomes(m, m.entries - {key}, c, t.Keep(|t.live| - 1))
  {
    var t, key := view[c], m.Oldest(c);
    assert Counts(m.infos[c], t);
    assert m.Get(key) == ViewAt(view, key);
    assert (m.entries - {key}).Keys == m.entries.Keys - {key};
    forall k: Key
      ensures Maps(map[], m.entries - {key}).Get(k) == if k.conn == c then t.Keep(|t.live| - 1).At(k.idx) else m.Get(k)
    {
      KeepOneLess(t, k.idx);
      assert m.Get(k) == ViewAt(view, k) && k == Key(k.conn, k.idx);
    }
  }

  // Deleting the oldest entry of `c`.
  lemma DropKeeps(m: Maps, view: map<Conn, Tab>, c: Conn)
    requires Rep(m, view) && c in view && view[c].live != []
    ensures m.Oldest(c) in m.entries
    ensures Rep(m.DropOldest(c), view[c := view[c].Keep(|view[c].live| - 1)])
  {
    var t, n := view[c], |view[c].live| - 1;
    assert Counts(m.infos[c], t);
    DropBecomes(m, view, c);
    CountsLess(m.infos[c], t);
    var m' := m.DropOldest(c);
    assert m'.infos.Keys == m.infos.Keys;
    ChangeOne(m, view, c, m'.infos[c], m'.entries, t.Keep(n));
  }

  lemma InsertBecomes(m: Maps, view: map<Conn, Tab>, c: Conn, e: Entry)
    requires Rep(m, view) && c in view && view[c].Top() + 1 < U32
    ensures var t, key := view[c], Key(c, view[c].Top());
            && |m.entries[key := e]| == |m.entries| + 1
            && Becomes(m, m.entries[key := e], c, t.Insert(e))
  {
    var t, key := view[c], Key(c, view[c].Top());
    assert m.Get(key) == ViewAt(view, key);
    assert m.entries[key := e].Keys == m.entries.Keys + {key};
    forall k: Key
      ensures Maps(map[], m.entries[key := e]).Get(k) == if k.conn == c then t.Insert(e).At(k.idx) else m.Get(k)
    {
      InsertAt(t, e, k.idx);
      assert m.Get(k) == ViewAt(view, k) && k == Key(k.conn, k.idx);
    }
  }

  // Storing an entry above the newest one of `c`.
  lemma InsertKeeps(m: Maps, view: map<Conn, Tab>, c: Conn, e: Entry)
    requires Rep(m, view) && c in view && |m.entries| < MAP_CAPACITY
    requires e.size <= ENTRY_MAXSIZE && view[c].Top() + 1 < U32
    ensures Rep(m.Insert(c, e), view[c := view[c].Insert(e)])
  {
    hide Rep, Becomes;
    var t := view[c];
    Known(m, view, c);
    NoOverflow(m, view, c);
    InsertBecomes(m, view, c, e);
    CountsMore(m.infos[c], t, e);
    var m' := m.Insert(c, e);
    assert m'.infos.Keys == m.infos.Keys;
    ChangeOne(m, view, c, m'.infos[c], m'.entries, t.Insert(e));
  }

  // Marking the table of `c`.
  lemma Mark(m: Maps, view: map<Conn, Tab>, c: Conn, max: u32, dirty: bool)
    requires Rep(m, view) && c in view
    ensures Rep(m.(infos := m.infos[c := m.infos[c].(maxSize := max, dirty := dirty)]),
                view[c := view[c].(maxSize := max, dirty := dirty)])
  {
    var i, t := m.infos[c].(maxSize := max, dirty := dirty), view[c].(maxSize := max, dirty := dirty);
    assert Counts(m.infos[c], view[c]);
    forall k: Key
      ensures Maps(map[], m.entries).Get(k) == if k.conn == c then t.At(k.idx) else m.Get(k)
    {
      assert m.Get(k) == ViewAt(view, k);
    }
    assert m.infos[c := i].Keys == m.infos.Keys;
    ChangeOne(m, view, c, i, m.entries, t);
  }

  // Creating the table of a connection.
  lemma OpenKeeps(m: Maps, view: map<Conn, Tab>, c: Conn)
    requires Rep(m, view) && c !in view && |m.infos| < MAP_CAPACITY
    ensures Rep(m.(infos := m.infos[c := Info(0, 0, 4096, 0, false)]), view[c := NEW_TAB])
  {
    var i := Info(0, 0, 4096, 0, false);
    forall k: Key
      ensures Maps(map[], m.entries).Get(k) == if k.conn == c then NEW_TAB.At(k.idx) else m.Get(k)
    {
      assert m.Get(k) == ViewAt(view, k);
    }
    assert m.infos[c := i].Keys == m.infos.Keys + {c};
    ChangeOne(m, view, c, i, m.entries, NEW_TAB);
  }

  // Forgetting a connection, whose entries are gone from `entries`.
  lemma ForgetKeeps(m: Maps, view: map<Conn, Tab>, c: Conn, entries: map<Key, Entry>)
    requires Rep(m, view) && c in view
    requires forall k: Key :: k in entries <==> k in m.entries && k.conn != c
    requires forall k <- entries :: entries[k] == m.entries[k]
    ensures Rep(Maps(m.infos - {c}, entries), view - {c})
  {
    assert (m.infos - {c}).Keys == m.infos.Keys - {c};
    SubsetSize(entries.Keys, m.entries.Keys);
    var m', view' := Maps(m.infos - {c}, entries), view - {c};
    forall k: Key
      ensures m'.Get(k) == ViewAt(view', k)
    {
      assert m.Get(k) == ViewAt(view, k);
    }
    forall d <- view'
      ensures Counts(m'.infos[d], view'[d])
    {
      assert Counts(m.infos[d], view[d]);
    }
  }

  lemma Known(m: Maps, view: map<Conn, Tab>, c: Conn)
    requires Rep(m, view) && c in view
    ensures c in m.infos && Counts(m.infos[c], view[c]) && |m.infos| <= MAP_CAPACITY && |m.entries| <= MAP_CAPACITY
  {}

  lemma SameKeys(m: Maps, view: map<Conn, Tab>)
    requires Rep(m, view)
    ensures m.infos.Keys == view.Keys
  {}

  lemma Overwrite(view: map<Conn, Tab>, c: Conn, t: Tab, t': Tab)
    ensures view[c := t][c := t'] == view[c := t']
  {}

  // The two maps, and the tables `view` they stand for.
  class DynamicTables {
    const cfg: Config
    var infos: map<Conn, Info>
    var entries: map<Key, Entry>
    ghost var view: map<Conn, Tab>

    function Value(): Maps
      reads this
    {
      Maps(infos, entries)
    }

    ghost predicate Valid()
      reads this
    {
      Rep(Value(), view)
    }

    // The number of keys the map of entries has left.
    function Free(): int
      reads this
    {
      16384 - |entries|
    }

    // The number of keys there are for the entries of `c`: the ones it has and the ones left.
    ghost function Room(c: Conn): int
      reads this
    {
      Free() + if c in view then |view[c].live| else 0
    }

    constructor (cfg: Config)
      ensures Valid() && view == map[] && this.cfg == cfg
    {
      this.cfg := cfg;
      infos, entries, view := map[], map[], map[];
    }

    // Creates the table of `c`, if it has none yet and there is room for it.
    method GetDynamicTable(c: Conn) returns (ok: bool)
      requires Valid()
      modifies this
      ensures Valid() && entries == old(entries)
      ensures view == if c in old(view) || |old(infos)| >= 16384 then old(view) else old(view)[c := NEW_TAB]
      ensures (ok <==> c in view) && (!ok ==> infos == old(infos))
    {
      if c !in infos && |infos| < MAP_CAPACITY {
        OpenKeeps(Value(), view, c);
        infos := infos[c := Info(0, 0, 4096, 0, false)];
        view := view[c := NEW_TAB];
      }
      ok := c in infos;
    }

    // Deletes the oldest entry of the table of `c`.
    method DeleteOldest(c: Conn)
      requires Valid() && c in view && view[c].live != []
      modifies this
      ensures Valid()
      ensures view == old(view)[c := old(view)[c].Keep(|old(view)[c].live| - 1)]
      ensures |entries| == |old(entries)| - 1
    {
      DropBecomes(Value(), view, c);
      DropKeeps(Value(), view, c);
      var i, key := infos[c], Key(c, Add32(DYNAMIC_TABLE_BASE, infos[c].deleted));
      var size := entries[key].size;
      infos := infos[c := i.(size := Sub32(i.size, size), count := Sub32(i.count, 1), deleted := Add32(i.deleted, 1))];
      entries := entries - {key};
      view := view[c := view[c].Keep(|view[c].live| - 1)];
    }

    // Evicts the oldest entry of `c`, unless one of the size `need` fits.
    method EvictOne(c: Conn, need: u32) returns (fits: bool)
      requires Valid() && c in view && need <= ENTRY_MAXSIZE && view[c].live != []
      modifies this
      ensures Valid() && c in view && view == old(view)[c := view[c]]
      ensures view[c].Evict(need) == old(view)[c].Evict(need)
      ensures if fits then view[c].Evict(need) == view[c] else |view[c].live| == |old(view)[c].live| - 1
      ensures |old(entries)| - |entries| == |old(view)[c].live| - |view[c].live|
    {
      EvictOneMore(view[c], need);
      fits := HasRoomFor(c, need);
      if !fits {
        DeleteOldest(c);
      }
    }

    // Evicts the oldest entries of the table of `c` until one of the size `need` fits.
    method TryEvict(c: Conn, need: u32)
      requires Valid() && c in view && need <= ENTRY_MAXSIZE
      modifies this
      ensures Valid() && view == old(view)[c := old(view)[c].Evict(need)]
      ensures |entries| == |old(entries)| - (|old(view)[c].live| - |view[c].live|)
    {
      assert Counts(infos[c], view[c]);
      var n, i, fits := infos[c].count, 0, false;
      while i < n && !fits
        invariant Valid() && c in view && view == old(view)[c := view[c]]
        invariant view[c].Evict(need) == old(view)[c].Evict(need)
        invariant if fits then view[c].Evict(need) == view[c] else |view[c].live| == n - i
        invariant |old(entries)| - |entries| == n - |view[c].live|
      {
        ghost var t := view[c];
        fits := EvictOne(c, need);
        Overwrite(old(view), c, t, view[c]);
        i := i + 1;
      }
      EvictOneMore(view[c], need);
    }

    // A dynamic table size update within a header block.
    method Resize(c: Conn, max: u32)
      requires Valid() && c in view
      modifies this
      ensures Valid() && Room(c) == old(Room(c))
      ensures view == old(view)[c := old(view)[c].Resize(max)]
    {
      SetMax(c, max);
      ghost var t := view[c];
      TryEvict(c, 0);
      Overwrite(old(view), c, t, view[c]);
      RoomStays(old(Value()), old(view), c, Value(), view[c]);
    }

    // A SETTINGS frame, which evicts nothing.
    method SetMax(c: Conn, max: u32)
      requires Valid() && c in view
      modifies this
      ensures Valid() && entries == old(entries)
      ensures view == old(view)[c := old(view)[c].(maxSize := max)]
    {
      assert Counts(infos[c], view[c]);
      Mark(Value(), view, c, max, infos[c].dirty);
      infos := infos[c := infos[c].(maxSize := max)];
      view := view[c := view[c].(maxSize := max)];
    }

    // Whether an HPACK index names an entry of either table.
    method IsValidIndex(c: Conn, idx: u32) returns (valid: bool)
      requires Valid() && c in view
      ensures valid == view[c].IsValidIndex(idx)
    {
      assert Counts(infos[c], view[c]);
      NoOverflow(Value(), view, c);
      valid := 0 < idx <= Add32(STATIC_TABLE_SIZE, infos[c].count);
    }

    // Translates an HPACK index into the slot its entry is stored under.
    method GetIndex(c: Conn, idx: u32) returns (slot: u32)
      requires Valid() && c in view && view[c].IsValidIndex(idx) && idx > STATIC_TABLE_SIZE
      ensures slot == view[c].SlotOf(idx)
    {
      assert Counts(infos[c], view[c]);
      var end := Add32(STATIC_TABLE_SIZE, Add32(infos[c].count, infos[c].deleted));
      slot := Add32(Sub32(end, idx), DYNAMIC_TABLE_BASE);
    }

    // Looks up the field an HPACK index refers to.
    method GetTableEntry(c: Conn, idx: u32) returns (f: Option<Field>)
      requires Valid() && c in view
      ensures f == view[c].Lookup(cfg, idx)
    {
      assert Counts(infos[c], view[c]);
      NoOverflow(Value(), view, c);
      var valid := IsValidIndex(c, idx);
      if !valid {
        return None;
      }
      if idx <= STATIC_TABLE_SIZE {
        return Some(cfg.statics[idx]);
      }
      if infos[c].dirty {
        return None;
      }
      var slot := GetIndex(c, idx);
      var key := Key(c, slot);
      assert Value().Get(key) == ViewAt(view, key);
      f := Some(entries[key].field);
    }

    ghost function TableOf(c: Conn): Tab
      reads this
    {
      if c in view then view[c] else NEW_TAB
    }

    // Reads the bytes a match stands for out of the message, the block or the tables.
    method GetMatch(ctx: Ctx, m: Match, isKey: bool) returns (b: Option<Bytes>)
      requires Valid()
      ensures b == TableOf(ctx.conn).GetMatch(cfg, ctx, m, isKey)
    {
      if m.source.Msg? || m.source.Buf? {
        var data := if m.source.Msg? then ctx.msg else ctx.buf;
        return if m.idx + m.len > |data| then None else Some(Bytes(data[m.idx..m.idx + m.len], m.huff));
      }
      var f: Field;
      if m.idx >= DYNAMIC_TABLE_BASE {
        var key := Key(ctx.conn, m.idx);
        assert Value().Get(key) == ViewAt(view, key);
        if key !in entries {
          return None;
        }
        f := entries[key].field;
      } else if m.idx == 0 {
        return None;
      } else {
        f := cfg.statics[m.idx];
      }
      b := Some(if isKey then Bytes(f.key, f.keyHuff) else Bytes(f.val, f.valHuff));
    }

    // The length of a string before it was coded, as far as it is kept.
    method DecodedLen(b: Bytes) returns (n: nat)
      requires Sizable(b)
      ensures n == Huffman.Len(cfg.coding, b.bytes, b.huff)
    {
      if !b.huff {
        return |b.bytes|;
      }
      var kept := KeptBytes(b);
      assert b.bytes[..|b.bytes|] == b.bytes && kept[..|kept|] == kept;
      n := Huffman.DecodedLen(cfg.coding.t, kept, |kept|);
    }

    method MakeEntry(key: Bytes, val: Bytes) returns (e: Entry)
      requires Sizable(key) && Sizable(val)
      ensures e == NewEntry(cfg, key, val)
    {
      var keyLen := DecodedLen(key);
      var valLen := DecodedLen(val);
      assert NewEntry(cfg, key, val).size == keyLen + valLen + 32;
      e := Entry(Field(KeptBytes(key), key.huff, KeptBytes(val), val.huff), keyLen + valLen + 32);
    }

    // An insertion takes both strings from where they were read, evicts what stands in its
    // way, and stores the entry under a slot of its own. The table is given up on, here and
    // for good, where a coded string was too long to be counted.
    method AddEntry(ctx: Ctx, key: Match, val: Match) returns (code: Code)
      requires Valid() && ctx.conn in view && view[ctx.conn].Top() + 1 < U32
      modifies this
      ensures Valid() && Room(ctx.conn) == old(Room(ctx.conn))
      ensures var t := old(view)[ctx.conn];
              var r := t.Add(cfg, ctx, key, val, t.Left(old(Room(ctx.conn))));
              view == old(view)[ctx.conn := r.0] && code == r.1
    {
      hide Rep, Tab.Place, Tab.GetMatch, NewEntry;
      var c := ctx.conn;
      Known(Value(), view, c);
      assert view == view[c := view[c]] && view[c].Left(Room(c)) == Free();
      if infos[c].dirty {
        return EBADMSG;
      }
      var k := GetMatch(ctx, key, true);
      if k.None? {
        return if key.source.Table? then ENOENT else EBADMSG;
      }
      var v := GetMatch(ctx, val, false);
      if v.None? {
        return if val.source.Table? then ENOENT else EBADMSG;
      }
      if !Sizable(k.value) || !Sizable(v.value) {
        Mark(Value(), view, c, infos[c].maxSize, true);
        infos := infos[c := infos[c].(dirty := true)];
        view := view[c := view[c].(dirty := true)];
        return E2BIG;
      }
      var e := MakeEntry(k.value, v.value);
      code := PlaceEntry(c, e);
      RoomStays(old(Value()), old(view), c, Value(), view[c]);
    }

    method PlaceEntry(c: Conn, e: Entry) returns (code: Code)
      requires Valid() && c in view && e.size <= ENTRY_MAXSIZE && view[c].Top() + 1 < U32
      modifies this
      ensures Valid()
      ensures var r := old(view)[c].Place(e, old(Free()));
              view == old(view)[c := r.0] && code == r.1
    {
      assert Counts(infos[c], view[c]);
      var slot := Add32(DYNAMIC_TABLE_BASE, Add32(infos[c].count, infos[c].deleted));
      ghost var t0 := view[c];
      TryEvict(c, e.size);
      ghost var t := view[c];
      assert t == t0.Evict(e.size) && slot == t.Top();
      var fits := HasRoomFor(c, e.size);
      if !fits {
        return Ok;
      }
      var key := Key(c, slot);
      assert Value().Get(key) == ViewAt(view, key);
      if key !in entries && |entries| >= MAP_CAPACITY {
        return ENOSPC;
      }
      Store(c, slot, e);
      Overwrite(old(view), c, t, view[c]);
      return Ok;
    }

    // Whether an entry of the size `need` fits into the table of `c`.
    method HasRoomFor(c: Conn, need: u32) returns (fits: bool)
      requires Valid() && c in view && need <= ENTRY_MAXSIZE
      ensures fits <==> Sum(view[c].live) + need <= view[c].maxSize
    {
      assert Counts(infos[c], view[c]);
      NoOverflow(Value(), view, c);
      fits := Add32(infos[c].size, need) <= infos[c].maxSize;
    }

    // Stores an entry above the newest one of `c`.
    method Store(c: Conn, slot: u32, e: Entry)
      requires Valid() && c in view && e.size <= ENTRY_MAXSIZE && |entries| < MAP_CAPACITY
      requires slot == view[c].Top() && slot + 1 < U32
      modifies this
      ensures Valid()
      ensures view == old(view)[c := old(view)[c].Insert(e)]
    {
      assert Counts(infos[c], view[c]);
      InsertKeeps(Value(), view, c, e);
      var i := infos[c];
      assert slot == Add32(DYNAMIC_TABLE_BASE, Add32(i.count, i.deleted));
      entries := entries[Key(c, slot) := e];
      infos := infos[c := i.(size := Add32(i.size, e.size), count := Add32(i.count, 1))];
      view := view[c := view[c].Insert(e)];
      assert Value() == old(Value()).Insert(c, e);
    }

    // Deletes the `n` entries of `c` from the slot `first` on, if they are there.
    method DeleteSlots(c: Conn, first: nat, n: nat)
      requires first + n < U32
      modifies this`entries
      ensures forall k: Key :: k in entries <==> k in old(entries) && !(k.conn == c && first <= k.idx < first + n)
      ensures forall k <- entries :: entries[k] == old(entries)[k]
    {
      for idx := first to first + n
        invariant forall k: Key :: k in entries <==> k in old(entries) && !(k.conn == c && first <= k.idx < idx)
        invariant forall k <- entries :: entries[k] == old(entries)[k]
      {
        entries := entries - {Key(c, idx)};
      }
    }

    // Removes the table of a connection that has closed, and no entry of any other.
    method ForgetConn(c: Conn)
      requires Valid()
      modifies this
      ensures Valid() && view == old(view) - {c}
      ensures forall k: Key :: k in entries <==> k in old(entries) && k.conn != c
    {
      hide Rep;
      forall k: Key
        ensures k in entries && k.conn == c ==>
                  c in infos && 0 <= k.idx - DYNAMIC_TABLE_BASE - infos[c].deleted < infos[c].count
      {
        LiveKeys(Value(), view, k);
      }
      SameKeys(Value(), view);
      if c in infos {
        Known(Value(), view, c);
        DeleteSlots(c, Add32(DYNAMIC_TABLE_BASE, infos[c].deleted), infos[c].count);
        ForgetKeeps(old(Value()), view, c, entries);
        infos := infos - {c};
        view := view - {c};
      } else {
        assert view - {c} == view;
      }
    }
  }
}
