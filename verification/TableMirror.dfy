// The mirrored table against the dynamic table of RFC 7541.
module TableMirror {
  import opened Base
  import opened DynamicTable
  import Huffman
  import Rfc7541

  // `kept` is what an entry keeps of the string `s`: a coded string as it was sent, any other
  // one cut off if it is long.
  ghost predicate Keeps(k: Huffman.Coding, kept: seq<byte>, huff: bool, s: seq<byte>)
  {
    if huff then Huffman.SentAs(k, kept, true, s) else kept == s[..Min(|s|, 128)]
  }

  ghost predicate FieldMirrors(k: Huffman.Coding, f: Field, h: Rfc7541.HField)
  {
    Keeps(k, f.key, f.keyHuff, h.name) && Keeps(k, f.val, f.valHuff, h.value)
  }

  // A string can be told from what is kept of it just if it is coded or short.
  lemma KeptWhole(k: Huffman.Coding, kept: seq<byte>, huff: bool, s: seq<byte>)
    requires Keeps(k, kept, huff, s)
    ensures Huffman.SentAs(k, kept, huff, s) <==> huff || |s| <= 128
  {
    assert |s| <= 128 ==> s[..|s|] == s;
  }

  ghost predicate EntryMirrors(k: Huffman.Coding, e: Entry, h: Rfc7541.HField)
  {
    FieldMirrors(k, e.field, h) && e.size == Rfc7541.Size(h)
  }

  ghost predicate AllMirror(k: Huffman.Coding, es: seq<Entry>, hs: seq<Rfc7541.HField>)
  {
    |es| == |hs| && forall i :: 0 <= i < |es| ==> EntryMirrors(k, es[i], hs[i])
  }

  // The static table, whose entry 0 is not used.
  ghost predicate StaticsMirror(cfg: Config, st: seq<Rfc7541.HField>)
  {
    |st| == |cfg.statics| && forall i :: 0 < i < |st| ==> FieldMirrors(cfg.coding, cfg.statics[i], st[i])
  }

  // The table the parser keeps is the table `rt` of the peer.
  ghost predicate Mirrors(cfg: Config, t: Tab, rt: Rfc7541.Table)
  {
    !t.dirty && t.maxSize == rt.maxSize && AllMirror(cfg.coding, t.live, rt.entries)
  }

  lemma {:induction false} SizesAgree(k: Huffman.Coding, es: seq<Entry>, hs: seq<Rfc7541.HField>)
    requires AllMirror(k, es, hs)
    ensures Sum(es) == Rfc7541.TotalSize(hs)
  {
    if es != [] {
      SizesAgree(k, es[..|es| - 1], hs[..|hs| - 1]);
      assert EntryMirrors(k, es[|es| - 1], hs[|hs| - 1]);
    }
  }

  // The two tables evict the same entries.
  lemma {:induction false} EvictMirrors(k: Huffman.Coding, es: seq<Entry>, hs: seq<Rfc7541.HField>, room: int)
    requires AllMirror(k, es, hs)
    ensures Rfc7541.Evict(hs, room) == hs[..KeptCount(es, room)]
  {
    SizesAgree(k, es, hs);
    if es == [] || Sum(es) <= room {
      assert hs[..|hs|] == hs;
    } else {
      var n := |es| - 1;
      EvictMirrors(k, es[..n], hs[..n], room);
      assert hs[..n][..KeptCount(es, room)] == hs[..KeptCount(es, room)];
    }
  }

  // A table size update shrinks both tables alike.
  lemma ResizeMirrors(cfg: Config, t: Tab, rt: Rfc7541.Table, max: u32)
    requires Mirrors(cfg, t, rt)
    ensures Mirrors(cfg, t.Resize(max), rt.Resize(max))
  {
    EvictMirrors(cfg.coding, t.live, rt.entries, max);
  }

  lemma PrefixMirrors(k: Huffman.Coding, es: seq<Entry>, hs: seq<Rfc7541.HField>, m: nat)
    requires AllMirror(k, es, hs) && m <= |es|
    ensures AllMirror(k, es[..m], hs[..m])
  {
    hide EntryMirrors;
  }

  lemma InsertMirrors(k: Huffman.Coding, es: seq<Entry>, hs: seq<Rfc7541.HField>, e: Entry, h: Rfc7541.HField)
    requires AllMirror(k, es, hs) && EntryMirrors(k, e, h)
    ensures AllMirror(k, [e] + es, [h] + hs)
  {
    forall i | 0 <= i <= |es|
      ensures EntryMirrors(k, ([e] + es)[i], ([h] + hs)[i])
    {
      assert i > 0 ==> EntryMirrors(k, es[i - 1], hs[i - 1]);
    }
  }

  // Whether the map has a key for an entry of the size `size`, or needs none.
  predicate HasKey(t: Tab, size: nat, free: nat) {
    size > t.maxSize || free + |t.live| > |t.Evict(size).live|
  }

  // Eviction makes room for every entry that is no larger than the table.
  lemma EvictFits(t: Tab, e: Entry)
    ensures Sum(t.Evict(e.size).live) + e.size <= t.maxSize <==> e.size <= t.maxSize
  {
    assert Sum([]) == 0;
  }

  lemma EvictedMirrors(cfg: Config, t: Tab, rt: Rfc7541.Table, need: nat)
    requires Mirrors(cfg, t, rt)
    ensures AllMirror(cfg.coding, t.Evict(need).live, Rfc7541.Evict(rt.entries, rt.maxSize - need))
  {
    hide EntryMirrors, Rfc7541.Evict, KeptCount, Sum;
    EvictMirrors(cfg.coding, t.live, rt.entries, rt.maxSize - need);
    PrefixMirrors(cfg.coding, t.live, rt.entries, |t.Evict(need).live|);
  }

  lemma PlaceIs(t: Tab, e: Entry, free: nat)
    ensures var (r, d) := (t.Place(e, free), t.Evict(e.size));
            && r.0 == (if e.size <= t.maxSize && HasKey(t, e.size, free) then d.Insert(e) else d)
            && r.1 == (if HasKey(t, e.size, free) then Ok else ENOSPC)
  {
    EvictFits(t, e);
    hide KeptCount;
  }

  lemma PlaceMirrors(cfg: Config, t: Tab, rt: Rfc7541.Table, e: Entry, h: Rfc7541.HField, free: nat)
    requires Mirrors(cfg, t, rt) && EntryMirrors(cfg.coding, e, h)
    ensures Mirrors(cfg, t.Place(e, free).0, rt.Add(h)) <==> HasKey(t, e.size, free)
    ensures t.Place(e, free).1 == Ok <==> HasKey(t, e.size, free)
  {
    hide Tab.Place, KeptCount, Rfc7541.Evict, EntryMirrors;
    PlaceIs(t, e, free);
    EvictedMirrors(cfg, t, rt, e.size);
    var es, hs := t.Evict(e.size).live, Rfc7541.Evict(rt.entries, rt.maxSize - e.size);
    assert rt.Add(h).entries == if e.size <= t.maxSize then [h] + hs else hs by {
      hide AllMirror;
      SizeIs(cfg.coding, e, h);
    }
    InsertMirrors(cfg.coding, es, hs, e, h);
  }

  lemma SizeIs(k: Huffman.Coding, e: Entry, h: Rfc7541.HField)
    requires EntryMirrors(k, e, h)
    ensures e.size == Rfc7541.Size(h)
  {}

  // Adding a field is what section 4.4 of RFC 7541 has the peer do just if no string of it is
  // both coded and too long to be kept, and the map has room. That is when the result is Ok,
  // which the caller does not look at, see `AddedMirrors` in module HpackRefines. The name may
  // have been read out of an entry that is evicted on the way: it is its bytes that are added.
  lemma AddMirrors(cfg: Config, t: Tab, rt: Rfc7541.Table, ctx: Ctx, key: Match, val: Match, h: Rfc7541.HField,
                   free: nat)
    requires Mirrors(cfg, t, rt)
    requires var k, v := t.GetMatch(cfg, ctx, key, true), t.GetMatch(cfg, ctx, val, false);
             && k.Some? && Huffman.SentAs(cfg.coding, k.value.bytes, k.value.huff, h.name)
             && v.Some? && Huffman.SentAs(cfg.coding, v.value.bytes, v.value.huff, h.value)
    ensures var k, v := t.GetMatch(cfg, ctx, key, true).value, t.GetMatch(cfg, ctx, val, false).value;
            var r := t.Add(cfg, ctx, key, val, free);
            && (r.1 == Ok <==> Sizable(k) && Sizable(v) && HasKey(t, Rfc7541.Size(h), free))
            && (Mirrors(cfg, r.0, rt.Add(h)) <==> r.1 == Ok)
            && (r.1 == Ok || r.1 == E2BIG || r.1 == ENOSPC)
  {
    hide Tab.GetMatch, Tab.Place, HasKey, Rfc7541.Table.Add;
    var k, v := t.GetMatch(cfg, ctx, key, true).value, t.GetMatch(cfg, ctx, val, false).value;
    if Sizable(k) && Sizable(v) {
      NewEntryMirrors(cfg, k, v, h);
      PlaceMirrors(cfg, t, rt, NewEntry(cfg, k, v), h, free);
      PlaceCodes(t, NewEntry(cfg, k, v), free);
    }
  }

  lemma PlaceCodes(t: Tab, e: Entry, free: nat)
    ensures t.Place(e, free).1 == Ok || t.Place(e, free).1 == ENOSPC
  {}

  lemma NewEntryMirrors(cfg: Config, k: Bytes, v: Bytes, h: Rfc7541.HField)
    requires Sizable(k) && Sizable(v)
    requires Huffman.SentAs(cfg.coding, k.bytes, k.huff, h.name) && Huffman.SentAs(cfg.coding, v.bytes, v.huff, h.value)
    ensures EntryMirrors(cfg.coding, NewEntry(cfg, k, v), h)
  {
    assert k.huff ==> KeptBytes(k) == k.bytes;
    assert v.huff ==> KeptBytes(v) == v.bytes;
    Huffman.SentAsIsInjective(cfg.coding, k.bytes, k.huff, h.name);
    Huffman.SentAsIsInjective(cfg.coding, v.bytes, v.huff, h.value);
  }

  // A name that is read back from an entry that cut it off makes the new entry smaller than
  // the peer's by what was cut off. Unless both tables leave the entry out, the two then
  // differ, which nothing reports.
  lemma CutNameDrifts(cfg: Config, t: Tab, rt: Rfc7541.Table, ctx: Ctx, key: Match, val: Match, h: Rfc7541.HField,
                      free: nat)
    requires Mirrors(cfg, t, rt) && free > 0 && |h.name| > 128
    requires t.GetMatch(cfg, ctx, key, true) == Some(Bytes(h.name[..128], false))
    requires var v := t.GetMatch(cfg, ctx, val, false);
             v.Some? && Sizable(v.value) && Huffman.SentAs(cfg.coding, v.value.bytes, v.value.huff, h.value)
    ensures var r := t.Add(cfg, ctx, key, val, free);
            && r.1 == Ok && !r.0.dirty
            && (Mirrors(cfg, r.0, rt.Add(h)) <==> Rfc7541.Size(h) - (|h.name| - 128) > t.maxSize)
  {
    hide Tab.GetMatch, Tab.Place, HasKey, Rfc7541.Table.Add;
    var k, v := t.GetMatch(cfg, ctx, key, true).value, t.GetMatch(cfg, ctx, val, false).value;
    var h' := Rfc7541.HField(h.name[..128], h.value);
    NewEntryMirrors(cfg, k, v, h');
    PlaceMirrors(cfg, t, rt, NewEntry(cfg, k, v), h', free);
    PlaceStays(t, NewEntry(cfg, k, v), free);
    FreeKey(t, NewEntry(cfg, k, v).size, free);
    AddDiffers(cfg, t.Add(cfg, ctx, key, val, free).0, rt, h', h);
  }

  lemma FreeKey(t: Tab, size: nat, free: nat)
    requires free > 0
    ensures HasKey(t, size, free)
  {}

  lemma PlaceStays(t: Tab, e: Entry, free: nat)
    ensures t.Place(e, free).0.dirty == t.dirty
  {}

  // A table that mirrors what adding `h'` makes of `rt` mirrors what adding the larger field
  // `h` makes of it just if neither fits.
  lemma AddDiffers(cfg: Config, t': Tab, rt: Rfc7541.Table, h': Rfc7541.HField, h: Rfc7541.HField)
    requires Mirrors(cfg, t', rt.Add(h')) && Rfc7541.Size(h') < Rfc7541.Size(h)
    ensures Mirrors(cfg, t', rt.Add(h)) <==> Rfc7541.Size(h') > rt.maxSize
  {
    if Rfc7541.Size(h') <= rt.maxSize {
      assert EntryMirrors(cfg.coding, t'.live[0], h');
      if Rfc7541.Size(h) <= rt.maxSize {
        assert rt.Add(h).entries[0] == h;
      } else {
        EvictAll(rt.entries, rt.maxSize - Rfc7541.Size(h));
      }
    } else {
      EvictAll(rt.entries, rt.maxSize - Rfc7541.Size(h));
      EvictAll(rt.entries, rt.maxSize - Rfc7541.Size(h'));
    }
  }

  lemma {:induction false} EvictAll(es: seq<Rfc7541.HField>, room: int)
    requires room < 0
    ensures Rfc7541.Evict(es, room) == []
  {
    if es != [] {
      EvictAll(es[..|es| - 1], room);
    }
  }

  // Every index resolves to the field RFC 7541 gives it, and to nothing if it has none. The
  // slot it stands for holds that field as well.
  lemma LookupMirrors(cfg: Config, t: Tab, rt: Rfc7541.Table, st: seq<Rfc7541.HField>, idx: nat)
    requires StaticsMirror(cfg, st) && Mirrors(cfg, t, rt)
    ensures var f, h := t.Lookup(cfg, idx), rt.Lookup(st, idx);
            && f.Some? == h.Some?
            && (f.Some? ==> FieldMirrors(cfg.coding, f.value, h.value))
            && (f.Some? && idx > STATIC_TABLE_SIZE ==>
                  t.At(t.SlotOf(idx)).Some? && t.At(t.SlotOf(idx)).value.field == f.value)
  {
    if STATIC_TABLE_SIZE < idx <= STATIC_TABLE_SIZE + |t.live| {
      var k := idx - STATIC_TABLE_SIZE - 1;
      assert EntryMirrors(cfg.coding, t.live[k], rt.entries[k]);
    }
  }
}
