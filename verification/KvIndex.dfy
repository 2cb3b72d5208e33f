/** The persisted key index: what it says about a backend state, and how it
    follows from one backend write to the next. */
module KvIndex {
  import opened Bytes
  import opened KvRecord
  import opened KvSpec

  function Elems(s: seq<u32>): set<u32> {
    set x | x in s
  }

  predicate Distinct(s: seq<u32>) {
    forall i, j :: 0 <= i < j < |s| ==> s[i] != s[j]
  }

  /** The ids the stored index lists. */
  function ReadIndex(cfg: KvCfg, m: Backend): (ids: seq<u32>)
    ensures |ids| <= cfg.maxEntries
  {
    if IndexId(cfg) in m then IndexIds(cfg, m[IndexId(cfg)]) else []
  }

  /** Stored keys the index does not list: what a reload would not enumerate. */
  function Lost(cfg: KvCfg, m: Backend): set<u32> {
    Keys(cfg, m) - Elems(ReadIndex(cfg, m))
  }

  /** The listed ids that still have a record, which is what a reload keeps. */
  function Kept(cfg: KvCfg, m: Backend, ids: seq<u32>): (r: seq<u32>)
    ensures |r| <= |ids|
  {
    if ids == [] then []
    else
      var front := Kept(cfg, m, ids[..|ids| - 1]);
      if ids[|ids| - 1] in Keys(cfg, m) then front + [ids[|ids| - 1]] else front
  }

  /** The ids a loaded table would list. */
  function Live(cfg: KvCfg, m: Backend): seq<u32> {
    Kept(cfg, m, ReadIndex(cfg, m))
  }

  lemma {:induction false} KeptIn(cfg: KvCfg, m: Backend, ids: seq<u32>, x: u32)
    ensures x in Kept(cfg, m, ids) <==> x in ids && x in Keys(cfg, m)
  {
    hide Keys;
    if ids != [] {
      var front, last := ids[..|ids| - 1], ids[|ids| - 1];
      KeptIn(cfg, m, front, x);
      assert ids == front + [last];
    }
  }

  lemma KeptElems(cfg: KvCfg, m: Backend, ids: seq<u32>)
    ensures Elems(Kept(cfg, m, ids)) == Elems(ids) * Keys(cfg, m)
  {
    hide Keys, Kept;
    forall x | x in Elems(Kept(cfg, m, ids)) || x in Elems(ids) * Keys(cfg, m)
      ensures x in Elems(Kept(cfg, m, ids)) && x in Elems(ids) * Keys(cfg, m)
    {
      KeptIn(cfg, m, ids, x);
    }
  }

  lemma DistinctSnoc(s: seq<u32>, x: u32)
    ensures Distinct(s + [x]) <==> Distinct(s) && x !in s
  {
    var t := s + [x];
    if Distinct(t) {
      assert forall i :: 0 <= i < |s| ==> s[i] == t[i] && t[i] != t[|s|];
    }
  }

  lemma {:induction false} KeptDistinct(cfg: KvCfg, m: Backend, ids: seq<u32>)
    requires Distinct(ids)
    ensures Distinct(Kept(cfg, m, ids))
    ensures |Kept(cfg, m, ids)| == |ids| ==> Kept(cfg, m, ids) == ids
  {
    hide Keys, Distinct;
    if ids != [] {
      var front, last := ids[..|ids| - 1], ids[|ids| - 1];
      assert ids == front + [last];
      DistinctSnoc(front, last);
      DistinctSnoc(Kept(cfg, m, front), last);
      KeptDistinct(cfg, m, front);
      KeptIn(cfg, m, front, last);
    }
  }

  lemma {:induction false} KeptAll(cfg: KvCfg, m: Backend, ids: seq<u32>)
    requires Elems(ids) <= Keys(cfg, m)
    ensures Kept(cfg, m, ids) == ids
  {
    if ids != [] {
      var front, last := ids[..|ids| - 1], ids[|ids| - 1];
      assert ids == front + [last];
      assert last in Elems(ids);
      assert forall x :: x in Elems(front) ==> x in Elems(ids);
      KeptAll(cfg, m, front);
    }
  }

  /** Every state a crash may leave: records in their own slots, no id listed
      twice. */
  predicate Sound(cfg: KvCfg, m: Backend) {
    Placed(cfg, m) && Distinct(ReadIndex(cfg, m))
  }

  function PutIndex(cfg: KvCfg, m: Backend, ids: seq<u32>): Backend
    requires |ids| < 0x1_0000
  {
    m[IndexId(cfg) := IndexBytes(ids)]
  }

  lemma PutIndexFacts(cfg: KvCfg, m: Backend, ids: seq<u32>)
    requires WfCfg(cfg) && |ids| <= cfg.maxEntries
    ensures var m' := PutIndex(cfg, m, ids);
            ReadIndex(cfg, m') == ids && Keys(cfg, m') == Keys(cfg, m) && Data(cfg, m') == Data(cfg, m)
            && (Placed(cfg, m) ==> Placed(cfg, m'))
  {
    hide Parse, IndexBytes, IndexIds, PlacedAt;
    IndexRoundTrip(cfg, ids);
    assert Data(cfg, PutIndex(cfg, m, ids)) == Data(cfg, m);
  }

  lemma PutRecordFacts(cfg: KvCfg, m: Backend, p: Pair, v: seq<byte>)
    requires WfCfg(cfg) && PairOk(cfg, p) && RecordLen(p, v) <= cfg.block
    ensures var m' := m[RecordId(cfg, p) := Build(p, v)];
            ReadIndex(cfg, m') == ReadIndex(cfg, m) && Keys(cfg, m') == Keys(cfg, m) + {RecordId(cfg, p)}
            && (Placed(cfg, m) ==> Placed(cfg, m'))
  {
    hide Parse, IndexIds, Build;
    ParseBuild(p, v);
    var id := RecordId(cfg, p);
    assert PlacedAt(cfg, id, Build(p, v));
    var m' := m[id := Build(p, v)];
    assert forall x :: x in m && x != id ==> x in m' && m'[x] == m[x];
    assert Keys(cfg, m') == Keys(cfg, m) + {id};
  }

  lemma DropRecordFacts(cfg: KvCfg, m: Backend, id: u32)
    requires id != IndexId(cfg)
    ensures var m' := m - {id};
            ReadIndex(cfg, m') == ReadIndex(cfg, m) && Keys(cfg, m') == Keys(cfg, m) - {id}
            && (Placed(cfg, m) ==> Placed(cfg, m'))
  {
    hide Parse, IndexIds, PlacedAt;
    assert Keys(cfg, m - {id}) == Keys(cfg, m) - {id};
  }

  lemma SameData(cfg: KvCfg, m: Backend, m': Backend, p: Pair)
    requires Data(cfg, m) == Data(cfg, m')
    ensures Lookup(cfg, m, p) == Lookup(cfg, m', p) && Taken(cfg, m, p) == Taken(cfg, m', p)
  {
    DataKeeps(cfg, m, p);
    DataKeeps(cfg, m', p);
  }

  // ------------------------------------------------------------ the table in RAM

  datatype Entry = Entry(pair: Pair, id: u32)

  function Ids(es: seq<Entry>): (ids: seq<u32>)
    ensures |ids| == |es| && forall i :: 0 <= i < |es| ==> ids[i] == es[i].id
  {
    seq(|es|, i requires 0 <= i < |es| => es[i].id)
  }

  /** An entry names a valid pair in its slot, and the pair has a value unless
      its slot is in open, which is the case while a set or delete is under way. */
  predicate EntryOk(cfg: KvCfg, m: Backend, e: Entry, open: set<u32>) {
    PairOk(cfg, e.pair) && e.id == RecordId(cfg, e.pair) && (e.id in open || Lookup(cfg, m, e.pair).Some?)
  }

  predicate ListOk(cfg: KvCfg, m: Backend, es: seq<Entry>, open: set<u32>) {
    Distinct(Ids(es)) && forall i :: 0 <= i < |es| ==> EntryOk(cfg, m, es[i], open)
  }

  lemma EntryId(cfg: KvCfg, m: Backend, es: seq<Entry>, i: nat, open: set<u32>)
    requires i < |es| && ListOk(cfg, m, es, open)
    ensures Ids(es)[i] == es[i].id == RecordId(cfg, es[i].pair) && es[i].id in Ids(es)
    ensures PairOk(cfg, es[i].pair)
  {
    hide RecordId, Lookup;
    assert EntryOk(cfg, m, es[i], open) && Ids(es)[i] == es[i].id;
  }

  /** Slot id is listed for no pair but p. */
  predicate Only(es: seq<Entry>, id: u32, p: Pair) {
    forall i :: 0 <= i < |es| && es[i].id == id ==> es[i].pair == p
  }

  lemma ListKept(cfg: KvCfg, m: Backend, m': Backend, es: seq<Entry>, open: set<u32>, open': set<u32>)
    requires ListOk(cfg, m, es, open) && open <= open'
    requires forall i :: 0 <= i < |es| && es[i].id !in open' ==> Lookup(cfg, m', es[i].pair).Some?
    ensures ListOk(cfg, m', es, open')
  {
    hide Lookup;
    forall i | 0 <= i < |es|
      ensures EntryOk(cfg, m', es[i], open')
    {
      assert EntryOk(cfg, m, es[i], open);
    }
  }

  lemma ListOpen(cfg: KvCfg, m: Backend, es: seq<Entry>, id: u32)
    requires ListOk(cfg, m, es, {})
    ensures ListOk(cfg, m, es, {id})
  {
    hide Lookup;
    forall i | 0 <= i < |es| && es[i].id !in {id}
      ensures Lookup(cfg, m, es[i].pair).Some?
    {
      assert EntryOk(cfg, m, es[i], {});
    }
    ListKept(cfg, m, m, es, {}, {id});
  }

  /** Changing one slot leaves the entries of the other slots in order. */
  lemma ListButSlot(cfg: KvCfg, m: Backend, m': Backend, es: seq<Entry>, id: u32)
    requires ListOk(cfg, m, es, {id})
    requires m - {id} == m' - {id}
    ensures ListOk(cfg, m', es, {id})
  {
    hide RecordCheck;
    forall i | 0 <= i < |es| && es[i].id != id
      ensures Lookup(cfg, m', es[i].pair).Some?
    {
      var x := es[i].id;
      assert EntryOk(cfg, m, es[i], {id});
      assert x in m && x in m - {id} && x in m' - {id};
      assert m[x] == (m - {id})[x] == (m' - {id})[x] == m'[x];
    }
    ListKept(cfg, m, m', es, {id}, {id});
  }

  /** Once the open slot holds its pair, the table is in order again. */
  lemma ListClosed(cfg: KvCfg, m: Backend, es: seq<Entry>, p: Pair)
    requires ListOk(cfg, m, es, {RecordId(cfg, p)}) && Only(es, RecordId(cfg, p), p)
    requires Lookup(cfg, m, p).Some? || RecordId(cfg, p) !in Ids(es)
    ensures ListOk(cfg, m, es, {})
  {
    hide Lookup, RecordId;
    forall i | 0 <= i < |es|
      ensures EntryOk(cfg, m, es[i], {})
    {
      assert EntryOk(cfg, m, es[i], {RecordId(cfg, p)});
      assert Ids(es)[i] == es[i].id;
    }
  }

  /** A slot that is not taken is listed for no other pair. */
  lemma OnlyWhenFree(cfg: KvCfg, m: Backend, es: seq<Entry>, p: Pair)
    requires ListOk(cfg, m, es, {}) && !Taken(cfg, m, p)
    ensures Only(es, RecordId(cfg, p), p)
  {
    hide Lookup, Taken;
    forall i | 0 <= i < |es| && es[i].id == RecordId(cfg, p)
      ensures es[i].pair == p
    {
      assert EntryOk(cfg, m, es[i], {});
      if es[i].pair != p {
        MatchTakes(cfg, m, es[i].pair, p);
      }
    }
  }

  /** A listed slot whose pair has a value is a slot of Keys. */
  lemma ListedKeys(cfg: KvCfg, m: Backend, es: seq<Entry>)
    requires Placed(cfg, m) && ListOk(cfg, m, es, {})
    ensures Elems(Ids(es)) <= Keys(cfg, m)
  {
    hide Lookup, Keys, Placed;
    forall x | x in Elems(Ids(es))
      ensures x in Keys(cfg, m)
    {
      var i :| 0 <= i < |es| && Ids(es)[i] == x;
      assert EntryOk(cfg, m, es[i], {});
      LookupByPair(cfg, m, es[i].pair);
    }
  }

  lemma IdsSnoc(es: seq<Entry>, e: Entry)
    ensures Ids(es + [e]) == Ids(es) + [e.id]
    ensures Elems(Ids(es + [e])) == Elems(Ids(es)) + {e.id}
  {
    assert Ids(es + [e]) == Ids(es) + [e.id];
  }

  lemma ListSnoc(cfg: KvCfg, m: Backend, es: seq<Entry>, p: Pair, open: set<u32>)
    requires ListOk(cfg, m, es, open) && PairOk(cfg, p)
    requires RecordId(cfg, p) !in Ids(es)
    requires RecordId(cfg, p) in open || Lookup(cfg, m, p).Some?
    ensures ListOk(cfg, m, es + [Entry(p, RecordId(cfg, p))], open)
  {
    hide Lookup, RecordId;
    var e := Entry(p, RecordId(cfg, p));
    IdsSnoc(es, e);
    forall i | 0 <= i < |es| + 1
      ensures EntryOk(cfg, m, (es + [e])[i], open)
    {
      if i < |es| {
        assert EntryOk(cfg, m, es[i], open);
      }
    }
  }

  function Without(es: seq<Entry>, k: nat): seq<Entry>
    requires k < |es|
  {
    es[..k] + es[k + 1..]
  }

  lemma IdsWithout(es: seq<Entry>, k: nat)
    requires k < |es| && Distinct(Ids(es))
    ensures Distinct(Ids(Without(es, k)))
    ensures Elems(Ids(Without(es, k))) == Elems(Ids(es)) - {es[k].id}
  {
    var r := Without(es, k);
    forall i | 0 <= i < |r|
      ensures r[i] == es[if i < k then i else i + 1]
    {
    }
    forall x | x in Elems(Ids(es)) - {es[k].id}
      ensures x in Elems(Ids(r))
    {
      var i :| 0 <= i < |es| && Ids(es)[i] == x;
      assert Ids(r)[if i < k then i else i - 1] == x;
    }
  }

  lemma ListWithout(cfg: KvCfg, m: Backend, es: seq<Entry>, k: nat, p: Pair)
    requires k < |es| && es[k].pair == p
    requires ListOk(cfg, m, es, {RecordId(cfg, p)})
    ensures ListOk(cfg, m, Without(es, k), {})
  {
    hide Lookup, RecordId;
    var r := Without(es, k);
    IdsWithout(es, k);
    assert EntryOk(cfg, m, es[k], {RecordId(cfg, p)});
    forall i | 0 <= i < |r|
      ensures EntryOk(cfg, m, r[i], {})
    {
      var j := if i < k then i else i + 1;
      assert r[i] == es[j] && EntryOk(cfg, m, es[j], {RecordId(cfg, p)});
      assert Ids(es)[j] != Ids(es)[k];
    }
  }

  /** Writing the index keeps a table that was in order in order. */
  lemma PutIndexLists(cfg: KvCfg, m: Backend, ids: seq<u32>, es: seq<Entry>, open: set<u32>)
    requires WfCfg(cfg) && |ids| <= cfg.maxEntries && ListOk(cfg, m, es, open)
    ensures ListOk(cfg, PutIndex(cfg, m, ids), es, open)
  {
    hide Lookup, PutIndex, RecordId;
    var m' := PutIndex(cfg, m, ids);
    PutIndexFacts(cfg, m, ids);
    forall i | 0 <= i < |es| && es[i].id !in open
      ensures Lookup(cfg, m', es[i].pair).Some?
    {
      assert EntryOk(cfg, m, es[i], open);
      SameData(cfg, m, m', es[i].pair);
    }
    ListKept(cfg, m, m', es, open, open);
  }

  /** Listing a new pair ahead of its record: nothing else changes. */
  lemma AddEntry(cfg: KvCfg, m: Backend, es: seq<Entry>, p: Pair)
    requires WfCfg(cfg) && Sound(cfg, m) && ReadIndex(cfg, m) == Ids(es) && |es| < cfg.maxEntries
    requires ListOk(cfg, m, es, {}) && PairOk(cfg, p) && RecordId(cfg, p) !in Ids(es)
    ensures var es' := es + [Entry(p, RecordId(cfg, p))];
            var m' := PutIndex(cfg, m, Ids(es'));
            ListOk(cfg, m', es', {RecordId(cfg, p)}) && Only(es', RecordId(cfg, p), p) && Sound(cfg, m')
            && Lost(cfg, m') == Lost(cfg, m) - {RecordId(cfg, p)}
  {
    hide Lookup, RecordId, PutIndex, Placed, Keys, EntryOk;
    var id := RecordId(cfg, p);
    var es' := es + [Entry(p, id)];
    var m' := PutIndex(cfg, m, Ids(es'));
    ListOpen(cfg, m, es, id);
    ListSnoc(cfg, m, es, p, {id});
    PutIndexLists(cfg, m, Ids(es'), es', {id});
    PutIndexFacts(cfg, m, Ids(es'));
    IdsSnoc(es, Entry(p, id));
    assert forall i :: 0 <= i < |es| ==> Ids(es)[i] == es[i].id;
  }

  /** Dropping an entry: its slot is no longer listed, nothing else changes. */
  lemma DropEntry(cfg: KvCfg, m: Backend, es: seq<Entry>, k: nat, p: Pair)
    requires WfCfg(cfg) && Sound(cfg, m) && ReadIndex(cfg, m) == Ids(es) && |es| <= cfg.maxEntries
    requires k < |es| && es[k].pair == p && ListOk(cfg, m, es, {RecordId(cfg, p)})
    ensures var es' := Without(es, k);
            var m' := PutIndex(cfg, m, Ids(es'));
            ListOk(cfg, m', es', {}) && Sound(cfg, m')
            && Lost(cfg, m') == Lost(cfg, m) + {RecordId(cfg, p)} * Keys(cfg, m)
  {
    hide Lookup, RecordId, PutIndex, Placed, Keys, Without;
    var es' := Without(es, k);
    assert EntryOk(cfg, m, es[k], {RecordId(cfg, p)});
    assert Ids(es)[k] == es[k].id;
    ListWithout(cfg, m, es, k, p);
    IdsWithout(es, k);
    WithoutLen(es, k);
    PutIndexLists(cfg, m, Ids(es'), es', {});
    PutIndexFacts(cfg, m, Ids(es'));
  }

  lemma WithoutLen(es: seq<Entry>, k: nat)
    requires k < |es|
    ensures |Without(es, k)| == |es| - 1
  {
  }

  lemma SameSlot(cfg: KvCfg, m: Backend, m': Backend, id: u32)
    requires Data(cfg, m) == Data(cfg, m') && id != IndexId(cfg)
    ensures id in m <==> id in m'
    ensures id in m ==> m[id] == m'[id]
  {
    assert id in m <==> id in Data(cfg, m);
    assert id in m' <==> id in Data(cfg, m');
    assert id in m ==> Data(cfg, m)[id] == m[id];
  }

  /** The record of p lands in its slot. */
  lemma RecordLands(cfg: KvCfg, m: Backend, es: seq<Entry>, p: Pair, v: seq<byte>)
    requires WfCfg(cfg) && Sound(cfg, m) && ReadIndex(cfg, m) == Ids(es)
    requires PairOk(cfg, p) && RecordLen(p, v) <= cfg.block
    requires ListOk(cfg, m, es, {RecordId(cfg, p)}) && Only(es, RecordId(cfg, p), p)
    ensures var m' := m[RecordId(cfg, p) := Build(p, v)];
            ListOk(cfg, m', es, {}) && Sound(cfg, m') && ReadIndex(cfg, m') == Ids(es)
            && Data(cfg, m') == Data(cfg, m)[RecordId(cfg, p) := Build(p, v)]
            && Lost(cfg, m') == Lost(cfg, m) + if RecordId(cfg, p) in Ids(es) then {} else {RecordId(cfg, p)}
  {
    hide Lookup, RecordId, ReadIndex, Placed, Keys, Only, ListOk, Build, Ids;
    var id := RecordId(cfg, p);
    var m' := m[id := Build(p, v)];
    PutRecordFacts(cfg, m, p, v);
    assert m - {id} == m' - {id};
    ListButSlot(cfg, m, m', es, id);
    BuiltSlot(cfg, m, p, v);
    ListClosed(cfg, m', es, p);
    assert Data(cfg, m') == Data(cfg, m)[id := Build(p, v)];
  }

  /** The record of a slot is deleted; its entry, if any, is now stale. */
  lemma RecordGoes(cfg: KvCfg, m: Backend, es: seq<Entry>, p: Pair)
    requires Sound(cfg, m) && ListOk(cfg, m, es, {})
    ensures var m' := m - {RecordId(cfg, p)};
            ListOk(cfg, m', es, {RecordId(cfg, p)}) && Sound(cfg, m') && ReadIndex(cfg, m') == ReadIndex(cfg, m)
            && Keys(cfg, m') == Keys(cfg, m) - {RecordId(cfg, p)}
            && Lost(cfg, m') == Lost(cfg, m) - {RecordId(cfg, p)}
  {
    hide Lookup, RecordId, ReadIndex, Placed, Keys, ListOk, Ids;
    var id := RecordId(cfg, p);
    var m' := m - {id};
    DropRecordFacts(cfg, m, id);
    ListOpen(cfg, m, es, id);
    assert m - {id} == m' - {id};
    ListButSlot(cfg, m, m', es, id);
  }

  predicate Lists(es: seq<Entry>, p: Pair) {
    exists i :: 0 <= i < |es| && es[i].pair == p
  }

  /** A table in order, with its ids on storage, lists exactly the stored keys
      that are not lost; Distinct makes it list each once. */
  lemma ListExact(cfg: KvCfg, m: Backend, es: seq<Entry>, p: Pair)
    requires Placed(cfg, m) && ListOk(cfg, m, es, {}) && ReadIndex(cfg, m) == Ids(es)
    ensures Lists(es, p) <==> Lookup(cfg, m, p).Some? && RecordId(cfg, p) !in Lost(cfg, m)
  {
    hide Lookup, RecordId, Placed, Keys, ReadIndex, Parse;
    LookupByPair(cfg, m, p);
    forall i | 0 <= i < |es|
      ensures EntryOk(cfg, m, es[i], {}) && Ids(es)[i] == es[i].id
      ensures es[i].id == RecordId(cfg, p) && Lookup(cfg, m, p).Some? ==> es[i].pair == p
    {
      assert EntryOk(cfg, m, es[i], {});
      LookupByPair(cfg, m, es[i].pair);
    }
  }

  /** es' is es without the entry of p. */
  predicate Dropped(es: seq<Entry>, es': seq<Entry>, p: Pair) {
    (!Lists(es, p) ==> es' == es) && forall k :: 0 <= k < |es| && es[k].pair == p ==> es' == Without(es, k)
  }

  lemma DroppedAt(cfg: KvCfg, m: Backend, es: seq<Entry>, k: nat, open: set<u32>)
    requires k < |es| && ListOk(cfg, m, es, open)
    ensures Dropped(es, Without(es, k), es[k].pair)
  {
    hide RecordId, Lookup, Without;
    forall j | 0 <= j < |es| && es[j].pair == es[k].pair
      ensures j == k
    {
      EntryId(cfg, m, es, j, open);
      EntryId(cfg, m, es, k, open);
    }
  }

  /** What an iteration of namespace ns over the entries es yields. */
  function Items(cfg: KvCfg, m: Backend, ns: CString, es: seq<Entry>): seq<(CString, seq<byte>)> {
    if es == [] then []
    else
      var v := Lookup(cfg, m, es[0].pair);
      (if es[0].pair.ns == ns && v.Some? then [(es[0].pair.key, v.value)] else []) + Items(cfg, m, ns, es[1..])
  }

  lemma {:induction false} ItemsSound(cfg: KvCfg, m: Backend, ns: CString, es: seq<Entry>, key: CString, v: seq<byte>)
    ensures (key, v) in Items(cfg, m, ns, es) <==>
            Lists(es, Pair(ns, key)) && Lookup(cfg, m, Pair(ns, key)) == Some(v)
  {
    hide Lookup;
    if es != [] {
      ItemsSound(cfg, m, ns, es[1..], key, v);
      if Lists(es, Pair(ns, key)) && es[0].pair != Pair(ns, key) {
        var i :| 0 <= i < |es| && es[i].pair == Pair(ns, key);
        assert es[1..][i - 1].pair == Pair(ns, key);
      }
      if Lists(es[1..], Pair(ns, key)) {
        var i :| 0 <= i < |es| - 1 && es[1..][i].pair == Pair(ns, key);
        assert es[i + 1].pair == Pair(ns, key);
      }
    }
  }

  predicate DistinctKeys(items: seq<(CString, seq<byte>)>) {
    forall i, j :: 0 <= i < j < |items| ==> items[i].0 != items[j].0
  }

  lemma {:induction false} ItemsOnce(cfg: KvCfg, m: Backend, ns: CString, es: seq<Entry>, open: set<u32>)
    requires ListOk(cfg, m, es, open)
    ensures DistinctKeys(Items(cfg, m, ns, es))
  {
    hide Lookup, RecordId;
    if es != [] {
      var rest := es[1..];
      assert forall i :: 0 <= i < |rest| ==> rest[i] == es[i + 1];
      assert forall i :: 0 <= i < |rest| ==> Ids(rest)[i] == Ids(es)[i + 1];
      ItemsOnce(cfg, m, ns, rest, open);
      forall i | 0 <= i < |Items(cfg, m, ns, rest)| && es[0].pair.ns == ns
        ensures Items(cfg, m, ns, rest)[i].0 != es[0].pair.key
      {
        var item := Items(cfg, m, ns, rest)[i];
        ItemsSound(cfg, m, ns, rest, item.0, item.1);
        var j :| 0 <= j < |rest| && rest[j].pair == Pair(ns, item.0);
        EntryId(cfg, m, es, 0, open);
        EntryId(cfg, m, es, j + 1, open);
      }
    }
  }

  /** Iterating a namespace yields every stored key the index knows, with its
      value, exactly once. */
  lemma IterationExact(cfg: KvCfg, m: Backend, ns: CString, es: seq<Entry>, key: CString, v: seq<byte>)
    requires Placed(cfg, m) && ListOk(cfg, m, es, {}) && ReadIndex(cfg, m) == Ids(es)
    ensures DistinctKeys(Items(cfg, m, ns, es))
    ensures (key, v) in Items(cfg, m, ns, es) <==>
            Lookup(cfg, m, Pair(ns, key)) == Some(v) && RecordId(cfg, Pair(ns, key)) !in Lost(cfg, m)
  {
    hide Lookup, RecordId, Placed, Lost, Items, ReadIndex, Lists, ListOk, DistinctKeys;
    ItemsOnce(cfg, m, ns, es, {});
    ItemsSound(cfg, m, ns, es, key, v);
    ListExact(cfg, m, es, Pair(ns, key));
  }

  /** No key of the namespace is both listed and undeletable. */
  predicate Clearable(cfg: KvCfg, bad: set<u32>, d: Backend, ns: CString, lost: set<u32>)
    requires Placed(cfg, d)
  {
    forall id :: id in Keys(cfg, d) && PairAt(cfg, d, id).ns == ns && id !in lost ==> id !in bad
  }

  /** Every row of the defaults that a reset applies succeeds. */
  predicate SeedsAll(cfg: KvCfg, bad: set<u32>, d: Backend, ns: CString, keep: set<u32>, defs: seq<Default>)
    requires WfCfg(cfg) && Placed(cfg, d)
  {
    Seed(cfg, bad, d - Cleared(cfg, d, ns, keep), defs, Some(ns)).1.Ok?
  }

  /** A slot the scan has not cleared holds what it held at first. */
  lemma SlotStays(cfg: KvCfg, d: Backend, gone: set<u32>, m: Backend, id: u32)
    requires Placed(cfg, d) && Placed(cfg, m) && Data(cfg, m) == d - gone
    ensures id in Keys(cfg, m) <==> id in Keys(cfg, d) && id !in gone
    ensures id in Keys(cfg, m) ==> PairAt(cfg, d, id) == PairAt(cfg, m, id)
  {
    hide Parse, PlacedAt;
    assert id in d - gone <==> id in d && id !in gone;
    if id in m && id != IndexId(cfg) {
      assert Data(cfg, m)[id] == m[id];
      assert id in d - gone && (d - gone)[id] == d[id];
    } else {
      assert id !in Data(cfg, m);
      IndexNotKey(cfg, d);
    }
  }

  lemma IndexNotKey(cfg: KvCfg, d: Backend)
    ensures IndexId(cfg) !in Keys(cfg, d)
  {
  }

  lemma ListedSlot(cfg: KvCfg, d: Backend, gone: set<u32>, m: Backend, es: seq<Entry>, k: nat)
    requires Placed(cfg, d) && Placed(cfg, m) && Data(cfg, m) == d - gone
    requires ListOk(cfg, m, es, {}) && ReadIndex(cfg, m) == Ids(es) && k < |es|
    ensures es[k].id in Keys(cfg, d) && PairAt(cfg, d, es[k].id) == es[k].pair
    ensures es[k].id !in gone && es[k].id !in Lost(cfg, m)
  {
    hide Parse, Placed, Lookup, RecordId, Keys, PairAt, Data;
    assert EntryOk(cfg, m, es[k], {}) && Ids(es)[k] == es[k].id;
    LookupByPair(cfg, m, es[k].pair);
    SlotStays(cfg, d, gone, m, es[k].id);
  }

  /** How far a scan got: below pos only undeletable keys of the namespace are
      left, and the scan has met an error exactly when there is one. */
  predicate Scanned(bad: set<u32>, es: seq<Entry>, ns: CString, pos: nat, first: Status)
    requires pos <= |es|
  {
    && (forall i :: 0 <= i < pos && es[i].pair.ns == ns ==> es[i].id in bad)
    && (first.Ok? <==> forall i :: 0 <= i < pos ==> es[i].pair.ns != ns)
  }

  lemma ScanStart(bad: set<u32>, es: seq<Entry>, ns: CString)
    ensures Scanned(bad, es, ns, 0, Ok)
  {
  }

  lemma ScannedOn(bad: set<u32>, es: seq<Entry>, ns: CString, pos: nat, first: Status, k: nat)
    requires pos <= k < |es| && Scanned(bad, es, ns, pos, first)
    requires forall i :: pos <= i < k ==> es[i].pair.ns != ns
    requires es[k].pair.ns == ns
    ensures Scanned(bad, Without(es, k), ns, pos, first)
    ensures es[k].id in bad ==> forall e: Status :: !e.Ok? && (!first.Ok? ==> e == first) ==> Scanned(bad, es, ns, k + 1, e)
  {
    assert forall i :: 0 <= i < pos ==> Without(es, k)[i] == es[i];
  }

  /** The scan is over: what it cleared is all it could, and it stepped over a
      key exactly when some listed key could not be deleted. */
  lemma ScanDone(cfg: KvCfg, bad: set<u32>, d: Backend, gone: set<u32>, m: Backend, es: seq<Entry>, ns: CString,
                 pos: nat, first: Status)
    requires Placed(cfg, d) && Placed(cfg, m) && Data(cfg, m) == d - gone
    requires ListOk(cfg, m, es, {}) && ReadIndex(cfg, m) == Ids(es)
    requires gone <= Cleared(cfg, d, ns, bad + Lost(cfg, m))
    requires pos <= |es| && Scanned(bad, es, ns, pos, first)
    requires forall i :: pos <= i < |es| ==> es[i].pair.ns != ns
    ensures gone == Cleared(cfg, d, ns, bad + Lost(cfg, m))
    ensures Clearable(cfg, bad, d, ns, Lost(cfg, m)) <==> first.Ok?
  {
    hide Parse, Placed, Lookup, RecordId, Keys, PairAt, Data, ListOk;
    forall i | 0 <= i < |es|
      ensures es[i].id in Keys(cfg, d) && PairAt(cfg, d, es[i].id) == es[i].pair
      ensures es[i].id !in gone && es[i].id !in Lost(cfg, m)
    {
      ListedSlot(cfg, d, gone, m, es, i);
    }
    forall id | id in Keys(cfg, d) && PairAt(cfg, d, id).ns == ns && id !in Lost(cfg, m) && id !in gone
      ensures Stuck(bad, es, ns, id)
    {
      SlotStays(cfg, d, gone, m, id);
      assert id in ReadIndex(cfg, m);
      var i :| 0 <= i < |es| && Ids(es)[i] == id;
      assert es[i].pair.ns == ns;
    }
  }

  predicate Stuck(bad: set<u32>, es: seq<Entry>, ns: CString, id: u32) {
    id in bad && exists i :: 0 <= i < |es| && es[i].id == id && es[i].pair.ns == ns
  }
}
