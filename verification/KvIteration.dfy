/** An iteration over the table while other threads change it: what a position still
    has ahead of it, and which keys it misses when the table closes a gap. */
module KvIteration {
  import opened Bytes
  import opened KvRecord
  import opened KvSpec
  import opened KvIndex

  type Item = (CString, seq<byte>)

  /** The entries from a position on. */
  function Ahead(es: seq<Entry>, pos: nat): seq<Entry> {
    if pos <= |es| then es[pos..] else []
  }

  /** The position of the first entry of ns at or after pos. */
  function FirstIn(es: seq<Entry>, ns: CString, pos: nat): nat
    decreases |es| - pos
  {
    if pos >= |es| || es[pos].pair.ns == ns then pos else FirstIn(es, ns, pos + 1)
  }

  lemma {:induction false} FirstFound(es: seq<Entry>, ns: CString, pos: nat, found: nat)
    requires pos <= found < |es| && es[found].pair.ns == ns
    requires forall i :: pos <= i < found ==> es[i].pair.ns != ns
    ensures FirstIn(es, ns, pos) == found
    decreases found - pos
  {
    if pos < found {
      FirstFound(es, ns, pos + 1, found);
    }
  }

  // ------------------------------------------------------------ items

  /** The items that have none of these keys. */
  function Except(items: seq<Item>, keys: set<CString>): seq<Item> {
    if items == [] then []
    else (if items[0].0 in keys then [] else [items[0]]) + Except(items[1..], keys)
  }

  predicate HasKey(items: seq<Item>, key: CString) {
    exists i :: 0 <= i < |items| && items[i].0 == key
  }

  lemma HasKeyFirst(items: seq<Item>, key: CString)
    requires items != []
    ensures HasKey(items, key) <==> items[0].0 == key || HasKey(items[1..], key)
  {
    if HasKey(items, key) && items[0].0 != key {
      var i :| 0 <= i < |items| && items[i].0 == key;
      assert items[1..][i - 1].0 == key;
    }
    if HasKey(items[1..], key) {
      var i :| 0 <= i < |items| - 1 && items[1..][i].0 == key;
      assert items[i + 1].0 == key;
    }
  }

  lemma {:induction false} ExceptHas(items: seq<Item>, keys: set<CString>, key: CString)
    ensures HasKey(Except(items, keys), key) <==> HasKey(items, key) && key !in keys
  {
    hide HasKey;
    if items == [] {
      NoKey(key);
    } else {
      var rest := Except(items[1..], keys);
      ExceptHas(items[1..], keys, key);
      HasKeyFirst(items, key);
      if items[0].0 !in keys {
        assert ([items[0]] + rest)[1..] == rest;
        HasKeyFirst([items[0]] + rest, key);
      } else {
        assert [] + rest == rest;
      }
    }
  }

  lemma NoKey(key: CString)
    ensures !HasKey([], key)
  {
  }

  /** Leaving out keys changes nothing exactly when no item has one of them. */
  lemma {:induction false} ExceptExact(items: seq<Item>, keys: set<CString>)
    ensures Except(items, keys) == items <==> forall k :: k in keys ==> !HasKey(items, k)
    ensures |Except(items, keys)| <= |items|
  {
    hide HasKey;
    if items == [] {
      forall k | k in keys
        ensures !HasKey(items, k)
      {
        NoKey(k);
      }
    } else {
      ExceptExact(items[1..], keys);
      forall k | k in keys
        ensures HasKey(items, k) <==> items[0].0 == k || HasKey(items[1..], k)
      {
        HasKeyFirst(items, k);
      }
      assert items == [items[0]] + items[1..];
    }
  }

  lemma {:induction false} ExceptTwice(items: seq<Item>, a: set<CString>, b: set<CString>)
    ensures Except(Except(items, a), b) == Except(items, a + b)
  {
    if items != [] {
      var rest := Except(items[1..], a);
      ExceptTwice(items[1..], a, b);
      if items[0].0 !in a {
        assert ([items[0]] + rest)[1..] == rest;
      } else {
        assert [] + rest == rest;
      }
    }
  }

  /** Keys that no item has make no difference. */
  lemma ExceptAbsent(items: seq<Item>, a: set<CString>, b: set<CString>)
    requires forall k :: k in b ==> !HasKey(items, k)
    ensures Except(items, a + b) == Except(items, a)
  {
    hide HasKey;
    ExceptExact(items, b);
    ExceptTwice(items, b, a);
    assert a + b == b + a;
  }

  /** The key of a pair of this namespace. */
  function KeyIn(p: Pair, ns: CString): set<CString> {
    if p.ns == ns then {p.key} else {}
  }

  lemma KeyListed(cfg: KvCfg, m: Backend, ns: CString, es: seq<Entry>, key: CString)
    ensures HasKey(Items(cfg, m, ns, es), key) <==> Lists(es, Pair(ns, key)) && Lookup(cfg, m, Pair(ns, key)).Some?
  {
    hide Lookup, Lists, Items;
    var items := Items(cfg, m, ns, es);
    if HasKey(items, key) {
      var i :| 0 <= i < |items| && items[i].0 == key;
      assert (key, items[i].1) in items;
      ItemsSound(cfg, m, ns, es, key, items[i].1);
    }
    if Lists(es, Pair(ns, key)) && Lookup(cfg, m, Pair(ns, key)).Some? {
      ItemsSound(cfg, m, ns, es, key, Lookup(cfg, m, Pair(ns, key)).value);
    }
  }

  /** What the item of a key is, if it has a value. */
  function ItemOf(cfg: KvCfg, m: Backend, ns: CString, key: CString): seq<Item> {
    var v := Lookup(cfg, m, Pair(ns, key));
    if v.Some? then [(key, v.value)] else []
  }

  /** Entries of other namespaces yield nothing; the first of ns comes next. */
  lemma {:induction false} ItemsSkip(cfg: KvCfg, m: Backend, ns: CString, es: seq<Entry>, k: nat)
    requires k < |es| && es[k].pair.ns == ns
    requires forall i :: 0 <= i < k ==> es[i].pair.ns != ns
    ensures Items(cfg, m, ns, es) == ItemOf(cfg, m, ns, es[k].pair.key) + Items(cfg, m, ns, es[k + 1..])
  {
    hide Lookup;
    if k > 0 {
      ItemsSkip(cfg, m, ns, es[1..], k - 1);
      assert es[1..][k..] == es[k + 1..];
    }
  }

  lemma ItemsAhead(cfg: KvCfg, m: Backend, ns: CString, es: seq<Entry>, pos: nat, found: nat)
    requires pos <= found < |es| && es[found].pair.ns == ns
    requires forall i :: pos <= i < found ==> es[i].pair.ns != ns
    ensures Items(cfg, m, ns, Ahead(es, pos))
         == ItemOf(cfg, m, ns, es[found].pair.key) + Items(cfg, m, ns, Ahead(es, found + 1))
  {
    hide Items, ItemOf;
    ItemsSkip(cfg, m, ns, es[pos..], found - pos);
    assert es[pos..][found - pos + 1..] == es[found + 1..];
  }

  /** A pair that loses its value takes its item away. */
  lemma {:induction false} ItemsDeleted(cfg: KvCfg, m: Backend, m': Backend, ns: CString, es: seq<Entry>, p: Pair)
    requires forall q :: Lookup(cfg, m', q) == if q == p then None else Lookup(cfg, m, q)
    ensures Items(cfg, m', ns, es) == Except(Items(cfg, m, ns, es), KeyIn(p, ns))
  {
    hide Lookup;
    if es != [] {
      ItemsDeleted(cfg, m, m', ns, es[1..], p);
      var rest := Items(cfg, m, ns, es[1..]);
      var v := Lookup(cfg, m, es[0].pair);
      if es[0].pair.ns == ns && v.Some? {
        assert ([(es[0].pair.key, v.value)] + rest)[1..] == rest;
        assert es[0].pair.key in KeyIn(p, ns) <==> es[0].pair == p;
      } else {
        assert [] + rest == rest;
      }
    }
  }

  // ------------------------------------------------------------ gaps

  predicate Apart(es: seq<Entry>) {
    forall i, j :: 0 <= i < j < |es| ==> es[i].pair != es[j].pair
  }

  lemma ListApart(cfg: KvCfg, m: Backend, es: seq<Entry>, open: set<u32>)
    requires ListOk(cfg, m, es, open)
    ensures Apart(es)
  {
    hide Lookup, RecordId, ListOk;
    forall i, j | 0 <= i < j < |es|
      ensures es[i].pair != es[j].pair
    {
      EntriesApart(cfg, m, es, i, j, open);
    }
  }

  lemma EntriesApart(cfg: KvCfg, m: Backend, es: seq<Entry>, i: nat, j: nat, open: set<u32>)
    requires i < j < |es| && ListOk(cfg, m, es, open)
    ensures es[i].pair != es[j].pair
  {
    hide Lookup, RecordId;
    EntryId(cfg, m, es, i, open);
    EntryId(cfg, m, es, j, open);
  }

  lemma NotTwice(es: seq<Entry>, k: nat, pos: nat)
    requires Apart(es) && k < |es| && k < pos
    ensures !Lists(Ahead(es, pos), es[k].pair)
  {
    var rest := Ahead(es, pos);
    assert forall i :: 0 <= i < |rest| ==> rest[i] == es[pos + i];
  }

  lemma WithoutAhead(es: seq<Entry>, k: nat, pos: nat)
    requires k < |es|
    ensures Ahead(Without(es, k), pos) == if k < pos then Ahead(es, pos + 1) else Without(Ahead(es, pos), k - pos)
  {
  }

  /** The item of one entry, if it has one. */
  function ItemsFirst(cfg: KvCfg, m: Backend, ns: CString, e: Entry): (r: seq<Item>)
    ensures r == [] || (|r| == 1 && r[0].0 == e.pair.key && e.pair.ns == ns)
  {
    var v := Lookup(cfg, m, e.pair);
    if e.pair.ns == ns && v.Some? then [(e.pair.key, v.value)] else []
  }

  lemma ItemsStep(cfg: KvCfg, m: Backend, ns: CString, es: seq<Entry>)
    requires es != []
    ensures Items(cfg, m, ns, es) == ItemsFirst(cfg, m, ns, es[0]) + Items(cfg, m, ns, es[1..])
  {
    hide Lookup;
  }

  lemma ExceptFirst(first: seq<Item>, rest: seq<Item>, keys: set<CString>)
    requires |first| <= 1
    ensures Except(first + rest, keys)
         == (if first == [] || first[0].0 in keys then [] else first) + Except(rest, keys)
  {
    if first == [] {
      assert first + rest == rest;
    } else {
      assert (first + rest)[1..] == rest;
    }
  }

  /** An entry that goes takes its item with it. */
  lemma {:induction false} ItemsWithout(cfg: KvCfg, m: Backend, ns: CString, es: seq<Entry>, k: nat)
    requires k < |es| && Apart(es)
    ensures Items(cfg, m, ns, Without(es, k)) == Except(Items(cfg, m, ns, es), KeyIn(es[k].pair, ns))
  {
    hide Lookup, HasKey, Lists, Except, Items;
    var p := es[k].pair;
    var rest := Items(cfg, m, ns, es[1..]);
    ItemsStep(cfg, m, ns, es);
    ExceptFirst(ItemsFirst(cfg, m, ns, es[0]), rest, KeyIn(p, ns));
    if k == 0 {
      assert Without(es, k) == es[1..] == Ahead(es, 1);
      NotTwice(es, 0, 1);
      KeyListed(cfg, m, ns, es[1..], p.key);
      ExceptExact(rest, KeyIn(p, ns));
    } else {
      ItemsWithout(cfg, m, ns, es[1..], k - 1);
      var less := Without(es, k);
      assert less[1..] == Without(es[1..], k - 1) && less[0] == es[0];
      ItemsStep(cfg, m, ns, less);
      assert es[0].pair != p;
    }
  }

  /** The entry of p lies before pos, and the one at pos is of the namespace: when
      the table closes the gap of p, that one moves to before pos. */
  predicate Overtakes(es: seq<Entry>, ns: CString, pos: nat, p: Pair) {
    pos < |es| && es[pos].pair.ns == ns && Lists(es[..pos], p)
  }

  /** The key that a gap of p moves to before pos. */
  function Under(es: seq<Entry>, ns: CString, pos: nat, p: Pair): set<CString> {
    if Overtakes(es, ns, pos, p) then {es[pos].pair.key} else {}
  }

  lemma OvertakesAt(es: seq<Entry>, ns: CString, pos: nat, k: nat)
    requires Apart(es) && k < |es|
    ensures Overtakes(es, ns, pos, es[k].pair) <==> k < pos < |es| && es[pos].pair.ns == ns
  {
    if pos < |es| {
      assert forall i :: 0 <= i < pos ==> es[..pos][i] == es[i];
      if k < pos {
        assert es[..pos][k].pair == es[k].pair;
      }
    }
  }

  /** An entry goes and the gap closes: what a position has ahead loses the item of
      the entry, and the one that moves to before the position. */
  lemma GapCloses(cfg: KvCfg, m: Backend, ns: CString, es: seq<Entry>, k: nat, pos: nat)
    requires Apart(es) && k < |es|
    ensures Items(cfg, m, ns, Ahead(Without(es, k), pos))
         == Except(Items(cfg, m, ns, Ahead(es, pos)), Under(es, ns, pos, es[k].pair) + KeyIn(es[k].pair, ns))
  {
    hide Lookup, Without, Items, Except, HasKey, Lists, Overtakes;
    var p := es[k].pair;
    WithoutAhead(es, k, pos);
    OvertakesAt(es, ns, pos, k);
    if pos <= k {
      ItemsWithout(cfg, m, ns, es[pos..], k - pos);
      assert {} + KeyIn(p, ns) == KeyIn(p, ns);
    } else if pos < |es| {
      FirstWithout(es, pos);
      ItemsWithout(cfg, m, ns, es[pos..], 0);
      NotTwice(es, k, pos);
      KeyListed(cfg, m, ns, es[pos..], p.key);
      ExceptAbsent(Items(cfg, m, ns, es[pos..]), Under(es, ns, pos, p), KeyIn(p, ns));
    } else {
      assert Ahead(es, pos) == [] == Ahead(es, pos + 1);
      NoItems(cfg, m, ns, Under(es, ns, pos, p) + KeyIn(p, ns));
    }
  }

  lemma FirstWithout(es: seq<Entry>, pos: nat)
    requires pos < |es|
    ensures Without(es[pos..], 0) == es[pos + 1..] && Ahead(es, pos + 1) == es[pos + 1..]
  {
  }

  lemma NoItems(cfg: KvCfg, m: Backend, ns: CString, keys: set<CString>)
    ensures Items(cfg, m, ns, []) == [] == Except([], keys)
  {
  }

  lemma NotOvertaken(es: seq<Entry>, ns: CString, pos: nat, p: Pair)
    requires !Lists(es, p)
    ensures !Overtakes(es, ns, pos, p)
  {
    if pos <= |es| {
      assert forall i :: 0 <= i < pos ==> es[..pos][i] == es[i];
    }
  }

  lemma DeletedLookup(cfg: KvCfg, bad: set<u32>, m: Backend, m': Backend, p: Pair, q: Pair)
    requires Data(cfg, m') == Data(cfg, DeleteStore(cfg, bad, m, p))
    ensures Lookup(cfg, m', q)
         == if q == p && DeleteStatus(cfg, bad, m, p).Ok? then None else Lookup(cfg, m, q)
  {
    hide Lookup, RecordId, DeleteStatus, DeleteStore, Data;
    DeleteIsMapRemove(cfg, bad, m, p, q);
    SameData(cfg, m', DeleteStore(cfg, bad, m, p), q);
  }

  /** The key that is overtaken is still stored and was ahead. */
  lemma UnderStored(cfg: KvCfg, bad: set<u32>, m: Backend, m': Backend, ns: CString, es: seq<Entry>, pos: nat, p: Pair)
    requires ListOk(cfg, m, es, {}) && Overtakes(es, ns, pos, p)
    requires Data(cfg, m') == Data(cfg, DeleteStore(cfg, bad, m, p)) || Data(cfg, m') == Data(cfg, m)
    ensures HasKey(Items(cfg, m', ns, Ahead(es, pos)), es[pos].pair.key)
  {
    hide Lookup, RecordId, DeleteStatus, DeleteStore, Data, Items, HasKey;
    var k :| 0 <= k < pos && es[..pos][k].pair == p;
    assert EntryOk(cfg, m, es[pos], {});
    EntriesApart(cfg, m, es, k, pos, {});
    if Data(cfg, m') == Data(cfg, m) {
      SameData(cfg, m, m', es[pos].pair);
    } else {
      DeletedLookup(cfg, bad, m, m', p, es[pos].pair);
    }
    assert Ahead(es, pos)[0].pair == es[pos].pair;
    KeyListed(cfg, m', ns, Ahead(es, pos), es[pos].pair.key);
  }

  /** A delete of p while an iteration stands at pos: the iteration misses a stored
      key if and only if the gap of p moves one to before the position, and it misses
      that one only. */
  lemma DeleteWhileIterating(cfg: KvCfg, bad: set<u32>, m: Backend, m': Backend, ns: CString, es: seq<Entry>,
                             es': seq<Entry>, pos: nat, p: Pair)
    requires ListOk(cfg, m, es, {}) && DeleteStatus(cfg, bad, m, p).Ok? && Dropped(es, es', p)
    requires Data(cfg, m') == Data(cfg, DeleteStore(cfg, bad, m, p))
    ensures Items(cfg, m', ns, Ahead(es', pos)) == Except(Items(cfg, m', ns, Ahead(es, pos)), Under(es, ns, pos, p))
    ensures forall key :: key in Under(es, ns, pos, p) ==> HasKey(Items(cfg, m', ns, Ahead(es, pos)), key)
    ensures Items(cfg, m', ns, Ahead(es', pos)) == Items(cfg, m', ns, Ahead(es, pos)) <==> !Overtakes(es, ns, pos, p)
  {
    hide Lookup, RecordId, DeleteStatus, DeleteStore, Without, Data, ListOk, Items, Overtakes, Except, HasKey;
    var ahead := Items(cfg, m', ns, Ahead(es, pos));
    if Lists(es, p) {
      var k :| 0 <= k < |es| && es[k].pair == p;
      ListApart(cfg, m, es, {});
      GapCloses(cfg, m', ns, es, k, pos);
      DeletedLookup(cfg, bad, m, m', p, p);
      KeyListed(cfg, m', ns, Ahead(es, pos), p.key);
      ExceptAbsent(ahead, Under(es, ns, pos, p), KeyIn(p, ns));
    } else {
      NotOvertaken(es, ns, pos, p);
    }
    if Overtakes(es, ns, pos, p) {
      UnderStored(cfg, bad, m, m', ns, es, pos, p);
    }
    ExceptExact(ahead, Under(es, ns, pos, p));
  }

  /** A failed overwrite of p drops its entry although its record stays. The iteration
      misses a stored key if and only if the gap moves one to before the position, or
      p itself is of the namespace and was still ahead. */
  lemma OverwriteWhileIterating(cfg: KvCfg, m: Backend, m': Backend, ns: CString, es: seq<Entry>,
                                es': seq<Entry>, pos: nat, p: Pair)
    requires ListOk(cfg, m, es, {}) && Lists(es, p) && Dropped(es, es', p) && Data(cfg, m') == Data(cfg, m)
    ensures Items(cfg, m', ns, Ahead(es', pos))
         == Except(Items(cfg, m', ns, Ahead(es, pos)), Under(es, ns, pos, p) + KeyIn(p, ns))
    ensures Items(cfg, m', ns, Ahead(es', pos)) == Items(cfg, m', ns, Ahead(es, pos))
            <==> !Overtakes(es, ns, pos, p) && !(p.ns == ns && Lists(Ahead(es, pos), p))
  {
    hide Lookup, RecordId, Without, Data, ListOk, Items, Overtakes, Except, HasKey;
    var ahead := Items(cfg, m', ns, Ahead(es, pos));
    var k :| 0 <= k < |es| && es[k].pair == p;
    ListApart(cfg, m, es, {});
    GapCloses(cfg, m', ns, es, k, pos);
    ListedValue(cfg, m, es, k);
    SameData(cfg, m, m', p);
    KeyListed(cfg, m', ns, Ahead(es, pos), p.key);
    if Overtakes(es, ns, pos, p) {
      UnderStored(cfg, {}, m, m', ns, es, pos, p);
    }
    ExceptExact(ahead, Under(es, ns, pos, p) + KeyIn(p, ns));
  }

  lemma ListedValue(cfg: KvCfg, m: Backend, es: seq<Entry>, k: nat)
    requires ListOk(cfg, m, es, {}) && k < |es|
    ensures Lookup(cfg, m, es[k].pair).Some?
  {
    assert EntryOk(cfg, m, es[k], {});
  }

  // ------------------------------------------------------------ races

  /** The table without the entry of p. */
  ghost function Drop(es: seq<Entry>, p: Pair): seq<Entry> {
    if Lists(es, p) then
      var k :| 0 <= k < |es| && es[k].pair == p;
      Without(es, k)
    else es
  }

  lemma DropIs(es: seq<Entry>, es': seq<Entry>, p: Pair)
    requires Dropped(es, es', p)
    ensures es' == Drop(es, p)
  {
  }

  /** What is left of a run of tries: the stored data, the table, the position, and
      the keys of the namespace that were moved to before it. */
  datatype Race = Race(data: Backend, table: seq<Entry>, pos: nat, skipped: set<CString>)

  /** Whether the delete of a rival takes effect. */
  predicate Takes(cfg: KvCfg, bad: set<u32>, r: Race, p: Pair) {
    DeleteStatus(cfg, bad, r.data, p).Ok?
  }

  /** The key that a rival moves to before the position, while the first entry of ns at
      or after it is being read. */
  function Skips(cfg: KvCfg, bad: set<u32>, r: Race, ns: CString, p: Pair): set<CString> {
    if Takes(cfg, bad, r, p) then Under(r.table, ns, FirstIn(r.table, ns, r.pos) + 1, p) else {}
  }

  /** One try in which a rival deletes p: a key it deletes is no longer missed. */
  ghost function RaceStep(cfg: KvCfg, bad: set<u32>, r: Race, ns: CString, p: Pair): Race {
    Race(DeleteStore(cfg, bad, r.data, p),
         if Takes(cfg, bad, r, p) then Drop(r.table, p) else r.table,
         FirstIn(r.table, ns, r.pos) + 1,
         r.skipped + Skips(cfg, bad, r, ns, p) - if Takes(cfg, bad, r, p) then KeyIn(p, ns) else {})
  }

  /** The tries in which these rivals act, one in each. */
  ghost function RaceOf(cfg: KvCfg, bad: set<u32>, r: Race, ns: CString, rivals: seq<Pair>): Race {
    if rivals == [] then r
    else RaceStep(cfg, bad, RaceOf(cfg, bad, r, ns, rivals[..|rivals| - 1]), ns, rivals[|rivals| - 1])
  }

  lemma RaceNone(cfg: KvCfg, bad: set<u32>, r: Race, ns: CString, rivals: seq<Pair>)
    ensures RaceOf(cfg, bad, r, ns, rivals[..0]) == r
  {
  }

  lemma RaceNext(cfg: KvCfg, bad: set<u32>, r: Race, ns: CString, rivals: seq<Pair>, n: nat)
    requires n < |rivals|
    ensures RaceOf(cfg, bad, r, ns, rivals[..n + 1])
         == RaceStep(cfg, bad, RaceOf(cfg, bad, r, ns, rivals[..n]), ns, rivals[n])
  {
    hide RaceStep;
    assert rivals[..n + 1][..n] == rivals[..n];
  }

  /** From one try to the next: missed is what was missed and is still stored, or is
      missed now. */
  lemma SkipMore(x: seq<Item>, l: seq<Item>, m: set<CString>, d: set<CString>, s: set<CString>, rest: seq<Item>)
    requires Except(x, m) == l && Except(Except(l, d), s) == rest
    requires forall k :: k in m ==> HasKey(x, k)
    requires forall k :: k in s ==> HasKey(Except(l, d), k)
    ensures Except(Except(x, d), m + s - d) == rest
    ensures forall k :: k in m + s - d ==> HasKey(Except(x, d), k)
  {
    hide Except, HasKey;
    var y := Except(x, d);
    ExceptTwice(x, m, d);
    ExceptTwice(x, d, m);
    assert m + d == d + m;
    ExceptTwice(y, m, s);
    forall k
      ensures HasKey(y, k) <==> HasKey(x, k) && k !in d
      ensures HasKey(Except(l, d), k) <==> HasKey(l, k) && k !in d
      ensures HasKey(l, k) <==> HasKey(x, k) && k !in m
    {
      ExceptHas(x, d, k);
      ExceptHas(l, d, k);
      ExceptHas(x, m, k);
    }
    ExceptAbsent(y, m + s - d, (m + s) * d);
    assert (m + s - d) + (m + s) * d == m + s;
  }

  lemma {:induction false} ItemsOfData(cfg: KvCfg, m: Backend, m': Backend, ns: CString, es: seq<Entry>)
    requires forall q :: Lookup(cfg, m', q) == Lookup(cfg, m, q)
    ensures Items(cfg, m', ns, es) == Items(cfg, m, ns, es)
  {
    hide Lookup;
    if es != [] {
      ItemsOfData(cfg, m, m', ns, es[1..]);
    }
  }

  /** What a rival's delete does to the items of any entries. */
  lemma ItemsAfter(cfg: KvCfg, bad: set<u32>, m: Backend, m': Backend, ns: CString, es: seq<Entry>, r: Race, p: Pair)
    requires WfCfg(cfg) && PairOk(cfg, p)
    requires Data(cfg, m) == r.data && Data(cfg, m') == DeleteStore(cfg, bad, r.data, p)
    ensures Items(cfg, m', ns, es)
         == Except(Items(cfg, m, ns, es), if Takes(cfg, bad, r, p) then KeyIn(p, ns) else {})
  {
    hide Lookup, RecordId, DeleteStatus, DeleteStore, Data, Items, Except;
    OpsOnData(cfg, bad, m, p, []);
    forall q
      ensures Lookup(cfg, m', q) == if q == p && Takes(cfg, bad, r, p) then None else Lookup(cfg, m, q)
    {
      DeletedLookup(cfg, bad, m, m', p, q);
    }
    if Takes(cfg, bad, r, p) {
      ItemsDeleted(cfg, m, m', ns, es, p);
    } else {
      ItemsOfData(cfg, m, m', ns, es);
      ExceptExact(Items(cfg, m, ns, es), {});
    }
  }

  /** The race that begins where r stands. */
  ghost function Afresh(r: Race): Race {
    r.(skipped := {})
  }

  lemma StepAfresh(cfg: KvCfg, bad: set<u32>, r: Race, ns: CString, p: Pair)
    ensures Afresh(RaceStep(cfg, bad, r, ns, p)) == Afresh(RaceStep(cfg, bad, Afresh(r), ns, p))
    ensures Skips(cfg, bad, r, ns, p) == Skips(cfg, bad, Afresh(r), ns, p)
    ensures RaceStep(cfg, bad, r, ns, p).data == DeleteStore(cfg, bad, r.data, p)
  {
    hide DeleteStore, DeleteStatus, Drop, Under, FirstIn;
  }

  /** One try more in a race. now is what the position had ahead before it, at first
      what the first position had. */
  lemma RaceMore(cfg: KvCfg, bad: set<u32>, m: Backend, m': Backend, ns: CString, atFirst: seq<Entry>, now: seq<Entry>,
                 r: Race, p: Pair, rest: seq<Item>)
    requires WfCfg(cfg) && PairOk(cfg, p)
    requires Data(cfg, m) == r.data && Data(cfg, m') == RaceStep(cfg, bad, Afresh(r), ns, p).data
    requires Except(Items(cfg, m, ns, atFirst), r.skipped) == Items(cfg, m, ns, now)
    requires forall k :: k in r.skipped ==> HasKey(Items(cfg, m, ns, atFirst), k)
    requires Except(Items(cfg, m', ns, now), Skips(cfg, bad, Afresh(r), ns, p)) == rest
    requires forall k :: k in Skips(cfg, bad, Afresh(r), ns, p) ==> HasKey(Items(cfg, m', ns, now), k)
    ensures var r' := RaceStep(cfg, bad, r, ns, p);
            && Afresh(r') == Afresh(RaceStep(cfg, bad, Afresh(r), ns, p))
            && Except(Items(cfg, m', ns, atFirst), r'.skipped) == rest
            && forall k :: k in r'.skipped ==> HasKey(Items(cfg, m', ns, atFirst), k)
  {
    hide Lookup, RecordId, DeleteStore, Data, Items, Except, HasKey, Skips, Takes;
    StepAfresh(cfg, bad, r, ns, p);
    ItemsAfter(cfg, bad, m, m', ns, atFirst, r, p);
    ItemsAfter(cfg, bad, m, m', ns, now, r, p);
    SkipMore(Items(cfg, m, ns, atFirst), Items(cfg, m, ns, now), r.skipped,
             if Takes(cfg, bad, r, p) then KeyIn(p, ns) else {}, Skips(cfg, bad, r, ns, p), rest);
  }

  /** A try that found its entry, while a rival deletes p before it reads the record. */
  lemma TryMisses(cfg: KvCfg, bad: set<u32>, m: Backend, m': Backend, ns: CString, es: seq<Entry>, es': seq<Entry>,
                  pos: nat, found: nat, p: Pair)
    requires ListOk(cfg, m, es, {}) && pos <= found < |es| && es[found].pair.ns == ns
    requires forall i :: pos <= i < found ==> es[i].pair.ns != ns
    requires Data(cfg, m') == Data(cfg, DeleteStore(cfg, bad, m, p))
    requires if DeleteStatus(cfg, bad, m, p).Ok? then Dropped(es, es', p) else es' == es
    ensures var skips := if DeleteStatus(cfg, bad, m, p).Ok? then Under(es, ns, FirstIn(es, ns, pos) + 1, p) else {};
            && FirstIn(es, ns, pos) == found
            && Except(Items(cfg, m', ns, Ahead(es, pos)), skips)
               == ItemOf(cfg, m', ns, es[found].pair.key) + Items(cfg, m', ns, Ahead(es', found + 1))
            && forall key :: key in skips ==> HasKey(Items(cfg, m', ns, Ahead(es, pos)), key)
  {
    hide Lookup, RecordId, DeleteStatus, DeleteStore, Dropped, Data, ListOk, Items, Overtakes, ItemOf, Ahead, FirstIn,
         Except, HasKey;
    FirstFound(es, ns, pos, found);
    ItemsAhead(cfg, m', ns, es, pos, found);
    var first, rest := ItemOf(cfg, m', ns, es[found].pair.key), Items(cfg, m', ns, Ahead(es, found + 1));
    if DeleteStatus(cfg, bad, m, p).Ok? {
      var skips := Under(es, ns, found + 1, p);
      DeleteWhileIterating(cfg, bad, m, m', ns, es, es', found + 1, p);
      OneItem(cfg, m', ns, es[found].pair.key);
      ExceptFirst(first, rest, skips);
      NotItself(cfg, m, es, ns, found, p);
      forall key | key in skips
        ensures HasKey(first + rest, key)
      {
        HasKeyAfter(first, rest, key);
      }
    } else {
      ExceptExact(first + rest, {});
    }
  }

  lemma OneItem(cfg: KvCfg, m: Backend, ns: CString, key: CString)
    ensures var r := ItemOf(cfg, m, ns, key); r == [] || (|r| == 1 && r[0].0 == key)
  {
  }

  lemma NotItself(cfg: KvCfg, m: Backend, es: seq<Entry>, ns: CString, found: nat, p: Pair)
    requires ListOk(cfg, m, es, {}) && found < |es| && es[found].pair.ns == ns
    ensures es[found].pair.key !in Under(es, ns, found + 1, p)
  {
    hide ListOk;
    if found + 1 < |es| {
      EntriesApart(cfg, m, es, found, found + 1, {});
    }
  }

  lemma HasKeyAfter(first: seq<Item>, rest: seq<Item>, key: CString)
    requires HasKey(rest, key)
    ensures HasKey(first + rest, key)
  {
    var i :| 0 <= i < |rest| && rest[i].0 == key;
    assert (first + rest)[|first| + i].0 == key;
  }

  // ------------------------------------------------------------ positions

  lemma WithoutIn(es: seq<Entry>, k: nat, e: Entry)
    requires k < |es| && e in Without(es, k)
    ensures e in es
  {
  }

  lemma AheadDropped(es: seq<Entry>, es': seq<Entry>, pos: nat, p: Pair, e: Entry)
    requires Dropped(es, es', p) && e in Ahead(es', pos)
    ensures e in Ahead(es, pos)
  {
    hide Without;
    if Lists(es, p) {
      var k :| 0 <= k < |es| && es[k].pair == p;
      WithoutAhead(es, k, pos);
      if pos <= k {
        WithoutIn(Ahead(es, pos), k - pos, e);
      }
    }
  }

  lemma {:induction false} ItemsNone(cfg: KvCfg, m: Backend, ns: CString, es: seq<Entry>)
    requires forall i :: 0 <= i < |es| ==> es[i].pair.ns != ns
    ensures Items(cfg, m, ns, es) == []
  {
    hide Lookup;
    if es != [] {
      ItemsNone(cfg, m, ns, es[1..]);
    }
  }

  /** A step reports a current value, cut to the capacity, or why it has none. */
  predicate Stepped(cfg: KvCfg, m: Backend, ns: CString, keyCap: nat, cap: nat,
                    rc: Status, key: CString, len: nat, out: seq<byte>) {
    var v := Lookup(cfg, m, Pair(ns, key));
    match rc
    case Ok => v.Some? && |key| < keyCap && len == |v.value| && out == v.value[..if len < cap then len else cap]
    case NoMem => v.Some? && keyCap <= |key| && len == 0
    case NotFound => len == 0
    case _ => false
  }

  lemma NothingAhead(cfg: KvCfg, m: Backend, ns: CString, es: seq<Entry>, pos: nat)
    requires forall i :: pos <= i < |es| ==> es[i].pair.ns != ns
    ensures Items(cfg, m, ns, Ahead(es, pos)) == [] == Items(cfg, m, ns, Ahead(es, |es|))
    ensures Ahead(es, |es|) == []
  {
    hide Lookup;
    ItemsNone(cfg, m, ns, Ahead(es, pos));
  }

  lemma DeletedData(cfg: KvCfg, bad: set<u32>, m: Backend, m': Backend, p: Pair, rc: Status)
    requires WfCfg(cfg) && PairOk(cfg, p) && rc == DeleteStatus(cfg, bad, m, p)
    requires Data(cfg, m') == if rc.Ok? then DeleteStore(cfg, bad, Data(cfg, m), p) else Data(cfg, m)
    ensures Data(cfg, m') == Data(cfg, DeleteStore(cfg, bad, m, p)) == DeleteStore(cfg, bad, Data(cfg, m), p)
    ensures rc == DeleteStatus(cfg, bad, Data(cfg, m), p)
  {
    hide Lookup, RecordId, Data, DeleteStore, DeleteStatus;
    OpsOnData(cfg, bad, m, p, []);
    DeleteIsMapRemove(cfg, bad, m, p, p);
  }

  /** A try of the iteration as a step of a race. */
  lemma TryRaced(cfg: KvCfg, bad: set<u32>, m: Backend, m': Backend, ns: CString, es: seq<Entry>, es': seq<Entry>,
                 pos: nat, found: nat, p: Pair, rc: Status)
    requires WfCfg(cfg) && PairOk(cfg, p) && rc == DeleteStatus(cfg, bad, m, p)
    requires ListOk(cfg, m, es, {}) && pos <= found < |es| && es[found].pair.ns == ns
    requires forall i :: pos <= i < found ==> es[i].pair.ns != ns
    requires Data(cfg, m') == if rc.Ok? then DeleteStore(cfg, bad, Data(cfg, m), p) else Data(cfg, m)
    requires if rc.Ok? then Dropped(es, es', p) else es' == es
    ensures var r := Race(Data(cfg, m), es, pos, {});
            && Race(Data(cfg, m'), es', found + 1, {}) == Afresh(RaceStep(cfg, bad, r, ns, p))
            && Except(Items(cfg, m', ns, Ahead(es, pos)), Skips(cfg, bad, r, ns, p))
               == ItemOf(cfg, m', ns, es[found].pair.key) + Items(cfg, m', ns, Ahead(es', found + 1))
            && forall key :: key in Skips(cfg, bad, r, ns, p) ==> HasKey(Items(cfg, m', ns, Ahead(es, pos)), key)
  {
    hide Lookup, RecordId, DeleteStatus, DeleteStore, Dropped, Data, ListOk, Items, Under, ItemOf, Ahead, FirstIn,
         Except, HasKey, Drop;
    DeletedData(cfg, bad, m, m', p, rc);
    TryMisses(cfg, bad, m, m', ns, es, es', pos, found, p);
    if rc.Ok? {
      DropIs(es, es', p);
    }
  }

  /** The entry at the position is passed: nothing ahead names its pair. */
  lemma EntryPassed(cfg: KvCfg, m: Backend, es: seq<Entry>, pos: nat, found: nat)
    requires ListOk(cfg, m, es, {}) && pos <= found < |es|
    ensures forall e :: e in Ahead(es, found + 1) ==> e in Ahead(es, pos)
    ensures Lists(Ahead(es, pos), es[found].pair) && !Lists(Ahead(es, found + 1), es[found].pair)
  {
    hide ListOk;
    forall i | found < i < |es|
      ensures es[i] in Ahead(es, pos) && es[i].pair != es[found].pair
    {
      EntriesApart(cfg, m, es, found, i, {});
      assert Ahead(es, pos)[i - pos] == es[i];
    }
    var rest := Ahead(es, found + 1);
    assert forall i :: 0 <= i < |rest| ==> rest[i] == es[found + 1 + i];
    assert Ahead(es, pos)[found - pos] == es[found];
  }

  lemma PassedDropped(cfg: KvCfg, m: Backend, es: seq<Entry>, es': seq<Entry>, pos: nat, found: nat, p: Pair)
    requires ListOk(cfg, m, es, {}) && pos <= found < |es| && (es' == es || Dropped(es, es', p))
    ensures forall e :: e in Ahead(es', found + 1) ==> e in Ahead(es, pos)
    ensures Lists(Ahead(es, pos), es[found].pair) && !Lists(Ahead(es', found + 1), es[found].pair)
    ensures |es'| <= |es|
  {
    hide ListOk, Lists;
    EntryPassed(cfg, m, es, pos, found);
    var rest := Ahead(es', found + 1);
    forall e | e in rest
      ensures e in Ahead(es, found + 1)
    {
      if es' != es {
        AheadDropped(es, es', found + 1, p, e);
      }
    }
    ListsMore(rest, Ahead(es, found + 1), es[found].pair);
    DroppedLen(es, es', p);
  }

  lemma ListsMore(a: seq<Entry>, b: seq<Entry>, p: Pair)
    requires forall e :: e in a ==> e in b
    ensures Lists(a, p) ==> Lists(b, p)
  {
    if Lists(a, p) {
      var i :| 0 <= i < |a| && a[i].pair == p;
      assert a[i] in b;
    }
  }

  lemma NoItem(cfg: KvCfg, m: Backend, ns: CString, key: CString, rest: seq<(CString, seq<byte>)>)
    ensures Lookup(cfg, m, Pair(ns, key)).None? ==> ItemOf(cfg, m, ns, key) + rest == [] + rest
  {
  }

  lemma DroppedLen(es: seq<Entry>, es': seq<Entry>, p: Pair)
    requires es' == es || Dropped(es, es', p)
    ensures |es'| <= |es|
  {
    hide Without;
    if Lists(es, p) {
      var k :| 0 <= k < |es| && es[k].pair == p;
      WithoutLen(es, k);
    }
  }

  /** A try that no rival disturbs. */
  lemma Untouched(cfg: KvCfg, m: Backend, ns: CString, es: seq<Entry>, pos: nat, found: nat)
    requires ListOk(cfg, m, es, {}) && pos <= found < |es| && es[found].pair.ns == ns
    requires forall i :: pos <= i < found ==> es[i].pair.ns != ns
    ensures Items(cfg, m, ns, Ahead(es, pos))
         == ItemOf(cfg, m, ns, es[found].pair.key) + Items(cfg, m, ns, Ahead(es, found + 1))
    ensures forall e :: e in Ahead(es, found + 1) ==> e in Ahead(es, pos)
    ensures Lists(Ahead(es, pos), es[found].pair) && !Lists(Ahead(es, found + 1), es[found].pair)
  {
    hide ListOk, Lists, Items, ItemOf;
    EntryPassed(cfg, m, es, pos, found);
    ItemsAhead(cfg, m, ns, es, pos, found);
  }
}
