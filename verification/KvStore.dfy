/** The key-value store as it runs: a backend of records written one at a time,
    the key table in RAM, and the reserved record that persists the table. Every
    backend state a crash could leave behind is remembered in crashes. */
module KvStore {
  import opened Bytes
  import opened KvRecord
  import opened KvSpec
  import opened KvIndex
  import opened KvIteration

  class Store {
    const cfg: KvCfg
    /** Slots whose backend writes and deletes fail; never the index slot. */
    const bad: set<u32>
    var store: Backend
    var loaded: bool
    const entries: array<Entry>
    var count: nat
    ghost var crashes: set<Backend>
    /** Slots set while the table was full, or dropped from it by a failed
        overwrite. */
    ghost var missed: set<u32>

    ghost predicate Table()
      reads this`count, entries
    {
      WfCfg(cfg) && IndexId(cfg) !in bad && entries.Length == cfg.maxEntries && count <= cfg.maxEntries
    }

    ghost function List(): seq<Entry>
      requires Table()
      reads this`count, entries
    {
      entries[..count]
    }

    /** The stored index is the table, once there is one. */
    ghost predicate Indexed()
      requires Table()
      reads this`count, this`loaded, this`store, entries
    {
      if loaded then ReadIndex(cfg, store) == Ids(List()) else count == 0
    }

    /** Whatever a crash left, a restart finds every key but the missed ones. */
    ghost predicate CrashSafe()
      reads this`crashes, this`missed, this`store
    {
      store in crashes && forall c :: c in crashes ==> Sound(cfg, c) && Lost(cfg, c) <= missed
    }

    /** Valid, except that the pair listed for an open slot may have no value. */
    ghost predicate ValidBut(open: set<u32>)
      reads this, entries
    {
      Table() && Indexed() && ListOk(cfg, store, List(), open) && CrashSafe()
    }

    ghost predicate Valid()
      reads this, entries
    {
      ValidBut({})
    }

    /** Mounting a backend in a state that some earlier crash or shutdown left. */
    constructor (cfg: KvCfg, bad: set<u32>, store: Backend, ghost missed: set<u32>)
      requires WfCfg(cfg) && IndexId(cfg) !in bad
      requires Sound(cfg, store) && Lost(cfg, store) <= missed
      ensures Valid() && fresh(entries) && !loaded
      ensures this.cfg == cfg && this.bad == bad && this.store == store && this.missed == missed
      ensures crashes == {store}
    {
      hide Sound, Lost, EntryOk;
      this.cfg := cfg;
      this.bad := bad;
      this.store := store;
      loaded := false;
      entries := new Entry[cfg.maxEntries](_ => Entry(Pair([], []), 0));
      count := 0;
      crashes := {store};
      this.missed := missed;
    }

    /** Reports the stored length even when it exceeds the buffer. */
    method BackendRead(id: u32, cap: nat) returns (rd: int, buf: seq<byte>)
      ensures id in store ==> rd == |store[id]| && buf == (if |store[id]| < cap then store[id] else store[id][..cap])
      ensures id !in store ==> rd < 0 && buf == []
    {
      if id !in store {
        return -2, [];
      }
      rd := |store[id]|;
      buf := if rd < cap then store[id] else store[id][..cap];
    }

    /** Reports zero bytes written when the slot already holds the same bytes. */
    method BackendWrite(id: u32, data: seq<byte>) returns (wr: int)
      modifies this`store, this`crashes
      ensures id in old(store) && old(store)[id] == data ==> wr == 0 && store == old(store)
      ensures !(id in old(store) && old(store)[id] == data) ==>
                if id in bad then wr < 0 && store == old(store)
                else wr == |data| && store == old(store)[id := data]
      ensures crashes == old(crashes) + {store}
    {
      if id in store && store[id] == data {
        wr := 0;
      } else if id in bad {
        wr := -5;
      } else {
        store := store[id := data];
        wr := |data|;
      }
      crashes := crashes + {store};
    }

    method BackendDelete(id: u32) returns (rc: int)
      modifies this`store, this`crashes
      ensures rc < 0 <==> id in bad
      ensures store == if id in bad then old(store) else old(store) - {id}
      ensures crashes == old(crashes) + {store}
    {
      if id in bad {
        rc := -5;
      } else {
        store := store - {id};
        rc := 0;
      }
      crashes := crashes + {store};
    }

    method IndexStore()
      requires Table()
      modifies this`store, this`crashes
      ensures store == PutIndex(cfg, old(store), Ids(List()))
      ensures crashes == old(crashes) + {store}
    {
      hide IndexIds, ReadIndex, Words;
      ghost var ids := Ids(List());
      ghost var head := [INDEX_TAG, INDEX_VERSION] + Put16(count);
      var buf := [INDEX_TAG, INDEX_VERSION] + Put16(count);
      WordsUpTo(ids, 0);
      var i := 0;
      while i < count
        modifies {}
        invariant i <= count
        invariant buf == head + Words(ids[..i])
      {
        WordsUpTo(ids, i + 1);
        buf := buf + Put32(entries[i].id);
        assert buf == head + (Words(ids[..i]) + Put32(ids[i]));
        i := i + 1;
      }
      assert ids[..i] == ids;
      assert buf == IndexBytes(ids);
      var _ := BackendWrite(IndexId(cfg), buf);
    }

    /** Reads one listed record back; nothing when it is not a v2 record. */
    method ReadEntry(id: u32) returns (e: Option<Entry>)
      requires WfCfg(cfg) && Placed(cfg, store)
      requires IndexId(cfg) in store ==> Parse(store[IndexId(cfg)]).None?
      ensures e.Some? <==> id in Keys(cfg, store)
      ensures e.Some? ==> e.value == Entry(PairAt(cfg, store, id), id)
    {
      var rd, buf := BackendRead(id, cfg.block);
      if rd < REC_HDR {
        return None;
      }
      assert id != IndexId(cfg) ==> PlacedAt(cfg, id, store[id]);
      var n, k := buf[1], buf[2];
      if buf[0] != REC_TAG || n == 0 || k == 0 || n > cfg.maxKeyLen || k > cfg.maxKeyLen || REC_HDR + n + k > rd {
        return None;
      }
      assert buf == store[id];
      assert Parse(buf).Some? && buf[REC_HDR..REC_HDR + n] == Parse(buf).value.ns;
      assert buf[REC_HDR + n..REC_HDR + n + k] == Parse(buf).value.key;
      e := Some(Entry(Pair(buf[REC_HDR..REC_HDR + n], buf[REC_HDR + n..REC_HDR + n + k]), id));
    }

    /** Builds the table from the stored index on first use, and prunes ids whose
        record is gone. Afterwards the table lists exactly the stored keys the
        index knew, and nothing is lost by it. */
    method Load()
      requires Valid()
      modifies this, entries
      ensures Valid() && loaded && missed == old(missed)
      ensures Data(cfg, store) == Data(cfg, old(store)) && Lost(cfg, store) == Lost(cfg, old(store))
      ensures Live(cfg, store) == Live(cfg, old(store)) == Ids(List())
      ensures old(loaded) ==> List() == old(List())
      ensures forall c :: c in crashes ==> c in old(crashes) || c == store
    {
      hide IndexIds, EntryOk, Keys, Placed, PlacedAt, Data, IndexBytes;
      if loaded {
        ListedKeys(cfg, store, List());
        KeptAll(cfg, store, ReadIndex(cfg, store));
        return;
      }
      ghost var ids := ReadIndex(cfg, store);
      LiveFacts(cfg, store);
      var pruned := ReadIds(ids);
      loaded := true;
      if pruned {
        PutIndexFacts(cfg, store, Ids(List()));
        PutIndexLists(cfg, store, Ids(List()), List(), {});
        IndexStore();
        LiveFacts(cfg, store);
        ListedKeys(cfg, store, List());
        KeptAll(cfg, store, ReadIndex(cfg, store));
      }
    }

    /** Adds the pair a listed record names, or reports that there is none. */
    method TakeId(ghost done: seq<u32>, id: u32) returns (gone: bool)
      requires Table() && count < cfg.maxEntries && Placed(cfg, store)
      requires IndexId(cfg) in store ==> Parse(store[IndexId(cfg)]).None?
      requires Ids(List()) == Kept(cfg, store, done) && ListOk(cfg, store, List(), {})
      requires id !in Kept(cfg, store, done)
      modifies this`count, entries
      ensures Table() && count == old(count) + if gone then 0 else 1
      ensures Ids(List()) == Kept(cfg, store, done + [id]) && ListOk(cfg, store, List(), {})
    {
      hide ListOk, Keys, Kept, Placed, PlacedAt, Lookup, Parse, PairAt, Ids;
      ghost var es := List();
      TakeStep(cfg, store, done, id, es);
      var e := ReadEntry(id);
      gone := e.None?;
      if e.Some? {
        entries[count] := e.value;
        count := count + 1;
        assert List() == es + [e.value];
      }
    }

    /** Reads the index record; n is none when there is no readable one. */
    method ReadHeader() returns (n: Option<nat>, buf: seq<byte>)
      requires WfCfg(cfg)
      ensures n.None? ==> ReadIndex(cfg, store) == []
      ensures n.Some? ==> n.value == |ReadIndex(cfg, store)| && INDEX_HDR + 4 * n.value <= |buf|
      ensures n.Some? ==> forall i :: 0 <= i < n.value ==> WordAt(buf, i) == ReadIndex(cfg, store)[i]
      ensures n.Some? ==> IndexId(cfg) in store && Parse(store[IndexId(cfg)]).None?
    {
      var rd: int;
      rd, buf := BackendRead(IndexId(cfg), INDEX_HDR + 4 * cfg.maxEntries);
      if rd < INDEX_HDR {
        return None, buf;
      }
      if buf[0] != INDEX_TAG || buf[1] != INDEX_VERSION {
        return None, buf;
      }
      ghost var rec := store[IndexId(cfg)];
      assert buf == rec[..|buf|];
      PrefixSlice(rec, |buf|, 2, 4);
      var c := Get16(buf[2..4]);
      if c > cfg.maxEntries {
        c := cfg.maxEntries;
      }
      if INDEX_HDR + 4 * c > rd {
        return None, buf;
      }
      assert IndexCount(cfg, rec) == Some(c);
      forall i | 0 <= i < c
        ensures WordAt(buf, i) == WordAt(rec, i)
      {
        PrefixSlice(rec, |buf|, INDEX_HDR + 4 * i, INDEX_HDR + 4 * i + 4);
      }
      n := Some(c);
    }

    /** The loop of the load: reads back every listed record in turn. */
    method ReadIds(ghost ids: seq<u32>) returns (pruned: bool)
      requires Table() && count == 0 && Sound(cfg, store) && ids == ReadIndex(cfg, store)
      modifies this`count, entries
      ensures Table() && Ids(List()) == Kept(cfg, store, ids) && ListOk(cfg, store, List(), {})
      ensures !pruned ==> Kept(cfg, store, ids) == ids
    {
      hide EntryOk, Keys, Placed, PlacedAt, Lookup, ReadIndex, Parse, WordAt;
      pruned := false;
      var n, buf := ReadHeader();
      if n.None? {
        return;
      }
      ghost var done: seq<u32> := [];
      var i := 0;
      while i < n.value
        invariant i <= n.value && Table() && count <= i && done == ids[..i]
        invariant Ids(List()) == Kept(cfg, store, done) && ListOk(cfg, store, List(), {})
        invariant !pruned ==> count == i
      {
        var id := WordAt(buf, i);
        assert done + [id] == ids[..i + 1];
        NotYetKept(cfg, store, ids, i);
        var gone := TakeId(done, id);
        pruned := pruned || gone;
        done := done + [id];
        i := i + 1;
      }
      assert done == ids;
      KeptDistinct(cfg, store, ids);
    }

    method FindEntry(p: Pair) returns (idx: int)
      requires Table()
      ensures -1 <= idx < count
      ensures idx >= 0 ==> entries[idx].pair == p
      ensures idx < 0 ==> forall i :: 0 <= i < count ==> entries[i].pair != p
    {
      var i := 0;
      while i < count
        invariant i <= count && forall j :: 0 <= j < i ==> entries[j].pair != p
      {
        if entries[i].pair == p {
          return i;
        }
        i := i + 1;
      }
      idx := -1;
    }

    /** Lists p ahead of its record. False when the table is full. */
    method TrackSet(p: Pair) returns (indexed: bool)
      requires Valid() && PairOk(cfg, p) && !Taken(cfg, store, p)
      modifies this, entries
      ensures ValidBut({RecordId(cfg, p)}) && loaded && missed == old(missed)
      ensures Data(cfg, store) == Data(cfg, old(store))
      ensures indexed == (RecordId(cfg, p) in Ids(List())) && Only(List(), RecordId(cfg, p), p)
      ensures indexed == Indexable(cfg, old(store), p)
      ensures old(loaded) ==> Tracked(cfg, old(List()), List(), p)
      ensures Lost(cfg, store) == Lost(cfg, old(store)) - if indexed then {RecordId(cfg, p)} else {}
      ensures forall c :: c in crashes ==> c in old(crashes) || Data(cfg, c) == Data(cfg, store)
    {
      hide Lookup, Taken, RecordId, Keys, Placed, PutIndex, Live, ReadIndex, Data, EntryOk;
      var id := RecordId(cfg, p);
      Load();
      ghost var es, m := List(), store;
      SameData(cfg, old(store), store, p);
      OnlyWhenFree(cfg, store, es, p);
      ListOpen(cfg, store, es, id);
      var idx := FindEntry(p);
      if idx >= 0 {
        EntryId(cfg, store, es, idx, {});
        entries[idx] := entries[idx].(id := id);
        assert List() == es;
        return true;
      }
      assert id !in Ids(es);
      if count >= cfg.maxEntries {
        return false;
      }
      AddKey(p);
      indexed := true;
    }

    /** Appends the entry of a new pair and writes the index. */
    method AddKey(p: Pair)
      requires Valid() && loaded && count < cfg.maxEntries && PairOk(cfg, p) && RecordId(cfg, p) !in Ids(List())
      modifies this, entries
      ensures ValidBut({RecordId(cfg, p)}) && loaded && missed == old(missed)
      ensures Data(cfg, store) == Data(cfg, old(store))
      ensures RecordId(cfg, p) in Ids(List()) && Only(List(), RecordId(cfg, p), p)
      ensures List() == old(List()) + [Entry(p, RecordId(cfg, p))]
      ensures Lost(cfg, store) == Lost(cfg, old(store)) - {RecordId(cfg, p)}
      ensures crashes == old(crashes) + {store}
    {
      hide Lookup, RecordId, Keys, Placed, PutIndex, Lost, ReadIndex, Data, EntryOk, ListOk, Only, Distinct;
      var e := Entry(p, RecordId(cfg, p));
      ghost var es := List();
      AddEntry(cfg, store, es, p);
      PutIndexFacts(cfg, store, Ids(es + [e]));
      IdsSnoc(es, e);
      entries[count] := e;
      count := count + 1;
      assert List() == es + [e];
      IndexStore();
    }

    /** Closes the gap the dropped entry leaves. */
    method Compact(idx: nat)
      requires Table() && idx < count
      modifies this`count, entries
      ensures Table() && List() == Without(old(List()), idx)
    {
      ghost var was := List();
      var i := idx;
      while i + 1 < count
        invariant idx <= i < count == |was|
        invariant forall j :: 0 <= j < count ==> entries[j] == was[if idx <= j < i then j + 1 else j]
      {
        entries[i] := entries[i + 1];
        i := i + 1;
      }
      GapClosed(was, entries[..count - 1], idx);
      count := count - 1;
      entries[count] := Entry(Pair([], []), 0);
    }

    /** Drops p from the table. A record still in its slot is no longer listed. */
    method TrackDelete(p: Pair)
      requires ValidBut({RecordId(cfg, p)}) && Only(List(), RecordId(cfg, p), p)
      requires loaded && RecordId(cfg, p) in Keys(cfg, store) ==> RecordId(cfg, p) in missed
      modifies this, entries
      ensures Valid() && loaded == old(loaded) && missed == old(missed)
      ensures Dropped(old(List()), List(), p)
      ensures Data(cfg, store) == Data(cfg, old(store))
      ensures Lost(cfg, store) == Lost(cfg, old(store)) + if loaded then {RecordId(cfg, p)} * Keys(cfg, old(store)) else {}
      ensures forall c :: c in crashes ==> c in old(crashes) || Data(cfg, c) == Data(cfg, store)
    {
      hide Lookup, RecordId, Keys, Placed, PutIndex, ReadIndex, Data, Without, Sound;
      ghost var id := RecordId(cfg, p);
      if !loaded || count == 0 {
        ListClosed(cfg, store, List(), p);
        return;
      }
      var idx := FindEntry(p);
      ghost var es, m := List(), store;
      if idx < 0 {
        assert id !in Ids(es);
        ListClosed(cfg, store, es, p);
        return;
      }
      DropEntry(cfg, m, es, idx, p);
      DroppedAt(cfg, m, es, idx, {id});
      WithoutLen(es, idx);
      PutIndexFacts(cfg, m, Ids(Without(es, idx)));
      Compact(idx);
      IndexStore();
    }

    /** Stores v under (ns, key). The pair is listed before its record is
        written, so a crash in between leaves a listed id without a record, never
        an unlisted record. */
    method Set(ns: CString, key: CString, v: seq<byte>) returns (rc: Status, indexed: bool)
      requires Valid() && NameOk(cfg, ns)
      modifies this, entries
      ensures Valid()
      ensures rc.Inval? <==> !(0 < |key| <= cfg.maxKeyLen)
      ensures NameOk(cfg, key) ==> rc == SetStatus(cfg, bad, old(store), Pair(ns, key), v)
      ensures rc.Ok? ==>
                (indexed <==> RecordId(cfg, Pair(ns, key)) in Live(cfg, old(store)) || |Live(cfg, old(store))| < cfg.maxEntries)
      ensures rc.Ok? ==> (indexed <==> Lists(List(), Pair(ns, key)))
      ensures Data(cfg, store) == (if rc.Ok? then SetStore(cfg, bad, Data(cfg, old(store)), Pair(ns, key), v)
                                   else Data(cfg, old(store)))
      ensures Lost(cfg, store) == LostAfterSet(cfg, old(store), Pair(ns, key), rc, indexed)
      ensures missed == old(missed) + MissedBySet(cfg, old(store), Pair(ns, key), rc, indexed)
      ensures forall c :: c in crashes ==>
                c in old(crashes) || Data(cfg, c) == Data(cfg, old(store)) || Data(cfg, c) == Data(cfg, store)
      ensures !rc.Ok? && !rc.Io? ==> store == old(store) && List() == old(List())
      ensures old(loaded) && rc.Ok? ==> Tracked(cfg, old(List()), List(), Pair(ns, key))
      ensures old(loaded) && rc.Io? ==> Dropped(old(List()), List(), Pair(ns, key))
    {
      hide Lookup, RecordId, RecordCheck, Keys, Placed, ReadIndex, Data, ListOk, Only, Distinct, Lost, Live, Build, Ids;
      indexed := true;
      if !NameOk(cfg, key) {
        return Inval, indexed;
      }
      var p := Pair(ns, key);
      var id := RecordId(cfg, p);
      if RecordLen(p, v) > cfg.block {
        return NoMem, indexed;
      }
      var slot := ReadSlot(p);
      if slot.Mismatch? {
        return Collision, indexed;
      }
      LookupIsMatch(cfg, store, p);
      OpsOnData(cfg, bad, store, p, v);
      ghost var es := List();
      indexed := TrackSet(p);
      ghost var tracked := List();
      SlotListed(cfg, store, tracked, p);
      SameData(cfg, old(store), store, p);
      SameSlot(cfg, old(store), store, id);
      rc := WriteRecord(p, v, slot.Match?);
      LostSteps(cfg, old(store), p, rc, indexed);
      if old(loaded) && !rc.Ok? {
        TrackedDropped(cfg, es, tracked, List(), p);
      }
    }

    method ReadSlot(p: Pair) returns (slot: Check)
      ensures slot == SlotCheck(cfg, store, p)
    {
      hide RecordCheck;
      var rd, buf := BackendRead(RecordId(cfg, p), cfg.block);
      slot := if rd >= 0 then RecordCheck(buf, p) else Foreign;
    }

    /** The data write of a set, after the pair was listed. When it fails the
        entry is dropped again, even one that was there before. */
    method WriteRecord(p: Pair, v: seq<byte>, matched: bool) returns (rc: Status)
      requires PairOk(cfg, p) && ValidBut({RecordId(cfg, p)}) && loaded && Only(List(), RecordId(cfg, p), p)
      requires RecordLen(p, v) <= cfg.block && !Taken(cfg, store, p) && matched == Lookup(cfg, store, p).Some?
      modifies this, entries
      ensures Valid()
      ensures rc == (if WriteFails(old(store), p, v) then Io else Ok)
      ensures if rc.Ok? then List() == old(List()) else Dropped(old(List()), List(), p)
      ensures Data(cfg, store) == (if rc.Ok? then Data(cfg, old(store))[RecordId(cfg, p) := Build(p, v)]
                                   else Data(cfg, old(store)))
      ensures Lost(cfg, store)
           == Lost(cfg, old(store)) + MissedBySet(cfg, old(store), p, rc, old(RecordId(cfg, p) in Ids(List())))
      ensures missed == old(missed) + MissedBySet(cfg, old(store), p, rc, old(RecordId(cfg, p) in Ids(List())))
      ensures forall c :: c in crashes ==>
                c in old(crashes) || Data(cfg, c) == Data(cfg, old(store)) || Data(cfg, c) == Data(cfg, store)
    {
      hide Lookup, RecordId, RecordCheck, Keys, Placed, ReadIndex, Data, ListOk, Only, Distinct, Lost, Build, Ids;
      var id := RecordId(cfg, p);
      ghost var m, es := store, List();
      LookupByPair(cfg, m, p);
      BuiltSlotHere(cfg, m, p, v);
      RecordLands(cfg, m, es, p, v);
      var wr := BackendWrite(id, Build(p, v));
      if wr < 0 {
        rc := Io;
      } else if wr == RecordLen(p, v) || (wr == 0 && matched) {
        rc := Ok;
      } else {
        rc := Io;
      }
      if rc.Ok? {
        missed := missed + if id in Ids(es) then {} else {id};
        assert store == m[id := Build(p, v)];
      } else {
        missed := missed + if matched then {id} else {};
        assert {id} * Keys(cfg, m) == if matched then {id} else {};
        TrackDelete(p);
      }
    }

    /** Copies the value of (ns, key), as much of it as cap allows, and reports its
        full length. */
    method Get(ns: CString, key: CString, cap: nat) returns (rc: Status, len: nat, out: seq<byte>)
      requires Valid() && NameOk(cfg, ns)
      ensures rc.Inval? <==> !(0 < |key| <= cfg.maxKeyLen)
      ensures NameOk(cfg, key) ==> (rc.Ok? <==> Lookup(cfg, store, Pair(ns, key)).Some?) && (rc.Ok? || rc.NotFound?)
      ensures rc.Ok? ==> var v := Lookup(cfg, store, Pair(ns, key)).value;
                         len == |v| && out == v[..if len < cap then len else cap]
      ensures !rc.Ok? ==> len == 0 && out == []
    {
      hide RecordId, Distinct, ReadIndex, ListOk, Parse;
      len, out := 0, [];
      if !NameOk(cfg, key) {
        return Inval, len, out;
      }
      var p := Pair(ns, key);
      var rd, buf := BackendRead(RecordId(cfg, p), cfg.block);
      if rd < 0 {
        return NotFound, len, out;
      }
      var slot := RecordCheck(buf, p);
      if !slot.Match? {
        return NotFound, len, out;
      }
      LookupByPair(cfg, store, p);
      assert PlacedAt(cfg, RecordId(cfg, p), store[RecordId(cfg, p)]);
      CheckIsParse(buf, p);
      assert buf == store[RecordId(cfg, p)];
      len := rd - slot.off;
      var room := |buf| - slot.off;
      var n := if len < cap then len else cap;
      n := if n > room then room else n;
      out := buf[slot.off..slot.off + n];
      rc := Ok;
    }

    /** Deletes the record of (ns, key), then its entry when there is a table. */
    method Delete(ns: CString, key: CString) returns (rc: Status)
      requires Valid() && NameOk(cfg, ns)
      modifies this, entries
      ensures Valid() && loaded == old(loaded) && missed == old(missed)
      ensures rc.Inval? <==> !(0 < |key| <= cfg.maxKeyLen)
      ensures NameOk(cfg, key) ==> rc == DeleteStatus(cfg, bad, old(store), Pair(ns, key))
      ensures Data(cfg, store) == (if rc.Ok? then DeleteStore(cfg, bad, Data(cfg, old(store)), Pair(ns, key))
                                   else Data(cfg, old(store)))
      ensures Lost(cfg, store) == Lost(cfg, old(store)) - if rc.Ok? then {RecordId(cfg, Pair(ns, key))} else {}
      ensures if rc.Ok? then Dropped(old(List()), List(), Pair(ns, key))
              else List() == old(List()) && store == old(store)
      ensures forall c :: c in crashes ==>
                c in old(crashes) || Data(cfg, c) == Data(cfg, old(store)) || Data(cfg, c) == Data(cfg, store)
    {
      hide Lookup, RecordId, RecordCheck, Keys, Placed, ReadIndex, Data, ListOk, Distinct, Lost, Ids, EntryOk, Dropped;
      if !NameOk(cfg, key) {
        return Inval;
      }
      var p := Pair(ns, key);
      var slot := ReadSlot(p);
      LookupIsMatch(cfg, store, p);
      if !slot.Match? {
        return NotFound;
      }
      ghost var m, es := store, List();
      LookupByPair(cfg, m, p);
      TakenNot(cfg, m, p);
      OnlyWhenFree(cfg, m, es, p);
      OpsOnData(cfg, bad, m, p, []);
      RecordGoes(cfg, m, es, p);
      var r := BackendDelete(RecordId(cfg, p));
      if r < 0 {
        return Io;
      }
      TrackDelete(p);
      rc := Ok;
    }

    /** The first entry of a namespace at or after from, or -1. */
    method NextKeyInNs(ns: CString, from: nat) returns (found: int, key: CString)
      requires Table()
      ensures found < 0 ==> forall i :: from <= i < count ==> entries[i].pair.ns != ns
      ensures found >= 0 ==> from <= found < count && entries[found].pair == Pair(ns, key)
                             && forall i :: from <= i < found ==> entries[i].pair.ns != ns
    {
      var i := from;
      while i < count
        invariant forall j :: from <= j < i && j < count ==> entries[j].pair.ns != ns
        invariant from <= i
      {
        if entries[i].pair.ns == ns {
          return i, entries[i].pair.key;
        }
        i := i + 1;
      }
      return -1, [];
    }

    /** One try of an iteration step. The lock is free between the table lookup and
        the read, and a rival thread may delete a key there; a key whose entry went
        stale is stepped over. */
    method IterTry(ns: CString, pos: nat, keyCap: nat, cap: nat, rival: Option<Pair>)
      returns (rc: Status, pos': nat, key: CString, len: nat, out: seq<byte>, stale: bool, acted: bool)
      requires Valid() && NameOk(cfg, ns) && keyCap > 0 && (rival.Some? ==> PairOk(cfg, rival.value))
      modifies this, entries
      ensures Valid() && loaded == old(loaded) && missed == old(missed) && Lost(cfg, store) <= Lost(cfg, old(store))
      ensures pos <= pos' && (acted ==> rival.Some?)
      ensures acted ==> At(pos') == Afresh(RaceStep(cfg, bad, old(At(pos)), ns, rival.value))
      ensures !acted ==> store == old(store) && List() == old(List())
      ensures stale ==> acted && rc.NotFound? && pos < pos' && pos < old(count) && count <= old(count)
      ensures forall e :: e in Ahead(List(), pos') ==> e in old(Ahead(List(), pos))
      ensures Stepped(cfg, store, ns, keyCap, cap, rc, key, len, out)
      ensures !rc.NotFound? ==> Lists(old(Ahead(List(), pos)), Pair(ns, key)) && !Lists(Ahead(List(), pos'), Pair(ns, key))
      ensures rc.NotFound? && !stale ==> Left(ns, pos) == []
      ensures var skips := if acted then Skips(cfg, bad, old(At(pos)), ns, rival.value) else {};
              var ahead := Items(cfg, store, ns, old(Ahead(List(), pos)));
              && Except(ahead, skips) == (if rc.NotFound? then [] else ItemOf(cfg, store, ns, key)) + Left(ns, pos')
              && forall k :: k in skips ==> HasKey(ahead, k)
    {
      hide Lookup, RecordId, ListOk, ReadIndex, Items, Lost, Data, DeleteStatus, DeleteStore, Dropped, ItemOf;
      hide Ahead, Lists, Except, HasKey, RaceStep, Skips;
      rc, pos', key, len, out, stale, acted := NotFound, pos, [], 0, [], false, false;
      ghost var m, es := store, List();
      ExceptExact(Items(cfg, m, ns, Ahead(es, pos)), {});
      if !loaded || pos >= count {
        NothingAhead(cfg, m, ns, es, pos);
        return;
      }
      var found;
      found, key := NextKeyInNs(ns, pos);
      if found < 0 {
        NothingAhead(cfg, m, ns, es, pos);
        pos', key := count, [];
        return;
      }
      pos' := found + 1;
      EntryId(cfg, m, es, found, {});
      ListedValue(cfg, m, es, found);
      if |key| + 1 > keyCap {
        rc := NoMem;
        Untouched(cfg, m, ns, es, pos, found);
        return;
      }
      if rival.Some? {
        acted := true;
        var status := Delete(rival.value.ns, rival.value.key);
        TryRaced(cfg, bad, m, store, ns, es, List(), pos, found, rival.value, status);
        PassedDropped(cfg, m, es, List(), pos, found, rival.value);
      } else {
        Untouched(cfg, m, ns, es, pos, found);
      }
      rc, len, out := Get(ns, key, cap);
      stale := rc.NotFound?;
      NoItem(cfg, store, ns, key, Left(ns, pos'));
    }

    /** Where an iteration stands before any rival acts. */
    ghost function At(pos: nat): Race
      requires Table()
      reads this`count, this`store, entries
    {
      Race(Data(cfg, store), List(), pos, {})
    }

    /** One step of an iteration: the next key of the namespace and its value.
        rivals are the keys that other threads delete, one in each try. Of what was
        ahead and is still stored, the step yields the first and leaves the rest,
        except for the keys that the rivals moved to before the position; it misses
        nothing if and only if there are none. */
    method IterNext(ns: CString, pos: nat, keyCap: nat, cap: nat, rivals: seq<Pair>)
      returns (rc: Status, pos': nat, key: CString, len: nat, out: seq<byte>, tries: nat)
      requires Valid() && NameOk(cfg, ns) && keyCap > 0
      requires forall i :: 0 <= i < |rivals| ==> PairOk(cfg, rivals[i])
      modifies this, entries
      ensures Valid() && loaded == old(loaded) && missed == old(missed) && Lost(cfg, store) <= Lost(cfg, old(store))
      ensures pos <= pos' && tries <= |rivals|
      ensures tries == 0 ==> store == old(store) && List() == old(List())
      ensures forall e :: e in Ahead(List(), pos') ==> e in old(Ahead(List(), pos))
      ensures Stepped(cfg, store, ns, keyCap, cap, rc, key, len, out)
      ensures !rc.NotFound? ==> Lists(old(Ahead(List(), pos)), Pair(ns, key)) && !Lists(Ahead(List(), pos'), Pair(ns, key))
      ensures var race := RaceOf(cfg, bad, old(At(pos)), ns, rivals[..tries]);
              var ahead := Items(cfg, store, ns, old(Ahead(List(), pos)));
              var result := (if rc.NotFound? then [] else ItemOf(cfg, store, ns, key)) + Left(ns, pos');
              && Data(cfg, store) == race.data && List() == race.table
              && Except(ahead, race.skipped) == result
              && (forall k :: k in race.skipped ==> HasKey(ahead, k))
              && (ahead == result <==> race.skipped == {})
    {
      hide Lookup, RecordId, ListOk, ReadIndex, Items, Lost, Data, DeleteStore, DeleteStatus, ItemOf, Ahead, Lists,
           RaceOf, RaceStep, Skips, Except, HasKey, Stepped, PairOk, NameOk, WfCfg, Sound, CrashSafe;
      tries, pos' := 0, pos;
      ghost var m, es, start := store, List(), At(pos);
      RaceNone(cfg, bad, start, ns, rivals);
      ExceptExact(Items(cfg, m, ns, Ahead(es, pos)), {});
      while true
        invariant Valid() && loaded == old(loaded) && missed == old(missed) && Lost(cfg, store) <= Lost(cfg, m)
        invariant pos <= pos' && tries <= |rivals|
        invariant tries == 0 ==> store == m && List() == es && pos' == pos
        invariant forall e :: e in Ahead(List(), pos') ==> e in Ahead(es, pos)
        invariant At(pos') == Afresh(RaceOf(cfg, bad, start, ns, rivals[..tries]))
        invariant Except(Items(cfg, store, ns, Ahead(es, pos)), RaceOf(cfg, bad, start, ns, rivals[..tries]).skipped)
               == Left(ns, pos')
        invariant forall k :: k in RaceOf(cfg, bad, start, ns, rivals[..tries]).skipped ==>
                    HasKey(Items(cfg, store, ns, Ahead(es, pos)), k)
        decreases if pos' < count then count - pos' else 0
      {
        var stale, acted;
        ghost var was, before := Ahead(List(), pos'), store;
        var rival := if tries < |rivals| then Some(rivals[tries]) else None;
        rc, pos', key, len, out, stale, acted := IterTry(ns, pos', keyCap, cap, rival);
        ListsMore(was, Ahead(es, pos), Pair(ns, key));
        if acted {
          RaceMore(cfg, bad, before, store, ns, Ahead(es, pos), was, RaceOf(cfg, bad, start, ns, rivals[..tries]), rivals[tries],
                   (if rc.NotFound? then [] else ItemOf(cfg, store, ns, key)) + Left(ns, pos'));
          RaceNext(cfg, bad, start, ns, rivals, tries);
          tries := tries + 1;
        } else {
          ExceptExact(Items(cfg, store, ns, was), {});
        }
        if !stale {
          ExceptExact(Items(cfg, store, ns, Ahead(es, pos)), RaceOf(cfg, bad, start, ns, rivals[..tries]).skipped);
          return;
        }
      }
    }

    /** What an iteration at pos would still yield. */
    ghost function Left(ns: CString, pos: nat): seq<(CString, seq<byte>)>
      requires Table()
      reads this`count, this`store, entries
    {
      Items(cfg, store, ns, Ahead(List(), pos))
    }

    /** One row of the defaults table. */
    method SeedRow(d: Default, filter: Option<CString>) returns (rc: Status, full: bool)
      requires Valid()
      modifies this, entries
      ensures Valid()
      ensures rc == SeedOne(cfg, bad, Data(cfg, old(store)), d, filter).1
      ensures Data(cfg, store) == SeedOne(cfg, bad, Data(cfg, old(store)), d, filter).0
      ensures old(missed) <= missed
      ensures !full ==> missed == old(missed) && Lost(cfg, store) <= Lost(cfg, old(store))
    {
      hide Lookup, RecordId, RecordCheck, Data, Lost, ListOk, Distinct, SetStore, SetStatus, Live;
      full := false;
      if d.ns.None? || d.key.None? {
        return Inval, full;
      }
      if filter.Some? && d.ns != filter {
        return Ok, full;
      }
      if !NameOk(cfg, d.ns.value) {
        return Inval, full;
      }
      var p := PairOf(d);
      DataKeeps(cfg, store, p);
      var len, out;
      rc, len, out := Get(p.ns, p.key, 0);
      if rc.NotFound? {
        OpsOnData(cfg, bad, store, p, d.value);
        SetIsMapUpdate(cfg, bad, Data(cfg, store), p, d.value, p);
        var indexed;
        rc, indexed := Set(p.ns, p.key, d.value);
        full := rc.Ok? && !indexed;
      }
    }

    /** The defaults pass over the whole table or one namespace; the first error
        is reported, and later rows are still applied. */
    method DefaultsApplyNs(defs: seq<Default>, filter: Option<CString>) returns (rc: Status, full: bool)
      requires Valid()
      modifies this, entries
      ensures Valid()
      ensures rc == Seed(cfg, bad, Data(cfg, old(store)), defs, filter).1
      ensures Data(cfg, store) == Seed(cfg, bad, Data(cfg, old(store)), defs, filter).0
      ensures old(missed) <= missed
      ensures !full ==> missed == old(missed) && Lost(cfg, store) <= Lost(cfg, old(store))
    {
      hide Data, Lost, SeedOne;
      rc, full := Ok, false;
      ghost var d0 := Data(cfg, store);
      var i := 0;
      while i < |defs|
        invariant i <= |defs| && Valid()
        invariant rc == Seed(cfg, bad, d0, defs[..i], filter).1
        invariant Data(cfg, store) == Seed(cfg, bad, d0, defs[..i], filter).0
        invariant old(missed) <= missed
        invariant !full ==> missed == old(missed) && Lost(cfg, store) <= Lost(cfg, old(store))
      {
        assert defs[..i + 1][..i] == defs[..i];
        var r, f := SeedRow(defs[i], filter);
        full := full || f;
        rc := if rc.Ok? then r else rc;
        i := i + 1;
      }
      assert defs[..i] == defs;
    }

    /** Deletes every listed key of the namespace and applies its defaults. A
        delete shortens the table under the scan, so the next candidate moves to
        the same position; only a key whose delete fails is stepped over. */
    method ResetNamespace(ns: CString, defs: seq<Default>) returns (rc: Status, full: bool)
      requires Valid() && NameOk(cfg, ns)
      modifies this, entries
      ensures Valid()
      ensures Data(cfg, store)
           == ResetStore(cfg, bad, Data(cfg, old(store)), ns, bad + Lost(cfg, old(store)), defs)
      ensures rc.Ok? <==> Clearable(cfg, bad, Data(cfg, old(store)), ns, Lost(cfg, old(store)))
                          && SeedsAll(cfg, bad, Data(cfg, old(store)), ns, bad + Lost(cfg, old(store)), defs)
      ensures old(missed) <= missed
      ensures !full ==> missed == old(missed) && Lost(cfg, store) <= Lost(cfg, old(store))
    {
      hide Data, Lost, Lookup, RecordId, RecordCheck, Seed, Cleared, Clearable, Placed, ListOk, Keys;
      Load();
      var first := ClearNamespace(ns);
      rc, full := DefaultsApplyNs(defs, Some(ns));
      rc := if first.Ok? then rc else first;
    }

    /** The scan of a reset. */
    method ClearNamespace(ns: CString) returns (first: Status)
      requires Valid() && loaded && NameOk(cfg, ns)
      modifies this, entries
      ensures Valid() && missed == old(missed) && Lost(cfg, store) == Lost(cfg, old(store))
      ensures Data(cfg, store) == Data(cfg, old(store))
                                  - Cleared(cfg, Data(cfg, old(store)), ns, bad + Lost(cfg, old(store)))
      ensures first.Ok? <==> Clearable(cfg, bad, Data(cfg, old(store)), ns, Lost(cfg, old(store)))
    {
      hide Data, Lost, Lookup, RecordId, RecordCheck, Cleared, Clearable, Placed, PairAt, ListOk, Keys, Distinct, ReadIndex,
           Scanned, Ids, EntryOk, Without;
      ghost var d, gone := Data(cfg, store), {};
      DataPlaced(cfg, store);
      var pos := 0;
      first := Ok;
      ScanStart(bad, List(), ns);
      while true
        invariant Valid() && loaded && missed == old(missed) && pos <= count
        invariant Data(cfg, store) == d - gone && Lost(cfg, store) == Lost(cfg, old(store))
        invariant gone <= Cleared(cfg, d, ns, bad + Lost(cfg, store))
        invariant Scanned(bad, List(), ns, pos, first)
        decreases count - pos
      {
        var found, key := NextKeyInNs(ns, pos);
        ghost var m, es := store, List();
        if found < 0 {
          ScanDone(cfg, bad, d, gone, m, es, ns, pos, first);
          break;
        }
        assert es[found].pair == Pair(ns, key);
        EntryId(cfg, m, es, found, {});
        ListedSlot(cfg, d, gone, m, es, found);
        OpsOnData(cfg, bad, m, Pair(ns, key), []);
        ListExact(cfg, m, es, Pair(ns, key));
        WithoutLen(es, found);
        ScannedOn(bad, es, ns, pos, first, found);
        var r := Delete(ns, key);
        if r.Ok? {
          ClearMore(cfg, d, gone, ns, bad + Lost(cfg, m), es[found].id);
          gone := gone + {es[found].id};
          assert List() == Without(es, found);
        } else {
          assert !r.NotFound?;
          first := if first.Ok? then r else first;
          pos := found + 1;
        }
      }
    }

    ghost predicate WriteFails(m: Backend, p: Pair, v: seq<byte>)
      requires WfCfg(cfg) && PairOk(cfg, p)
    {
      var id := RecordId(cfg, p);
      id in bad && (id in m ==> m[id] != Build(p, v))
    }
  }

  /** Stored keys a reload would miss after a set that returned rc: none it did
      not miss before, unless the table was full or the write of a present key
      failed. */
  function LostAfterSet(cfg: KvCfg, m: Backend, p: Pair, rc: Status, indexed: bool): set<u32> {
    var id := RecordId(cfg, p);
    if rc.Ok? && indexed then Lost(cfg, m) - {id}
    else Lost(cfg, m) + MissedBySet(cfg, m, p, rc, indexed)
  }

  function MissedBySet(cfg: KvCfg, m: Backend, p: Pair, rc: Status, indexed: bool): set<u32> {
    if (rc.Ok? && !indexed) || (rc.Io? && Lookup(cfg, m, p).Some?) then {RecordId(cfg, p)} else {}
  }

  lemma LostSteps(cfg: KvCfg, m: Backend, p: Pair, rc: Status, indexed: bool)
    requires Placed(cfg, m) && !Taken(cfg, m, p) && (rc.Ok? || rc.Io?)
    ensures (Lost(cfg, m) - if indexed then {RecordId(cfg, p)} else {}) + MissedBySet(cfg, m, p, rc, indexed)
         == LostAfterSet(cfg, m, p, rc, indexed)
  {
    hide Lookup, RecordId, Taken, Placed, Keys, ReadIndex;
    LookupByPair(cfg, m, p);
  }

  lemma DataPlaced(cfg: KvCfg, m: Backend)
    requires Placed(cfg, m)
    ensures Placed(cfg, Data(cfg, m))
  {
    hide PlacedAt;
  }

  lemma ClearMore(cfg: KvCfg, d: Backend, gone: set<u32>, ns: CString, keep: set<u32>, id: u32)
    requires Placed(cfg, d) && gone <= Cleared(cfg, d, ns, keep)
    requires id in Keys(cfg, d) && PairAt(cfg, d, id).ns == ns && id !in keep
    ensures gone + {id} <= Cleared(cfg, d, ns, keep)
    ensures (d - gone) - {id} == d - (gone + {id})
  {
    hide Keys, PairAt, Placed;
  }

  lemma TakenNot(cfg: KvCfg, m: Backend, p: Pair)
    ensures Lookup(cfg, m, p).Some? ==> !Taken(cfg, m, p)
  {
  }

  lemma LookupIsMatch(cfg: KvCfg, m: Backend, p: Pair)
    ensures Lookup(cfg, m, p).Some? <==> SlotCheck(cfg, m, p).Match?
  {
  }

  /** Crash at any point, restart, first use: every value is what it was in the
      state the crash left, and the table lists exactly the stored keys, once
      each, but those the index in that state does not know. Only slots that a full
      table or a failed overwrite missed can be unknown. */
  method Restart(was: Store, c: Backend) returns (k: Store)
    requires was.Valid() && c in was.crashes
    ensures fresh(k) && fresh(k.entries) && k.Valid() && k.loaded && k.cfg == was.cfg && k.missed == was.missed
    ensures Data(k.cfg, k.store) == Data(k.cfg, c)
    ensures forall p: Pair :: Lookup(k.cfg, k.store, p) == Lookup(k.cfg, c, p)
    ensures forall p: Pair ::
              Lists(k.List(), p) <==> Lookup(k.cfg, c, p).Some? && RecordId(k.cfg, p) !in Lost(k.cfg, c)
    ensures Lost(k.cfg, c) <= was.missed && Apart(k.List())
  {
    hide Lookup, RecordId, Lists, Data, Distinct, ListOk, Placed, ReadIndex, Ids, Lost;
    k := new Store(was.cfg, was.bad, c, was.missed);
    k.Load();
    ListApart(k.cfg, k.store, k.List(), {});
    forall p: Pair
      ensures Lookup(k.cfg, k.store, p) == Lookup(k.cfg, c, p)
      ensures Lists(k.List(), p) <==> Lookup(k.cfg, c, p).Some? && RecordId(k.cfg, p) !in Lost(k.cfg, c)
    {
      SameData(k.cfg, c, k.store, p);
      ListExact(k.cfg, k.store, k.List(), p);
    }
  }

  lemma GapClosed(was: seq<Entry>, now: seq<Entry>, idx: nat)
    requires idx < |was| == |now| + 1
    requires forall j :: 0 <= j < |now| ==> now[j] == was[if idx <= j then j + 1 else j]
    ensures now == Without(was, idx)
  {
  }

  lemma PrefixSlice(s: seq<byte>, n: nat, i: nat, j: nat)
    requires i <= j <= n <= |s|
    ensures s[..n][i..j] == s[i..j]
  {
  }

  /** One listed id more: its record, when it has one, is the next entry. */
  lemma TakeStep(cfg: KvCfg, m: Backend, done: seq<u32>, id: u32, es: seq<Entry>)
    requires Placed(cfg, m) && Ids(es) == Kept(cfg, m, done) && ListOk(cfg, m, es, {})
    requires id !in Kept(cfg, m, done)
    ensures id !in Keys(cfg, m) ==> Ids(es) == Kept(cfg, m, done + [id])
    ensures id in Keys(cfg, m) ==>
              var es' := es + [Entry(PairAt(cfg, m, id), id)];
              Ids(es') == Kept(cfg, m, done + [id]) && ListOk(cfg, m, es', {})
  {
    hide EntryOk, Keys, Placed, PlacedAt, Lookup, Parse, RecordId;
    assert (done + [id])[..|done|] == done;
    if id in Keys(cfg, m) {
      PairAtSlot(cfg, m, id);
      ListSnoc(cfg, m, es, PairAt(cfg, m, id), {});
      IdsSnoc(es, Entry(PairAt(cfg, m, id), id));
    }
  }

  /** The table once p is tracked: as it was, or with p listed at its end. */
  predicate Tracked(cfg: KvCfg, es: seq<Entry>, es': seq<Entry>, p: Pair) {
    es' == es || (!Lists(es, p) && es' == es + [Entry(p, RecordId(cfg, p))])
  }

  lemma TrackedDropped(cfg: KvCfg, es: seq<Entry>, es1: seq<Entry>, es2: seq<Entry>, p: Pair)
    requires Tracked(cfg, es, es1, p) && Dropped(es1, es2, p)
    ensures Dropped(es, es2, p)
  {
    hide RecordId;
    if es1 != es {
      assert es1[|es|].pair == p && Without(es1, |es|) == es;
    }
  }

  lemma SlotListed(cfg: KvCfg, m: Backend, es: seq<Entry>, p: Pair)
    requires ListOk(cfg, m, es, {RecordId(cfg, p)}) && Only(es, RecordId(cfg, p), p)
    ensures RecordId(cfg, p) in Ids(es) <==> Lists(es, p)
  {
    hide RecordId, Lookup;
    if Lists(es, p) {
      var i :| 0 <= i < |es| && es[i].pair == p;
      EntryId(cfg, m, es, i, {RecordId(cfg, p)});
    }
  }

  /** Whether a set of p finds p in the table or room to list it. */
  predicate Indexable(cfg: KvCfg, m: Backend, p: Pair) {
    RecordId(cfg, p) in Live(cfg, m) || |Live(cfg, m)| < cfg.maxEntries
  }

  /** What a reload would list: the ids of the index that have a record. */
  lemma LiveFacts(cfg: KvCfg, m: Backend)
    requires Sound(cfg, m)
    ensures Distinct(Live(cfg, m))
    ensures Elems(Live(cfg, m)) == Elems(ReadIndex(cfg, m)) * Keys(cfg, m)
  {
    KeptDistinct(cfg, m, ReadIndex(cfg, m));
    KeptElems(cfg, m, ReadIndex(cfg, m));
  }

  lemma NotYetKept(cfg: KvCfg, m: Backend, ids: seq<u32>, i: nat)
    requires i < |ids| && Distinct(ids)
    ensures ids[i] !in Kept(cfg, m, ids[..i])
  {
    KeptIn(cfg, m, ids[..i], ids[i]);
  }
}
