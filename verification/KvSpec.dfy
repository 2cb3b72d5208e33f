/** The key-value store as functions on the backend, a map from record id to
    bytes: what a lookup sees, what set, delete, the defaults pass and the
    factory reset do to it, and that together they behave as a map from
    (namespace, key) to value. */
module KvSpec {
  import opened Bytes
  import opened KvRecord

  type Backend = map<u32, seq<byte>>

  /** The part of a stored record that fits the I/O block it is read into. */
  function Usable(cfg: KvCfg, rec: seq<byte>): seq<byte> {
    if |rec| < cfg.block then rec else rec[..cfg.block]
  }

  function SlotCheck(cfg: KvCfg, m: Backend, p: Pair): Check {
    var id := RecordId(cfg, p);
    if id in m then RecordCheck(Usable(cfg, m[id]), p) else Foreign
  }

  function Lookup(cfg: KvCfg, m: Backend, p: Pair): Option<seq<byte>> {
    if SlotCheck(cfg, m, p).Match? then
      CheckIsParse(Usable(cfg, m[RecordId(cfg, p)]), p);
      Some(m[RecordId(cfg, p)][SlotCheck(cfg, m, p).off..])
    else None
  }

  /** The slot of p holds a record of another pair. */
  predicate Taken(cfg: KvCfg, m: Backend, p: Pair) {
    SlotCheck(cfg, m, p).Mismatch?
  }

  /** A slot in bad refuses writes and deletes; rewriting the bytes it already
      holds needs no write and succeeds. */
  function SetStatus(cfg: KvCfg, bad: set<u32>, m: Backend, p: Pair, v: seq<byte>): Status
    requires WfCfg(cfg) && PairOk(cfg, p)
  {
    var id := RecordId(cfg, p);
    if RecordLen(p, v) > cfg.block then NoMem
    else if Taken(cfg, m, p) then Collision
    else if id in bad && (id in m ==> m[id] != Build(p, v)) then Io
    else Ok
  }

  function SetStore(cfg: KvCfg, bad: set<u32>, m: Backend, p: Pair, v: seq<byte>): Backend
    requires WfCfg(cfg) && PairOk(cfg, p)
  {
    if SetStatus(cfg, bad, m, p, v).Ok? then m[RecordId(cfg, p) := Build(p, v)] else m
  }

  function DeleteStatus(cfg: KvCfg, bad: set<u32>, m: Backend, p: Pair): Status {
    if Lookup(cfg, m, p).None? then NotFound
    else if RecordId(cfg, p) in bad then Io
    else Ok
  }

  function DeleteStore(cfg: KvCfg, bad: set<u32>, m: Backend, p: Pair): Backend {
    if DeleteStatus(cfg, bad, m, p).Ok? then m - {RecordId(cfg, p)} else m
  }

  /** A slot that matches one pair is taken for every other pair hashed to it. */
  lemma MatchTakes(cfg: KvCfg, m: Backend, p: Pair, q: Pair)
    requires p != q && RecordId(cfg, p) == RecordId(cfg, q)
    requires Lookup(cfg, m, p).Some?
    ensures Taken(cfg, m, q) && Lookup(cfg, m, q) == None
  {
    var buf := Usable(cfg, m[RecordId(cfg, p)]);
    CheckIsParse(buf, p);
    CheckIsParse(buf, q);
  }

  /** What a slot holds after a record was built into it. */
  lemma BuiltSlot(cfg: KvCfg, m: Backend, p: Pair, v: seq<byte>)
    requires WfCfg(cfg) && PairOk(cfg, p) && RecordLen(p, v) <= cfg.block
    ensures Lookup(cfg, m[RecordId(cfg, p) := Build(p, v)], p) == Some(v)
  {
    ParseBuild(p, v);
    CheckIsParse(Build(p, v), p);
    assert Usable(cfg, Build(p, v)) == Build(p, v);
  }

  /** Setting p updates the map at p only, whatever the hash function does with
      other pairs. It changes nothing when it does not succeed, and it reports a
      collision only for a pair that has no value. */
  lemma SetIsMapUpdate(cfg: KvCfg, bad: set<u32>, m: Backend, p: Pair, v: seq<byte>, q: Pair)
    requires WfCfg(cfg) && PairOk(cfg, p)
    ensures Lookup(cfg, SetStore(cfg, bad, m, p, v), q)
         == if q == p && SetStatus(cfg, bad, m, p, v).Ok? then Some(v) else Lookup(cfg, m, q)
    ensures !SetStatus(cfg, bad, m, p, v).Ok? ==> SetStore(cfg, bad, m, p, v) == m
    ensures SetStatus(cfg, bad, m, p, v).Collision? ==> Lookup(cfg, m, p) == None
  {
    if SetStatus(cfg, bad, m, p, v).Ok? {
      BuiltSlot(cfg, m, p, v);
      if q != p && RecordId(cfg, q) == RecordId(cfg, p) {
        MatchTakes(cfg, SetStore(cfg, bad, m, p, v), p, q);
        if Lookup(cfg, m, q).Some? {
          MatchTakes(cfg, m, q, p);
        }
      }
    }
  }

  /** What the block's worth of a slot holds, read without knowing which pair to
      expect. */
  function Held(cfg: KvCfg, m: Backend, id: u32): Option<Record> {
    if id in m then Parse(m[id][..if |m[id]| < cfg.block then |m[id]| else cfg.block]) else None
  }

  /** A set fails with NOMEM exactly when the record does not fit the block, with
      COLLISION exactly when it fits and the slot holds a record of another pair, and
      otherwise succeeds exactly when the slot accepts writes or holds those bytes. */
  lemma SetOutcome(cfg: KvCfg, bad: set<u32>, m: Backend, p: Pair, v: seq<byte>)
    requires WfCfg(cfg) && PairOk(cfg, p)
    ensures var rc, id := SetStatus(cfg, bad, m, p, v), RecordId(cfg, p);
            var held := Held(cfg, m, id);
            var fits := 3 + |p.ns| + |p.key| + |v| <= cfg.block;
            var other := held.Some? && !(held.value.ns == p.ns && held.value.key == p.key);
            && (rc == NoMem <==> !fits)
            && (rc == Collision <==> fits && other)
            && (rc == Ok <==> fits && !other && (id !in bad || (id in m && m[id] == Build(p, v))))
            && rc in [Ok, NoMem, Collision, Io]
  {
    hide Parse, RecordCheck, Build;
    var id := RecordId(cfg, p);
    if id in m {
      CheckIsParse(Usable(cfg, m[id]), p);
      assert m[id][..|m[id]|] == m[id];
    }
  }

  /** Deleting p removes p only, and succeeds exactly when p has a value and its
      slot accepts the delete. */
  lemma DeleteIsMapRemove(cfg: KvCfg, bad: set<u32>, m: Backend, p: Pair, q: Pair)
    ensures Lookup(cfg, DeleteStore(cfg, bad, m, p), q)
         == if q == p && DeleteStatus(cfg, bad, m, p).Ok? then None else Lookup(cfg, m, q)
    ensures DeleteStatus(cfg, bad, m, p) in [Ok, NotFound, Io]
    ensures DeleteStatus(cfg, bad, m, p).NotFound? <==> Lookup(cfg, m, p).None?
    ensures DeleteStatus(cfg, bad, m, p).Ok? <==> Lookup(cfg, m, p).Some? && RecordId(cfg, p) !in bad
    ensures !DeleteStatus(cfg, bad, m, p).Ok? ==> DeleteStore(cfg, bad, m, p) == m
  {
    if DeleteStatus(cfg, bad, m, p).Ok? && q != p && RecordId(cfg, q) == RecordId(cfg, p) {
      MatchTakes(cfg, m, p, q);
    }
  }

  // ---------------------------------------------------------------- defaults

  /** One row of the defaults table; a missing name is a NULL pointer. */
  datatype Default = Default(ns: Option<CString>, key: Option<CString>, value: seq<byte>)

  predicate Selected(d: Default, filter: Option<CString>) {
    d.ns.Some? && d.key.Some? && (filter.None? || d.ns == filter)
  }

  function PairOf(d: Default): Pair
    requires d.ns.Some? && d.key.Some?
  {
    Pair(d.ns.value, d.key.value)
  }

  function SeedOne(cfg: KvCfg, bad: set<u32>, m: Backend, d: Default, filter: Option<CString>): (Backend, Status)
    requires WfCfg(cfg)
  {
    if d.ns.None? || d.key.None? then (m, Inval)
    else if !Selected(d, filter) then (m, Ok)
    else if !PairOk(cfg, PairOf(d)) then (m, Inval)
    else if Lookup(cfg, m, PairOf(d)).Some? then (m, Ok)
    else (SetStore(cfg, bad, m, PairOf(d), d.value), SetStatus(cfg, bad, m, PairOf(d), d.value))
  }

  /** The whole pass, with the first error. */
  function Seed(cfg: KvCfg, bad: set<u32>, m: Backend, defs: seq<Default>, filter: Option<CString>): (Backend, Status)
    requires WfCfg(cfg)
  {
    if defs == [] then (m, Ok)
    else
      var front := Seed(cfg, bad, m, defs[..|defs| - 1], filter);
      var last := SeedOne(cfg, bad, front.0, defs[|defs| - 1], filter);
      (last.0, if front.1.Ok? then last.1 else front.1)
  }

  /** The value of the first row for p whose record fits the I/O block. */
  function FirstFit(cfg: KvCfg, defs: seq<Default>, p: Pair): Option<seq<byte>> {
    if defs == [] then None
    else
      var front := FirstFit(cfg, defs[..|defs| - 1], p);
      var d := defs[|defs| - 1];
      if front.Some? then front
      else if d.ns == Some(p.ns) && d.key == Some(p.key) && RecordLen(p, d.value) <= cfg.block then Some(d.value)
      else None
  }

  function SeededValue(cfg: KvCfg, bad: set<u32>, before: Backend, after: Backend, defs: seq<Default>,
                       filter: Option<CString>, p: Pair): Option<seq<byte>> {
    if Lookup(cfg, before, p).Some? || (filter.Some? && filter.value != p.ns) then Lookup(cfg, before, p)
    else if Taken(cfg, after, p) || RecordId(cfg, p) in bad then None
    else FirstFit(cfg, defs, p)
  }

  /** The defaults pass never changes a present key, and gives an absent one its
      first row that fits, unless its slot ended up with another key or refuses
      writes. */
  lemma {:induction false} SeedResult(cfg: KvCfg, bad: set<u32>, m: Backend, defs: seq<Default>,
                                      filter: Option<CString>, p: Pair)
    requires WfCfg(cfg) && PairOk(cfg, p)
    ensures var after := Seed(cfg, bad, m, defs, filter).0;
            Lookup(cfg, after, p) == SeededValue(cfg, bad, m, after, defs, filter, p)
    decreases |defs|
  {
    hide RecordCheck, SetStatus, SetStore, RecordId, Lookup, Taken;
    if defs != [] {
      var front, d := defs[..|defs| - 1], defs[|defs| - 1];
      SeedResult(cfg, bad, m, front, filter, p);
      var mid := Seed(cfg, bad, m, front, filter).0;
      if Selected(d, filter) && PairOk(cfg, PairOf(d)) && Lookup(cfg, mid, PairOf(d)).None? {
        SeedStep(cfg, bad, m, mid, front, d, filter, p);
      }
    }
  }

  /** A row is served: it names a pair, and when the pass selects it the names are
      legal and the pair has a value once the row was handled. */
  predicate Served(cfg: KvCfg, after: Backend, d: Default, filter: Option<CString>) {
    && d.ns.Some? && d.key.Some?
    && (filter.None? || d.ns == filter ==>
          && 0 < |d.ns.value| <= cfg.maxKeyLen && 0 < |d.key.value| <= cfg.maxKeyLen
          && Lookup(cfg, after, Pair(d.ns.value, d.key.value)).Some?)
  }

  /** Every row was served when its turn came. */
  predicate AllServed(cfg: KvCfg, bad: set<u32>, m: Backend, defs: seq<Default>, filter: Option<CString>)
    requires WfCfg(cfg)
  {
    defs == []
    || (AllServed(cfg, bad, m, defs[..|defs| - 1], filter)
        && Served(cfg, Seed(cfg, bad, m, defs, filter).0, defs[|defs| - 1], filter))
  }

  /** The pass reports OK if and only if every row was served; an error that it meets is
      the one it reports in the end. */
  lemma {:induction false} SeedStatus(cfg: KvCfg, bad: set<u32>, m: Backend, defs: seq<Default>, filter: Option<CString>,
                                      n: nat)
    requires WfCfg(cfg) && n <= |defs|
    ensures Seed(cfg, bad, m, defs, filter).1.Ok? <==> AllServed(cfg, bad, m, defs, filter)
    ensures !Seed(cfg, bad, m, defs[..n], filter).1.Ok? ==>
              Seed(cfg, bad, m, defs, filter).1 == Seed(cfg, bad, m, defs[..n], filter).1
    decreases |defs|
  {
    hide SeedOne, Served;
    assert defs[..|defs|] == defs;
    if defs != [] {
      var k := |defs| - 1;
      var at := if n <= k then n else k;
      SeedStatus(cfg, bad, m, defs[..k], filter, at);
      assert defs[..k][..at] == defs[..at];
      RowStatus(cfg, bad, Seed(cfg, bad, m, defs[..k], filter).0, defs[k], filter);
    }
  }

  lemma RowStatus(cfg: KvCfg, bad: set<u32>, m: Backend, d: Default, filter: Option<CString>)
    requires WfCfg(cfg)
    ensures SeedOne(cfg, bad, m, d, filter).1.Ok? <==> Served(cfg, SeedOne(cfg, bad, m, d, filter).0, d, filter)
  {
    hide Lookup, Taken, RecordId;
    if Selected(d, filter) && PairOk(cfg, PairOf(d)) {
      SetIsMapUpdate(cfg, bad, m, PairOf(d), d.value, PairOf(d));
    }
  }

  lemma SeedStep(cfg: KvCfg, bad: set<u32>, m: Backend, mid: Backend, front: seq<Default>, d: Default,
                 filter: Option<CString>, p: Pair)
    requires WfCfg(cfg) && PairOk(cfg, p)
    requires Selected(d, filter) && PairOk(cfg, PairOf(d)) && Lookup(cfg, mid, PairOf(d)).None?
    requires Lookup(cfg, mid, p) == SeededValue(cfg, bad, m, mid, front, filter, p)
    ensures var after := SeedOne(cfg, bad, mid, d, filter).0;
            Lookup(cfg, after, p) == SeededValue(cfg, bad, m, after, front + [d], filter, p)
  {
    hide RecordCheck;
    var q := PairOf(d);
    assert (front + [d])[..|front|] == front;
    SetIsMapUpdate(cfg, bad, mid, q, d.value, p);
    if p != q && RecordId(cfg, p) == RecordId(cfg, q) && SetStatus(cfg, bad, mid, q, d.value).Ok? {
      BuiltSlot(cfg, mid, q, d.value);
      MatchTakes(cfg, SetStore(cfg, bad, mid, q, d.value), q, p);
      if Lookup(cfg, mid, p).Some? {
        MatchTakes(cfg, mid, p, q);
      }
    } else if p == q {
      BuiltSlotHere(cfg, mid, q, d.value);
    }
  }

  /** A slot that already holds exactly the record of p has a value for p. */
  lemma BuiltSlotHere(cfg: KvCfg, m: Backend, p: Pair, v: seq<byte>)
    requires WfCfg(cfg) && PairOk(cfg, p)
    ensures RecordLen(p, v) <= cfg.block && RecordId(cfg, p) in m && m[RecordId(cfg, p)] == Build(p, v)
            ==> Lookup(cfg, m, p) == Some(v)
    ensures Taken(cfg, m, p) ==> Lookup(cfg, m, p) == None
  {
    var id := RecordId(cfg, p);
    if RecordLen(p, v) <= cfg.block && id in m && m[id] == Build(p, v) {
      BuiltSlot(cfg, m, p, v);
      assert m[id := Build(p, v)] == m;
    }
  }

  lemma {:induction false} FirstFitFound(cfg: KvCfg, defs: seq<Default>, i: nat)
    requires i < |defs| && defs[i].ns.Some? && defs[i].key.Some?
    requires RecordLen(PairOf(defs[i]), defs[i].value) <= cfg.block
    ensures FirstFit(cfg, defs, PairOf(defs[i])).Some?
    decreases |defs|
  {
    if i < |defs| - 1 {
      FirstFitFound(cfg, defs[..|defs| - 1], i);
    }
  }

  /** After the pass every row is settled: applying it again changes nothing. */
  lemma RowSettled(cfg: KvCfg, bad: set<u32>, m: Backend, defs: seq<Default>, filter: Option<CString>, i: nat)
    requires WfCfg(cfg) && i < |defs|
    ensures var after := Seed(cfg, bad, m, defs, filter).0;
            SeedOne(cfg, bad, after, defs[i], filter).0 == after
  {
    hide RecordCheck;
    var after, d := Seed(cfg, bad, m, defs, filter).0, defs[i];
    if Selected(d, filter) && PairOk(cfg, PairOf(d)) && Lookup(cfg, after, PairOf(d)).None? {
      SeedResult(cfg, bad, m, defs, filter, PairOf(d));
      BuiltSlotHere(cfg, after, PairOf(d), d.value);
      if RecordLen(PairOf(d), d.value) <= cfg.block {
        FirstFitFound(cfg, defs, i);
      }
    }
  }

  lemma {:induction false} SettledRows(cfg: KvCfg, bad: set<u32>, m: Backend, defs: seq<Default>, filter: Option<CString>)
    requires WfCfg(cfg)
    requires forall i :: 0 <= i < |defs| ==> SeedOne(cfg, bad, m, defs[i], filter).0 == m
    ensures Seed(cfg, bad, m, defs, filter).0 == m
    decreases |defs|
  {
    hide SeedOne;
    if defs != [] {
      SettledRows(cfg, bad, m, defs[..|defs| - 1], filter);
    }
  }

  /** The defaults pass is idempotent. */
  lemma SeedAgain(cfg: KvCfg, bad: set<u32>, m: Backend, defs: seq<Default>, filter: Option<CString>)
    requires WfCfg(cfg)
    ensures var after := Seed(cfg, bad, m, defs, filter).0;
            Seed(cfg, bad, after, defs, filter).0 == after
  {
    hide SeedOne, Seed;
    var after := Seed(cfg, bad, m, defs, filter).0;
    forall i | 0 <= i < |defs|
      ensures SeedOne(cfg, bad, after, defs[i], filter).0 == after
    {
      RowSettled(cfg, bad, m, defs, filter, i);
    }
    SettledRows(cfg, bad, after, defs, filter);
  }

  // ------------------------------------------------------- placement and reset

  /** A v2 record sits in the slot of the pair it names, and fits a block. */
  predicate PlacedAt(cfg: KvCfg, id: u32, rec: seq<byte>) {
    Parse(rec).Some? ==>
      var r := Parse(rec).value;
      0 !in r.ns && 0 !in r.key && PairOk(cfg, Pair(r.ns, r.key))
      && RecordId(cfg, Pair(r.ns, r.key)) == id && |rec| <= cfg.block
  }

  /** Slots other than the index hold well-placed v2 records or foreign bytes. */
  predicate Placed(cfg: KvCfg, m: Backend) {
    forall id :: id in m && id != IndexId(cfg) ==> PlacedAt(cfg, id, m[id])
  }

  /** Slots that hold a v2 record. */
  function Keys(cfg: KvCfg, m: Backend): set<u32> {
    set id | id in m && id != IndexId(cfg) && Parse(m[id]).Some?
  }

  /** The pair a stored v2 record names. */
  function PairAt(cfg: KvCfg, m: Backend, id: u32): Pair
    requires Placed(cfg, m) && id in Keys(cfg, m)
  {
    assert PlacedAt(cfg, id, m[id]);
    Pair(Parse(m[id]).value.ns, Parse(m[id]).value.key)
  }

  /** A pair has a value exactly when its slot holds the record that names it. */
  lemma LookupByPair(cfg: KvCfg, m: Backend, p: Pair)
    requires Placed(cfg, m)
    ensures Lookup(cfg, m, p).Some? <==>
            RecordId(cfg, p) in Keys(cfg, m) && PairAt(cfg, m, RecordId(cfg, p)) == p
    ensures Taken(cfg, m, p) ==> RecordId(cfg, p) in Keys(cfg, m)
    ensures RecordId(cfg, p) in Keys(cfg, m) ==> Lookup(cfg, m, p).Some? || Taken(cfg, m, p)
  {
    var id := RecordId(cfg, p);
    if id in m {
      assert PlacedAt(cfg, id, m[id]);
      CheckIsParse(Usable(cfg, m[id]), p);
      if Parse(m[id]).Some? {
        assert Usable(cfg, m[id]) == m[id];
      } else {
        UsableForeign(cfg, m[id]);
      }
    }
  }

  /** Cutting a record to the block cannot turn foreign bytes into a record. */
  lemma UsableForeign(cfg: KvCfg, rec: seq<byte>)
    requires Parse(rec).None?
    ensures Parse(Usable(cfg, rec)).None?
  {
  }

  lemma PairAtSlot(cfg: KvCfg, m: Backend, id: u32)
    requires Placed(cfg, m) && id in Keys(cfg, m)
    ensures PairOk(cfg, PairAt(cfg, m, id)) && RecordId(cfg, PairAt(cfg, m, id)) == id
    ensures Lookup(cfg, m, PairAt(cfg, m, id)).Some?
  {
    assert PlacedAt(cfg, id, m[id]);
    LookupByPair(cfg, m, PairAt(cfg, m, id));
  }

  /** The stored records without the index. */
  function Data(cfg: KvCfg, m: Backend): Backend {
    m - {IndexId(cfg)}
  }

  lemma DataKeeps(cfg: KvCfg, m: Backend, p: Pair)
    ensures Lookup(cfg, Data(cfg, m), p) == Lookup(cfg, m, p)
    ensures Taken(cfg, Data(cfg, m), p) == Taken(cfg, m, p)
  {
  }

  /** Set and delete see and change the data slots only. */
  lemma OpsOnData(cfg: KvCfg, bad: set<u32>, m: Backend, p: Pair, v: seq<byte>)
    requires WfCfg(cfg) && PairOk(cfg, p)
    ensures SetStatus(cfg, bad, Data(cfg, m), p, v) == SetStatus(cfg, bad, m, p, v)
    ensures SetStore(cfg, bad, Data(cfg, m), p, v) == Data(cfg, SetStore(cfg, bad, m, p, v))
    ensures DeleteStatus(cfg, bad, Data(cfg, m), p) == DeleteStatus(cfg, bad, m, p)
    ensures DeleteStore(cfg, bad, Data(cfg, m), p) == Data(cfg, DeleteStore(cfg, bad, m, p))
  {
    hide RecordCheck;
    DataKeeps(cfg, m, p);
    assert SetStore(cfg, bad, Data(cfg, m), p, v) == Data(cfg, SetStore(cfg, bad, m, p, v));
    assert DeleteStore(cfg, bad, Data(cfg, m), p) == Data(cfg, DeleteStore(cfg, bad, m, p));
  }

  /** The slots of a namespace that a reset can clear: all but those in keep. */
  function Cleared(cfg: KvCfg, m: Backend, ns: CString, keep: set<u32>): set<u32>
    requires Placed(cfg, m)
  {
    set id | id in Keys(cfg, m) && PairAt(cfg, m, id).ns == ns && id !in keep
  }

  /** A factory reset with the defaults pass that ends it. */
  function ResetStore(cfg: KvCfg, bad: set<u32>, m: Backend, ns: CString, keep: set<u32>, defs: seq<Default>): Backend
    requires WfCfg(cfg) && Placed(cfg, m)
  {
    Seed(cfg, bad, m - Cleared(cfg, m, ns, keep), defs, Some(ns)).0
  }

  lemma ClearedLookup(cfg: KvCfg, m: Backend, ns: CString, keep: set<u32>, p: Pair)
    requires Placed(cfg, m)
    ensures Lookup(cfg, m - Cleared(cfg, m, ns, keep), p)
         == if p.ns == ns && RecordId(cfg, p) !in keep then None else Lookup(cfg, m, p)
  {
    hide RecordCheck, Parse;
    LookupByPair(cfg, m, p);
    var id := RecordId(cfg, p);
    var left := m - Cleared(cfg, m, ns, keep);
    if id in Cleared(cfg, m, ns, keep) {
      assert id !in left;
    } else if id in m {
      assert left[id] == m[id];
    }
  }

  /** A reset leaves other namespaces untouched and its own equal to its valid
      defaults, provided no key of the namespace had to be kept because its slot
      refuses deletes or the index does not list it. */
  lemma ResetResult(cfg: KvCfg, bad: set<u32>, m: Backend, ns: CString, keep: set<u32>, defs: seq<Default>, p: Pair)
    requires WfCfg(cfg) && Placed(cfg, m) && PairOk(cfg, p)
    requires forall id :: id in Keys(cfg, m) && PairAt(cfg, m, id).ns == ns ==> id !in keep
    ensures var after := ResetStore(cfg, bad, m, ns, keep, defs);
            Lookup(cfg, after, p) == (if p.ns != ns then Lookup(cfg, m, p)
                                      else if Taken(cfg, after, p) || RecordId(cfg, p) in bad then None
                                      else FirstFit(cfg, defs, p))
  {
    hide RecordCheck, Parse, Seed, SeedOne, FirstFit;
    var left := m - Cleared(cfg, m, ns, keep);
    ClearedLookup(cfg, m, ns, keep, p);
    LookupByPair(cfg, m, p);
    SeedResult(cfg, bad, left, defs, Some(ns), p);
  }
}
