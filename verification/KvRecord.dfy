/** Records and slots of the key-value store: the hashed record id, the v2 record
    layout, and the layout of the reserved record that holds the key index. */
module KvRecord {
  import opened Bytes

  const REC_TAG: byte := 0xDB
  const REC_HDR := 3
  const INDEX_TAG: byte := 0xD1
  const INDEX_VERSION: byte := 1
  const INDEX_HDR := 4

  /** wide selects 32-bit record ids (ZMS) instead of 16-bit ones (NVS). The hash
      is left arbitrary. */
  datatype KvCfg = KvCfg(wide: bool, maxKeyLen: nat, block: nat, maxEntries: nat, hash: seq<byte> -> u32)

  predicate WfCfg(cfg: KvCfg) {
    8 <= cfg.maxKeyLen <= 128 && 16 <= cfg.block <= 1024 && 8 <= cfg.maxEntries <= 1024
  }

  datatype Pair = Pair(ns: CString, key: CString)

  predicate NameOk(cfg: KvCfg, name: seq<byte>) {
    0 < |name| <= cfg.maxKeyLen
  }

  predicate PairOk(cfg: KvCfg, p: Pair) {
    NameOk(cfg, p.ns) && NameOk(cfg, p.key)
  }

  function HashInput(p: Pair): seq<byte> {
    p.ns + [0] + p.key
  }

  lemma SeparatorFirst(p: Pair)
    ensures HashInput(p)[|p.ns|] == 0
    ensures forall i :: 0 <= i < |p.ns| ==> HashInput(p)[i] != 0
  {
    forall i | 0 <= i < |p.ns|
      ensures HashInput(p)[i] != 0
    {
      assert HashInput(p)[i] == p.ns[i];
    }
  }

  /** The separator keeps the hashed bytes of two different pairs different. */
  lemma HashInputInjective(p: Pair, q: Pair)
    requires HashInput(p) == HashInput(q)
    ensures p == q
  {
    var h := HashInput(p);
    SeparatorFirst(p);
    SeparatorFirst(q);
    assert |p.ns| == |q.ns|;
    assert p.ns == h[..|p.ns|] == HashInput(q)[..|q.ns|] == q.ns;
    assert p.key == h[|p.ns| + 1..] == HashInput(q)[|q.ns| + 1..] == q.key;
  }

  function IndexId(cfg: KvCfg): u32 {
    if cfg.wide then 0xFFFF_FFFF else 0xFFFF
  }

  /** No key can occupy slot 0 or the slot of the index. */
  function RecordId(cfg: KvCfg, p: Pair): (id: u32)
    ensures id != 0 && id != IndexId(cfg)
    ensures !cfg.wide ==> id < 0x1_0000
  {
    var h := cfg.hash(HashInput(p));
    var folded := if cfg.wide then h else h % 0x1_0000;
    if folded == 0 || folded == IndexId(cfg) then 1 else folded
  }

  /** What the hash of namespace, NUL and key folds to. */
  function FoldedHash(cfg: KvCfg, p: Pair): u32 {
    var h := cfg.hash(p.ns + [0] + p.key);
    if cfg.wide then h else h % 0x1_0000
  }

  /** Two pairs share a slot exactly when their hashes fold to the same id, or both
      fold to 0, 1 or the id of the index. */
  lemma SlotsShared(cfg: KvCfg, p: Pair, q: Pair)
    ensures var i, j, moved := FoldedHash(cfg, p), FoldedHash(cfg, q), {0, 1, if cfg.wide then 0xFFFF_FFFF else 0xFFFF};
            RecordId(cfg, p) == RecordId(cfg, q) <==> i == j || (i in moved && j in moved)
    ensures FoldedHash(cfg, p) !in {0, 1, if cfg.wide then 0xFFFF_FFFF else 0xFFFF} ==>
              RecordId(cfg, p) == FoldedHash(cfg, p)
  {
    assert HashInput(p) == p.ns + [0] + p.key && HashInput(q) == q.ns + [0] + q.key;
  }

  function RecordLen(p: Pair, v: seq<byte>): nat {
    REC_HDR + |p.ns| + |p.key| + |v|
  }

  function Build(p: Pair, v: seq<byte>): (b: seq<byte>)
    requires |p.ns| < 256 && |p.key| < 256
    ensures |b| == RecordLen(p, v)
  {
    [REC_TAG, |p.ns|, |p.key|] + p.ns + p.key + v
  }

  datatype Check = Match(off: nat) | Mismatch | Foreign

  function RecordCheck(buf: seq<byte>, p: Pair): Check {
    if |buf| < REC_HDR || buf[0] != REC_TAG then Foreign
    else
      var n, k := buf[1], buf[2];
      if |buf| < REC_HDR + n + k then Foreign
      else if n != |p.ns| || k != |p.key| || buf[REC_HDR..REC_HDR + n] != p.ns
              || buf[REC_HDR + n..REC_HDR + n + k] != p.key then Mismatch
      else Match(REC_HDR + n + k)
  }

  datatype Record = Record(ns: seq<byte>, key: seq<byte>, value: seq<byte>)

  /** What a buffer holds, read without knowing which pair to expect. */
  function Parse(buf: seq<byte>): Option<Record> {
    if |buf| < REC_HDR || buf[0] != REC_TAG || |buf| < REC_HDR + buf[1] + buf[2] then None
    else
      var k := REC_HDR + buf[1];
      var v := k + buf[2];
      Some(Record(buf[REC_HDR..k], buf[k..v], buf[v..]))
  }

  /** Checking a slot for a pair finds a match exactly when the slot holds that
      pair, and the reported offset is where its value starts. */
  lemma CheckIsParse(buf: seq<byte>, p: Pair)
    ensures RecordCheck(buf, p).Foreign? <==> Parse(buf).None?
    ensures RecordCheck(buf, p).Match? <==> Parse(buf).Some? && Parse(buf).value.ns == p.ns && Parse(buf).value.key == p.key
    ensures RecordCheck(buf, p).Match? ==>
              RecordCheck(buf, p).off <= |buf| && buf[RecordCheck(buf, p).off..] == Parse(buf).value.value
  {
  }

  lemma ParseBuild(p: Pair, v: seq<byte>)
    requires |p.ns| < 256 && |p.key| < 256
    ensures Parse(Build(p, v)) == Some(Record(p.ns, p.key, v))
  {
    var b := Build(p, v);
    var k := REC_HDR + |p.ns|;
    assert b[REC_HDR..k] == p.ns;
    assert b[k..k + |p.key|] == p.key;
    assert b[k + |p.key|..] == v;
  }

  /** A record of the first format starts with its key length, which the key
      limit keeps below the tag, so it is never taken for a v2 record. */
  lemma OldRecordsForeign(cfg: KvCfg, key: CString, v: seq<byte>, p: Pair)
    requires WfCfg(cfg) && NameOk(cfg, key)
    ensures RecordCheck([|key|] + key + v, p) == Foreign
  {
    assert ([|key|] + key + v)[0] == |key|;
  }

  /** The ids as consecutive 32-bit words. */
  function Words(ids: seq<u32>): (b: seq<byte>)
    ensures |b| == 4 * |ids|
  {
    if ids == [] then [] else Words(ids[..|ids| - 1]) + Put32(ids[|ids| - 1])
  }

  lemma WordsUpTo(ids: seq<u32>, i: nat)
    requires i <= |ids|
    ensures i == 0 ==> Words(ids[..i]) == []
    ensures i > 0 ==> Words(ids[..i]) == Words(ids[..i - 1]) + Put32(ids[i - 1])
  {
    if i > 0 {
      assert ids[..i][..i - 1] == ids[..i - 1];
    }
  }

  function IndexBytes(ids: seq<u32>): (b: seq<byte>)
    requires |ids| < 0x1_0000
    ensures |b| == INDEX_HDR + 4 * |ids|
  {
    [INDEX_TAG, INDEX_VERSION] + Put16(|ids|) + Words(ids)
  }

  function WordAt(b: seq<byte>, i: nat): u32
    requires INDEX_HDR + 4 * i + 4 <= |b|
  {
    Get32(b[INDEX_HDR + 4 * i..INDEX_HDR + 4 * i + 4])
  }

  /** How many ids an index record claims, or none when it is not readable:
      short, of another kind or version, or shorter than its own count. The
      count is first clamped to what the table can hold. */
  function IndexCount(cfg: KvCfg, b: seq<byte>): (n: Option<nat>)
    ensures n.Some? ==> INDEX_HDR + 4 * n.value <= |b| && n.value <= cfg.maxEntries
  {
    if |b| < INDEX_HDR || b[0] != INDEX_TAG || b[1] != INDEX_VERSION then None
    else
      var claimed := Get16(b[2..4]);
      var n := if claimed > cfg.maxEntries then cfg.maxEntries else claimed;
      if INDEX_HDR + 4 * n > |b| then None else Some(n)
  }

  function IndexIds(cfg: KvCfg, b: seq<byte>): (ids: seq<u32>)
    ensures |ids| <= cfg.maxEntries
  {
    match IndexCount(cfg, b)
    case None => []
    case Some(n) => seq(n, i requires 0 <= i < n && INDEX_HDR + 4 * n <= |b| => WordAt(b, i))
  }

  lemma {:induction false} WordsAt(ids: seq<u32>, i: nat)
    requires i < |ids|
    ensures Get32(Words(ids)[4 * i..4 * i + 4]) == ids[i]
  {
    var front, last := ids[..|ids| - 1], ids[|ids| - 1];
    var n := |front|;
    if i == n {
      assert Words(ids)[4 * n..4 * n + 4] == Put32(last);
    } else {
      WordsAt(front, i);
      assert Words(ids)[4 * i..4 * i + 4] == Words(front)[4 * i..4 * i + 4];
    }
  }

  /** Reading back a stored index returns its ids, as many as the table can hold. */
  lemma IndexRoundTrip(cfg: KvCfg, ids: seq<u32>)
    requires WfCfg(cfg) && |ids| < 0x1_0000
    ensures IndexIds(cfg, IndexBytes(ids)) == ids[..if |ids| > cfg.maxEntries then cfg.maxEntries else |ids|]
    ensures |ids| <= cfg.maxEntries ==> IndexIds(cfg, IndexBytes(ids)) == ids
  {
    var b := IndexBytes(ids);
    var n := if |ids| > cfg.maxEntries then cfg.maxEntries else |ids|;
    assert b[2..4] == Put16(|ids|);
    assert IndexCount(cfg, b) == Some(n);
    forall i | 0 <= i < n
      ensures WordAt(b, i) == ids[i]
    {
      WordsAt(ids, i);
      assert b[INDEX_HDR + 4 * i..INDEX_HDR + 4 * i + 4] == Words(ids)[4 * i..4 * i + 4];
    }
  }
}
