/** The document file: typed fields, their serialized form, and the parser. */
module DocCodec {
  import opened Bytes

  const DOC_MAGIC: u32 := 0x5A44_4F43
  const HDR_SIZE := 28
  const PREFIX_SIZE := 24

  datatype DocCfg = DocCfg(maxName: nat, maxStr: nat, maxBytes: nat, maxFields: nat)

  predicate WfCfg(cfg: DocCfg) {
    8 <= cfg.maxName <= 128 && 16 <= cfg.maxStr <= 65536 && 16 <= cfg.maxBytes <= 1048576 && 1 <= cfg.maxFields <= 256
  }

  /** A double is kept as its 64 bits. */
  datatype Value =
    | Int64(i: i64)
    | Double(bits: u64)
    | Str(s: CString)
    | Bool(b: bool)
    | Blob(data: seq<byte>)

  datatype Field = Field(name: CString, value: Value)

  function TypeTag(v: Value): byte {
    match v
    case Int64(_) => 1
    case Double(_) => 2
    case Str(_) => 3
    case Bool(_) => 4
    case Blob(_) => 5
  }

  predicate NameOk(cfg: DocCfg, name: seq<byte>) {
    0 < |name| <= cfg.maxName
  }

  predicate ValueOk(cfg: DocCfg, v: Value) {
    && (v.Str? ==> |v.s| <= cfg.maxStr)
    && (v.Blob? ==> |v.data| <= cfg.maxBytes)
  }

  predicate FieldOk(cfg: DocCfg, f: Field) {
    NameOk(cfg, f.name) && ValueOk(cfg, f.value)
  }

  predicate Unique(fs: seq<Field>) {
    forall i, j :: 0 <= i < j < |fs| ==> fs[i].name != fs[j].name
  }

  /** A document the setters can build. */
  predicate DocOk(cfg: DocCfg, fs: seq<Field>) {
    |fs| <= cfg.maxFields && Unique(fs) && forall i :: 0 <= i < |fs| ==> FieldOk(cfg, fs[i])
  }

  // ------------------------------------------------------------------ setters

  /** The position of a name, or the length when it is absent. */
  function IndexOf(fs: seq<Field>, name: CString): (i: nat)
    ensures i <= |fs| && (i < |fs| ==> fs[i].name == name)
    ensures forall j :: 0 <= j < i ==> fs[j].name != name
  {
    if fs == [] then 0
    else
      var i := IndexOf(fs[..|fs| - 1], name);
      if i < |fs| - 1 || fs[i].name == name then i else |fs|
  }

  /** A setter: replaces the value of a present name where it stands, appends an
      absent one. */
  function SetField(cfg: DocCfg, fs: seq<Field>, f: Field): (Status, seq<Field>) {
    var i := IndexOf(fs, f.name);
    if !FieldOk(cfg, f) then (Inval, fs)
    else if i < |fs| then (Ok, fs[i := f])
    else if |fs| >= cfg.maxFields then (NoMem, fs)
    else (Ok, fs + [f])
  }

  function ValueOf(fs: seq<Field>, name: CString): Option<Value> {
    var i := IndexOf(fs, name);
    if i < |fs| then Some(fs[i].value) else None
  }

  lemma IndexUnique(fs: seq<Field>, name: CString, k: nat)
    requires Unique(fs) && k < |fs| && fs[k].name == name
    ensures IndexOf(fs, name) == k
  {
  }

  /** A successful set updates the named value only and keeps the document one
      that a save can store; a failed one changes nothing. */
  lemma SetIsMapUpdate(cfg: DocCfg, fs: seq<Field>, f: Field, name: CString)
    requires DocOk(cfg, fs)
    ensures var (rc, fs') := SetField(cfg, fs, f);
            DocOk(cfg, fs')
            && ValueOf(fs', name) == (if rc.Ok? && name == f.name then Some(f.value) else ValueOf(fs, name))
            && (!rc.Ok? ==> fs' == fs)
    ensures SetField(cfg, fs, f).0.NoMem? <==> FieldOk(cfg, f) && ValueOf(fs, f.name).None? && |fs| == cfg.maxFields
  {
    var (rc, fs') := SetField(cfg, fs, f);
    var i := IndexOf(fs, f.name);
    if rc.Ok? {
      assert Unique(fs');
      if name == f.name {
        IndexUnique(fs', name, i);
      } else {
        var k := IndexOf(fs, name);
        if k < |fs| {
          IndexUnique(fs', name, k);
        }
      }
    }
  }

  /** A setter refuses an illegal field with INVAL and only that; a legal one succeeds
      exactly when the name is present or there is room for it. */
  lemma SetOutcome(cfg: DocCfg, fs: seq<Field>, f: Field)
    requires DocOk(cfg, fs)
    ensures var rc := SetField(cfg, fs, f).0;
            var legal := && 0 < |f.name| <= cfg.maxName
                         && (f.value.Str? ==> |f.value.s| <= cfg.maxStr)
                         && (f.value.Blob? ==> |f.value.data| <= cfg.maxBytes);
            var present := exists i :: 0 <= i < |fs| && fs[i].name == f.name;
            && (rc == Inval <==> !legal)
            && (rc == Ok <==> legal && (present || |fs| < cfg.maxFields))
            && rc in [Ok, Inval, NoMem]
  {
  }

  /** A present name keeps its position and every other field its own; an absent one
      comes last. */
  lemma SetPlaces(cfg: DocCfg, fs: seq<Field>, f: Field, i: nat)
    requires DocOk(cfg, fs) && SetField(cfg, fs, f).0.Ok? && i < |fs|
    ensures var fs' := SetField(cfg, fs, f).1;
            && |fs'| == |fs| + (if exists k :: 0 <= k < |fs| && fs[k].name == f.name then 0 else 1)
            && fs'[i] == (if fs[i].name == f.name then f else fs[i])
            && (|fs'| > |fs| ==> fs'[|fs|] == f)
  {
  }

  /** Setting a name twice is setting it once, to the second value. */
  lemma SetTwice(cfg: DocCfg, fs: seq<Field>, f: Field, g: Field, i: nat)
    requires DocOk(cfg, fs) && SetField(cfg, fs, f).0.Ok? && FieldOk(cfg, g) && g.name == f.name
    requires i < |SetField(cfg, fs, f).1| && SetField(cfg, fs, f).1[i].name == f.name
    ensures SetField(cfg, fs, g) == (Ok, SetField(cfg, fs, f).1[i := g])
  {
    SetIsMapUpdate(cfg, fs, f, f.name);
    var k, fs' := IndexOf(fs, f.name), SetField(cfg, fs, f).1;
    IndexUnique(fs', f.name, i);
    IndexUnique(fs', f.name, k);
    if k < |fs| {
      assert fs'[i := g] == fs[k := g];
    } else {
      assert fs'[i := g] == fs + [g];
    }
  }

  // ------------------------------------------------------------ serialization

  function FieldHeader(f: Field): (b: seq<byte>)
    requires |f.name| < 0x1_0000
    ensures |b| == 8
  {
    Put16(|f.name|) + Put16(0) + [TypeTag(f.value), 0, 0, 0]
  }

  function ValueBytes(cfg: DocCfg, v: Value): seq<byte>
    requires WfCfg(cfg) && ValueOk(cfg, v)
  {
    match v
    case Int64(i) => Put64(ToUnsigned(i))
    case Double(bits) => Put64(bits)
    case Str(s) => Put32(|s|) + s
    case Bool(b) => [if b then 1 else 0]
    case Blob(data) => Put32(|data|) + data
  }

  function FieldBytes(cfg: DocCfg, f: Field): seq<byte>
    requires WfCfg(cfg) && FieldOk(cfg, f)
  {
    FieldHeader(f) + f.name + ValueBytes(cfg, f.value)
  }

  predicate FieldsOk(cfg: DocCfg, fs: seq<Field>) {
    forall i :: 0 <= i < |fs| ==> FieldOk(cfg, fs[i])
  }

  function FieldsBytes(cfg: DocCfg, fs: seq<Field>): seq<byte>
    requires WfCfg(cfg) && FieldsOk(cfg, fs)
  {
    if fs == [] then [] else FieldBytes(cfg, fs[0]) + FieldsBytes(cfg, fs[1..])
  }

  lemma {:induction false} FieldsBytesConcat(cfg: DocCfg, a: seq<Field>, b: seq<Field>)
    requires WfCfg(cfg) && FieldsOk(cfg, a) && FieldsOk(cfg, b)
    ensures FieldsBytes(cfg, a + b) == FieldsBytes(cfg, a) + FieldsBytes(cfg, b)
  {
    hide FieldBytes;
    if a == [] {
      assert a + b == b;
    } else {
      FieldsBytesConcat(cfg, a[1..], b);
      assert (a + b)[1..] == a[1..] + b;
    }
  }

  /** The part of the header that the digest covers. */
  function Prefix(version: u16, count: u16, created: u64, updated: u64): (b: seq<byte>)
    ensures |b| == PREFIX_SIZE
  {
    Put32(DOC_MAGIC) + Put16(version) + Put16(count) + Put64(created) + Put64(updated)
  }

  /** A file of any version with any stored digest. */
  function FileWith(cfg: DocCfg, version: u16, stored: u32, fs: seq<Field>, created: u64, updated: u64): seq<byte>
    requires WfCfg(cfg) && DocOk(cfg, fs)
  {
    Prefix(version, |fs|, created, updated) + Put32(stored) + FieldsBytes(cfg, fs)
  }

  /** The saved file: the digest covers the prefix and every field byte. */
  function FileBytes(step: CrcStep, cfg: DocCfg, fs: seq<Field>, created: u64, updated: u64): (b: seq<byte>)
    requires WfCfg(cfg) && DocOk(cfg, fs)
  {
    FileWith(cfg, 2, Crc(step, 0, Prefix(2, |fs|, created, updated) + FieldsBytes(cfg, fs)), fs, created, updated)
  }

  // ------------------------------------------------------------------ parsing

  /** The outcome of reading one field: the field and its length, or an error. */
  datatype Read = Got(field: Field, len: nat) | Stop(status: Status)

  /** The value at the head of b, of the type the tag names. */
  datatype ReadValue = Gives(value: Value, len: nat) | Fails(status: Status)

  function ParseSized(b: seq<byte>, max: nat): Option<seq<byte>> {
    if |b| < 4 || Get32(b[..4]) > max || |b| < 4 + Get32(b[..4]) then None
    else Some(b[4..4 + Get32(b[..4])])
  }

  function ParseValue(cfg: DocCfg, tag: byte, b: seq<byte>): (r: ReadValue)
    ensures r.Gives? ==> r.len <= |b| && ValueOk(cfg, r.value)
  {
    if tag == 1 then
      if |b| < 8 then Fails(Corrupt) else Gives(Int64(ToSigned(Get64(b[..8]))), 8)
    else if tag == 2 then
      if |b| < 8 then Fails(Corrupt) else Gives(Double(Get64(b[..8])), 8)
    else if tag == 3 then
      match ParseSized(b, cfg.maxStr)
      case None => Fails(Corrupt)
      case Some(s) => Gives(Str(UpToNul(s)), 4 + |s|)
    else if tag == 4 then
      if |b| < 1 then Fails(Corrupt) else Gives(Bool(b[0] != 0), 1)
    else if tag == 5 then
      match ParseSized(b, cfg.maxBytes)
      case None => Fails(Corrupt)
      case Some(s) => Gives(Blob(s), 4 + |s|)
    else Fails(Unsupported)
  }

  /** Where the value of the field at the head of b starts: after its header and
      a name of a legal length. */
  function HeadLen(cfg: DocCfg, b: seq<byte>): (h: Option<nat>)
    ensures h.Some? ==> 8 < h.value <= |b|
  {
    if |b| < 8 then None
    else
      var n := Get16(b[..2]);
      if n == 0 || n > cfg.maxName || |b| < 8 + n then None else Some(8 + n)
  }

  function ParseField(cfg: DocCfg, b: seq<byte>): (r: Read)
    ensures r.Got? ==> 8 < r.len <= |b| && FieldOk(cfg, r.field)
  {
    match HeadLen(cfg, b)
    case None => Stop(Corrupt)
    case Some(h) =>
      var name := UpToNul(b[8..h]);
      match ParseValue(cfg, b[4], b[h..])
      case Fails(s) => Stop(s)
      case Gives(v, len) => if name == [] then Stop(Inval) else Got(Field(name, v), h + len)
  }

  /** The fields read, the digest of what was consumed, and how the loop ended. */
  datatype Fields = Fields(status: Status, fields: seq<Field>, crc: u32)

  function ParseFields(step: CrcStep, cfg: DocCfg, b: seq<byte>, n: nat, fs: seq<Field>, crc: u32): Fields
    decreases n
  {
    if n == 0 then Fields(Ok, fs, crc)
    else
      match ParseField(cfg, b)
      case Stop(s) => Fields(s, fs, crc)
      case Got(f, len) =>
        var (rc, fs') := SetField(cfg, fs, f);
        if !rc.Ok? then Fields(rc, fs, crc)
        else ParseFields(step, cfg, b[len..], n - 1, fs', Crc(step, crc, b[..len]))
  }

  datatype Parsed = Parsed(fields: seq<Field>, created: u64, updated: u64)

  datatype Result<T> = Success(value: T) | Failure(status: Status)

  /** Reading a whole file. Version 1 protects the header only; version 2 the
      fields as well. */
  function ParseFile(step: CrcStep, cfg: DocCfg, b: seq<byte>): Result<Parsed> {
    if |b| < HDR_SIZE then Failure(Corrupt)
    else
      var version := Get16(b[4..6]);
      var count := Get16(b[6..8]);
      var seed := Crc(step, 0, b[..PREFIX_SIZE]);
      var stored := Get32(b[24..28]);
      if Get32(b[..4]) != DOC_MAGIC || (version != 1 && version != 2) then Failure(Corrupt)
      else if version == 1 && stored != seed then Failure(Corrupt)
      else if count > cfg.maxFields then Failure(NoMem)
      else
        var r := ParseFields(step, cfg, b[HDR_SIZE..], count, [], seed);
        if !r.status.Ok? then Failure(r.status)
        else if version == 2 && stored != r.crc then Failure(Corrupt)
        else Success(Parsed(r.fields, Get64(b[8..16]), Get64(b[16..24])))
  }

  // --------------------------------------------------------------- round trip

  lemma SignedRoundTrip(i: i64)
    ensures ToSigned(ToUnsigned(i)) == i
  {
  }

  /** A value is read back whatever follows it, and no strict prefix of it is
      taken for a value. */
  lemma ParseValueBytes(cfg: DocCfg, v: Value, tail: seq<byte>)
    requires WfCfg(cfg) && ValueOk(cfg, v)
    ensures ParseValue(cfg, TypeTag(v), ValueBytes(cfg, v) + tail) == Gives(v, |ValueBytes(cfg, v)|)
  {
    var b := ValueBytes(cfg, v) + tail;
    match v {
      case Int64(i) =>
        assert b[..8] == Put64(ToUnsigned(i));
        SignedRoundTrip(i);
      case Double(bits) => assert b[..8] == Put64(bits);
      case Bool(_) =>
      case Str(s) => SizedBytes(s, tail, cfg.maxStr);
      case Blob(data) => SizedBytes(data, tail, cfg.maxBytes);
    }
  }

  lemma SizedBytes(s: seq<byte>, tail: seq<byte>, max: nat)
    requires |s| <= max < 0x1_0000_0000
    ensures ParseSized(Put32(|s|) + s + tail, max) == Some(s)
  {
    var b := Put32(|s|) + s + tail;
    assert b[..4] == Put32(|s|);
    assert b[4..4 + |s|] == s;
  }

  lemma SizedCut(s: seq<byte>, k: nat, max: nat)
    requires |s| <= max < 0x1_0000_0000 && k < 4 + |s|
    ensures ParseSized((Put32(|s|) + s)[..k], max) == None
  {
    var b := (Put32(|s|) + s)[..k];
    if k >= 4 {
      assert b[..4] == Put32(|s|);
    }
  }

  lemma ParseValueCut(cfg: DocCfg, v: Value, k: nat)
    requires WfCfg(cfg) && ValueOk(cfg, v) && k < |ValueBytes(cfg, v)|
    ensures ParseValue(cfg, TypeTag(v), ValueBytes(cfg, v)[..k]) == Fails(Corrupt)
  {
    match v {
      case Int64(_) =>
      case Double(_) =>
      case Bool(_) =>
      case Str(s) => SizedCut(s, k, cfg.maxStr);
      case Blob(data) => SizedCut(data, k, cfg.maxBytes);
    }
  }

  lemma ParseFieldBytes(cfg: DocCfg, f: Field, tail: seq<byte>)
    requires WfCfg(cfg) && FieldOk(cfg, f)
    ensures ParseField(cfg, FieldBytes(cfg, f) + tail) == Got(f, |FieldBytes(cfg, f)|)
  {
    hide ParseValue, ValueBytes;
    var b := FieldBytes(cfg, f) + tail;
    var n := |f.name|;
    ParseValueBytes(cfg, f.value, tail);
    assert b[..2] == Put16(n);
    assert b[8..8 + n] == f.name;
    assert b[8 + n..] == ValueBytes(cfg, f.value) + tail;
  }

  lemma ParseFieldCut(cfg: DocCfg, f: Field, k: nat)
    requires WfCfg(cfg) && FieldOk(cfg, f) && k < |FieldBytes(cfg, f)|
    ensures ParseField(cfg, FieldBytes(cfg, f)[..k]) == Stop(Corrupt)
  {
    hide ParseValue, ValueBytes, Le, FromLe, TypeTag;
    var b := FieldBytes(cfg, f)[..k];
    var n := |f.name|;
    var v := ValueBytes(cfg, f.value);
    if k >= 8 {
      assert b[..2] == Put16(n);
      if k >= 8 + n {
        ParseValueCut(cfg, f.value, k - 8 - n);
        var head := FieldHeader(f) + f.name;
        assert |head| == 8 + n && FieldBytes(cfg, f) == head + v;
        assert b[4] == TypeTag(f.value);
        assert b[8 + n..] == v[..k - 8 - n];
      }
    }
  }

  /** A field of a type this build does not know is UNSUPPORTED. */
  lemma UnknownType(cfg: DocCfg, name: CString, tag: byte, rest: seq<byte>)
    requires WfCfg(cfg) && NameOk(cfg, name) && tag !in {1, 2, 3, 4, 5}
    ensures ParseField(cfg, Put16(|name|) + Put16(0) + [tag, 0, 0, 0] + name + rest) == Stop(Unsupported)
  {
    hide Le, FromLe;
    var b := Put16(|name|) + Put16(0) + [tag, 0, 0, 0] + name + rest;
    assert b[..2] == Put16(|name|) && b[4] == tag;
  }

  /** A field over the limits of this build, saved by one with larger limits, is
      CORRUPT. */
  lemma OverLimits(cfg: DocCfg, larger: DocCfg, f: Field, rest: seq<byte>)
    requires WfCfg(cfg) && WfCfg(larger) && FieldOk(larger, f) && !FieldOk(cfg, f)
    ensures ParseField(cfg, FieldBytes(larger, f) + rest) == Stop(Corrupt)
  {
    hide Le, FromLe, UpToNul;
    var b, n := FieldBytes(larger, f) + rest, |f.name|;
    assert b[..2] == Put16(n) && b[4] == TypeTag(f.value);
    if NameOk(cfg, f.name) {
      var value := if f.value.Str? then f.value.s else f.value.data;
      assert b[8 + n..][..4] == Put32(|value|);
    }
  }

  lemma NewName(done: seq<Field>, fs: seq<Field>)
    requires Unique(done + fs) && fs != []
    ensures IndexOf(done, fs[0].name) == |done|
  {
    forall j | 0 <= j < |done|
      ensures done[j].name != fs[0].name
    {
      assert (done + fs)[j] == done[j] && (done + fs)[|done|] == fs[0];
    }
  }

  /** Reading the fields back appends them in order and folds exactly their
      bytes into the digest. */
  lemma {:induction false} ParseFieldsBytes(step: CrcStep, cfg: DocCfg, done: seq<Field>, fs: seq<Field>, crc: u32)
    requires WfCfg(cfg) && DocOk(cfg, done + fs) && FieldsOk(cfg, fs)
    ensures ParseFields(step, cfg, FieldsBytes(cfg, fs), |fs|, done, crc)
         == Fields(Ok, done + fs, Crc(step, crc, FieldsBytes(cfg, fs)))
    decreases |fs|
  {
    hide FieldBytes, ParseField, FieldOk;
    if fs == [] {
      assert done + fs == done;
    } else {
      var f, rest := fs[0], fs[1..];
      var b := FieldsBytes(cfg, fs);
      var len := |FieldBytes(cfg, f)|;
      assert (done + fs)[|done|] == f;
      ParseFieldBytes(cfg, f, FieldsBytes(cfg, rest));
      NewName(done, fs);
      assert done + [f] + rest == done + fs;
      ParseFieldsBytes(step, cfg, done + [f], rest, Crc(step, crc, FieldBytes(cfg, f)));
      assert b[len..] == FieldsBytes(cfg, rest) && b[..len] == FieldBytes(cfg, f);
      CrcConcat(step, crc, FieldBytes(cfg, f), FieldsBytes(cfg, rest));
    }
  }

  lemma PrefixLayout(version: u16, count: u16, created: u64, updated: u64)
    ensures var p := Prefix(version, count, created, updated);
            && p[..4] == Put32(DOC_MAGIC) && p[4..6] == Put16(version) && p[6..8] == Put16(count)
            && p[8..16] == Put64(created) && p[16..24] == Put64(updated)
  {
    hide Le, FromLe;
    FiveParts(Put32(DOC_MAGIC), Put16(version), Put16(count), Put64(created), Put64(updated));
  }

  lemma FiveParts(a: seq<byte>, b: seq<byte>, c: seq<byte>, d: seq<byte>, e: seq<byte>)
    requires |a| == 4 && |b| == 2 && |c| == 2 && |d| == 8 && |e| == 8
    ensures var p := a + b + c + d + e;
            p[..4] == a && p[4..6] == b && p[6..8] == c && p[8..16] == d && p[16..24] == e
  {
  }

  lemma FileLayout(cfg: DocCfg, version: u16, stored: u32, fs: seq<Field>, created: u64, updated: u64)
    requires WfCfg(cfg) && DocOk(cfg, fs)
    ensures var b := FileWith(cfg, version, stored, fs, created, updated);
            |b| == HDR_SIZE + |FieldsBytes(cfg, fs)|
            && b[..PREFIX_SIZE] == Prefix(version, |fs|, created, updated) && b[HDR_SIZE..] == FieldsBytes(cfg, fs)
            && Get32(b[..4]) == DOC_MAGIC && Get16(b[4..6]) == version && Get16(b[6..8]) == |fs|
            && Get64(b[8..16]) == created && Get64(b[16..24]) == updated && Get32(b[24..28]) == stored
  {
    hide FieldsBytes, Prefix, Le, FromLe;
    PrefixLayout(version, |fs|, created, updated);
    var b, p := FileWith(cfg, version, stored, fs, created, updated), Prefix(version, |fs|, created, updated);
    assert b[..PREFIX_SIZE] == p && b[24..28] == Put32(stored);
    assert b[..4] == p[..4] && b[4..6] == p[4..6] && b[6..8] == p[6..8] && b[8..16] == p[8..16] && b[16..24] == p[16..24];
  }

  /** A file of either version opens, to exactly what was stored, if and only if its
      stored digest is right: that of the header prefix in version 1, that of the
      prefix and every field byte in version 2. Any other file is CORRUPT. */
  lemma OpensIffDigest(step: CrcStep, cfg: DocCfg, version: u16, stored: u32, fs: seq<Field>, created: u64, updated: u64)
    requires WfCfg(cfg) && DocOk(cfg, fs)
    ensures var prefix := Prefix(version, |fs|, created, updated);
            var right := || (version == 1 && stored == Crc(step, 0, prefix))
                         || (version == 2 && stored == Crc(step, 0, prefix + FieldsBytes(cfg, fs)));
            ParseFile(step, cfg, FileWith(cfg, version, stored, fs, created, updated))
            == if right then Success(Parsed(fs, created, updated)) else Failure(Corrupt)
  {
    hide FieldsBytes, ParseFields, Prefix, FileWith;
    var b := FileWith(cfg, version, stored, fs, created, updated);
    FileLayout(cfg, version, stored, fs, created, updated);
    var seed := Crc(step, 0, b[..PREFIX_SIZE]);
    CrcConcat(step, 0, b[..PREFIX_SIZE], FieldsBytes(cfg, fs));
    assert [] + fs == fs;
    ParseFieldsBytes(step, cfg, [], fs, seed);
  }

  lemma DocFits(cfg: DocCfg, fs: seq<Field>)
    requires WfCfg(cfg) && DocOk(cfg, fs)
    ensures |fs| < 0x1_0000 && FieldsOk(cfg, fs)
  {
  }

  /** Every document built through the setters is read back as it was saved:
      fields, order and timestamps. */
  lemma RoundTrip(step: CrcStep, cfg: DocCfg, fs: seq<Field>, created: u64, updated: u64)
    requires WfCfg(cfg) && DocOk(cfg, fs)
    ensures ParseFile(step, cfg, FileBytes(step, cfg, fs, created, updated)) == Success(Parsed(fs, created, updated))
  {
    hide ParseFile, FileWith;
    DocFits(cfg, fs);
    OpensIffDigest(step, cfg, 2, Crc(step, 0, Prefix(2, |fs|, created, updated) + FieldsBytes(cfg, fs)), fs, created, updated);
  }

  /** A document saved by a build that holds more fields than this one is NOMEM. */
  lemma TooManyFields(step: CrcStep, cfg: DocCfg, larger: DocCfg, fs: seq<Field>, created: u64, updated: u64)
    requires WfCfg(larger) && DocOk(larger, fs) && |fs| > cfg.maxFields
    ensures ParseFile(step, cfg, FileBytes(step, larger, fs, created, updated)) == Failure(NoMem)
  {
    hide FieldsBytes, ParseFields, Prefix, FileWith;
    FileLayout(larger, 2, Crc(step, 0, Prefix(2, |fs|, created, updated) + FieldsBytes(larger, fs)), fs, created, updated);
  }

  /** Fields cut anywhere before their end are refused, whatever the checksum. */
  lemma {:induction false} ParseFieldsCut(step: CrcStep, cfg: DocCfg, done: seq<Field>, fs: seq<Field>, crc: u32, k: nat)
    requires WfCfg(cfg) && DocOk(cfg, done + fs) && FieldsOk(cfg, fs) && k < |FieldsBytes(cfg, fs)|
    ensures ParseFields(step, cfg, FieldsBytes(cfg, fs)[..k], |fs|, done, crc).status == Corrupt
    decreases |fs|
  {
    hide FieldBytes, ParseField, FieldOk;
    var f, rest := fs[0], fs[1..];
    var b := FieldsBytes(cfg, fs);
    var len := |FieldBytes(cfg, f)|;
    assert b == FieldBytes(cfg, f) + FieldsBytes(cfg, rest);
    if k < len {
      ParseFieldCut(cfg, f, k);
      assert b[..k] == FieldBytes(cfg, f)[..k];
    } else {
      assert (done + fs)[|done|] == f;
      assert b[..k] == FieldBytes(cfg, f) + FieldsBytes(cfg, rest)[..k - len];
      ParseFieldBytes(cfg, f, FieldsBytes(cfg, rest)[..k - len]);
      NewName(done, fs);
      assert done + [f] + rest == done + fs;
      assert b[..k][len..] == FieldsBytes(cfg, rest)[..k - len];
      ParseFieldsCut(step, cfg, done + [f], rest, Crc(step, crc, b[..k][..len]), k - len);
    }
  }

  /** No strict prefix of a saved document parses, for any checksum function. */
  lemma TruncationRejected(step: CrcStep, cfg: DocCfg, fs: seq<Field>, created: u64, updated: u64, k: nat)
    requires WfCfg(cfg) && DocOk(cfg, fs) && k < |FileBytes(step, cfg, fs, created, updated)|
    ensures ParseFile(step, cfg, FileBytes(step, cfg, fs, created, updated)[..k]) == Failure(Corrupt)
  {
    hide FieldsBytes, ParseFields, Prefix, FileWith;
    var b := FileBytes(step, cfg, fs, created, updated);
    FileLayout(cfg, 2, Crc(step, 0, Prefix(2, |fs|, created, updated) + FieldsBytes(cfg, fs)), fs, created, updated);
    var c := b[..k];
    if k >= HDR_SIZE {
      assert c[..4] == b[..4] && c[4..6] == b[4..6] && c[6..8] == b[6..8];
      assert c[HDR_SIZE..] == FieldsBytes(cfg, fs)[..k - HDR_SIZE];
      assert [] + fs == fs;
      ParseFieldsCut(step, cfg, [], fs, Crc(step, 0, c[..PREFIX_SIZE]), k - HDR_SIZE);
    }
  }

  /** Whatever the bytes are, the fields read form a document, and the digest is
      the fold of a run of bytes from the start. */
  lemma {:induction false} ParseFieldsSound(step: CrcStep, cfg: DocCfg, b: seq<byte>, n: nat, fs: seq<Field>, crc: u32)
    returns (used: nat)
    requires DocOk(cfg, fs)
    ensures var r := ParseFields(step, cfg, b, n, fs, crc);
            DocOk(cfg, r.fields) && used <= |b| && r.crc == Crc(step, crc, b[..used])
    decreases n
  {
    hide ParseField, FieldOk;
    used := 0;
    if n > 0 && ParseField(cfg, b).Got? {
      var Got(f, len) := ParseField(cfg, b);
      SetIsMapUpdate(cfg, fs, f, f.name);
      if SetField(cfg, fs, f).0.Ok? {
        var more := ParseFieldsSound(step, cfg, b[len..], n - 1, SetField(cfg, fs, f).1, Crc(step, crc, b[..len]));
        used := len + more;
        CrcConcat(step, crc, b[..len], b[len..][..more]);
        assert b[..used] == b[..len] + b[len..][..more];
      }
    }
  }

  predicate DigestOf(step: CrcStep, b: seq<byte>, used: nat) {
    |b| >= HDR_SIZE + used && Get32(b[24..28]) == Crc(step, 0, b[..PREFIX_SIZE] + b[HDR_SIZE..HDR_SIZE + used])
  }

  /** A file that opens holds a valid document; in version 2 its stored digest is
      that of the header prefix and all the field bytes read. */
  lemma ParseSound(step: CrcStep, cfg: DocCfg, b: seq<byte>) returns (used: nat)
    requires WfCfg(cfg) && ParseFile(step, cfg, b).Success?
    ensures DocOk(cfg, ParseFile(step, cfg, b).value.fields)
    ensures Get16(b[4..6]) == 2 ==> DigestOf(step, b, used)
  {
    hide ParseFields, DocOk;
    var seed := Crc(step, 0, b[..PREFIX_SIZE]);
    assert DocOk(cfg, []) by { EmptyDoc(cfg); }
    used := ParseFieldsSound(step, cfg, b[HDR_SIZE..], Get16(b[6..8]), [], seed);
    CrcConcat(step, 0, b[..PREFIX_SIZE], b[HDR_SIZE..][..used]);
    assert b[HDR_SIZE..][..used] == b[HDR_SIZE..HDR_SIZE + used];
  }

  lemma EmptyDoc(cfg: DocCfg)
    ensures DocOk(cfg, [])
  {
  }
}
