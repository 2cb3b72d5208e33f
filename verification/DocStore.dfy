/** Documents as they run: the handle and its setters, the two sinks a save
    emits its fields into, the chunked reader, and the staged save. */
module DocStore {
  import opened Bytes
  import opened DocCodec
  import opened DocDisk

  /** The file system. A call that fails changes nothing, except that a write may
      have stored part of its bytes; what each call answers is an argument. Every
      state a crash could leave is remembered. */
  class Disk {
    /** Whether a rename replaces an existing file (LittleFS) or refuses (FAT). */
    const overwrites: bool
    var files: Files
    ghost var crashes: iset<Files>

    constructor (overwrites: bool, files: Files)
      ensures this.overwrites == overwrites && this.files == files && crashes == iset{files}
    {
      this.overwrites := overwrites;
      this.files := files;
      crashes := iset{files};
    }

    method Create(p: Path, answer: Status)
      modifies this
      ensures files == if answer.Ok? then old(files)[p := []] else old(files)
      ensures crashes == old(crashes) + iset{files}
    {
      if answer.Ok? {
        files := files[p := []];
      }
      crashes := crashes + iset{files};
    }

    /** A crash may cut the write after any byte. */
    method Append(p: Path, buf: seq<byte>)
      requires p in files
      modifies this
      ensures files == old(files)[p := old(files)[p] + buf]
      ensures crashes == old(crashes) + iset k: nat | k <= |buf| :: old(files)[p := old(files)[p] + buf[..k]]
    {
      crashes := crashes + iset k: nat | k <= |buf| :: files[p := files[p] + buf[..k]];
      files := files[p := files[p] + buf];
    }

    /** A file system that does not overwrite refuses to rename onto a file. */
    method Rename(from: Path, to: Path, answer: Status) returns (rc: Status, refused: bool)
      requires from in files && from != to
      modifies this
      ensures refused == (answer.Ok? && to in old(files) && !overwrites) && rc == if refused then Io else answer
      ensures files == if rc.Ok? then Renamed(old(files), from, to) else old(files)
      ensures crashes == old(crashes) + iset{files}
    {
      refused := answer.Ok? && to in files && !overwrites;
      rc := if refused then Io else answer;
      if rc.Ok? {
        files := (files - {from})[to := files[from]];
      }
      crashes := crashes + iset{files};
    }

    method Unlink(p: Path, works: bool) returns (found: bool)
      modifies this
      ensures found == (p in old(files))
      ensures files == if works then old(files) - {p} else old(files)
      ensures crashes == old(crashes) + iset{files}
    {
      found := p in files;
      if works {
        files := files - {p};
      }
      crashes := crashes + iset{files};
    }
  }

  /** Where emitted bytes go: into a running digest, or into a staging file that
      may take only so many of them. */
  class Sink {
    const step: CrcStep
    const disk: Disk?
    const path: Path
    const code: ErrorCode
    var crc: u32
    var room: Option<nat>

    constructor Digest(step: CrcStep, seed: u32)
      ensures this.step == step && disk == null && crc == seed
    {
      this.step := step;
      disk := null;
      path := Path([], [], true);
      code := Io;
      crc := seed;
      room := None;
    }

    constructor File(step: CrcStep, d: Disk, p: Path, room: Option<nat>, code: ErrorCode)
      ensures this.step == step && disk == d && path == p && this.code == code && this.room == room
    {
      this.step := step;
      disk := d;
      path := p;
      this.code := code;
      crc := 0;
      this.room := room;
    }

    ghost function Frame(): set<object>
    {
      if disk == null then {this} else {this, disk}
    }

    ghost predicate Ready()
      reads Frame()
    {
      disk != null ==> path in disk.files
    }

    ghost function State(): SinkState
      requires Ready()
      reads Frame()
    {
      if disk == null then Folded(crc) else Written(disk.files, disk.crashes, room)
    }

    /** A write that does not fit stores what fits and reports the error. */
    method Put(buf: seq<byte>) returns (rc: Status)
      requires Ready()
      modifies Frame()
      ensures Ready() && Emitted(step, path, code, old(State()), State(), rc, buf)
    {
      rc := Ok;
      if disk == null {
        crc := Crc(step, crc, buf);
      } else if buf != [] {
        var n := if Fits(room, buf) then |buf| else room.value;
        assert buf[..n] == Taken(room, buf);
        if n < |buf| {
          rc := code;
        }
        disk.Append(path, buf[..n]);
        AppendCuts(disk.crashes, old(disk.crashes), old(disk.files), path, buf[..n]);
        room := Left(room, n);
      } else {
        assert disk.files[path] + buf == disk.files[path];
      }
    }

    /** One field: header, name, and the value in one or two pieces. The first
        piece that fails ends it. */
    method EmitField(cfg: DocCfg, f: Field) returns (rc: Status)
      requires WfCfg(cfg) && FieldOk(cfg, f) && Ready()
      modifies Frame()
      ensures Ready() && Emitted(step, path, code, old(State()), State(), rc, FieldBytes(cfg, f))
    {
      hide Emitted, FieldHeader;
      ghost var s0 := State();
      rc := Put(FieldHeader(f));
      ghost var r1, s1 := rc, State();
      if rc.Ok? {
        rc := Put(f.name);
      }
      ghost var r2, s2 := rc, State();
      EmittedThen(step, path, code, s0, s1, s2, r1, r2, FieldHeader(f), f.name);
      if rc.Ok? {
        match f.value {
          case Int64(i) => rc := Put(Put64(ToUnsigned(i)));
          case Double(bits) => rc := Put(Put64(bits));
          case Bool(b) => rc := Put([if b then 1 else 0]);
          case Str(s) => rc := PutSized(s);
          case Blob(data) => rc := PutSized(data);
        }
      }
      EmittedThen(step, path, code, s0, s2, State(), r2, rc, FieldHeader(f) + f.name, ValueBytes(cfg, f.value));
    }

    /** A length prefix, then the bytes. */
    method PutSized(s: seq<byte>) returns (rc: Status)
      requires |s| < 0x1_0000_0000 && Ready()
      modifies Frame()
      ensures Ready() && Emitted(step, path, code, old(State()), State(), rc, Put32(|s|) + s)
    {
      hide Emitted;
      rc := Put(Put32(|s|));
      ghost var r1, s1 := rc, State();
      if rc.Ok? {
        rc := Put(s);
      }
      EmittedThen(step, path, code, old(State()), s1, State(), r1, rc, Put32(|s|), s);
    }

    /** All fields in order. A digest sink and a file sink receive the same bytes,
        which is what makes the stored digest match the stored fields. */
    method Emit(cfg: DocCfg, fields: array<Field>, count: nat) returns (rc: Status)
      requires WfCfg(cfg) && count <= fields.Length && FieldsOk(cfg, fields[..count]) && Ready()
      requires fields as object !in Frame()
      modifies Frame()
      ensures Ready() && Emitted(step, path, code, old(State()), State(), rc, FieldsBytes(cfg, fields[..count]))
    {
      hide Emitted, FieldsBytes, FieldBytes;
      ghost var fs := fields[..count];
      EmittedNothing(step, path, code, State());
      NoFields(cfg);
      var i := 0;
      while i < count
        invariant i <= count && Ready() && fields[..count] == fs
        invariant Emitted(step, path, code, old(State()), State(), Ok, FieldsBytes(cfg, fs[..i]))
      {
        ghost var s1 := State();
        rc := EmitField(cfg, fields[i]);
        FieldsBytesNext(cfg, fs, i);
        EmittedThen(step, path, code, old(State()), s1, State(), Ok, rc, FieldsBytes(cfg, fs[..i]), FieldBytes(cfg, fs[i]));
        i := i + 1;
        if !rc.Ok? {
          EmittedThen(step, path, code, old(State()), State(), State(), rc, rc,
                      FieldsBytes(cfg, fs[..i]), FieldsBytes(cfg, fs[i..]));
          return;
        }
      }
      assert fs[..i] == fs;
      rc := Ok;
    }
  }

  datatype SinkState = Folded(crc: u32) | Written(files: Files, crashes: iset<Files>, room: Option<nat>)

  function Left(room: Option<nat>, n: nat): Option<nat>
    requires room.Some? ==> n <= room.value
  {
    if room.Some? then Some(room.value - n) else None
  }

  /** The room a sink has for bytes; a digest has no end of it. */
  function Room(s: SinkState): Option<nat> {
    if s.Folded? then None else s.room
  }

  /** What a sink does with bytes it takes: folds them into the digest, or appends
      them to its file with every cut of them a possible crash. */
  ghost predicate Fed(step: CrcStep, p: Path, s0: SinkState, s1: SinkState, buf: seq<byte>) {
    match s0
    case Folded(c) => s1 == Folded(Crc(step, c, buf))
    case Written(f, before, room) =>
      p in f && s1.Written? && s1.files == f[p := f[p] + buf] && NewCuts(s1.crashes, before, f, p, buf)
      && Fits(room, buf) && s1.room == Left(room, |buf|)
  }

  /** What a sink does with bytes it is given: it takes those it has room for, and
      reports its error exactly when that is not all of them. */
  ghost predicate Emitted(step: CrcStep, p: Path, code: ErrorCode, s0: SinkState, s1: SinkState, rc: Status, buf: seq<byte>) {
    Fed(step, p, s0, s1, Taken(Room(s0), buf)) && rc == if Fits(Room(s0), buf) then Ok else code
  }

  lemma EmittedNothing(step: CrcStep, p: Path, code: ErrorCode, s: SinkState)
    requires s.Written? ==> p in s.files
    ensures Emitted(step, p, code, s, s, Ok, [])
  {
    if s.Written? {
      assert s.files[p] + [] == s.files[p];
    }
  }

  lemma NoFields(cfg: DocCfg)
    requires WfCfg(cfg)
    ensures FieldsBytes(cfg, []) == []
  {
  }

  lemma OneField(cfg: DocCfg, f: Field)
    requires WfCfg(cfg) && FieldOk(cfg, f)
    ensures FieldsBytes(cfg, [f]) == FieldBytes(cfg, f)
  {
    hide FieldBytes;
    NoFields(cfg);
    assert [f][1..] == [];
  }

  /** The fields up to i, the field at i, and the rest. */
  lemma FieldsBytesNext(cfg: DocCfg, fs: seq<Field>, i: nat)
    requires WfCfg(cfg) && FieldsOk(cfg, fs) && i < |fs|
    ensures FieldsBytes(cfg, fs[..i]) + FieldBytes(cfg, fs[i]) == FieldsBytes(cfg, fs[..i + 1])
    ensures FieldsBytes(cfg, fs[..i + 1]) + FieldsBytes(cfg, fs[i + 1..]) == FieldsBytes(cfg, fs)
  {
    hide FieldBytes, FieldsBytes, FieldOk;
    OneField(cfg, fs[i]);
    FieldsBytesConcat(cfg, fs[..i], [fs[i]]);
    assert fs[..i + 1] == fs[..i] + [fs[i]];
    FieldsBytesConcat(cfg, fs[..i + 1], fs[i + 1..]);
    assert fs == fs[..i + 1] + fs[i + 1..];
  }

  lemma FedMore(step: CrcStep, p: Path, s0: SinkState, s1: SinkState, s2: SinkState, a: seq<byte>, b: seq<byte>)
    requires Fed(step, p, s0, s1, a) && Fed(step, p, s1, s2, b)
    ensures Fed(step, p, s0, s2, a + b)
  {
    hide NewCuts;
    match s0 {
      case Folded(c) => CrcConcat(step, c, a, b);
      case Written(f, before, room) =>
        MoreCuts(s2.crashes, s1.crashes, before, f, p, a, b);
        assert f[p] + a + b == f[p] + (a + b);
    }
  }

  /** Two pieces one after the other, the second only when the first fits. */
  lemma EmittedThen(step: CrcStep, p: Path, code: ErrorCode, s0: SinkState, s1: SinkState, s2: SinkState,
                    r1: Status, r2: Status, a: seq<byte>, b: seq<byte>)
    requires Emitted(step, p, code, s0, s1, r1, a)
    requires if r1.Ok? then Emitted(step, p, code, s1, s2, r2, b) else s2 == s1 && r2 == r1
    ensures Emitted(step, p, code, s0, s2, r2, a + b)
  {
    hide NewCuts, Crc;
    if r1.Ok? {
      FedMore(step, p, s0, s1, s2, a, Taken(Room(s1), b));
      assert Taken(Room(s0), a + b) == a + Taken(Room(s1), b);
    } else {
      assert Taken(Room(s0), a + b) == Taken(Room(s0), a);
    }
  }

  /** Crash states that are new are cuts of what was appended to p. */
  ghost predicate NewCuts(now: iset<Files>, before: iset<Files>, f: Files, p: Path, buf: seq<byte>)
    requires p in f
  {
    before <= now && forall c :: c in now ==> c in before || CutOf(f, p, f[p] + buf, c)
  }

  lemma AppendCuts(now: iset<Files>, before: iset<Files>, f: Files, p: Path, buf: seq<byte>)
    requires p in f
    requires now == before + iset k: nat | k <= |buf| :: f[p := f[p] + buf[..k]]
    ensures NewCuts(now, before, f, p, buf)
  {
    forall c | c in now && c !in before
      ensures CutOf(f, p, f[p] + buf, c)
    {
      var k: nat :| k <= |buf| && c == f[p := f[p] + buf[..k]];
      assert (f[p] + buf)[..|f[p]| + k] == f[p] + buf[..k];
    }
  }

  /** Two appends in a row cut like one. */
  lemma MoreCuts(c2: iset<Files>, c1: iset<Files>, c0: iset<Files>, f: Files, p: Path, a: seq<byte>, b: seq<byte>)
    requires p in f && NewCuts(c1, c0, f, p, a)
    requires NewCuts(c2, c1, f[p := f[p] + a], p, b)
    ensures NewCuts(c2, c0, f, p, a + b)
  {
    var g := f[p := f[p] + a];
    assert f[p] + (a + b) == g[p] + b;
    forall c | c in c2 && c !in c0
      ensures CutOf(f, p, f[p] + (a + b), c)
    {
      if c in c1 {
        var k: nat :| k <= |f[p] + a| && c == f[p := (f[p] + a)[..k]];
        assert (f[p] + (a + b))[..k] == (f[p] + a)[..k];
      } else {
        var k: nat :| k <= |g[p] + b| && c == g[p := (g[p] + b)[..k]];
        assert c == f[p := (f[p] + (a + b))[..k]];
      }
    }
  }

  /** What a setter does to an open or closed handle. */
  function Setting(cfg: DocCfg, valid: bool, fs: seq<Field>, f: Field): (Status, seq<Field>) {
    if valid then SetField(cfg, fs, f) else (Inval, fs)
  }

  /** An open file read in order, with the running digest of what was read. */
  class Reader {
    const step: CrcStep
    const fold: bool
    var rest: seq<byte>
    var crc: u32

    constructor (step: CrcStep, fold: bool, rest: seq<byte>, crc: u32)
      ensures this.step == step && this.fold == fold && this.rest == rest && this.crc == crc
    {
      this.step := step;
      this.fold := fold;
      this.rest := rest;
      this.crc := crc;
    }

    /** n bytes were read off r, and folded when folding is on. */
    ghost predicate Took(r: seq<byte>, c: u32, n: nat)
      reads this
    {
      n <= |r| && rest == r[n..] && (fold ==> crc == Crc(step, c, r[..n]))
    }

    /** A short read is corruption. */
    method ReadExact(len: nat) returns (rc: Status, buf: seq<byte>)
      modifies this
      ensures |old(rest)| < len ==> rc.Corrupt?
      ensures |old(rest)| >= len ==> rc.Ok? && buf == old(rest)[..len] && Took(old(rest), old(crc), len)
    {
      if |rest| < len {
        return Corrupt, [];
      }
      buf := rest[..len];
      rest := rest[len..];
      if fold {
        crc := Crc(step, crc, buf);
      }
      rc := Ok;
    }

    method ReadSized(max: nat) returns (rc: Status, s: seq<byte>)
      requires max < 0x1_0000_0000
      modifies this
      ensures match ParseSized(old(rest), max)
              case None => rc.Corrupt?
              case Some(s') => rc.Ok? && s == s' && Took(old(rest), old(crc), 4 + |s|)
    {
      hide Crc;
      ghost var r, c := rest, crc;
      rc, s := ReadExact(4);
      if !rc.Ok? {
        return;
      }
      var len := Get32(s);
      if len > max {
        return Corrupt, [];
      }
      ghost var r1, c1 := rest, crc;
      rc, s := ReadExact(len);
      if rc.Ok? {
        TookTwice(step, c, r, 4, len);
      }
    }

    method ReadValue(cfg: DocCfg, tag: byte) returns (rc: Status, v: Value)
      requires WfCfg(cfg)
      modifies this
      ensures match ParseValue(cfg, tag, old(rest))
              case Fails(s) => rc == s && !s.Ok?
              case Gives(w, len) => rc.Ok? && v == w && Took(old(rest), old(crc), len)
    {
      hide Crc, UpToNul, ParseSized;
      v := Bool(false);
      var buf;
      if tag == 1 {
        rc, buf := ReadExact(8);
        if rc.Ok? {
          v := Int64(ToSigned(Get64(buf)));
        }
      } else if tag == 2 {
        rc, buf := ReadExact(8);
        if rc.Ok? {
          v := Double(Get64(buf));
        }
      } else if tag == 3 {
        rc, buf := ReadSized(cfg.maxStr);
        v := Str(UpToNul(buf));
      } else if tag == 4 {
        rc, buf := ReadExact(1);
        if rc.Ok? {
          v := Bool(buf[0] != 0);
        }
      } else if tag == 5 {
        rc, buf := ReadSized(cfg.maxBytes);
        v := Blob(buf);
      } else {
        rc := Unsupported;
      }
    }

    /** The header and the name of a field. */
    method ReadHead(cfg: DocCfg) returns (rc: Status, raw: seq<byte>, tag: byte)
      requires WfCfg(cfg)
      modifies this
      ensures match HeadLen(cfg, old(rest))
              case None => rc.Corrupt?
              case Some(h) => rc.Ok? && raw == old(rest)[8..h] && tag == old(rest)[4] && Took(old(rest), old(crc), h)
    {
      hide Crc;
      ghost var r, c := rest, crc;
      raw, tag := [], 0;
      var hdr;
      rc, hdr := ReadExact(8);
      if !rc.Ok? {
        return;
      }
      assert hdr[..2] == r[..2];
      var n := Get16(hdr[..2]);
      if n == 0 || n > cfg.maxName {
        return Corrupt, raw, tag;
      }
      tag := hdr[4];
      rc, raw := ReadExact(n);
      if rc.Ok? {
        TookTwice(step, c, r, 8, n);
      }
    }

    /** One field: header, name, value. An empty name is left to the setter. */
    method ReadField(cfg: DocCfg) returns (rc: Status, name: CString, v: Value)
      requires WfCfg(cfg)
      modifies this
      ensures match ParseField(cfg, old(rest))
              case Stop(s) => (rc == s && !s.Ok?) || (rc.Ok? && name == [] && s.Inval?)
              case Got(f, len) => rc.Ok? && f == Field(name, v) && Took(old(rest), old(crc), len)
    {
      hide Crc, UpToNul, ParseValue, HeadLen;
      ghost var r, c := rest, crc;
      name, v := [], Bool(false);
      var raw, tag;
      rc, raw, tag := ReadHead(cfg);
      if !rc.Ok? {
        return;
      }
      ghost var h := HeadLen(cfg, r).value;
      name := UpToNul(raw);
      rc, v := ReadValue(cfg, tag);
      if rc.Ok? && name != [] {
        TookTwice(step, c, r, h, ParseValue(cfg, tag, r[h..]).len);
      }
    }
  }

  /** Reading a run of bytes in two pieces. */
  lemma TookTwice(step: CrcStep, c: u32, r: seq<byte>, m: nat, n: nat)
    requires m + n <= |r|
    ensures r[m..][n..] == r[m + n..] && r[m..][..n] == r[m..m + n]
    ensures Crc(step, Crc(step, c, r[..m]), r[m..][..n]) == Crc(step, c, r[..m + n])
  {
    CrcConcat(step, c, r[..m], r[m..][..n]);
    assert r[..m + n] == r[..m] + r[m..][..n];
  }

  /** An in-memory document. */
  class Doc {
    const step: CrcStep
    const cfg: DocCfg
    const coll: CString
    const id: CString
    const fields: array<Field>
    var count: nat
    var created: u64
    var updated: u64
    /** True while the handle is open. */
    var valid: bool

    ghost function Fields(): seq<Field>
      requires count <= fields.Length
      reads this`count, fields
    {
      fields[..count]
    }

    /** Whatever the setters did, the document is one that a save can store. */
    ghost predicate Valid()
      reads this`count, fields
    {
      WfCfg(cfg) && fields.Length == cfg.maxFields && count <= fields.Length && DocOk(cfg, Fields())
    }

    /** The handle holds what was read, or the error was reported. */
    ghost predicate Shows(rc: Status, r: Result<Parsed>)
      requires count <= fields.Length
      reads this, fields
    {
      match r
      case Failure(s) => rc == s && !s.Ok?
      case Success(d) => rc.Ok? && Parsed(Fields(), created, updated) == d
    }

    constructor (step: CrcStep, cfg: DocCfg, coll: CString, id: CString, now: u64)
      requires WfCfg(cfg)
      ensures Valid() && valid && Fields() == [] && created == updated == now && fresh(fields)
      ensures this.step == step && this.cfg == cfg && this.coll == coll && this.id == id
    {
      this.step, this.cfg, this.coll, this.id := step, cfg, coll, id;
      fields := new Field[cfg.maxFields](_ => Field([], Bool(false)));
      count, created, updated, valid := 0, now, now, true;
    }

    /** The slot of a name, created or retyped on demand. A slot of another type
        loses its value before the setter stores the new one. */
    method FindOrCreate(name: CString, blank: Value) returns (rc: Status, idx: nat)
      requires Valid() && ValueOk(cfg, blank)
      modifies this`count, fields
      ensures Valid()
      ensures rc == Setting(cfg, valid, old(Fields()), Field(name, blank)).0
      ensures rc.Ok? ==> NameOk(cfg, name)
      ensures rc.Ok? ==> idx < count && Fields()[idx].name == name && TypeTag(Fields()[idx].value) == TypeTag(blank)
      ensures rc.Ok? ==> SetField(cfg, old(Fields()), Field(name, Fields()[idx].value)) == (Ok, Fields())
      ensures !rc.Ok? ==> Fields() == old(Fields())
    {
      hide DocOk;
      idx := 0;
      if !valid {
        return Inval, idx;
      }
      if !NameOk(cfg, name) {
        return Inval, idx;
      }
      ghost var fs := Fields();
      SetIsMapUpdate(cfg, fs, Field(name, blank), name);
      var i := 0;
      while i < count && fields[i].name != name
        invariant i <= count && forall j :: 0 <= j < i ==> fs[j].name != name
      {
        i := i + 1;
      }
      FoundAt(cfg, fs, name, i);
      if i == count {
        if count >= cfg.maxFields {
          return NoMem, idx;
        }
        fields[count] := Field(name, blank);
        count := count + 1;
        assert Fields() == fs + [Field(name, blank)];
      } else if TypeTag(fields[i].value) != TypeTag(blank) {
        fields[i] := Field(name, blank);
        assert Fields() == fs[i := Field(name, blank)];
      } else {
        FieldAt(cfg, fs, i);
        assert fs[i := fs[i]] == fs;
      }
      return Ok, i;
    }

    /** The common end of the setters. */
    method Store(idx: nat, v: Value, now: u64, ghost fs: seq<Field>)
      requires Valid() && idx < count && DocOk(cfg, fs) && FieldOk(cfg, Field(Fields()[idx].name, v))
      requires SetField(cfg, fs, Fields()[idx]) == (Ok, Fields())
      modifies this`updated, fields
      ensures Valid() && updated == now
      ensures SetField(cfg, fs, Field(old(Fields())[idx].name, v)) == (Ok, Fields())
    {
      hide DocOk, SetField;
      ghost var g := Field(Fields()[idx].name, v);
      SetTwice(cfg, fs, Fields()[idx], g, idx);
      SetIsMapUpdate(cfg, fs, g, g.name);
      ghost var was := Fields();
      fields[idx] := Field(fields[idx].name, v);
      assert Fields() == was[idx := g];
      updated := now;
    }

    method SetI64(name: CString, v: i64, now: u64) returns (rc: Status)
      requires Valid()
      modifies this`count, this`updated, fields
      ensures Valid() && (rc, Fields()) == Setting(cfg, valid, old(Fields()), Field(name, Int64(v)))
      ensures updated == if rc.Ok? then now else old(updated)
    {
      hide DocOk, SetField;
      ghost var fs := Fields();
      SetStatusSame(cfg, fs, name, Int64(0), Int64(v));
      var idx;
      rc, idx := FindOrCreate(name, Int64(0));
      if rc.Ok? {
        Store(idx, Int64(v), now, fs);
      }
    }

    method SetF64(name: CString, bits: u64, now: u64) returns (rc: Status)
      requires Valid()
      modifies this`count, this`updated, fields
      ensures Valid() && (rc, Fields()) == Setting(cfg, valid, old(Fields()), Field(name, Double(bits)))
      ensures updated == if rc.Ok? then now else old(updated)
    {
      hide DocOk, SetField;
      ghost var fs := Fields();
      SetStatusSame(cfg, fs, name, Double(0), Double(bits));
      var idx;
      rc, idx := FindOrCreate(name, Double(0));
      if rc.Ok? {
        Store(idx, Double(bits), now, fs);
      }
    }

    method SetString(name: CString, s: CString, now: u64) returns (rc: Status)
      requires Valid()
      modifies this`count, this`updated, fields
      ensures Valid() && (rc, Fields()) == Setting(cfg, valid, old(Fields()), Field(name, Str(s)))
      ensures updated == if rc.Ok? then now else old(updated)
    {
      hide DocOk, SetField;
      ghost var fs := Fields();
      SetStatusSame(cfg, fs, name, Str([]), Str(s));
      if |s| > cfg.maxStr {
        return Inval;
      }
      var idx;
      rc, idx := FindOrCreate(name, Str([]));
      if rc.Ok? {
        Store(idx, Str(s), now, fs);
      }
    }

    method SetBool(name: CString, b: bool, now: u64) returns (rc: Status)
      requires Valid()
      modifies this`count, this`updated, fields
      ensures Valid() && (rc, Fields()) == Setting(cfg, valid, old(Fields()), Field(name, Bool(b)))
      ensures updated == if rc.Ok? then now else old(updated)
    {
      hide DocOk, SetField;
      ghost var fs := Fields();
      SetStatusSame(cfg, fs, name, Bool(false), Bool(b));
      var idx;
      rc, idx := FindOrCreate(name, Bool(false));
      if rc.Ok? {
        Store(idx, Bool(b), now, fs);
      }
    }

    method SetBytes(name: CString, data: seq<byte>, now: u64) returns (rc: Status)
      requires Valid()
      modifies this`count, this`updated, fields
      ensures Valid() && (rc, Fields()) == Setting(cfg, valid, old(Fields()), Field(name, Blob(data)))
      ensures updated == if rc.Ok? then now else old(updated)
    {
      hide DocOk, SetField;
      ghost var fs := Fields();
      SetStatusSame(cfg, fs, name, Blob([]), Blob(data));
      if |data| > cfg.maxBytes {
        return Inval;
      }
      var idx;
      rc, idx := FindOrCreate(name, Blob([]));
      if rc.Ok? {
        Store(idx, Blob(data), now, fs);
      }
    }

    method Reset()
      requires Valid()
      modifies this`count
      ensures Valid() && Fields() == []
    {
      count := 0;
    }

    method Close()
      requires Valid()
      modifies this`count, this`valid
      ensures Valid() && Fields() == [] && !valid
    {
      Reset();
      valid := false;
    }

    /** Reads one field and hands it to the setter of its type. */
    method ParseOne(r: Reader, now: u64) returns (rc: Status)
      requires Valid() && valid
      modifies r, this`count, this`updated, fields
      ensures Valid()
      ensures match ParseField(cfg, old(r.rest))
              case Stop(s) => rc == s && !s.Ok? && Fields() == old(Fields())
              case Got(f, len) =>
                (rc, Fields()) == SetField(cfg, old(Fields()), f) && r.Took(old(r.rest), old(r.crc), len)
    {
      hide DocOk, SetField, ParseField, Crc;
      var name, v;
      rc, name, v := r.ReadField(cfg);
      if !rc.Ok? {
        return;
      }
      EmptyName(cfg, Fields(), v);
      match v {
        case Int64(i) => rc := SetI64(name, i, now);
        case Double(bits) => rc := SetF64(name, bits, now);
        case Str(s) => rc := SetString(name, s, now);
        case Bool(b) => rc := SetBool(name, b, now);
        case Blob(data) => rc := SetBytes(name, data, now);
      }
    }

    /** Reads a document file into this fresh handle; none is a missing file. */
    method ParseDocument(data: Option<seq<byte>>, now: u64) returns (rc: Status)
      requires Valid() && valid && Fields() == []
      modifies this`count, this`created, this`updated, fields
      ensures Valid()
      ensures Shows(rc, if data.Some? then ParseFile(step, cfg, data.value) else Failure(NotFound))
    {
      hide DocOk, SetField, ParseField, ParseFields, Crc;
      if data.None? {
        return NotFound;
      }
      var b := data.value;
      if |b| < HDR_SIZE {
        return Corrupt;
      }
      var version := Get16(b[4..6]);
      if Get32(b[..4]) != DOC_MAGIC || (version != 2 && version != 1) {
        return Corrupt;
      }
      var seed := Crc(step, 0, b[..PREFIX_SIZE]);
      var stored := Get32(b[24..28]);
      if version == 1 && stored != seed {
        return Corrupt;
      }
      var n := Get16(b[6..8]);
      if n > cfg.maxFields {
        return NoMem;
      }
      var digest;
      rc, digest := ParseLoop(b[HDR_SIZE..], n, seed, version == 2, now);
      if !rc.Ok? {
        return;
      }
      if version == 2 && stored != digest {
        return Corrupt;
      }
      created, updated := Get64(b[8..16]), Get64(b[16..24]);
    }

    /** The loop over the stored fields. */
    method ParseLoop(body: seq<byte>, n: nat, seed: u32, fold: bool, now: u64) returns (rc: Status, digest: u32)
      requires Valid() && valid && Fields() == []
      modifies this`count, this`updated, fields
      ensures Valid()
      ensures var r := ParseFields(step, cfg, body, n, [], seed);
              rc == r.status && (rc.Ok? ==> Fields() == r.fields && (fold ==> digest == r.crc))
    {
      hide DocOk, SetField, ParseField, Crc;
      var r := new Reader(step, fold, body, seed);
      ghost var total := ParseFields(step, cfg, body, n, [], seed);
      ghost var crc := seed;
      var i := 0;
      while i < n
        invariant i <= n && Valid() && fresh(r) && r.fold == fold && r.step == step
        invariant ParseFields(step, cfg, r.rest, n - i, Fields(), crc) == total
        invariant fold ==> r.crc == crc
      {
        ghost var rest := r.rest;
        rc := ParseOne(r, now);
        if !rc.Ok? {
          return rc, seed;
        }
        crc := Crc(step, crc, rest[..ParseField(cfg, rest).len]);
        i := i + 1;
      }
      return Ok, r.crc;
    }

    /** Second pass of a save: the header and the fields go to the staging file,
        which is removed again when that fails. */
    method Stage(disk: Disk, hdr: seq<byte>, w: Faults) returns (rc: Status)
      requires Valid()
      modifies disk
      ensures (rc, disk.files) == Staged(old(disk.files), Path(coll, id, true), hdr + FieldsBytes(cfg, Fields()), w)
      ensures forall c :: c in disk.crashes && c !in old(disk.crashes) ==>
                c == disk.files || CutOf(old(disk.files), Path(coll, id, true), hdr + FieldsBytes(cfg, Fields()), c)
    {
      hide FieldsBytes, Emitted, DocOk, CutOf;
      var tmp := Path(coll, id, true);
      DocFits(cfg, Fields());
      disk.Create(tmp, w.create);
      if !w.create.Ok? {
        return w.create;
      }
      var file := new Sink.File(step, disk, tmp, w.room, w.write);
      ghost var s0 := file.State();
      rc := file.Put(hdr);
      ghost var r1, s1 := rc, file.State();
      if rc.Ok? {
        rc := file.Emit(cfg, fields, count);
      }
      ghost var s2 := file.State();
      ghost var body := FieldsBytes(cfg, Fields());
      EmittedThen(step, tmp, w.write, s0, s1, s2, r1, rc, hdr, body);
      StagedCuts(step, old(disk.files), tmp, w.write, s0, s2, rc, hdr + body);
      if rc.Ok? {
        rc := w.close;
      }
      if !rc.Ok? {
        var _ := disk.Unlink(tmp, w.dropsStaged);
      }
    }

    /** The rename that publishes a staged file, with the fallback for file systems
        that refuse to replace. */
    method Publish(disk: Disk, w: Faults) returns (rc: Status)
      requires Path(coll, id, true) in disk.files
      modifies disk
      ensures (rc, disk.files)
           == Published(disk.overwrites, old(disk.files), Path(coll, id, false), Path(coll, id, true), w)
      ensures forall c :: c in disk.crashes && c !in old(disk.crashes) ==>
                c in [old(disk.files), old(disk.files) - {Path(coll, id, false)}, disk.files]
    {
      var live, tmp := Path(coll, id, false), Path(coll, id, true);
      var refused;
      rc, refused := disk.Rename(tmp, live, w.rename);
      if refused {
        var _ := disk.Unlink(live, w.dropsLive);
        rc, refused := disk.Rename(tmp, live, w.retry);
        assert rc.Ok? ==> disk.files == Renamed(old(disk.files), tmp, live);
      }
      if !rc.Ok? {
        var _ := disk.Unlink(tmp, w.dropsStaged);
      }
    }

    /** Saves the document. Two passes emit the same bytes, first into the digest
        that the header carries, then into the staging file. */
    method Save(disk: Disk, now: u64, w: Faults) returns (rc: Status)
      requires Valid()
      modifies this`updated, disk
      ensures !valid ==> rc.Inval? && disk.files == old(disk.files) && disk.crashes == old(disk.crashes)
      ensures valid ==>
                var b := FileBytes(step, cfg, Fields(), created, now);
                updated == now
                && (rc, disk.files) == Saved(disk.overwrites, old(disk.files), coll, id, b, w)
                && forall c :: c in disk.crashes ==>
                     c in old(disk.crashes) || SaveImage(old(disk.files), coll, id, b, c) || c == disk.files
    {
      hide FieldsBytes, DocOk, Crc, CutOf;
      if !valid {
        return Inval;
      }
      updated := now;
      DocFits(cfg, Fields());
      ghost var f, body := disk.files, FieldsBytes(cfg, Fields());
      var prefix := Prefix(2, count, created, updated);
      var sink := new Sink.Digest(step, Crc(step, 0, prefix));
      rc := sink.Emit(cfg, fields, count);
      CrcConcat(step, 0, prefix, body);
      var hdr := prefix + Put32(sink.crc);
      ghost var b := FileBytes(step, cfg, Fields(), created, now);
      assert hdr + body == b;
      rc := Stage(disk, hdr, w);
      if rc.Ok? {
        SavedFiles(f, coll, id, b);
        rc := Publish(disk, w);
      }
    }
  }

  /** Everything written to a fresh staging file is a cut of its full content. */
  lemma StagedCuts(step: CrcStep, f: Files, p: Path, code: ErrorCode, s0: SinkState, s1: SinkState, rc: Status, b: seq<byte>)
    requires s0.Written? && s0.files == f[p := []] && Emitted(step, p, code, s0, s1, rc, b)
    ensures s1.Written? && s1.files == f[p := Taken(s0.room, b)] && rc == if Fits(s0.room, b) then Ok else code
    ensures forall c :: c in s1.crashes ==> c in s0.crashes || CutOf(f, p, b, c)
    ensures CutOf(f, p, b, s0.files)
  {
    var t := Taken(s0.room, b);
    assert [] + t == t && b[..0] == [];
    forall c | c in s1.crashes && c !in s0.crashes
      ensures CutOf(f, p, b, c)
    {
      var k: nat :| k <= |t| && c == s0.files[p := t[..k]];
      assert t[..k] == b[..k];
      assert c == f[p := b[..k]];
    }
  }

  lemma SavedFiles(f: Files, coll: CString, id: CString, b: seq<byte>)
    ensures var live, tmp := Path(coll, id, false), Path(coll, id, true);
            f[tmp := b] - {live} == (f - {live})[tmp := b] && CutOf(f, tmp, b, f[tmp := b])
  {
    assert b[..|b|] == b;
  }

  lemma EmptyName(cfg: DocCfg, fs: seq<Field>, v: Value)
    ensures SetField(cfg, fs, Field([], v)) == (Inval, fs)
  {
  }

  lemma FoundAt(cfg: DocCfg, fs: seq<Field>, name: CString, i: nat)
    requires i <= |fs| && forall j :: 0 <= j < i ==> fs[j].name != name
    requires i < |fs| ==> fs[i].name == name
    ensures IndexOf(fs, name) == i
  {
  }

  lemma FieldAt(cfg: DocCfg, fs: seq<Field>, i: nat)
    requires DocOk(cfg, fs) && i < |fs|
    ensures FieldOk(cfg, fs[i])
  {
  }

  /** Whether a set succeeds depends on the name and on the value's length only. */
  lemma SetStatusSame(cfg: DocCfg, fs: seq<Field>, name: CString, v: Value, w: Value)
    requires WfCfg(cfg) && ValueOk(cfg, v)
    ensures SetField(cfg, fs, Field(name, w)).0
         == if ValueOk(cfg, w) then SetField(cfg, fs, Field(name, v)).0 else Inval
    ensures !SetField(cfg, fs, Field(name, w)).0.Ok? ==> SetField(cfg, fs, Field(name, w)).1 == fs
    ensures !ValueOk(cfg, w) ==> SetField(cfg, fs, Field(name, w)) == (Inval, fs)
  {
  }

  /** Opens a stored document, finishing an interrupted save when the live file is
      gone and the staging file is complete. On failure the handle is closed. */
  method Open(disk: Disk, step: CrcStep, cfg: DocCfg, coll: CString, id: CString, now: u64) returns (rc: Status, doc: Doc)
    requires WfCfg(cfg)
    modifies disk
    ensures fresh(doc) && fresh(doc.fields) && doc.Valid() && doc.valid == rc.Ok?
    ensures doc.step == step && doc.cfg == cfg && doc.coll == coll && doc.id == id
    ensures !rc.Ok? ==> doc.Fields() == []
    ensures disk.files == OpenResult(step, cfg, old(disk.files), coll, id).1
    ensures doc.Shows(rc, OpenResult(step, cfg, old(disk.files), coll, id).0)
    ensures forall c :: c in disk.crashes ==> c in old(disk.crashes) || c == disk.files
  {
    hide ParseFile, DocOk;
    var live, tmp := Path(coll, id, false), Path(coll, id, true);
    doc := new Doc(step, cfg, coll, id, now);
    if live in disk.files {
      NeverNotFound(step, cfg, disk.files[live]);
    }
    rc := doc.ParseDocument(if live in disk.files then Some(disk.files[live]) else None, now);
    if rc.NotFound? {
      doc.Reset();
      var staged := doc.ParseDocument(if tmp in disk.files then Some(disk.files[tmp]) else None, now);
      if staged.Ok? {
        var promoted, _ := disk.Rename(tmp, live, Ok);
        rc := promoted;
      } else {
        doc.Reset();
      }
    }
    if !rc.Ok? {
      doc.Close();
    }
  }

  /** Deletes a document together with any staging file, so that no later open
      can bring it back. A document that has no live file is NOT_FOUND. live is what
      unlinking a live file answers, dropsStaged whether the other unlink succeeds. */
  method Delete(disk: Disk, coll: CString, id: CString, live: Status, dropsStaged: bool) returns (rc: Status)
    modifies disk
    ensures (rc, disk.files) == Deleted(old(disk.files), coll, id, live, dropsStaged)
    ensures rc.Ok? && dropsStaged ==>
              forall step, cfg :: OpenResult(step, cfg, disk.files, coll, id) == (Failure(NotFound), disk.files)
    ensures forall c :: c in disk.crashes && c !in old(disk.crashes) ==>
              c == old(disk.files) - {Path(coll, id, false)} || c == old(disk.files) || c == disk.files
  {
    hide ParseFile;
    var found := disk.Unlink(Path(coll, id, false), live.Ok?);
    var _ := disk.Unlink(Path(coll, id, true), dropsStaged);
    rc := if found then live else NotFound;
  }

  /** Whatever a save was doing when the power failed, and whatever failed before
      that, opening the document again gives the old result or the new document,
      unless the save lost the live file to a failed retry. Every other document
      opens as before. */
  method SaveCrashOpen(doc: Doc, disk: Disk, now: u64, w: Faults, c: Files) returns (rc: Status, re: Doc)
    requires doc.Valid() && doc.valid && Guarded(doc.step, doc.cfg, disk.files, doc.coll, doc.id)
    requires disk.crashes == iset{disk.files}
    modifies doc`updated, disk
    ensures fresh(re) && re.Valid()
    ensures var b := FileBytes(doc.step, doc.cfg, doc.Fields(), doc.created, now);
            c in disk.crashes ==>
              re.Shows(rc, old(OpenResult(doc.step, doc.cfg, disk.files, doc.coll, doc.id).0))
              || re.Shows(rc, Success(Parsed(doc.Fields(), doc.created, now)))
              || (Loses(disk.overwrites, old(disk.files), doc.coll, doc.id, b, w) && c == disk.files && rc.NotFound?)
    ensures c in disk.crashes ==>
              forall coll, id :: (coll, id) == (doc.coll, doc.id)
                || SameOpen(doc.step, doc.cfg, c, old(disk.files), coll, id)
  {
    hide FileBytes, OpenResult, SaveImage, DocOk, Saved, Loses;
    ghost var f := disk.files;
    var _ := doc.Save(disk, now, w);
    ghost var b := FileBytes(doc.step, doc.cfg, doc.Fields(), doc.created, now);
    SavesFrom(f, doc.coll, doc.id, b);
    if c in disk.crashes {
      if SaveImage(f, doc.coll, doc.id, b, c) {
        SaveAtomic(doc.step, doc.cfg, f, doc.coll, doc.id, doc.Fields(), doc.created, now, c);
      } else {
        SavedOldOrNew(doc.step, doc.cfg, disk.overwrites, f, doc.coll, doc.id, doc.Fields(), doc.created, now, w);
      }
      forall coll, id | (coll, id) != (doc.coll, doc.id)
        ensures SameOpen(doc.step, doc.cfg, c, f, coll, id)
      {
        OthersUntouched(doc.step, doc.cfg, disk.overwrites, f, doc.coll, doc.id, b, w, c, coll, id);
      }
    }
    var after := new Disk(disk.overwrites, c);
    rc, re := Open(after, doc.step, doc.cfg, doc.coll, doc.id, now);
  }

  predicate SameOpen(step: CrcStep, cfg: DocCfg, c: Files, f: Files, coll: CString, id: CString) {
    OpenResult(step, cfg, c, coll, id).0 == OpenResult(step, cfg, f, coll, id).0
  }

  lemma SavesFrom(f: Files, coll: CString, id: CString, b: seq<byte>)
    ensures SaveImage(f, coll, id, b, f)
  {
  }
}
