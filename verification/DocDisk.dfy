/** Document files on a disk: what opening a document sees, and why a save that
    is cut short leaves the old document or the new one. */
module DocDisk {
  import opened Bytes
  import opened DocCodec

  /** One document has a live file and a staging file. */
  datatype Path = Path(coll: CString, id: CString, staging: bool)

  type Files = map<Path, seq<byte>>

  function Load(step: CrcStep, cfg: DocCfg, f: Files, p: Path): Result<Parsed> {
    if p in f then ParseFile(step, cfg, f[p]) else Failure(NotFound)
  }

  /** Opening a document, and the files afterwards: when the live file is gone
      and the staging file is complete, the staging file takes its place. */
  function OpenResult(step: CrcStep, cfg: DocCfg, f: Files, coll: CString, id: CString): (Result<Parsed>, Files) {
    var live, tmp := Path(coll, id, false), Path(coll, id, true);
    var r := Load(step, cfg, f, live);
    var t := Load(step, cfg, f, tmp);
    if r == Failure(NotFound) && t.Success? then (t, Renamed(f, tmp, live)) else (r, f)
  }

  function Renamed(f: Files, from: Path, to: Path): Files
    requires from in f
  {
    (f - {from})[to := f[from]]
  }

  lemma NeverNotFound(step: CrcStep, cfg: DocCfg, b: seq<byte>)
    ensures ParseFile(step, cfg, b) != Failure(NotFound)
  {
    hide ParseFields;
    if |b| >= HDR_SIZE {
      FieldsNeverNotFound(step, cfg, b[HDR_SIZE..], Get16(b[6..8]), [], Crc(step, 0, b[..PREFIX_SIZE]));
    }
  }

  lemma {:induction false} FieldsNeverNotFound(step: CrcStep, cfg: DocCfg, b: seq<byte>, n: nat, fs: seq<Field>, crc: u32)
    ensures ParseFields(step, cfg, b, n, fs, crc).status != NotFound
    decreases n
  {
    hide Crc, HeadLen, UpToNul, FieldOk, IndexOf;
    if n > 0 && ParseField(cfg, b).Got? {
      var Got(f, len) := ParseField(cfg, b);
      if SetField(cfg, fs, f).0.Ok? {
        FieldsNeverNotFound(step, cfg, b[len..], n - 1, SetField(cfg, fs, f).1, Crc(step, crc, b[..len]));
      }
    }
  }

  // ------------------------------------------------------------ crash images

  /** f with the file p holding some prefix of b. */
  ghost predicate CutOf(f: Files, p: Path, b: seq<byte>, c: Files) {
    exists k: nat :: k <= |b| && c == f[p := b[..k]]
  }

  /** What a crash during a save of the bytes b may leave: the files as they were,
      any prefix of b staged, all of b staged with the live file dropped, or the
      finished save. */
  ghost predicate SaveImage(f: Files, coll: CString, id: CString, b: seq<byte>, c: Files) {
    var live, tmp := Path(coll, id, false), Path(coll, id, true);
    c == f || CutOf(f, tmp, b, c) || c == (f - {live})[tmp := b] || c == (f - {tmp})[live := b]
  }

  /** A document whose save can be cut short anywhere without harm. */
  predicate Guarded(step: CrcStep, cfg: DocCfg, f: Files, coll: CString, id: CString) {
    Path(coll, id, false) in f || !Load(step, cfg, f, Path(coll, id, true)).Success?
  }

  lemma CutImage(step: CrcStep, cfg: DocCfg, f: Files, coll: CString, id: CString, fs: seq<Field>,
                 created: u64, updated: u64, c: Files)
    requires WfCfg(cfg) && DocOk(cfg, fs)
    requires CutOf(f, Path(coll, id, true), FileBytes(step, cfg, fs, created, updated), c)
    ensures var r := OpenResult(step, cfg, c, coll, id);
            if Path(coll, id, false) in f then r == (Load(step, cfg, f, Path(coll, id, false)), c)
            else r.0 == Success(Parsed(fs, created, updated)) || r.0 == Failure(NotFound)
  {
    hide ParseFile, FileBytes;
    var live, tmp := Path(coll, id, false), Path(coll, id, true);
    var b := FileBytes(step, cfg, fs, created, updated);
    var k: nat :| k <= |b| && c == f[tmp := b[..k]];
    if live in f {
      NeverNotFound(step, cfg, f[live]);
    } else if k < |b| {
      TruncationRejected(step, cfg, fs, created, updated, k);
    } else {
      assert b[..k] == b;
      RoundTrip(step, cfg, fs, created, updated);
    }
  }

  /** From a guarded state, a crash anywhere in a save reopens to exactly the old
      result or exactly the new document. */
  lemma SaveAtomic(step: CrcStep, cfg: DocCfg, f: Files, coll: CString, id: CString, fs: seq<Field>,
                   created: u64, updated: u64, c: Files)
    requires WfCfg(cfg) && DocOk(cfg, fs) && Guarded(step, cfg, f, coll, id)
    requires SaveImage(f, coll, id, FileBytes(step, cfg, fs, created, updated), c)
    ensures OpenResult(step, cfg, c, coll, id).0 == OpenResult(step, cfg, f, coll, id).0
         || OpenResult(step, cfg, c, coll, id).0 == Success(Parsed(fs, created, updated))
  {
    hide ParseFile, FileBytes, CutOf;
    var live, tmp := Path(coll, id, false), Path(coll, id, true);
    var b := FileBytes(step, cfg, fs, created, updated);
    RoundTrip(step, cfg, fs, created, updated);
    if c != f && CutOf(f, tmp, b, c) {
      CutImage(step, cfg, f, coll, id, fs, created, updated, c);
      if live in f {
        NeverNotFound(step, cfg, f[live]);
      }
    }
  }

  ghost predicate OldOrNew(step: CrcStep, cfg: DocCfg, f: Files, coll: CString, id: CString, d: Parsed, c: Files) {
    OpenResult(step, cfg, c, coll, id).0 in [OpenResult(step, cfg, f, coll, id).0, Success(d)]
  }

  ghost predicate AlwaysOldOrNew(step: CrcStep, cfg: DocCfg, f: Files, coll: CString, id: CString, b: seq<byte>, d: Parsed) {
    forall c :: SaveImage(f, coll, id, b, c) ==> OldOrNew(step, cfg, f, coll, id, d, c)
  }

  /** The guard is exact. Without a live file and with a complete staging file,
      truncating that staging file loses a document that would have opened. */
  lemma AtomicIffGuarded(step: CrcStep, cfg: DocCfg, f: Files, coll: CString, id: CString, fs: seq<Field>,
                         created: u64, updated: u64)
    requires WfCfg(cfg) && DocOk(cfg, fs)
    ensures AlwaysOldOrNew(step, cfg, f, coll, id, FileBytes(step, cfg, fs, created, updated), Parsed(fs, created, updated))
            <==> Guarded(step, cfg, f, coll, id)
  {
    hide FileBytes, ParseFields, SaveImage;
    var live, tmp := Path(coll, id, false), Path(coll, id, true);
    var b := FileBytes(step, cfg, fs, created, updated);
    var d := Parsed(fs, created, updated);
    if Guarded(step, cfg, f, coll, id) {
      forall c | SaveImage(f, coll, id, b, c)
        ensures OldOrNew(step, cfg, f, coll, id, d, c)
      {
        SaveAtomic(step, cfg, f, coll, id, fs, created, updated, c);
      }
    } else {
      var c := f[tmp := []];
      TruncatedImage(f, coll, id, b);
      assert OpenResult(step, cfg, c, coll, id).0 == Failure(NotFound);
      assert !OldOrNew(step, cfg, f, coll, id, d, c);
    }
  }

  lemma TruncatedImage(f: Files, coll: CString, id: CString, b: seq<byte>)
    ensures SaveImage(f, coll, id, b, f[Path(coll, id, true) := []])
  {
    assert b[..0] == [];
    assert CutOf(f, Path(coll, id, true), b, f[Path(coll, id, true) := []]);
  }

  lemma CutKeeps(f: Files, p: Path, b: seq<byte>, c: Files, q: Path)
    requires CutOf(f, p, b, c) && q != p
    ensures q in f <==> q in c
    ensures q in f ==> f[q] == c[q]
  {
  }

  // ------------------------------------------------------------ saves that fail

  type ErrorCode = s: Status | !s.Ok? witness Io

  /** What the file system answers to the calls of a save: how many bytes the
      staging file takes before a write fails, the status of each other call, and
      whether the unlinks of the live and of the staging file succeed. That a rename
      is refused because the live file exists is not among them: it shows only when
      the rename does not fail otherwise. */
  datatype Faults = Faults(create: Status, room: Option<nat>, write: ErrorCode, close: Status, rename: Status,
                           dropsLive: bool, retry: Status, dropsStaged: bool)

  /** The part of buf that is written when there is room for so many bytes. */
  function Taken(room: Option<nat>, buf: seq<byte>): seq<byte> {
    if Fits(room, buf) then buf else buf[..room.value]
  }

  predicate Fits(room: Option<nat>, buf: seq<byte>) {
    room.Some? ==> |buf| <= room.value
  }

  /** The staging file is removed after a failure, if that succeeds. */
  function Cleaned(f: Files, tmp: Path, w: Faults): Files {
    if w.dropsStaged then f - {tmp} else f
  }

  /** The outcome of writing the bytes b to the staging file. */
  function Staged(f: Files, tmp: Path, b: seq<byte>, w: Faults): (Status, Files) {
    if !w.create.Ok? then (w.create, f)
    else if !Fits(w.room, b) then (w.write, Cleaned(f[tmp := Taken(w.room, b)], tmp, w))
    else if !w.close.Ok? then (w.close, Cleaned(f[tmp := b], tmp, w))
    else (Ok, f[tmp := b])
  }

  /** The outcome of renaming the staging file over the live one. */
  function Published(overwrites: bool, f: Files, live: Path, tmp: Path, w: Faults): (Status, Files)
    requires tmp in f && live != tmp
  {
    if !w.rename.Ok? then (w.rename, Cleaned(f, tmp, w))
    else if live !in f || overwrites then (Ok, Renamed(f, tmp, live))
    else if !w.retry.Ok? then (w.retry, Cleaned(if w.dropsLive then f - {live} else f, tmp, w))
    else if !w.dropsLive then (Io, Cleaned(f, tmp, w))
    else (Ok, Renamed(f, tmp, live))
  }

  /** The outcome of a save of the bytes b. */
  function Saved(overwrites: bool, f: Files, coll: CString, id: CString, b: seq<byte>, w: Faults): (Status, Files) {
    var live, tmp := Path(coll, id, false), Path(coll, id, true);
    var s := Staged(f, tmp, b, w);
    if s.0.Ok? then Published(overwrites, s.1, live, tmp, w) else s
  }

  /** The one failure that destroys the stored document: the live file is dropped
      for a rename that the file system then refuses again, and the staging file is
      cleaned up. */
  predicate Loses(overwrites: bool, f: Files, coll: CString, id: CString, b: seq<byte>, w: Faults) {
    Path(coll, id, false) in f && !overwrites
    && w.create.Ok? && Fits(w.room, b) && w.close.Ok? && w.rename.Ok? && w.dropsLive && !w.retry.Ok? && w.dropsStaged
  }

  /** What a save that is not cut short leaves behind. */
  lemma SavedLeaves(overwrites: bool, f: Files, coll: CString, id: CString, b: seq<byte>, w: Faults)
    ensures var live, tmp := Path(coll, id, false), Path(coll, id, true);
            var (rc, g) := Saved(overwrites, f, coll, id, b, w);
            if Loses(overwrites, f, coll, id, b, w) then !rc.Ok? && g == f - {live, tmp}
            else if rc.Ok? then g == (f - {tmp})[live := b]
            else if !w.create.Ok? then g == f
            else if w.dropsStaged then g == f - {tmp}
            else SaveImage(f, coll, id, b, g)
  {
    var live, tmp := Path(coll, id, false), Path(coll, id, true);
    assert b[..|b|] == b;
    var t := Taken(w.room, b);
    assert f[tmp := t] - {tmp} == f - {tmp} && f[tmp := b] - {tmp} == f - {tmp};
    assert f[tmp := b] - {live} == (f - {live})[tmp := b];
    assert f[tmp := b] - {live} - {tmp} == f - {live, tmp};
  }

  /** A save succeeds exactly when every call it needs does: the live file has to be
      unlinked, and the rename tried again, only where it is refused. */
  lemma SaveSucceeds(overwrites: bool, f: Files, coll: CString, id: CString, b: seq<byte>, w: Faults)
    ensures Saved(overwrites, f, coll, id, b, w).0.Ok? <==>
            && w.create.Ok? && (w.room.Some? ==> |b| <= w.room.value) && w.close.Ok? && w.rename.Ok?
            && (Path(coll, id, false) in f && !overwrites ==> w.dropsLive && w.retry.Ok?)
  {
  }

  /** A write that fails leaves exactly the bytes that were taken, unless the staging
      file is removed. */
  lemma ShortWrite(overwrites: bool, f: Files, coll: CString, id: CString, b: seq<byte>, w: Faults)
    requires w.create.Ok? && w.room.Some? && w.room.value < |b|
    ensures var tmp := Path(coll, id, true);
            Saved(overwrites, f, coll, id, b, w)
            == (w.write, if w.dropsStaged then f - {tmp} else f[tmp := b[..w.room.value]])
  {
    var tmp := Path(coll, id, true);
    assert f[tmp := b[..w.room.value]] - {tmp} == f - {tmp};
  }

  /** A save that reports success has stored the new document. With its staging file
      removed, a failed save leaves the document as it was if and only if the
      staging file was never opened, or the save was guarded and did not lose the
      live file to a failed retry. */
  lemma FailedSave(step: CrcStep, cfg: DocCfg, overwrites: bool, f: Files, coll: CString, id: CString, fs: seq<Field>,
                   created: u64, updated: u64, w: Faults)
    requires WfCfg(cfg) && DocOk(cfg, fs)
    ensures var b := FileBytes(step, cfg, fs, created, updated);
            var (rc, g) := Saved(overwrites, f, coll, id, b, w);
            var after := OpenResult(step, cfg, g, coll, id).0;
            && (rc.Ok? ==> after == Success(Parsed(fs, created, updated)))
            && (!rc.Ok? && w.dropsStaged ==>
                (after == OpenResult(step, cfg, f, coll, id).0
                 <==> !w.create.Ok? || (Guarded(step, cfg, f, coll, id) && !Loses(overwrites, f, coll, id, b, w))))
  {
    hide ParseFile, FileBytes, SaveImage, Saved;
    var b := FileBytes(step, cfg, fs, created, updated);
    SavedLeaves(overwrites, f, coll, id, b, w);
    RoundTrip(step, cfg, fs, created, updated);
    if Path(coll, id, false) in f {
      NeverNotFound(step, cfg, f[Path(coll, id, false)]);
    }
  }

  /** From a guarded state a save that returns, whatever failed in it, leaves the old
      result or the new document if and only if it did not lose the live file. */
  lemma SavedOldOrNew(step: CrcStep, cfg: DocCfg, overwrites: bool, f: Files, coll: CString, id: CString, fs: seq<Field>,
                      created: u64, updated: u64, w: Faults)
    requires WfCfg(cfg) && DocOk(cfg, fs) && Guarded(step, cfg, f, coll, id)
    ensures var b := FileBytes(step, cfg, fs, created, updated);
            OldOrNew(step, cfg, f, coll, id, Parsed(fs, created, updated), Saved(overwrites, f, coll, id, b, w).1)
            <==> !Loses(overwrites, f, coll, id, b, w)
    ensures var b := FileBytes(step, cfg, fs, created, updated);
            Loses(overwrites, f, coll, id, b, w) ==>
              OpenResult(step, cfg, Saved(overwrites, f, coll, id, b, w).1, coll, id).0 == Failure(NotFound)
  {
    hide ParseFile, FileBytes, SaveImage, Saved;
    var b := FileBytes(step, cfg, fs, created, updated);
    var g := Saved(overwrites, f, coll, id, b, w).1;
    SavedLeaves(overwrites, f, coll, id, b, w);
    RoundTrip(step, cfg, fs, created, updated);
    if Path(coll, id, false) in f {
      NeverNotFound(step, cfg, f[Path(coll, id, false)]);
    }
    if SaveImage(f, coll, id, b, g) {
      SaveAtomic(step, cfg, f, coll, id, fs, created, updated, g);
    }
  }

  ghost predicate FaultsOldOrNew(step: CrcStep, cfg: DocCfg, overwrites: bool, f: Files, coll: CString, id: CString,
                                 b: seq<byte>, d: Parsed) {
    forall w :: OldOrNew(step, cfg, f, coll, id, d, Saved(overwrites, f, coll, id, b, w).1)
  }

  /** A save is atomic under every crash and every failing call if and only if it is
      guarded and has no live file to unlink before the rename. */
  lemma AtomicIffOverwrites(step: CrcStep, cfg: DocCfg, overwrites: bool, f: Files, coll: CString, id: CString,
                            fs: seq<Field>, created: u64, updated: u64)
    requires WfCfg(cfg) && DocOk(cfg, fs)
    ensures var b, d := FileBytes(step, cfg, fs, created, updated), Parsed(fs, created, updated);
            (AlwaysOldOrNew(step, cfg, f, coll, id, b, d) && FaultsOldOrNew(step, cfg, overwrites, f, coll, id, b, d))
            <==> (Guarded(step, cfg, f, coll, id) && (overwrites || Path(coll, id, false) !in f))
  {
    hide FileBytes, SaveImage, Saved, OpenResult, AlwaysOldOrNew, OldOrNew, Guarded;
    var b, d := FileBytes(step, cfg, fs, created, updated), Parsed(fs, created, updated);
    AtomicIffGuarded(step, cfg, f, coll, id, fs, created, updated);
    if Guarded(step, cfg, f, coll, id) {
      forall w
        ensures OldOrNew(step, cfg, f, coll, id, d, Saved(overwrites, f, coll, id, b, w).1)
                <==> !Loses(overwrites, f, coll, id, b, w)
      {
        SavedOldOrNew(step, cfg, overwrites, f, coll, id, fs, created, updated, w);
      }
      var refused := Faults(Ok, None, Io, Ok, Ok, true, Io, true);
      assert Loses(overwrites, f, coll, id, b, refused) <==> !(overwrites || Path(coll, id, false) !in f);
    }
  }

  /** Once a document has a live file, every save that is cut short or fails
      without losing it, and the reopen after it, leaves the document with one, so
      its later saves are guarded too. */
  lemma StaysGuarded(step: CrcStep, cfg: DocCfg, overwrites: bool, f: Files, coll: CString, id: CString, fs: seq<Field>,
                     created: u64, updated: u64, w: Faults, c: Files)
    requires WfCfg(cfg) && DocOk(cfg, fs) && Path(coll, id, false) in f
    requires var b := FileBytes(step, cfg, fs, created, updated);
             SaveImage(f, coll, id, b, c)
             || (c == Saved(overwrites, f, coll, id, b, w).1 && !Loses(overwrites, f, coll, id, b, w))
    ensures Path(coll, id, false) in OpenResult(step, cfg, c, coll, id).1
  {
    hide ParseFile, FileBytes, CutOf, Saved;
    var live, tmp := Path(coll, id, false), Path(coll, id, true);
    var b := FileBytes(step, cfg, fs, created, updated);
    RoundTrip(step, cfg, fs, created, updated);
    SavedLeaves(overwrites, f, coll, id, b, w);
    if CutOf(f, tmp, b, c) {
      CutKeeps(f, tmp, b, c, live);
    }
  }

  /** A save, finished, failed or cut short, never changes what another document
      opens to. */
  lemma OthersUntouched(step: CrcStep, cfg: DocCfg, overwrites: bool, f: Files, coll: CString, id: CString, b: seq<byte>,
                        w: Faults, c: Files, coll': CString, id': CString)
    requires SaveImage(f, coll, id, b, c) || c == Saved(overwrites, f, coll, id, b, w).1
    requires (coll', id') != (coll, id)
    ensures OpenResult(step, cfg, c, coll', id').0 == OpenResult(step, cfg, f, coll', id').0
  {
    hide ParseFile, CutOf, Saved;
    SavedLeaves(overwrites, f, coll, id, b, w);
    var tmp := Path(coll, id, true);
    if CutOf(f, tmp, b, c) {
      CutKeeps(f, tmp, b, c, Path(coll', id', false));
      CutKeeps(f, tmp, b, c, Path(coll', id', true));
    }
  }

  /** The outcome of a delete: live is what unlinking a live file answers. */
  function Deleted(f: Files, coll: CString, id: CString, live: Status, dropsStaged: bool): (Status, Files) {
    var p, tmp := Path(coll, id, false), Path(coll, id, true);
    var g := if live.Ok? then f - {p} else f;
    (if p in f then live else NotFound, if dropsStaged then g - {tmp} else g)
  }

  /** A delete is NOT_FOUND when there is no live file, and otherwise what unlinking it
      answers. When it succeeds, no later open finds the document if and only if its
      staging file went too or does not parse; when it fails, the document opens as
      before. */
  lemma DeleteHolds(step: CrcStep, cfg: DocCfg, f: Files, coll: CString, id: CString, live: Status, dropsStaged: bool)
    ensures var (rc, g) := Deleted(f, coll, id, live, dropsStaged);
            var after := OpenResult(step, cfg, g, coll, id).0;
            && rc == (if Path(coll, id, false) in f then live else NotFound)
            && (rc.Ok? ==> (after == Failure(NotFound)
                            <==> dropsStaged || !Load(step, cfg, f, Path(coll, id, true)).Success?))
            && (!rc.Ok? && Path(coll, id, false) in f ==> after == OpenResult(step, cfg, f, coll, id).0)
  {
    hide ParseFile;
    if Path(coll, id, false) in f {
      NeverNotFound(step, cfg, f[Path(coll, id, false)]);
    }
  }

  /** A delete drops the live file first. A crash before it drops the staging
      file reopens to the old document or to nothing exactly when the staging
      file is absent, unreadable, or a copy of the live document. */
  lemma DeleteCrash(step: CrcStep, cfg: DocCfg, f: Files, coll: CString, id: CString)
    requires Path(coll, id, false) in f
    ensures var live, tmp := Path(coll, id, false), Path(coll, id, true);
            var c := OpenResult(step, cfg, f - {live}, coll, id).0;
            (c == OpenResult(step, cfg, f, coll, id).0 || c == Failure(NotFound))
            <==> (!Load(step, cfg, f, tmp).Success? || Load(step, cfg, f, tmp) == Load(step, cfg, f, live))
  {
    hide ParseFile;
    NeverNotFound(step, cfg, f[Path(coll, id, false)]);
  }
}
