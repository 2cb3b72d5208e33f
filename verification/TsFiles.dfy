/** The files of a stream: what they hold, what they decode to, and what a crash
    may leave of them. */
module TsFiles {
  import opened Bytes
  import opened TsRecord
  import opened TsLog

  /** A stream's files by segment number, each a byte sequence. */
  type Files = map<nat, seq<byte>>

  function ContentOf(files: Files, k: nat): seq<byte> {
    if k in files then files[k] else []
  }

  /** The files hold exactly the given segments, numbered from lo. */
  ghost predicate Holds(step: CrcStep, fmt: Format, id: u32, files: Files, lo: nat, gs: seq<Seg>) {
    && SegsOk(fmt, gs)
    && (forall k :: k in files <==> lo <= k < lo + |gs|)
    && (forall i :: 0 <= i < |gs| ==> files[lo + i] == SegBytes(step, fmt, id, gs[i]))
  }

  /** What a range of files means: the decoded samples, oldest file first. */
  function Stored(step: CrcStep, id: u32, files: Files, lo: nat, n: nat): seq<Sample> {
    if n == 0 then []
    else Stored(step, id, files, lo, n - 1) + DecodeFile(step, id, ContentOf(files, lo + n - 1))
  }

  /** File lo + i decodes to the samples of segment i. */
  predicate DecodesTo(step: CrcStep, id: u32, files: Files, lo: nat, gs: seq<Seg>, i: nat)
    requires i < |gs|
  {
    lo + i in files && DecodeFile(step, id, files[lo + i]) == gs[i].samples
  }

  lemma {:induction false} StoredIsFlat(step: CrcStep, id: u32, files: Files, lo: nat, gs: seq<Seg>)
    requires forall i: nat :: i < |gs| ==> DecodesTo(step, id, files, lo, gs, i)
    ensures Stored(step, id, files, lo, |gs|) == Flat(gs)
    decreases |gs|
  {
    hide DecodeFile;
    if gs != [] {
      var n := |gs| - 1;
      forall i: nat | i < n ensures DecodesTo(step, id, files, lo, gs[..n], i) {
        assert DecodesTo(step, id, files, lo, gs, i);
      }
      StoredIsFlat(step, id, files, lo, gs[..n]);
      assert DecodesTo(step, id, files, lo, gs, n);
    }
  }

  /** Files that hold segments decode to exactly their samples. */
  lemma HoldsDecodes(step: CrcStep, fmt: Format, id: u32, files: Files, lo: nat, gs: seq<Seg>)
    requires Holds(step, fmt, id, files, lo, gs)
    ensures Stored(step, id, files, lo, |gs|) == Flat(gs)
  {
    hide DecodeFile, SegBytes;
    forall i: nat | i < |gs| ensures DecodesTo(step, id, files, lo, gs, i) {
      DecodeSegment(step, fmt, id, gs[i]);
    }
    StoredIsFlat(step, id, files, lo, gs);
  }

  lemma StoredSnoc(step: CrcStep, id: u32, files: Files, lo: nat, n: nat)
    requires lo + n in files
    ensures Stored(step, id, files, lo, n + 1) == Stored(step, id, files, lo, n) + DecodeFile(step, id, files[lo + n])
  {
    hide DecodeFile;
  }

  // What a crash may leave

  /** The files of gs, the newest followed by bytes that no record was completed from. */
  ghost predicate Torn(step: CrcStep, fmt: Format, id: u32, f: Files, lo: nat, gs: seq<Seg>, tail: seq<byte>) {
    && gs != [] && SegOk(fmt, gs[|gs| - 1])
    && lo + |gs| - 1 in f
    && f[lo + |gs| - 1] == SegBytes(step, fmt, id, gs[|gs| - 1]) + tail
    && Holds(step, fmt, id, f[lo + |gs| - 1 := SegBytes(step, fmt, id, gs[|gs| - 1])], lo, gs)
  }

  /** The files of gs, and one more whose header was cut short after k bytes. */
  ghost predicate TornNew(step: CrcStep, fmt: Format, id: u32, f: Files, lo: nat, gs: seq<Seg>, base: u64, k: nat) {
    && k < HdrSize(fmt)
    && lo + |gs| in f && f[lo + |gs|] == Header(step, fmt, id, base)[..k]
    && Holds(step, fmt, id, f - {lo + |gs|}, lo, gs)
  }

  /** gs holds the log's stored samples less its drop oldest segments, and then the
      first kept of the buffered ones. No more segments are missing than starting
      one segment discards, which is none without rollover, and none is before the
      whole buffer was written. */
  predicate Kept(cfg: Cfg, l: Log, gs: seq<Seg>, drop: nat, kept: nat) {
    && drop <= |l.live| && drop <= Excess(cfg, |l.live| + 1) && kept <= |l.pending|
    && (drop > 0 ==> kept == |l.pending|)
    && Flat(gs) == Flat(l.live[drop..]) + l.pending[..kept]
  }

  ghost predicate SafeTorn(step: CrcStep, cfg: Cfg, id: u32, l: Log, f: Files,
                           lo: nat, gs: seq<Seg>, tail: seq<byte>, drop: nat, kept: nat) {
    && Torn(step, cfg.Fmt(), id, f, lo, gs, tail) && |tail| < RecSize(cfg.Fmt()) && Kept(cfg, l, gs, drop, kept)
    && (|gs| == |l.live| - drop || (cfg.Segmented() && |gs| == |l.live| - drop + 1))
  }

  ghost predicate SafeTornNew(step: CrcStep, cfg: Cfg, id: u32, l: Log, f: Files,
                              lo: nat, gs: seq<Seg>, base: u64, k: nat, drop: nat, kept: nat) {
    && TornNew(step, cfg.Fmt(), id, f, lo, gs, base, k) && Kept(cfg, l, gs, drop, kept)
    && cfg.Segmented() && |gs| == |l.live| - drop
  }

  /** The number of the first file left when drop of the log's segments are missing.
      origin is the number the first segment ever discarded had. */
  predicate FirstIs(origin: int, l: Log, drop: nat, lo: nat) {
    lo == origin + |l.gone| + drop
  }

  /** What a crash may leave of a log: a contiguous run of segment files from which
      nothing stored is missing but the oldest segments a segment start discards, and
      whose newest file may end in part of a record or consist of part of a header. */
  ghost predicate CrashSafe(step: CrcStep, cfg: Cfg, id: u32, origin: int, l: Log, f: Files) {
    || (exists lo: nat, gs, tail, drop: nat, kept: nat ::
          SafeTorn(step, cfg, id, l, f, lo, gs, tail, drop, kept) && FirstIs(origin, l, drop, lo))
    || (exists lo: nat, gs, base, k: nat, drop: nat, kept: nat ::
          SafeTornNew(step, cfg, id, l, f, lo, gs, base, k, drop, kept) && FirstIs(origin, l, drop, lo))
  }

  lemma CrashCases(step: CrcStep, cfg: Cfg, id: u32, origin: int, l: Log, f: Files)
    returns (isNew: bool, lo: nat, gs: seq<Seg>, tail: seq<byte>, base: u64, k: nat, drop: nat, kept: nat)
    requires CrashSafe(step, cfg, id, origin, l, f)
    ensures FirstIs(origin, l, drop, lo) && Kept(cfg, l, gs, drop, kept)
    ensures isNew ==> SafeTornNew(step, cfg, id, l, f, lo, gs, base, k, drop, kept)
    ensures !isNew ==> SafeTorn(step, cfg, id, l, f, lo, gs, tail, drop, kept)
  {
    hide Torn, TornNew, Kept;
    if lo1: nat, gs1, tail1, d: nat, p: nat :|
        SafeTorn(step, cfg, id, l, f, lo1, gs1, tail1, d, p) && FirstIs(origin, l, d, lo1) {
      isNew, lo, gs, tail, base, k, drop, kept := false, lo1, gs1, tail1, 0, 0, d, p;
    } else {
      var lo2: nat, gs2, b: u64, n: nat, d: nat, p: nat :|
        SafeTornNew(step, cfg, id, l, f, lo2, gs2, b, n, d, p) && FirstIs(origin, l, d, lo2);
      isNew, lo, gs, tail, base, k, drop, kept := true, lo2, gs2, [], b, n, d, p;
    }
  }

  /** A crash while a new segment's header is written. */
  lemma TornHeaderImage(step: CrcStep, cfg: Cfg, id: u32, origin: int, l: Log, files: Files, lo: nat, base: u64, n: nat)
    requires l.live != [] && Holds(step, cfg.Fmt(), id, files, lo, l.live)
    requires n <= HdrSize(cfg.Fmt()) && lo == origin + |l.gone| && cfg.Segmented()
    ensures CrashSafe(step, cfg, id, origin, l, files[lo + |l.live| := Header(step, cfg.Fmt(), id, base)[..n]])
  {
    hide Header, Holds;
    var fmt := cfg.Fmt();
    var hdr := Header(step, fmt, id, base);
    var k := lo + |l.live|;
    var f := files[k := hdr[..n]];
    HoldsEnd(step, fmt, id, files, lo, l.live);
    KeepsAll(cfg, l);
    assert FirstIs(origin, l, 0, lo);
    if n < HdrSize(fmt) {
      assert f - {k} == files;
      assert SafeTornNew(step, cfg, id, l, f, lo, l.live, base, n, 0, 0);
    } else {
      var g := Seg(HeldBase(fmt, base), []);
      EmptySegment(step, fmt, id, base);
      EmptySeg(fmt, g);
      HoldsSnoc(step, fmt, id, files, lo, l.live, g);
      FlatConcat(l.live, [g]);
      assert hdr[..n] == hdr && hdr + [] == hdr;
      assert f[k := hdr] == f;
      assert SafeTorn(step, cfg, id, l, f, lo, l.live + [g], [], 0, 0);
    }
  }

  lemma KeepsAll(cfg: Cfg, l: Log)
    ensures Kept(cfg, l, l.live, 0, 0)
  {
    assert l.live[0..] == l.live && l.pending[..0] == [];
  }

  /** Clean files are a crash image of their own log. */
  lemma CleanTorn(step: CrcStep, fmt: Format, id: u32, f: Files, lo: nat, gs: seq<Seg>)
    requires gs != [] && Holds(step, fmt, id, f, lo, gs)
    ensures Torn(step, fmt, id, f, lo, gs, [])
  {
    hide SegBytes;
    var n := |gs| - 1;
    LastOk(fmt, gs);
    assert f[lo + n] == SegBytes(step, fmt, id, gs[n]);
    assert SegBytes(step, fmt, id, gs[n]) + [] == SegBytes(step, fmt, id, gs[n]);
    assert f[lo + n := SegBytes(step, fmt, id, gs[n])] == f;
  }

  /** A crash between two unlinks of the discard loop. */
  lemma DiscardImage(step: CrcStep, cfg: Cfg, id: u32, origin: int, l: Log, g: Seg,
                     dropped: seq<Seg>, kept: seq<Seg>, files: Files, lo: nat)
    requires dropped + kept == l.live + [g] && kept != [] && g.samples == []
    requires l.pending == [] && |dropped| <= Excess(cfg, |l.live| + 1) && cfg.Segmented()
    requires Holds(step, cfg.Fmt(), id, files, lo, kept) && FirstIs(origin, l, |dropped|, lo)
    ensures CrashSafe(step, cfg, id, origin, l, files)
  {
    hide Holds, Torn;
    CleanTorn(step, cfg.Fmt(), id, files, lo, kept);
    var d := |dropped|;
    assert kept == (l.live + [g])[d..] == l.live[d..] + [g];
    assert kept[..|kept| - 1] == l.live[d..];
    assert l.pending[..0] == [];
    assert SafeTorn(step, cfg, id, l, files, lo, kept, [], d, 0);
  }

  /** A byte prefix of the buffer is some whole records and part of one. */
  lemma TornBuffer(step: CrcStep, fmt: Format, base: u64, ss: seq<Sample>, n: nat) returns (torn: seq<byte>)
    requires AllFit(fmt, base, ss) && n <= Size(fmt, |ss|)
    ensures Whole(fmt, n) <= |ss| && |torn| < RecSize(fmt)
    ensures EncodeAll(step, fmt, base, ss)[..n] == EncodeAll(step, fmt, base, ss[..Whole(fmt, n)]) + torn
  {
    hide Encode;
    var m := Whole(fmt, n);
    EncodePrefix(step, fmt, base, ss, m);
    var b := EncodeAll(step, fmt, base, ss);
    torn := b[Size(fmt, m)..n];
    assert b[..n] == b[..Size(fmt, m)] + torn;
  }

  /** A flush cut short at any byte n leaves the old records, exactly the whole
      records among those n bytes, and less than one record of torn tail. */
  lemma TornFlush(step: CrcStep, cfg: Cfg, id: u32, l: Log, files: Files, lo: nat, n: nat) returns (tail: seq<byte>)
    requires Wf(cfg, l) && Holds(step, cfg.Fmt(), id, files, lo, l.live)
    requires n <= Size(cfg.Fmt(), |l.pending|)
    ensures Whole(cfg.Fmt(), n) <= |l.pending|
    ensures |tail| < RecSize(cfg.Fmt())
    ensures lo + |l.live| - 1 in files
    ensures Torn(step, cfg.Fmt(), id,
              files[lo + |l.live| - 1 := files[lo + |l.live| - 1]
                                         + EncodeAll(step, cfg.Fmt(), l.Last().base, l.pending)[..n]],
              lo, Written(cfg, l.(pending := l.pending[..Whole(cfg.Fmt(), n)])).live, tail)
  {
    hide EncodeAll, SegBytes, Holds, SegsOk, AllFit, Written, Wf;
    var fmt := cfg.Fmt();
    WfLast(cfg, l);
    tail := TornBuffer(step, fmt, l.Last().base, l.pending, n);
    var p := l.(pending := l.pending[..Whole(fmt, n)]);
    WfShorter(cfg, l, Whole(fmt, n));
    HoldsExtended(step, cfg, id, p, files, lo);
    WrittenLast(cfg, p);
    SegBytesExtend(step, fmt, id, l.Last(), p.pending);
    var k := lo + |l.live| - 1;
    HoldsNewest(step, fmt, id, files, lo, l.live);
    var b := SegBytes(step, fmt, id, l.Last());
    var e := EncodeAll(step, fmt, l.Last().base, p.pending);
    assert b + (e + tail) == (b + e) + tail;
    assert files[k := b + (e + tail)][k := b + e] == files[k := b + e];
  }

  lemma WfLast(cfg: Cfg, l: Log)
    requires Wf(cfg, l)
    ensures l.live != [] && SegOk(cfg.Fmt(), l.Last()) && AllFit(cfg.Fmt(), l.Last().base, l.pending)
  {
  }

  lemma WfShorter(cfg: Cfg, l: Log, n: nat)
    requires Wf(cfg, l) && n <= |l.pending|
    ensures Wf(cfg, l.(pending := l.pending[..n])) && AllFit(cfg.Fmt(), l.Last().base, l.pending[..n])
  {
    hide SegsOk, Fits;
  }

  lemma WrittenLast(cfg: Cfg, l: Log)
    requires l.live != []
    ensures |Written(cfg, l).live| == |l.live|
    ensures Written(cfg, l).Last() == Seg(l.Last().base, l.Last().samples + l.pending)
  {
  }

  lemma TornFlushImage(step: CrcStep, cfg: Cfg, id: u32, origin: int, l: Log, files: Files, lo: nat, n: nat)
    requires Wf(cfg, l) && Holds(step, cfg.Fmt(), id, files, lo, l.live)
    requires n <= Size(cfg.Fmt(), |l.pending|) && lo == origin + |l.gone|
    ensures lo + |l.live| - 1 in files
    ensures CrashSafe(step, cfg, id, origin, l,
              files[lo + |l.live| - 1 := files[lo + |l.live| - 1]
                                         + EncodeAll(step, cfg.Fmt(), l.Last().base, l.pending)[..n]])
  {
    hide EncodeAll, Holds, Torn, Written;
    var fmt := cfg.Fmt();
    var tail := TornFlush(step, cfg, id, l, files, lo, n);
    var p := l.(pending := l.pending[..Whole(fmt, n)]);
    WfShorter(cfg, l, Whole(fmt, n));
    WrittenKeeps(cfg, p);
    assert l.live[0..] == l.live;
    WrittenLast(cfg, p);
    assert FirstIs(origin, l, 0, lo);
    assert SafeTorn(step, cfg, id, l,
              files[lo + |l.live| - 1 := files[lo + |l.live| - 1] + EncodeAll(step, fmt, l.Last().base, l.pending)[..n]],
              lo, Written(cfg, p).live, tail, 0, Whole(fmt, n));
  }

  /** What is safe for the written log is safe for the log before the write. */
  lemma SafeBeforeWrite(step: CrcStep, cfg: Cfg, id: u32, origin: int, l: Log, f: Files)
    requires cfg.Allowed() && l.live != [] && CrashSafe(step, cfg, id, origin, Written(cfg, l), f)
    ensures CrashSafe(step, cfg, id, origin, l, f)
  {
    hide Torn, TornNew, Kept;
    var w := Written(cfg, l);
    var isNew, lo, gs, tail, base, k, drop, kept := CrashCases(step, cfg, id, origin, w, f);
    var kept' := KeptBeforeWrite(cfg, l, gs, drop, kept);
    assert FirstIs(origin, l, drop, lo);
    if isNew {
      assert SafeTornNew(step, cfg, id, l, f, lo, gs, base, k, drop, kept');
    } else {
      assert SafeTorn(step, cfg, id, l, f, lo, gs, tail, drop, kept');
    }
  }

  lemma KeptBeforeWrite(cfg: Cfg, l: Log, gs: seq<Seg>, drop: nat, kept: nat) returns (kept': nat)
    requires cfg.Allowed() && l.live != [] && Kept(cfg, Written(cfg, l), gs, drop, kept)
    ensures Kept(cfg, l, gs, drop, kept')
  {
    var w := Written(cfg, l);
    kept' := |l.pending|;
    var ws, vs := w.live[drop..], l.live[drop..];
    assert ws[..|ws| - 1] == vs[..|vs| - 1];
  }

  lemma NoneDropped(fmt: Format, all: seq<Seg>)
    ensures [] + all == all && FileBytes(fmt, []) == 0
  {
  }

  lemma ShiftOne(fmt: Format, dropped: seq<Seg>, kept: seq<Seg>)
    requires kept != []
    ensures (dropped + [kept[0]]) + kept[1..] == dropped + kept
    ensures FileBytes(fmt, dropped + [kept[0]])
         == FileBytes(fmt, dropped) + HdrSize(fmt) + Size(fmt, |kept[0].samples|)
  {
    assert (dropped + [kept[0]])[..|dropped|] == dropped;
  }

  lemma StartIs(cfg: Cfg, l: Log, base: u64, g: Seg)
    requires Wf(cfg, l) && g == Seg(HeldBase(cfg.Fmt(), base), [])
    ensures |l.live| > 0
    ensures var d := Excess(cfg, |l.live| + 1);
            && Start(cfg, l, base) == Log(l.gone + (l.live + [g])[..d], (l.live + [g])[d..], l.pending, 0)
            && (l.gone + (l.live + [g])[..d])[|l.gone|..] == (l.live + [g])[..d]
            && (!cfg.rollover ==> d == 0 && (l.live + [g])[d..] == l.live + [g] && (l.live + [g])[..d] == []
                                  && FileBytes(cfg.Fmt(), []) == 0)
  {
    hide SegsOk, AllFit;
  }

  lemma EmptySegment(step: CrcStep, fmt: Format, id: u32, base: u64)
    ensures SegOk(fmt, Seg(HeldBase(fmt, base), []))
    ensures SegBytes(step, fmt, id, Seg(HeldBase(fmt, base), [])) == Header(step, fmt, id, base)
  {
    assert EncodeAll(step, fmt, HeldBase(fmt, base), []) == [];
    assert Header(step, fmt, id, HeldBase(fmt, base)) == Header(step, fmt, id, base);
  }

  lemma HoldsFirst(step: CrcStep, fmt: Format, id: u32, files: Files, lo: nat, gs: seq<Seg>)
    requires gs != [] && Holds(step, fmt, id, files, lo, gs)
    ensures SegOk(fmt, gs[0])
    ensures lo in files && |files[lo]| == HdrSize(fmt) + Size(fmt, |gs[0].samples|)
  {
    assert files[lo + 0] == SegBytes(step, fmt, id, gs[0]);
  }

  lemma HoldsEnd(step: CrcStep, fmt: Format, id: u32, files: Files, lo: nat, gs: seq<Seg>)
    requires Holds(step, fmt, id, files, lo, gs)
    ensures lo + |gs| !in files
  {
  }

  lemma GoneGrows(fmt: Format, a: seq<Seg>, b: seq<Seg>, c: seq<Seg>)
    requires a <= b <= c
    ensures FileBytes(fmt, c[|a|..]) == FileBytes(fmt, b[|a|..]) + FileBytes(fmt, c[|b|..])
  {
    assert c[|a|..] == b[|a|..] + c[|b|..];
    FileBytesConcat(fmt, b[|a|..], c[|b|..]);
  }

  lemma NoneGone(fmt: Format, l: Log)
    ensures l.gone[|l.gone|..] == [] && FileBytes(fmt, []) == 0
  {
  }

  lemma HoldsNewest(step: CrcStep, fmt: Format, id: u32, files: Files, lo: nat, gs: seq<Seg>)
    requires gs != [] && Holds(step, fmt, id, files, lo, gs)
    ensures SegOk(fmt, gs[|gs| - 1]) && lo + |gs| - 1 in files
    ensures files[lo + |gs| - 1] == SegBytes(step, fmt, id, gs[|gs| - 1])
  {
    hide SegBytes;
    var n := |gs| - 1;
    assert files[lo + n] == SegBytes(step, fmt, id, gs[n]);
  }

  /** Appending a segment's records to its file gives the file of the longer segment. */
  lemma SegBytesExtend(step: CrcStep, fmt: Format, id: u32, g: Seg, more: seq<Sample>)
    requires SegOk(fmt, g) && AllFit(fmt, g.base, more)
    ensures SegOk(fmt, Seg(g.base, g.samples + more))
    ensures SegBytes(step, fmt, id, Seg(g.base, g.samples + more))
         == SegBytes(step, fmt, id, g) + EncodeAll(step, fmt, g.base, more)
  {
    hide Header, Encode, EncodeAll, Fits;
    EncodeConcat(step, fmt, g.base, g.samples, more);
  }

  lemma HoldsExtended(step: CrcStep, cfg: Cfg, id: u32, l: Log, files: Files, lo: nat)
    requires Wf(cfg, l) && Holds(step, cfg.Fmt(), id, files, lo, l.live)
    ensures lo + |l.live| - 1 in files
    ensures Holds(step, cfg.Fmt(), id,
              files[lo + |l.live| - 1 := files[lo + |l.live| - 1]
                                         + EncodeAll(step, cfg.Fmt(), l.Last().base, l.pending)],
              lo, Written(cfg, l).live)
  {
    hide SegBytes, SegOk, AllFit, EncodeAll;
    WrittenKeeps(cfg, l);
    LastOk(cfg.Fmt(), l.live);
    SegBytesExtend(step, cfg.Fmt(), id, l.Last(), l.pending);
    assert files[lo + (|l.live| - 1)] == SegBytes(step, cfg.Fmt(), id, l.live[|l.live| - 1]);
  }

  lemma HoldsSnoc(step: CrcStep, fmt: Format, id: u32, files: Files, lo: nat, gs: seq<Seg>, g: Seg)
    requires Holds(step, fmt, id, files, lo, gs) && SegOk(fmt, g)
    ensures Holds(step, fmt, id, files[lo + |gs| := SegBytes(step, fmt, id, g)], lo, gs + [g])
  {
    hide SegOk, SegBytes;
    OneOk(fmt, g);
    SegsOkConcat(fmt, gs, [g]);
  }

  lemma DropOldest(step: CrcStep, fmt: Format, id: u32, files: Files, lo: nat, gs: seq<Seg>)
    requires gs != [] && Holds(step, fmt, id, files, lo, gs)
    ensures Holds(step, fmt, id, files - {lo}, lo + 1, gs[1..])
  {
    hide SegOk, SegBytes;
    forall i | 0 <= i < |gs[1..]| ensures (files - {lo})[lo + 1 + i] == SegBytes(step, fmt, id, gs[1..][i]) {
      assert files[lo + (i + 1)] == SegBytes(step, fmt, id, gs[i + 1]);
    }
  }

  // What crash images mean

  lemma {:induction false} StoredSame(step: CrcStep, id: u32, f: Files, f': Files, lo: nat, n: nat)
    requires forall k :: lo <= k < lo + n ==> ContentOf(f, k) == ContentOf(f', k)
    ensures Stored(step, id, f, lo, n) == Stored(step, id, f', lo, n)
    decreases n
  {
    hide DecodeFile;
    if n > 0 {
      StoredSame(step, id, f, f', lo, n - 1);
    }
  }

  /** A torn tail is not mistaken for samples. */
  lemma TornDecodes(step: CrcStep, fmt: Format, id: u32, f: Files, lo: nat, gs: seq<Seg>, tail: seq<byte>)
    requires Torn(step, fmt, id, f, lo, gs, tail) && |tail| < RecSize(fmt)
    ensures Stored(step, id, f, lo, |gs|) == Flat(gs)
    ensures forall k :: k in f <==> lo <= k < lo + |gs|
  {
    hide DecodeFile, SegBytes;
    var n := |gs| - 1;
    var f' := f[lo + n := SegBytes(step, fmt, id, gs[n])];
    HoldsDecodes(step, fmt, id, f', lo, gs);
    forall k ensures k in f <==> lo <= k < lo + |gs| {
      assert k in f <==> k in f';
    }
    RecoverTorn(step, fmt, id, gs[n], tail);
    DecodeSegment(step, fmt, id, gs[n]);
    StoredSame(step, id, f, f', lo, n);
    StoredSnoc(step, id, f, lo, n);
    StoredSnoc(step, id, f', lo, n);
  }

  lemma TornNewDecodes(step: CrcStep, fmt: Format, id: u32, f: Files, lo: nat, gs: seq<Seg>, base: u64, k: nat)
    requires TornNew(step, fmt, id, f, lo, gs, base, k)
    ensures Stored(step, id, f, lo, |gs| + 1) == Flat(gs)
    ensures forall k :: k in f <==> lo <= k < lo + |gs| + 1
  {
    hide DecodeFile, SegBytes, Header;
    var n := |gs|;
    var f' := f - {lo + n};
    HoldsDecodes(step, fmt, id, f', lo, gs);
    forall k ensures k in f <==> lo <= k < lo + |gs| + 1 {
      assert k in f <==> k in f' || k == lo + n;
    }
    TornHeaderEmpty(step, fmt, id, base, k);
    StoredSame(step, id, f, f', lo, n);
    StoredSnoc(step, id, f, lo, n);
  }

  /** A file holding any strict part of a header decodes to nothing. */
  lemma TornHeaderEmpty(step: CrcStep, fmt: Format, id: u32, base: u64, n: nat)
    requires n < HdrSize(fmt)
    ensures DecodeFile(step, id, Header(step, fmt, id, base)[..n]) == []
  {
    hide CheckHeader, Header;
    if n > 0 {
      TornHeaderRefused(step, fmt, id, base, n);
    } else {
      EmptyFileInvalid(step, id);
    }
  }

  lemma EmptyFileInvalid(step: CrcStep, id: u32)
    ensures CheckHeader(step, id, []) == Invalid(Corrupt)
  {
  }

  /** Whatever a crash leaves is a contiguous run of files, and decoding them in
      order gives the log's stored samples, followed by a prefix of the buffered
      ones: no partial record and no torn header is ever read as data. Missing are
      at most the oldest segments that starting one segment discards, so nothing
      without rollover, and then all of the buffer was written. */
  lemma CrashKeepsStored(step: CrcStep, cfg: Cfg, id: u32, origin: int, l: Log, f: Files)
    returns (lo: nat, n: nat, drop: nat, kept: nat)
    requires CrashSafe(step, cfg, id, origin, l, f)
    ensures 0 < n && lo == origin + |l.gone| + drop && forall k :: k in f <==> lo <= k < lo + n
    ensures drop <= Excess(cfg, |l.live| + 1) && drop <= |l.live| && kept <= |l.pending|
    ensures drop > 0 ==> cfg.rollover && kept == |l.pending|
    ensures Stored(step, id, f, lo, n) == Flat(l.live[drop..]) + l.pending[..kept]
  {
    hide Torn, TornNew, Stored, Flat;
    var fmt := cfg.Fmt();
    var isNew, first, gs, tail, base, k, d, p := CrashCases(step, cfg, id, origin, l, f);
    lo, drop, kept := first, d, p;
    if isNew {
      TornNewDecodes(step, fmt, id, f, lo, gs, base, k);
      n := |gs| + 1;
    } else {
      TornDecodes(step, fmt, id, f, lo, gs, tail);
      TornNonEmpty(step, fmt, id, f, lo, gs, tail);
      n := |gs|;
    }
  }

  lemma TornNonEmpty(step: CrcStep, fmt: Format, id: u32, f: Files, lo: nat, gs: seq<Seg>, tail: seq<byte>)
    requires Torn(step, fmt, id, f, lo, gs, tail)
    ensures gs != [] && SegsOk(fmt, gs)
  {
  }

  // The directory scan

  /** The number a four-digit scan reads from the file name of segment k, which
      prints k with at least four digits. */
  function ParsedSeq(k: nat): (r: nat)
    ensures r < 10000
    ensures r == k <==> k < 10000
  {
    if k < 10000 then k else ParsedSeq(k / 10)
  }

  /** Whether lo and hi are the least and greatest numbers parsed from the names. */
  ghost predicate ParsedBounds(f: Files, lo: nat, hi: nat) {
    && (exists k :: k in f && ParsedSeq(k) == lo)
    && (exists k :: k in f && ParsedSeq(k) == hi)
    && (forall k :: k in f ==> lo <= ParsedSeq(k) <= hi)
  }

  /** For files numbered a to b without gaps the scan rebuilds exactly that window
      if and only if the newest number still prints in four digits. */
  lemma WindowRebuilt(f: Files, a: nat, b: nat, lo: nat, hi: nat)
    requires a <= b && forall k :: k in f <==> a <= k <= b
    requires ParsedBounds(f, lo, hi)
    ensures (lo == a && hi == b) <==> b < 10000
  {
    assert a in f && b in f;
    if b < 10000 {
      assert ParsedSeq(a) == a && ParsedSeq(b) == b;
    }
  }

  // Opening a stream

  /** The files a scan sees: a single-file stream of an earlier build becomes
      segment 0 when there are no segments. */
  function Adopted(files: Files, legacy: Option<seq<byte>>): Files {
    if files == map[] && legacy.Some? then map[0 := legacy.value] else files
  }

  /** A stream written as a single file is found as segment 0 when it has no segments,
      and left alone when it has. */
  lemma AdoptedIs(step: CrcStep, fmt: Format, id: u32, g: Seg, tail: seq<byte>, files: Files)
    requires SegOk(fmt, g)
    ensures Torn(step, fmt, id, Adopted(map[], Some(SegBytes(step, fmt, id, g) + tail)), 0, [g], tail)
    ensures Adopted(map[], None) == map[]
    ensures files != map[] ==> Adopted(files, Some(tail)) == files
  {
    hide SegBytes;
    var f := map[0 := SegBytes(step, fmt, id, g) + tail];
    assert f[0 := SegBytes(step, fmt, id, g)] == map[0 := SegBytes(step, fmt, id, g)];
  }

  /** The layout recovery walks a non-empty file with. */
  function RecoverLayout(step: CrcStep, id: u32, file: seq<byte>): HeaderCheck {
    if |file| < 16 then Invalid(Corrupt)
    else
      var l := LearnLayout(file);
      if l.Valid? && l.fmt.V2? then l else CheckV1Header(step, id, file)
  }

  /** Recovery walks a file as compact when it says so and is long enough for the
      header, and otherwise only behind an intact self-describing header. */
  lemma RecoverLayoutSound(step: CrcStep, id: u32, file: seq<byte>)
    ensures var compact := |file| >= 24 && file[4..6] == Put16(2);
            var l := RecoverLayout(step, id, file);
            && (l.Valid? <==> compact || HeaderIntact(step, V1, id, file))
            && (l.Valid? ==> l.fmt == (if compact then V2 else V1))
            && (compact ==> l.base == Get64(file[12..20]))
  {
    hide Crc, Le, FromLe;
    HeaderSound(step, id, file, V1);
    if |file| >= 16 {
      PutGet(file[4..6]);
    }
  }

  /** Bytes recovery reports as removed: read positions stop one record past the
      last good one, so longer damage is under-reported. */
  function Reported(fmt: Format, lost: nat): nat {
    if lost < RecSize(fmt) then lost else RecSize(fmt)
  }

  /** The scan and recovery both read the file as this format and base. */
  predicate Readable(step: CrcStep, fmt: Format, id: u32, file: seq<byte>, base: u64) {
    && CheckHeader(step, id, file) == Valid(fmt, base)
    && RecoverLayout(step, id, file) == Valid(fmt, base)
  }

  /** Opening after a torn flush: the newest file reads as its segment's. */
  lemma TornFacts(step: CrcStep, fmt: Format, id: u32, f: Files, lo: nat, gs: seq<Seg>, tail: seq<byte>)
    requires Torn(step, fmt, id, f, lo, gs, tail) && |tail| < RecSize(fmt)
    ensures gs != [] && SegsOk(fmt, gs)
    ensures forall k :: k in f <==> lo <= k <= lo + |gs| - 1
    ensures Readable(step, fmt, id, f[lo + |gs| - 1], gs[|gs| - 1].base)
    ensures |f[lo + |gs| - 1]| == HdrSize(fmt) + Size(fmt, |gs[|gs| - 1].samples|) + |tail|
  {
    hide EncodeAll, Header, CheckHeader, LearnLayout, RecoverLayout, Stored, Holds;
    var g := gs[|gs| - 1];
    TornNonEmpty(step, fmt, id, f, lo, gs, tail);
    TornDecodes(step, fmt, id, f, lo, gs, tail);
    LayoutOfSegment(step, fmt, id, g, tail);
    CheckedLayout(step, fmt, id, f[lo + |gs| - 1], g.base);
  }

  lemma TornNewFacts(step: CrcStep, fmt: Format, id: u32, f: Files, lo: nat, gs: seq<Seg>, base: u64, k: nat)
    requires TornNew(step, fmt, id, f, lo, gs, base, k)
    ensures forall n :: n in f <==> lo <= n <= lo + |gs|
    ensures |f[lo + |gs|]| == k < HdrSize(fmt)
    ensures k > 0 ==> CheckHeader(step, id, f[lo + |gs|]) == Invalid(Corrupt)
    ensures Holds(step, fmt, id, f[lo + |gs| := Header(step, fmt, id, 0)], lo, gs + [Seg(0, [])])
    ensures Flat(gs + [Seg(0, [])]) == Flat(gs)
  {
    hide Header, CheckHeader, Stored, Holds;
    var hi := lo + |gs|;
    TornNewDecodes(step, fmt, id, f, lo, gs, base, k);
    if k > 0 {
      TornHeaderRefused(step, fmt, id, base, k);
    }
    HeaderCompleted(step, fmt, id, f, lo, gs);
  }

  lemma HeaderCompleted(step: CrcStep, fmt: Format, id: u32, f: Files, lo: nat, gs: seq<Seg>)
    requires Holds(step, fmt, id, f - {lo + |gs|}, lo, gs)
    ensures Holds(step, fmt, id, f[lo + |gs| := Header(step, fmt, id, 0)], lo, gs + [Seg(0, [])])
    ensures Flat(gs + [Seg(0, [])]) == Flat(gs)
  {
    hide Header, Holds, SegBytes, Flat, SegsOk;
    var hi := lo + |gs|;
    var g := Seg(0, []);
    EmptySegment(step, fmt, id, 0);
    EmptySeg(fmt, g);
    FlatConcat(gs, [g]);
    HoldsSnoc(step, fmt, id, f - {hi}, lo, gs, g);
    PutAgain(f, hi, Header(step, fmt, id, 0));
  }

  lemma PutAgain(f: Files, k: nat, v: seq<byte>)
    ensures (f - {k})[k := v] == f[k := v]
  {
  }

  lemma HeaderOnly(step: CrcStep, fmt: Format, id: u32)
    ensures Readable(step, fmt, id, Header(step, fmt, id, 0), 0)
    ensures GoodEnd(step, fmt, Header(step, fmt, id, 0)) == HdrSize(fmt)
    ensures HeldBase(fmt, 0) == 0
    ensures Holds(step, fmt, id, map[0 := Header(step, fmt, id, 0)], 0, [Seg(0, [])])
  {
    hide Header, CheckHeader, RecoverLayout, GoodEnd, EncodeAll, LearnLayout;
    var g := Seg(0, []);
    EmptySegment(step, fmt, id, 0);
    LayoutOfSegment(step, fmt, id, g, []);
    RecoverTorn(step, fmt, id, g, []);
    var h := Header(step, fmt, id, 0);
    assert h + [] == h;
    EmptySeg(fmt, g);
    CheckedLayout(step, fmt, id, h, 0);
  }

  lemma CheckedLayout(step: CrcStep, fmt: Format, id: u32, file: seq<byte>, base: u64)
    requires CheckHeader(step, id, file) == Valid(fmt, base) && LearnLayout(file) == Valid(fmt, base)
    ensures RecoverLayout(step, id, file) == Valid(fmt, base)
  {
  }

  /** What an opening finds: no file, segments with a torn tail (empty when clean),
      or segments and one more file with only k bytes of a header. */
  datatype Remains =
    | Nothing
    | Segments(lo: nat, gs: seq<Seg>, tail: seq<byte>)
    | HalfHeader(lo: nat, gs: seq<Seg>, base: u64, k: nat)
  {
    /** The segment numbers of the window: from First() to Newest(). */
    function First(): nat {
      if Nothing? then 0 else lo
    }
    function Newest(): nat {
      match this
      case Nothing => 0
      case Segments(lo, gs, _) => if gs == [] then lo else lo + |gs| - 1
      case HalfHeader(lo, gs, _, _) => lo + |gs|
    }
    /** A header cut anywhere but before its first byte cannot be opened. */
    predicate Unreadable() {
      HalfHeader? && k > 0
    }
  }

  ghost predicate Leaves(step: CrcStep, fmt: Format, id: u32, f: Files, w: Remains) {
    match w
    case Nothing => f == map[]
    case Segments(lo, gs, tail) => Torn(step, fmt, id, f, lo, gs, tail) && |tail| < RecSize(fmt)
    case HalfHeader(lo, gs, base, k) => TornNew(step, fmt, id, f, lo, gs, base, k)
  }

  /** The segments an opened stream has: those found, the torn tail gone and an
      empty header completed. */
  function LiveOf(w: Remains): seq<Seg> {
    match w
    case Nothing => [Seg(0, [])]
    case Segments(_, gs, _) => gs
    case HalfHeader(_, gs, _, _) => gs + [Seg(0, [])]
  }

  /** Recovery leaves the fill level the scan took from the untruncated file. */
  function FillOf(fmt: Format, w: Remains): nat {
    if w.Segments? && w.gs != [] then Size(fmt, |w.gs[|w.gs| - 1].samples|) + |w.tail| else 0
  }

  /** A second crash, while the remains w are being opened, leaves w2: the same
      samples in the same window. */
  predicate Again(w: Remains, w2: Remains) {
    && w2.First() == w.First() && w2.Newest() == w.Newest()
    && Flat(LiveOf(w2)) == Flat(LiveOf(w))
    && (w.Segments? ==> w2.Segments?) && (w2.Nothing? ==> w.Nothing?)
  }

  ghost predicate LeavesAgain(step: CrcStep, fmt: Format, id: u32, w: Remains, f: Files) {
    exists w2 :: Again(w, w2) && Leaves(step, fmt, id, f, w2)
  }

  /** Writing the header of an empty newest file, cut at any byte. */
  lemma HeaderAgain(step: CrcStep, fmt: Format, id: u32, f: Files, w: Remains, n: nat) returns (w2: Remains)
    requires Leaves(step, fmt, id, f, w) && !w.Segments? && !w.Unreadable() && n <= HdrSize(fmt)
    ensures Again(w, w2) && Leaves(step, fmt, id, f[w.Newest() := Header(step, fmt, id, 0)[..n]], w2)
  {
    hide Header, Holds, SegBytes, Flat, SegsOk;
    var lo, gs := w.First(), if w.HalfHeader? then w.gs else [];
    var k, h := w.Newest(), Header(step, fmt, id, 0);
    var f' := f[k := h[..n]];
    assert f' - {k} == f - {k};
    NoneHeld(step, fmt, id, f);
    EmptySeg(fmt, Seg(0, []));
    if n < HdrSize(fmt) {
      w2 := HalfHeader(lo, gs, 0, n);
    } else {
      w2 := Segments(lo, gs + [Seg(0, [])], []);
      HeaderCompleted(step, fmt, id, f, lo, gs);
      assert h[..n] == h;
      CleanTorn(step, fmt, id, f', lo, gs + [Seg(0, [])]);
    }
    assert [] + [Seg(0, [])] == [Seg(0, [])];
  }

  /** The header cuts of an opening, and the adoption of a single-file stream. */
  ghost predicate OpeningCut(step: CrcStep, fmt: Format, id: u32, g: Files, k: nat, f: Files) {
    f == g || (ContentOf(g, k) == [] && exists n :: 0 <= n <= HdrSize(fmt) && f == g[k := Header(step, fmt, id, 0)[..n]])
  }

  lemma OpeningCuts(step: CrcStep, fmt: Format, id: u32, g: Files, k: nat, before: set<Files>, now: set<Files>)
    requires ContentOf(g, k) == []
    requires now == before + set n | 0 <= n <= HdrSize(fmt) :: g[k := Header(step, fmt, id, 0)[..n]]
    ensures forall f :: f in now ==> f in before || OpeningCut(step, fmt, id, g, k, f)
  {
    hide Header;
  }

  lemma OpeningAgain(step: CrcStep, fmt: Format, id: u32, g: Files, w: Remains, f: Files)
    requires Leaves(step, fmt, id, g, w) && OpeningCut(step, fmt, id, g, w.Newest(), f)
    ensures LeavesAgain(step, fmt, id, w, f)
  {
    hide Header, Torn, TornNew, Flat, CheckHeader, Holds;
    NewestFacts(step, fmt, id, g, w);
    if f == g {
      assert Again(w, w);
    } else {
      var n :| 0 <= n <= HdrSize(fmt) && f == g[w.Newest() := Header(step, fmt, id, 0)[..n]];
      var w2 := HeaderAgain(step, fmt, id, g, w, n);
    }
  }

  lemma NoneHeld(step: CrcStep, fmt: Format, id: u32, f: Files)
    ensures f == map[] ==> Holds(step, fmt, id, f, 0, []) && f - {0} == f
  {
  }

  /** w has the segments of the log that are left, and at most one begun after them. */
  predicate Spans(cfg: Cfg, l: Log, drop: nat, w: Remains) {
    match w
    case Nothing => false
    case Segments(_, gs, _) =>
      gs != [] && (|gs| == |l.live| - drop || (cfg.Segmented() && |gs| == |l.live| - drop + 1))
    case HalfHeader(_, gs, _, _) => cfg.Segmented() && |gs| == |l.live| - drop
  }

  /** A second crash, during the opening of a crash image, is a crash image of the
      same log. */
  lemma AgainSafe(step: CrcStep, cfg: Cfg, id: u32, origin: int, l: Log, w: Remains, drop: nat, kept: nat, f: Files)
    requires LeavesAgain(step, cfg.Fmt(), id, w, f)
    requires FirstIs(origin, l, drop, w.First()) && Kept(cfg, l, LiveOf(w), drop, kept) && Spans(cfg, l, drop, w)
    ensures CrashSafe(step, cfg, id, origin, l, f)
  {
    hide Torn, TornNew, Flat;
    var w2 :| Again(w, w2) && Leaves(step, cfg.Fmt(), id, f, w2);
    match w2 {
      case Segments(lo, gs, tail) =>
        TornSome(step, cfg.Fmt(), id, f, w2);
        assert SafeTorn(step, cfg, id, l, f, lo, gs, tail, drop, kept);
      case HalfHeader(lo, gs, base, k) =>
        EmptySeg(cfg.Fmt(), Seg(0, []));
        FlatConcat(gs, [Seg(0, [])]);
        assert SafeTornNew(step, cfg, id, l, f, lo, gs, base, k, drop, kept);
    }
  }

  lemma TornSome(step: CrcStep, fmt: Format, id: u32, f: Files, w: Remains)
    ensures w.Segments? && Leaves(step, fmt, id, f, w) ==> w.gs != []
  {
  }

  /** Every crash image is one of these, so an opening of it is accounted for. */
  lemma CrashLeaves(step: CrcStep, cfg: Cfg, id: u32, origin: int, l: Log, f: Files)
    returns (w: Remains, drop: nat, kept: nat)
    requires CrashSafe(step, cfg, id, origin, l, f)
    ensures Leaves(step, cfg.Fmt(), id, f, w) && FirstIs(origin, l, drop, w.First())
    ensures Kept(cfg, l, LiveOf(w), drop, kept) && Spans(cfg, l, drop, w)
  {
    hide Torn, TornNew, Flat;
    var isNew, lo, gs, tail, base, k, d, p := CrashCases(step, cfg, id, origin, l, f);
    drop, kept := d, p;
    if isNew {
      w := HalfHeader(lo, gs, base, k);
      var g := Seg(0, []);
      EmptySeg(cfg.Fmt(), g);
      FlatConcat(gs, [g]);
    } else {
      w := Segments(lo, gs, tail);
      TornNonEmpty(step, cfg.Fmt(), id, f, lo, gs, tail);
    }
  }

  /** What the scan and recovery meet in the newest file. */
  lemma NewestFacts(step: CrcStep, fmt: Format, id: u32, f: Files, w: Remains)
    requires Leaves(step, fmt, id, f, w)
    ensures LiveOf(w) != [] && |LiveOf(w)| == w.Newest() - w.First() + 1
    ensures if w.Nothing? then f == map[] else w.First() in f && forall k :: k in f <==> w.First() <= k <= w.Newest()
    ensures !w.Segments? && !w.Unreadable() ==>
              && ContentOf(f, w.Newest()) == []
              && Holds(step, fmt, id, f[w.Newest() := Header(step, fmt, id, 0)], w.First(), LiveOf(w))
    ensures w.Unreadable() ==> ContentOf(f, w.Newest()) != []
                               && CheckHeader(step, id, ContentOf(f, w.Newest())) == Invalid(Corrupt)
    ensures w.Segments? ==>
              && |w.tail| < RecSize(fmt)
              && ContentOf(f, w.Newest()) != []
              && Readable(step, fmt, id, ContentOf(f, w.Newest()), LiveOf(w)[|LiveOf(w)| - 1].base)
              && |ContentOf(f, w.Newest())| == HdrSize(fmt) + FillOf(fmt, w)
              && Holds(step, fmt, id, f[w.Newest() := ContentOf(f, w.Newest())[..HdrSize(fmt) + FillOf(fmt, w) - |w.tail|]],
                       w.First(), LiveOf(w))
              && GoodEndIs(step, fmt, ContentOf(f, w.Newest()), HdrSize(fmt) + FillOf(fmt, w) - |w.tail|)
  {
    hide Header, CheckHeader, Readable, Holds, GoodEndIs, SegsOk, Torn, TornNew, Flat, Size;
    match w {
      case Nothing =>
        HeaderOnly(step, fmt, id);
        assert f[0 := Header(step, fmt, id, 0)] == map[0 := Header(step, fmt, id, 0)];
      case Segments(lo, gs, tail) =>
        TornFacts(step, fmt, id, f, lo, gs, tail);
        TornCut(step, fmt, id, f, lo, gs, tail);
      case HalfHeader(lo, gs, base, k) =>
        TornNewFacts(step, fmt, id, f, lo, gs, base, k);
    }
  }

  /** Where recovery cuts a torn file, and what it then holds. */
  lemma TornCut(step: CrcStep, fmt: Format, id: u32, f: Files, lo: nat, gs: seq<Seg>, tail: seq<byte>)
    requires Torn(step, fmt, id, f, lo, gs, tail) && |tail| < RecSize(fmt)
    ensures gs != [] && lo + |gs| - 1 in f
    ensures var file := f[lo + |gs| - 1];
            var e := HdrSize(fmt) + Size(fmt, |gs[|gs| - 1].samples|);
            && e <= |file| && GoodEndIs(step, fmt, file, e)
            && Holds(step, fmt, id, f[lo + |gs| - 1 := file[..e]], lo, gs)
  {
    hide Header, CheckHeader, Holds, GoodEnd, EncodeAll, DecodeFile;
    RecoverTorn(step, fmt, id, gs[|gs| - 1], tail);
  }

  predicate GoodEndIs(step: CrcStep, fmt: Format, file: seq<byte>, e: nat) {
    HdrSize(fmt) <= |file| && GoodEnd(step, fmt, file) == e
  }
}
