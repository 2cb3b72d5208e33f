/** One open stream: the ingest buffer, the segment window and the files, updated
    in place as the engine does, and proved to refine the abstract log. */
module TsStream {
  import opened Bytes
  import opened TsRecord
  import opened TsLog
  import opened TsFiles

  class Stream {
    const step: CrcStep
    const cfg: Cfg
    const id: u32
    const buf: array<byte>
    var files: Files
    /** The single file a build without segments wrote, until it is adopted. */
    var legacy: Option<seq<byte>>
    var used: nat
    var oldest: nat
    var cur: nat
    var curBytes: nat
    var base: u64
    var pendingFlush: nat
    var pendingDiscarded: nat
    ghost var log: Log
    /** Every state of the files that a crash so far could have left behind. */
    ghost var crashes: set<Files>

    /** Claim a block for a stream whose files, if any, are already on storage. */
    constructor (step: CrcStep, cfg: Cfg, id: u32, block: array<byte>, files: Files, legacy: Option<seq<byte>>)
      ensures this.step == step && this.cfg == cfg && this.id == id && this.buf == block
      ensures this.files == files && this.legacy == legacy && used == 0
      ensures pendingFlush == 0 && pendingDiscarded == 0 && crashes == {}
    {
      this.step, this.cfg, this.id, this.buf := step, cfg, id, block;
      this.files, this.legacy := files, legacy;
      used, oldest, cur, curBytes, base := 0, 0, 0, 0, 0;
      pendingFlush, pendingDiscarded := 0, 0;
      log, crashes := InitLog(), {};
    }

    ghost predicate Valid()
      reads this, buf
    {
      && cfg.Allowed() && Wf(cfg, log)
      && buf.Length == cfg.cap && used <= cfg.cap
      && |log.live| == cur - oldest + 1
      && Holds(step, cfg.Fmt(), id, files, oldest, log.live)
      && base == log.Last().base
      && curBytes == log.curBytes
      && (!cfg.Segmented() ==> oldest == 0)
      && buf[..used] == EncodeAll(step, cfg.Fmt(), base, log.pending)
    }

    /** The number of the first segment ever discarded, or of the oldest one left when
        none was. Nothing but an opening changes it. */
    ghost function Origin(): int
      reads this`oldest, this`log
    {
      oldest - |log.gone|
    }

    /** Open an append-mode handle on file k, creating it, and write data. A crash
        may cut the write to any prefix. */
    method WriteAt(k: nat, data: seq<byte>)
      modifies this`files, this`crashes
      ensures files == old(files)[k := ContentOf(old(files), k) + data]
      ensures crashes == old(crashes) +
                         set n | 0 <= n <= |data| :: old(files)[k := ContentOf(old(files), k) + data[..n]]
    {
      crashes := crashes + set n | 0 <= n <= |data| :: files[k := ContentOf(files, k) + data[..n]];
      files := files[k := ContentOf(files, k) + data];
    }

    method Unlink(k: nat)
      modifies this`files, this`crashes
      ensures files == old(files) - {k}
      ensures crashes == old(crashes) + {old(files) - {k}}
    {
      files := files - {k};
      crashes := crashes + {files};
    }

    /** Create or validate a segment header, reporting the format the file uses. */
    method EnsureHeader(k: nat, newBase: u64) returns (h: HeaderCheck)
      modifies this`files, this`crashes
      ensures ContentOf(old(files), k) == [] ==>
                && h == HeaderCheck.Valid(cfg.Fmt(), HeldBase(cfg.Fmt(), newBase))
                && files == old(files)[k := Header(step, cfg.Fmt(), id, newBase)]
                && crashes == old(crashes) +
                   set n | 0 <= n <= HdrSize(cfg.Fmt()) :: old(files)[k := Header(step, cfg.Fmt(), id, newBase)[..n]]
      ensures ContentOf(old(files), k) != [] ==>
                && h == CheckHeader(step, id, old(files)[k])
                && files == old(files) && crashes == old(crashes)
    {
      if ContentOf(files, k) == [] {
        WriteAt(k, Header(step, cfg.Fmt(), id, newBase));
        assert [] + Header(step, cfg.Fmt(), id, newBase) == Header(step, cfg.Fmt(), id, newBase);
        assert forall n | 0 <= n <= HdrSize(cfg.Fmt()) ::
            [] + Header(step, cfg.Fmt(), id, newBase)[..n] == Header(step, cfg.Fmt(), id, newBase)[..n];
        h := HeaderCheck.Valid(cfg.Fmt(), HeldBase(cfg.Fmt(), newBase));
      } else {
        h := CheckHeader(step, id, files[k]);
      }
    }

    /** Unlink the oldest segments while the stream holds more than its full
        complement, sizing each file before it goes. */
    method DiscardExcess(ghost origin: int, ghost l: Log, ghost g: Seg)
      requires cfg.Allowed() && cfg.rollover && g.samples == [] && l.pending == []
      requires oldest == origin + |l.gone|
      requires Holds(step, cfg.Fmt(), id, files, oldest, l.live + [g])
      requires cur == oldest + |l.live|
      modifies this`files, this`crashes, this`oldest, this`pendingDiscarded
      ensures oldest == old(oldest) + Excess(cfg, |l.live| + 1)
      ensures Holds(step, cfg.Fmt(), id, files, oldest, (l.live + [g])[oldest - old(oldest)..])
      ensures pendingDiscarded == old(pendingDiscarded) + FileBytes(cfg.Fmt(), (l.live + [g])[..oldest - old(oldest)])
      ensures forall f :: f in crashes ==> f in old(crashes) || CrashSafe(step, cfg, id, origin, l, f)
    {
      hide CrashSafe, Holds, FileBytes, SegOk;
      ghost var all := l.live + [g];
      ghost var dropped: seq<Seg>, kept := [], all;
      NoneDropped(cfg.Fmt(), all);
      while cur - oldest + 1 > cfg.maxSegs
        invariant oldest + |kept| == cur + 1 && 0 < |kept|
        invariant |kept| == |all| - |dropped| && |dropped| <= Excess(cfg, |all|)
        invariant dropped + kept == all
        invariant Holds(step, cfg.Fmt(), id, files, oldest, kept)
        invariant pendingDiscarded == old(pendingDiscarded) + FileBytes(cfg.Fmt(), dropped)
        invariant oldest == origin + |l.gone| + |dropped|
        invariant forall f :: f in crashes ==> f in old(crashes) || CrashSafe(step, cfg, id, origin, l, f)
      {
        HoldsFirst(step, cfg.Fmt(), id, files, oldest, kept);
        pendingDiscarded := pendingDiscarded + |files[oldest]|;
        DropOldest(step, cfg.Fmt(), id, files, oldest, kept);
        Unlink(oldest);
        ShiftOne(cfg.Fmt(), dropped, kept);
        dropped, kept := dropped + [kept[0]], kept[1..];
        oldest := oldest + 1;
        DiscardImage(step, cfg, id, origin, l, g, dropped, kept, files, oldest);
      }
      assert dropped == all[..|dropped|] && kept == all[|dropped|..];
    }

    /** Begin a new segment with the given base and drop the oldest ones once the
        stream holds more than its full complement. */
    method StartSegment(newBase: u64)
      requires Valid() && used == 0 && cfg.Segmented()
      modifies this`files, this`crashes, this`cur, this`curBytes, this`base, this`oldest, this`pendingDiscarded, this`log
      ensures Valid()
      ensures log == Start(cfg, old(log), newBase) && cur == old(cur) + 1
      ensures old(log.gone) <= log.gone && Origin() == old(Origin())
      ensures pendingDiscarded == old(pendingDiscarded) + FileBytes(cfg.Fmt(), log.gone[|old(log.gone)|..])
      ensures forall f :: f in crashes ==> f in old(crashes) || CrashSafe(step, cfg, id, old(Origin()), old(log), f)
    {
      hide CrashSafe, Header, Holds, FileBytes, Wf, Start, EncodeAll;
      ghost var l := log;
      NoPending();
      StartKeeps(cfg, l, newBase);
      ghost var g := NextSegment(newBase);
      StartIs(cfg, l, newBase, g);
      cur := cur + 1;
      curBytes := 0;
      var h := EnsureHeader(cur, newBase);
      base := h.base;
      if cfg.rollover {
        DiscardExcess(old(Origin()), l, g);
      }
      log := Start(cfg, l, newBase);
    }

    /** What adding the next segment's header does to the files, whole or cut short. */
    lemma NextSegment(newBase: u64) returns (g: Seg)
      requires Valid() && cfg.Segmented()
      ensures g == Seg(HeldBase(cfg.Fmt(), newBase), [])
      ensures cur + 1 !in files
      ensures Holds(step, cfg.Fmt(), id, files[cur + 1 := Header(step, cfg.Fmt(), id, newBase)], oldest, log.live + [g])
      ensures forall n: nat :: n <= HdrSize(cfg.Fmt()) ==>
                CrashSafe(step, cfg, id, Origin(), log, files[cur + 1 := Header(step, cfg.Fmt(), id, newBase)[..n]])
    {
      hide CrashSafe, SegBytes, Header, SegsOk, Holds;
      var fmt := cfg.Fmt();
      g := Seg(HeldBase(fmt, newBase), []);
      HoldsEnd(step, fmt, id, files, oldest, log.live);
      EmptySegment(step, fmt, id, newBase);
      HoldsSnoc(step, fmt, id, files, oldest, log.live, g);
      forall n: nat | n <= HdrSize(fmt)
        ensures CrashSafe(step, cfg, id, Origin(), log, files[cur + 1 := Header(step, fmt, id, newBase)[..n]])
      {
        TornHeaderImage(step, cfg, id, Origin(), log, files, oldest, newBase, n);
      }
    }

    /** Write the buffer to the newest segment in one append, then roll if it is full. */
    method Flush()
      requires Valid()
      modifies this`files, this`crashes, this`used, this`cur, this`curBytes, this`base, this`oldest,
               this`pendingFlush, this`pendingDiscarded, this`log
      ensures Valid() && used == 0
      ensures log == TsLog.Flush(cfg, old(log)) && cur <= old(cur) + 1
      ensures pendingFlush == old(pendingFlush) + Size(cfg.Fmt(), |old(log.pending)|)
      ensures old(log.gone) <= log.gone && Origin() == old(Origin())
      ensures pendingDiscarded == old(pendingDiscarded) + FileBytes(cfg.Fmt(), log.gone[|old(log.gone)|..])
      ensures forall f :: f in crashes ==> f in old(crashes) || CrashSafe(step, cfg, id, old(Origin()), old(log), f)
    {
      hide CrashSafe, Holds, FileBytes, Wf, Start, EncodeAll, Written;
      NoneGone(cfg.Fmt(), log);
      if used == 0 {
        NoPending();
        return;
      }
      ghost var l := log;
      AfterWrite(buf[..used]);
      WriteAt(cur, buf[..used]);
      curBytes := curBytes + used;
      pendingFlush := pendingFlush + used;
      used := 0;
      log := Written(cfg, log);
      if cfg.Segmented() && curBytes >= cfg.segBytes {
        StartSegment(base);
        BeforeWrite(old(Origin()), l);
      }
    }

    /** What writing the buffer does to the files, whole or cut short. */
    lemma AfterWrite(data: seq<byte>)
      requires Valid() && used > 0 && data == buf[..used]
      ensures log.live != [] && log.pending != [] && used == Size(cfg.Fmt(), |log.pending|)
      ensures var w := Written(cfg, log);
              && Wf(cfg, w) && w.gone == log.gone && |w.live| == |log.live| && w.pending == []
              && w.Last().base == base && w.curBytes == curBytes + used
              && Holds(step, cfg.Fmt(), id, files[cur := ContentOf(files, cur) + data], oldest, w.live)
      ensures forall b: u64 :: EncodeAll(step, cfg.Fmt(), b, []) == []
      ensures forall n: nat :: n <= used ==>
                CrashSafe(step, cfg, id, Origin(), log, files[cur := ContentOf(files, cur) + data[..n]])
    {
      hide CrashSafe, SegsOk, SegBytes, Encode, AllFit, Written, Holds;
      WrittenKeeps(cfg, log);
      WrittenParts(cfg, log);
      HoldsExtended(step, cfg, id, log, files, oldest);
      forall n: nat | n <= used
        ensures CrashSafe(step, cfg, id, Origin(), log, files[cur := ContentOf(files, cur) + data[..n]])
      {
        TornFlushImage(step, cfg, id, Origin(), log, files, oldest, n);
      }
    }

    /** Encode a sample at the end of the buffer; refused when it does not fit the base. */
    method PutRecord(s: Sample) returns (ok: bool)
      requires Valid() && used + RecSize(cfg.Fmt()) <= cfg.cap
      modifies buf, this`used, this`log
      ensures Valid()
      ensures ok == Fits(cfg.Fmt(), base, s)
      ensures log == if ok then old(log).(pending := old(log).pending + [s]) else old(log)
    {
      hide Encode, EncodeAll, Holds, SegsOk;
      if cfg.delta && (s.ts < base || s.ts - base > MAX_DELTA) {
        return false;
      }
      var rec := Encode(step, cfg.Fmt(), base, s);
      forall i | 0 <= i < |rec| {
        buf[used + i] := rec[i];
      }
      assert buf[..used + |rec|] == old(buf[..used]) + rec;
      EncodeSnoc(step, cfg.Fmt(), base, log.pending, s);
      log := log.(pending := log.pending + [s]);
      used := used + |rec|;
      ok := true;
    }

    /** Persist what is buffered, then begin a segment based on the given timestamp. */
    method Rebase(ts: u64)
      requires Valid() && cfg.Segmented()
      modifies this`files, this`crashes, this`used, this`cur, this`curBytes, this`base, this`oldest,
               this`pendingFlush, this`pendingDiscarded, this`log
      ensures Valid() && used == 0
      ensures log == Start(cfg, TsLog.Flush(cfg, old(log)), ts)
      ensures pendingFlush == old(pendingFlush) + Size(cfg.Fmt(), |old(log.pending)|)
      ensures old(log.gone) <= log.gone && Origin() == old(Origin())
      ensures pendingDiscarded == old(pendingDiscarded) + FileBytes(cfg.Fmt(), log.gone[|old(log.gone)|..])
      ensures forall f :: f in crashes ==>
                f in old(crashes) || CrashSafe(step, cfg, id, old(Origin()), old(log), f)
                || CrashSafe(step, cfg, id, old(Origin()), TsLog.Flush(cfg, old(log)), f)
    {
      hide CrashSafe, Holds, FileBytes, Wf, Start, EncodeAll, TsLog.Flush;
      Flush();
      ghost var mid := log.gone;
      StartSegment(ts);
      GoneGrows(cfg.Fmt(), old(log.gone), mid, log.gone);
    }

    /** Append one sample, making room first and beginning a new segment when its
        timestamp is out of range. Also reports whether a background flush is due. */
    method Append(s: Sample) returns (st: Status, flushDue: bool)
      requires Valid()
      modifies this`files, this`crashes, this`used, this`cur, this`curBytes, this`base, this`oldest,
               this`pendingFlush, this`pendingDiscarded, this`log, buf
      ensures Valid()
      ensures (st, log) == TsLog.Append(cfg, old(log), s)
      ensures flushDue == (st == Ok && BufferFull(cfg, log))
      ensures pendingFlush + Size(cfg.Fmt(), |log.pending|)
           == old(pendingFlush) + Size(cfg.Fmt(), |old(log.pending)|) + (if st == Ok then RecSize(cfg.Fmt()) else 0)
      ensures old(log.gone) <= log.gone && Origin() == old(Origin())
      ensures pendingDiscarded == old(pendingDiscarded) + FileBytes(cfg.Fmt(), log.gone[|old(log.gone)|..])
      ensures forall f :: f in crashes ==>
                f in old(crashes) || CrashSafe(step, cfg, id, old(Origin()), old(log), f)
                || CrashSafe(step, cfg, id, old(Origin()), TsLog.Flush(cfg, old(log)), f)
    {
      hide CrashSafe, FileBytes, Start, TsLog.Flush, Valid, Wf, Fits, Roomy, Prepared, TsLog.Append;
      ghost var l := log;
      AppendFacts(s);
      AppendCases(cfg, l, s);
      var recSize := RecSize(cfg.Fmt());
      flushDue := false;
      if cfg.cap < recSize {
        return NoMem, false;
      }
      if used + recSize > cfg.cap {
        Flush();
      }
      ghost var mid := log.gone;
      assert log == Roomy(cfg, l);
      AppendFacts(s);
      var ok := PutRecord(s);
      if !ok {
        Rebase(s.ts);
        assert log == Prepared(cfg, l, s);
        AppendFacts(s);
        GoneGrows(cfg.Fmt(), l.gone, mid, log.gone);
        ok := PutRecord(s);
      }
      AppendFacts(s);
      st := Ok;
      flushDue := used + recSize > cfg.cap;
    }

    lemma AppendFacts(s: Sample)
      requires Valid()
      ensures cfg.Allowed() && Wf(cfg, log) && log.live != []
      ensures base == log.Last().base && used == Size(cfg.Fmt(), |log.pending|)
      ensures log.gone[|log.gone|..] == [] && FileBytes(cfg.Fmt(), []) == 0
      ensures TsLog.Flush(cfg, log).live != []
    {
      hide TsLog.Flush, Holds, FileBytes;
      UsedBytes();
      FlushKeeps(cfg, log);
      NoneGone(cfg.Fmt(), log);
    }

    lemma BeforeWrite(origin: int, l: Log)
      requires cfg.Allowed() && l.live != []
      ensures forall f :: CrashSafe(step, cfg, id, origin, Written(cfg, l), f) ==> CrashSafe(step, cfg, id, origin, l, f)
    {
      hide CrashSafe, Written;
      forall f | CrashSafe(step, cfg, id, origin, Written(cfg, l), f) ensures CrashSafe(step, cfg, id, origin, l, f) {
        SafeBeforeWrite(step, cfg, id, origin, l, f);
      }
    }

    lemma UsedBytes()
      requires Valid()
      ensures used == Size(cfg.Fmt(), |log.pending|)
    {
      hide Encode, Holds;
    }

    lemma NoPending()
      requires Valid() && used == 0
      ensures log.pending == [] && buf[..used] == []
      ensures forall b: u64 :: EncodeAll(step, cfg.Fmt(), b, []) == []
    {
      hide Encode, Holds;
      assert |EncodeAll(step, cfg.Fmt(), base, log.pending)| == 0;
    }

    /** Append a batch in order under one lock; it stops at the first refusal. */
    method AppendBatch(ss: seq<Sample>) returns (st: Status)
      requires Valid()
      modifies this`files, this`crashes, this`used, this`cur, this`curBytes, this`base, this`oldest,
               this`pendingFlush, this`pendingDiscarded, this`log, buf
      ensures Valid()
      ensures log == AppendAll(cfg, old(log), ss)
      ensures st == (if ss == [] then Inval else if cfg.cap < RecSize(cfg.Fmt()) then NoMem else Ok)
      ensures pendingFlush + Size(cfg.Fmt(), |log.pending|)
           == old(pendingFlush) + Size(cfg.Fmt(), |old(log.pending)|)
              + (if st == Ok then Size(cfg.Fmt(), |ss|) else 0)
      ensures old(log.gone) <= log.gone && Origin() == old(Origin())
      ensures pendingDiscarded == old(pendingDiscarded) + FileBytes(cfg.Fmt(), log.gone[|old(log.gone)|..])
      ensures forall f :: f in crashes ==> f in old(crashes) || SafeDuring(old(Origin()), old(log), ss, f)
    {
      hide CrashSafe, FileBytes, Valid, Wf, TsLog.Append, TsLog.Flush;
      ghost var l := log;
      LogFacts();
      if ss == [] {
        return Inval;
      }
      AppendAllAdds(cfg, l, ss);
      st := Ok;
      var i := 0;
      assert ss[..0] == [];
      while i < |ss|
        invariant 0 <= i <= |ss| && st == Ok && Valid()
        invariant i > 0 ==> RecSize(cfg.Fmt()) <= cfg.cap
        invariant log == AppendAll(cfg, l, ss[..i])
        invariant pendingFlush + Size(cfg.Fmt(), |log.pending|)
               == old(pendingFlush) + Size(cfg.Fmt(), |l.pending|) + Size(cfg.Fmt(), i)
        invariant l.gone <= log.gone && Origin() == old(Origin())
        invariant pendingDiscarded == old(pendingDiscarded) + FileBytes(cfg.Fmt(), log.gone[|l.gone|..])
        invariant forall f :: f in crashes ==> f in old(crashes) || SafeDuring(old(Origin()), l, ss, f)
      {
        ghost var before := log;
        LogFacts();
        AppendCases(cfg, log, ss[i]);
        SafeSoFar(old(Origin()), l, ss, i);
        var due;
        st, due := Append(ss[i]);
        GoneGrows(cfg.Fmt(), l.gone, before.gone, log.gone);
        if st != Ok {
          break;
        }
        assert ss[..i + 1][..i] == ss[..i];
        i := i + 1;
      }
      assert ss[..|ss|] == ss;
    }

    /** f is what a crash may leave at some point of appending ss to l. */
    ghost predicate SafeDuring(origin: int, l: Log, ss: seq<Sample>, f: Files)
      requires cfg.Allowed() && Wf(cfg, l)
    {
      exists i :: 0 <= i <= |ss| && SafeAt(origin, l, ss, i, f)
    }

    ghost predicate SafeAt(origin: int, l: Log, ss: seq<Sample>, i: nat, f: Files)
      requires cfg.Allowed() && Wf(cfg, l) && i <= |ss|
    {
      var m := AppendAll(cfg, l, ss[..i]);
      CrashSafe(step, cfg, id, origin, m, f) || CrashSafe(step, cfg, id, origin, TsLog.Flush(cfg, m), f)
    }

    lemma SafeSoFar(origin: int, l: Log, ss: seq<Sample>, i: nat)
      requires cfg.Allowed() && Wf(cfg, l) && i <= |ss|
      ensures forall f :: SafeAt(origin, l, ss, i, f) ==> SafeDuring(origin, l, ss, f)
    {
    }

    lemma LogFacts()
      requires Valid()
      ensures cfg.Allowed() && Wf(cfg, log) && log.live != []
      ensures log.gone[|log.gone|..] == [] && FileBytes(cfg.Fmt(), []) == 0
    {
      hide Holds;
    }

    /** What the stream's bytes decode to - every file of the window, oldest first,
        then the buffer - is the contents of its log. */
    lemma DecodesToLog()
      requires Valid()
      ensures Stored(step, id, files, oldest, cur - oldest + 1)
              + DecodeAll(step, cfg.Fmt(), base, buf[..used]) == Contents(log)
    {
      hide DecodeAll, Encode, EncodeAll, Stored, SegsOk, Holds;
      HoldsDecodes(step, cfg.Fmt(), id, files, oldest, log.live);
      DecodeAllEncodeAll(step, cfg.Fmt(), base, log.pending, []);
      assert buf[..used] + [] == buf[..used];
    }

    /** Count records from file sizes and the buffer fill level, reading no payload. */
    method CountAll() returns (count: u32)
      requires Valid()
      ensures count == |Contents(log)| % 0x1_0000_0000
    {
      hide Holds, EncodeAll, Encode, SegsOk, AllFit;
      UsedBytes();
      var flushed: nat := 0;
      var seqNo := oldest;
      while seqNo <= cur
        invariant oldest <= seqNo <= cur + 1
        invariant flushed == |Flat(log.live[..seqNo - oldest])|
      {
        ghost var i := seqNo - oldest;
        SegmentSize(i);
        assert log.live[..i + 1][..i] == log.live[..i];
        if seqNo in files {
          var layout := LearnLayout(files[seqNo]);
          if layout.Valid? && |files[seqNo]| > HdrSize(layout.fmt) {
            flushed := flushed + Whole(layout.fmt, |files[seqNo]| - HdrSize(layout.fmt));
          }
        }
        seqNo := seqNo + 1;
      }
      assert log.live[..|log.live|] == log.live;
      count := (flushed + Whole(cfg.Fmt(), used)) % 0x1_0000_0000;
    }

    lemma SegmentSize(i: nat)
      requires Valid() && i < |log.live|
      ensures oldest + i in files
      ensures LearnLayout(files[oldest + i]) == HeaderCheck.Valid(cfg.Fmt(), log.live[i].base)
      ensures |files[oldest + i]| == HdrSize(cfg.Fmt()) + Size(cfg.Fmt(), |log.live[i].samples|)
    {
      hide EncodeAll, Encode, Header, LearnLayout;
      var g := log.live[i];
      assert files[oldest + i] == SegBytes(step, cfg.Fmt(), id, g);
      LayoutOfSegment(step, cfg.Fmt(), id, g, []);
      assert SegBytes(step, cfg.Fmt(), id, g) + [] == SegBytes(step, cfg.Fmt(), id, g);
    }

    // Opening

    /** Walk the directory for the least and greatest segment numbers. */
    method ScanWindow() returns (found: bool, lowest: nat, highest: nat)
      ensures found <==> files != map[]
      ensures found ==> ParsedBounds(files, lowest, highest)
    {
      found, lowest, highest := false, 0xFFFF_FFFF, 0;
      var rest := files.Keys;
      while rest != {}
        invariant rest <= files.Keys
        invariant found <==> rest != files.Keys
        invariant !found ==> lowest == 0xFFFF_FFFF && highest == 0
        invariant found ==> exists k :: k in files && ParsedSeq(k) == lowest
        invariant found ==> exists k :: k in files && ParsedSeq(k) == highest
        invariant forall k :: k in files && k !in rest ==> lowest <= ParsedSeq(k) <= highest
        decreases |rest|
      {
        var k :| k in rest;
        rest := rest - {k};
        var seqNo := ParsedSeq(k);
        found := true;
        if seqNo < lowest {
          lowest := seqNo;
        }
        if seqNo > highest {
          highest := seqNo;
        }
      }
    }

    /** Learn the segment window from storage, adopting a single-file stream as
        segment 0, and learn the newest segment's base and fill level. */
    method Scan() returns (st: Status)
      requires cfg.Segmented()
      modifies this`files, this`crashes, this`legacy, this`oldest, this`cur, this`base, this`curBytes
      ensures Adopted(old(files), old(legacy)) == map[] ==> oldest == cur == 0
      ensures Adopted(old(files), old(legacy)) != map[] ==> ParsedBounds(Adopted(old(files), old(legacy)), oldest, cur)
      ensures ContentOf(Adopted(old(files), old(legacy)), cur) == [] ==>
                && st == Ok && base == 0 && curBytes == 0
                && files == Adopted(old(files), old(legacy))[cur := Header(step, cfg.Fmt(), id, 0)]
      ensures ContentOf(Adopted(old(files), old(legacy)), cur) != [] ==>
                && files == Adopted(old(files), old(legacy))
                && match CheckHeader(step, id, files[cur])
                   case Invalid(e) => st == e
                   case Valid(fmt, b) => st == Ok && base == b && HdrSize(fmt) + curBytes == |files[cur]|
      ensures forall f :: f in crashes && f !in old(crashes) ==>
                OpeningCut(step, cfg.Fmt(), id, Adopted(old(files), old(legacy)), cur, f)
    {
      hide Header, OpeningCut, CheckHeader;
      ghost var g := Adopted(files, legacy);
      AdoptionIsCut(g);
      var found;
      found, oldest, cur := ScanWindow();
      if !found {
        if legacy.Some? {
          files, legacy := map[0 := legacy.value], None;
          crashes := crashes + {files};
          assert ParsedSeq(0) == 0;
        }
        oldest, cur := 0, 0;
      }
      HeaderSized(ContentOf(files, cur));
      ghost var before := crashes;
      var h := EnsureHeader(cur, 0);
      if ContentOf(g, cur) == [] {
        OpeningCuts(step, cfg.Fmt(), id, g, cur, before, crashes);
      }
      if h.Invalid? {
        return h.status;
      }
      base := h.base;
      curBytes := |files[cur]| - HdrSize(h.fmt);
      st := Ok;
    }

    lemma AdoptionIsCut(g: Files)
      ensures forall k: nat :: OpeningCut(step, cfg.Fmt(), id, g, k, g)
    {
    }

    lemma HeaderSized(file: seq<byte>)
      ensures var h := CheckHeader(step, id, file); h.Valid? ==> HdrSize(h.fmt) <= |file|
      ensures HeldBase(cfg.Fmt(), 0) == 0
    {
    }

    /** Cut the newest file after its longest run of decodable records. */
    method Recover() returns (st: Status, truncated: nat)
      modifies this`files, this`crashes
      ensures ContentOf(old(files), cur) == [] ==>
                st == Ok && truncated == 0 && files == old(files)[cur := Header(step, V1, id, 0)]
      ensures ContentOf(old(files), cur) != [] ==>
                var file := old(files)[cur];
                match RecoverLayout(step, id, file)
                case Invalid(e) => st == e && truncated == 0 && files == old(files)
                case Valid(fmt, _) =>
                  && st == Ok && HdrSize(fmt) <= |file|
                  && files == old(files)[cur := file[..GoodEnd(step, fmt, file)]]
                  && truncated == Reported(fmt, |file| - GoodEnd(step, fmt, file))
                  && (var lost := |file| - |files[cur]|; truncated == if lost < RecSize(fmt) then lost else RecSize(fmt))
                  && exists n: nat :: |files[cur]| == HdrSize(fmt) + Size(fmt, n) && CutsAt(step, fmt, file, n)
      ensures ContentOf(old(files), cur) != [] ==> crashes <= old(crashes) + {files}
    {
      hide Header, DecodeAll, Decode, CheckV1Header, LearnLayout, CutsAt;
      truncated := 0;
      if ContentOf(files, cur) == [] {
        WriteAt(cur, Header(step, V1, id, 0));
        assert [] + Header(step, V1, id, 0) == Header(step, V1, id, 0);
        return Ok, 0;
      }
      var file := files[cur];
      RecoverSized(file);
      var layout := RecoverLayout(step, id, file);
      if layout.Invalid? {
        return layout.status, 0;
      }
      var end := RecoverWalk(layout.fmt, file);
      ghost var good := GoodEnd(step, layout.fmt, file);
      if end.1 > end.0 {
        files := files[cur := file[..end.0]];
        crashes := crashes + {files};
        truncated := end.1 - end.0;
      } else {
        assert file[..good] == file && files[cur := file] == files;
      }
      st := Ok;
    }

    lemma RecoverSized(file: seq<byte>)
      ensures var h := RecoverLayout(step, id, file); h.Valid? ==> HdrSize(h.fmt) <= |file|
    {
    }

    /** Read one stride at a time to the first short or undecodable record; yields
        the end of the last good one and the read position reached. */
    method RecoverWalk(fmt: Format, file: seq<byte>) returns (end: (nat, nat))
      requires HdrSize(fmt) <= |file|
      ensures end.0 == GoodEnd(step, fmt, file)
      ensures exists n: nat :: end.0 == HdrSize(fmt) + Size(fmt, n) && CutsAt(step, fmt, file, n)
      ensures end.1 == end.0 + Reported(fmt, |file| - end.0)
    {
      hide Decode, CutsAt;
      var r := RecSize(fmt);
      var pos := HdrSize(fmt);
      ghost var n := 0;
      ghost var cut := GoodEndExact(step, fmt, file);
      ghost var all := |DecodeAll(step, fmt, 0, file[pos..])|;
      while true
        invariant HdrSize(fmt) <= pos <= |file|
        invariant pos == HdrSize(fmt) + Size(fmt, n)
        invariant all == n + |DecodeAll(step, fmt, 0, file[pos..])|
        decreases |file| - pos
      {
        var rd := if |file| - pos < r then |file| - pos else r;
        if rd != r {
          return (pos, pos + rd);
        }
        assert file[pos..][..r] == file[pos..pos + r];
        var d := Decode(step, fmt, 0, file[pos..pos + r]);
        if d.Bad? {
          return (pos, pos + r);
        }
        assert file[pos..][r..] == file[pos + r..];
        pos := pos + r;
        n := n + 1;
      }
    }

    /** Open the stream over the files it finds: scan, then recover the newest file.
        Fails exactly when the newest file is part of a header, or when recovery cut
        more than the configured limit; then, and otherwise, nothing but the torn
        tail is removed. */
    method Open(limit: nat, ghost gone: seq<Seg>, ghost w: Remains) returns (st: Status, truncated: nat)
      requires cfg.Allowed() && buf.Length == cfg.cap && used == 0
      requires SegsOk(cfg.Fmt(), gone) && (!cfg.rollover ==> gone == [])
      requires Leaves(step, cfg.Fmt(), id, Found(), w) && w.Newest() < 10000
      requires !cfg.Segmented() ==> |LiveOf(w)| == 1 && w.First() == 0
      modifies this`files, this`crashes, this`legacy, this`oldest, this`cur, this`base, this`curBytes, this`log
      ensures w.Unreadable() ==>
                st == (if cfg.Segmented() then Io else Corrupt) && truncated == 0 && files == old(Found())
      ensures !w.Unreadable() ==>
                && Valid()
                && log == Log(gone, LiveOf(w), [], FillOf(cfg.Fmt(), w))
                && truncated == (if w.Segments? then |w.tail| else 0)
                && st == (if 0 < limit < truncated then Corrupt else Ok)
                && oldest == w.First()
      ensures forall f :: f in crashes && f !in old(crashes) ==> LeavesAgain(step, cfg.Fmt(), id, w, f)
    {
      hide Holds, GoodEnd, Header, CheckHeader, RecoverLayout, LiveOf, FillOf, Leaves, SegsOk, EncodeAll, OpeningCut,
           LeavesAgain, CutsAt;
      ghost var f := Found();
      truncated := 0;
      st := Locate(w);
      forall c | OpeningCut(step, cfg.Fmt(), id, f, w.Newest(), c)
        ensures LeavesAgain(step, cfg.Fmt(), id, w, c)
      {
        OpeningAgain(step, cfg.Fmt(), id, f, w, c);
      }
      if st != Ok {
        return;
      }
      NewestFacts(step, cfg.Fmt(), id, f, w);
      HeaderOnly(step, cfg.Fmt(), id);
      st, truncated := Recover();
      LiveOk(cfg, gone, f, w);
      ghost var h := Header(step, cfg.Fmt(), id, 0);
      assert !w.Segments? ==> h[..HdrSize(cfg.Fmt())] == h && files == f[cur := h];
      assert buf[..used] == [];
      log := Log(gone, LiveOf(w), [], FillOf(cfg.Fmt(), w));
      OpenedAgain(w);
      if 0 < limit < truncated {
        st := Corrupt;
      }
    }

    /** The files an opening leaves are themselves no loss in a crash. */
    lemma OpenedAgain(w: Remains)
      requires Holds(step, cfg.Fmt(), id, files, w.First(), LiveOf(w)) && LiveOf(w) != []
      requires |LiveOf(w)| == w.Newest() - w.First() + 1
      ensures LeavesAgain(step, cfg.Fmt(), id, w, files)
    {
      hide Holds, Torn, Flat;
      CleanTorn(step, cfg.Fmt(), id, files, w.First(), LiveOf(w));
      var w2 := Segments(w.First(), LiveOf(w), []);
      assert Again(w, w2) && Leaves(step, cfg.Fmt(), id, files, w2);
    }

    /** The files an opening sees. */
    function Found(): Files
      reads this
    {
      if cfg.Segmented() then Adopted(files, legacy) else files
    }

    /** Find the window of segments, or the single file, and make its newest header
        valid. Recovery needs the window for its path and reports any failure of the
        scan as an I/O error. */
    method Locate(ghost w: Remains) returns (st: Status)
      requires Leaves(step, cfg.Fmt(), id, Found(), w) && w.Newest() < 10000
      requires !cfg.Segmented() ==> |LiveOf(w)| == 1 && w.First() == 0
      modifies this`files, this`crashes, this`legacy, this`oldest, this`cur, this`base, this`curBytes
      ensures w.Unreadable() ==> st == (if cfg.Segmented() then Io else Corrupt) && files == old(Found())
      ensures !w.Unreadable() ==>
                && st == Ok && oldest == w.First() && cur == w.Newest()
                && LiveOf(w) != [] && base == LiveOf(w)[|LiveOf(w)| - 1].base
                && curBytes == FillOf(cfg.Fmt(), w)
                && files == (if w.Segments? then old(Found())
                             else old(Found())[cur := Header(step, cfg.Fmt(), id, 0)])
      ensures forall f :: f in crashes && f !in old(crashes) ==>
                OpeningCut(step, cfg.Fmt(), id, old(Found()), w.Newest(), f)
    {
      hide Holds, GoodEnd, Header, CheckHeader, RecoverLayout, Leaves, SegsOk, Torn, TornNew;
      ghost var f := Found();
      NewestFacts(step, cfg.Fmt(), id, f, w);
      EmptyLast(w);
      if cfg.Segmented() {
        st := Scan();
        if !w.Nothing? {
          WindowRebuilt(f, w.First(), w.Newest(), oldest, cur);
        }
        if st != Ok {
          st := Io;
        }
      } else {
        oldest, cur, curBytes := 0, 0, 0;
        HeaderSized(ContentOf(files, 0));
        var h := EnsureHeader(0, 0);
        if h.Invalid? {
          return h.status;
        }
        base := h.base;
        curBytes := |files[0]| - HdrSize(h.fmt);
        st := Ok;
      }
    }

    lemma EmptyLast(w: Remains)
      ensures w.HalfHeader? || w.Nothing? ==> LiveOf(w) != [] && LiveOf(w)[|LiveOf(w)| - 1] == Seg(0, [])
    {
    }

    lemma LiveOk(cfg: Cfg, gone: seq<Seg>, f: Files, w: Remains)
      requires Leaves(step, cfg.Fmt(), id, f, w) && SegsOk(cfg.Fmt(), gone) && (!cfg.rollover ==> gone == [])
      requires !cfg.Segmented() ==> |LiveOf(w)| == 1
      ensures Wf(cfg, Log(gone, LiveOf(w), [], FillOf(cfg.Fmt(), w)))
      ensures forall b: u64 :: EncodeAll(step, cfg.Fmt(), b, []) == []
    {
      hide SegBytes, Header, Encode;
      NewestFacts(step, cfg.Fmt(), id, f, w);
      EmptySeg(cfg.Fmt(), Seg(0, []));
      if w.HalfHeader? {
        SegsOkConcat(cfg.Fmt(), w.gs, [Seg(0, [])]);
      }
    }

    /** Close the last handle, which flushes, and open the stream again. */
    method Reopen() returns (st: Status)
      requires Valid() && cur + 1 < 10000
      modifies this`files, this`crashes, this`used, this`cur, this`curBytes, this`base, this`oldest, this`legacy,
               this`pendingFlush, this`pendingDiscarded, this`log
      ensures st == Ok && Valid() && log == TsLog.Reopen(cfg, old(log)) && Origin() == old(Origin())
      ensures forall f :: f in crashes ==>
                f in old(crashes) || CrashSafe(step, cfg, id, old(Origin()), old(log), f)
                || CrashSafe(step, cfg, id, old(Origin()), TsLog.Flush(cfg, old(log)), f)
    {
      hide CrashSafe, LeavesAgain, Holds, FileBytes, SegsOk, EncodeAll, Torn, TsLog.Flush, Start;
      ghost var l := log;
      WindowOf(l);
      Flush();
      WindowOf(l);
      CleanTorn(step, cfg.Fmt(), id, files, oldest, log.live);
      ghost var w := Segments(oldest, log.live, []);
      CleanKept();
      ghost var flushed, before := log, crashes;
      var truncated;
      st, truncated := Open(0, log.gone, w);
      forall f | f in crashes && f !in before
        ensures CrashSafe(step, cfg, id, old(Origin()), flushed, f)
      {
        AgainSafe(step, cfg, id, old(Origin()), flushed, w, 0, 0, f);
      }
    }

    /** Clean files keep all of their log. */
    lemma CleanKept()
      requires Valid()
      ensures var w := Segments(oldest, log.live, []);
              Kept(cfg, log, LiveOf(w), 0, 0) && Spans(cfg, log, 0, w) && FirstIs(Origin(), log, 0, w.First())
    {
      KeepsAll(cfg, log);
    }

    lemma WindowOf(l: Log)
      requires Valid()
      ensures oldest in files && files != map[] && (!cfg.Segmented() ==> oldest == 0 && |log.live| == 1)
      ensures cfg.Allowed() && Wf(cfg, log) && log.live != []
      ensures cfg.rollover || log.gone == []
      ensures Wf(cfg, l) ==> l.live != []
    {
    }
  }

  /** r is what is left of the log l after a crash and a restart: all that was stored,
      less drop segments that are discarded, and the first kept of what was buffered. */
  predicate Survives(cfg: Cfg, l: Log, r: Log, drop: nat, kept: nat) {
    && drop <= |l.live| && drop <= Excess(cfg, |l.live| + 1) && kept <= |l.pending|
    && (drop > 0 ==> kept == |l.pending|)
    && r.gone == l.gone + l.live[..drop] && r.pending == []
    && Flat(r.live) == Flat(l.live[drop..]) + l.pending[..kept]
  }

  /** Power fails and the stream is opened again over whatever the crash left of its
      log l. Unless the newest file holds part of a header, the stream is valid, all
      it was ever given is still accounted for but the end of what was buffered, and
      what is no longer held is at most the segments that starting one discards. A
      second crash, during the opening, loses nothing more. */
  method Restart(step: CrcStep, cfg: Cfg, id: u32, ghost origin: int, ghost l: Log, c: Files, block: array<byte>,
                 limit: nat)
    returns (s: Stream, st: Status, ghost w: Remains, ghost drop: nat, ghost kept: nat)
    requires cfg.Allowed() && Wf(cfg, l) && CrashSafe(step, cfg, id, origin, l, c) && block.Length == cfg.cap
    requires (forall k :: k in c ==> k < 10000) && (!cfg.Segmented() ==> origin == 0)
    ensures fresh(s) && s.step == step && s.cfg == cfg && s.id == id && s.buf == block
    ensures Leaves(step, cfg.Fmt(), id, c, w) && FirstIs(origin, l, drop, w.First())
    ensures drop <= Excess(cfg, |l.live| + 1) && drop <= |l.live| && kept <= |l.pending|
    ensures drop > 0 ==> kept == |l.pending|
    ensures w.Unreadable() ==> cfg.Segmented() && st == Io
    ensures !w.Unreadable() ==>
              && s.Valid() && s.Origin() == origin && Survives(cfg, l, s.log, drop, kept)
              && Contents(s.log) == Flat(l.live[drop..]) + l.pending[..kept]
              && History(s.log) == Flat(l.gone) + Flat(l.live) + l.pending[..kept]
              && (st == Ok || (st == Corrupt && w.Segments? && 0 < limit < |w.tail|))
    ensures forall f :: f in s.crashes ==> CrashSafe(step, cfg, id, origin, l, f)
  {
    hide CrashSafe, Leaves, LeavesAgain, Stream.Valid, SegsOk, Flat, Torn, TornNew, Kept, Spans, Contents, History, Wf,
         Excess, LiveOf, FillOf, Holds, Readable, GoodEndIs, Header;
    w, drop, kept := CrashLeaves(step, cfg, id, origin, l, c);
    NewestFacts(step, cfg.Fmt(), id, c, w);
    RestartFacts(cfg, l, w, drop, kept);
    ghost var gone := l.gone + l.live[..drop];
    s := new Stream(step, cfg, id, block, c, None);
    var truncated;
    st, truncated := s.Open(limit, gone, w);
    forall f | f in s.crashes
      ensures CrashSafe(step, cfg, id, origin, l, f)
    {
      AgainSafe(step, cfg, id, origin, l, w, drop, kept, f);
    }
  }

  /** The log a restart ends with. */
  lemma RestartFacts(cfg: Cfg, l: Log, w: Remains, drop: nat, kept: nat)
    requires cfg.Allowed() && Wf(cfg, l) && Kept(cfg, l, LiveOf(w), drop, kept) && Spans(cfg, l, drop, w)
    ensures drop <= Excess(cfg, |l.live| + 1) && drop <= |l.live| && kept <= |l.pending|
    ensures drop > 0 ==> kept == |l.pending|
    ensures w.Unreadable() ==> cfg.Segmented()
    ensures SegsOk(cfg.Fmt(), l.gone + l.live[..drop]) && (!cfg.rollover ==> l.gone + l.live[..drop] == [])
    ensures !cfg.Segmented() ==> |LiveOf(w)| == 1 && l.gone == [] && drop == 0
    ensures var r := Log(l.gone + l.live[..drop], LiveOf(w), [], FillOf(cfg.Fmt(), w));
            && Survives(cfg, l, r, drop, kept)
            && Contents(r) == Flat(l.live[drop..]) + l.pending[..kept]
            && History(r) == Flat(l.gone) + Flat(l.live) + l.pending[..kept]
  {
    hide SegsOk, Flat, AllFit;
    SegsOkSplit(cfg.Fmt(), l.live, drop);
    SegsOkConcat(cfg.Fmt(), l.gone, l.live[..drop]);
    FlatConcat(l.gone, l.live[..drop]);
    FlatSplit(l.live, drop);
  }
}
