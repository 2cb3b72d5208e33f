/** The abstract time-series log: segments of samples, oldest first, and the
    samples still buffered in RAM. The byte-level stream refines these steps. */
module TsLog {
  import opened Bytes
  import opened TsRecord

  /** Build configuration of a stream: delta selects compact records, rollover
      bounds the stream to maxSegs segments, cap is the ingest buffer. */
  datatype Cfg = Cfg(delta: bool, rollover: bool, segBytes: nat, maxSegs: nat, cap: nat) {
    function Fmt(): Format {
      if delta then V2 else V1
    }
    predicate Segmented() {
      delta || rollover
    }
    /** The ranges the configuration menu enforces, as far as they matter. */
    predicate Allowed() {
      1 <= segBytes && 2 <= maxSegs
    }
  }

  /** gone holds the segments discarded so far; it exists to state what was lost. */
  datatype Log = Log(gone: seq<Seg>, live: seq<Seg>, pending: seq<Sample>, curBytes: nat) {
    function Last(): Seg
      requires live != []
    {
      live[|live| - 1]
    }
  }

  predicate SegsOk(fmt: Format, gs: seq<Seg>) {
    forall i :: 0 <= i < |gs| ==> SegOk(fmt, gs[i])
  }

  predicate Wf(cfg: Cfg, l: Log) {
    && l.live != []
    && SegsOk(cfg.Fmt(), l.gone)
    && SegsOk(cfg.Fmt(), l.live)
    && AllFit(cfg.Fmt(), l.Last().base, l.pending)
    && Size(cfg.Fmt(), |l.pending|) <= cfg.cap
    && Size(cfg.Fmt(), |l.Last().samples|) <= l.curBytes
    && (!cfg.Segmented() ==> |l.live| == 1)
    && (!cfg.rollover ==> l.gone == [])
  }

  function Flat(gs: seq<Seg>): seq<Sample> {
    if gs == [] then [] else Flat(gs[..|gs| - 1]) + gs[|gs| - 1].samples
  }

  /** What the stream holds: every stored segment, then the buffer. */
  function Contents(l: Log): seq<Sample> {
    Flat(l.live) + l.pending
  }

  /** Everything the stream was ever given. */
  function History(l: Log): seq<Sample> {
    Flat(l.gone) + Contents(l)
  }

  /** Bytes of the files these segments occupy. */
  function FileBytes(fmt: Format, gs: seq<Seg>): nat {
    if gs == [] then 0
    else FileBytes(fmt, gs[..|gs| - 1]) + HdrSize(fmt) + Size(fmt, |gs[|gs| - 1].samples|)
  }

  lemma {:induction false} FlatConcat(a: seq<Seg>, b: seq<Seg>)
    ensures Flat(a + b) == Flat(a) + Flat(b)
    decreases |b|
  {
    if b == [] {
      assert a + b == a;
    } else {
      assert (a + b)[..|a + b| - 1] == a + b[..|b| - 1];
      FlatConcat(a, b[..|b| - 1]);
    }
  }

  lemma {:induction false} FileBytesConcat(fmt: Format, a: seq<Seg>, b: seq<Seg>)
    ensures FileBytes(fmt, a + b) == FileBytes(fmt, a) + FileBytes(fmt, b)
    decreases |b|
  {
    if b == [] {
      assert a + b == a;
    } else {
      assert (a + b)[..|a + b| - 1] == a + b[..|b| - 1];
      FileBytesConcat(fmt, a, b[..|b| - 1]);
    }
  }

  /** A header for each file, and the records in them. */
  lemma {:induction false} FileBytesAre(fmt: Format, gs: seq<Seg>)
    ensures FileBytes(fmt, gs)
         == if fmt.V1? then 16 * |gs| + 28 * |Flat(gs)| else 24 * |gs| + 16 * |Flat(gs)|
    decreases |gs|
  {
    if gs != [] {
      FileBytesAre(fmt, gs[..|gs| - 1]);
    }
  }

  lemma FlatSplit(gs: seq<Seg>, n: nat)
    requires n <= |gs|
    ensures Flat(gs) == Flat(gs[..n]) + Flat(gs[n..])
  {
    hide Flat;
    FlatConcat(gs[..n], gs[n..]);
    assert gs == gs[..n] + gs[n..];
  }

  // Steps

  function InitLog(): Log {
    Log([], [Seg(0, [])], [], 0)
  }

  function Excess(cfg: Cfg, n: nat): (d: nat)
    ensures d <= n
  {
    if cfg.rollover && n > cfg.maxSegs then n - cfg.maxSegs else 0
  }

  /** Begin a segment with the given base, then drop the oldest whole segments
      past the bound. */
  function Start(cfg: Cfg, l: Log, base: u64): Log {
    var live := l.live + [Seg(HeldBase(cfg.Fmt(), base), [])];
    var d := Excess(cfg, |live|);
    Log(l.gone + live[..d], live[d..], l.pending, 0)
  }

  /** The buffer written to the newest segment, before any roll. */
  function Written(cfg: Cfg, l: Log): Log
    requires l.live != []
  {
    var last := l.Last();
    Log(l.gone, l.live[..|l.live| - 1] + [Seg(last.base, last.samples + l.pending)], [],
        l.curBytes + Size(cfg.Fmt(), |l.pending|))
  }

  predicate Full(cfg: Cfg, l: Log) {
    cfg.Segmented() && l.curBytes >= cfg.segBytes
  }

  function Flush(cfg: Cfg, l: Log): Log
    requires l.live != []
  {
    if l.pending == [] then l
    else
      var w := Written(cfg, l);
      if Full(cfg, w) then Start(cfg, w, w.Last().base) else w
  }

  /** Whether the next record needs the buffer emptied first. */
  predicate BufferFull(cfg: Cfg, l: Log) {
    Size(cfg.Fmt(), |l.pending|) + RecSize(cfg.Fmt()) > cfg.cap
  }

  function Roomy(cfg: Cfg, l: Log): Log
    requires l.live != []
  {
    if BufferFull(cfg, l) then Flush(cfg, l) else l
  }

  /** The log an append puts its record into: room made, and a new segment begun
      when the timestamp is out of range of the current base. */
  function Prepared(cfg: Cfg, l: Log, s: Sample): Log
    requires Wf(cfg, l) && cfg.Allowed()
  {
    FlushKeeps(cfg, l);
    var r := Roomy(cfg, l);
    if Fits(cfg.Fmt(), r.Last().base, s) then r else Start(cfg, Flush(cfg, r), s.ts)
  }

  function Append(cfg: Cfg, l: Log, s: Sample): (r: (Status, Log))
    requires Wf(cfg, l) && cfg.Allowed()
  {
    if cfg.cap < RecSize(cfg.Fmt()) then (NoMem, l)
    else
      var p := Prepared(cfg, l, s);
      (Ok, p.(pending := p.pending + [s]))
  }

  // What each step keeps

  lemma SegsOkConcat(fmt: Format, a: seq<Seg>, b: seq<Seg>)
    requires SegsOk(fmt, a) && SegsOk(fmt, b)
    ensures SegsOk(fmt, a + b)
  {
    hide SegOk;
  }

  lemma SegsOkSplit(fmt: Format, a: seq<Seg>, n: nat)
    requires SegsOk(fmt, a) && n <= |a|
    ensures SegsOk(fmt, a[..n]) && SegsOk(fmt, a[n..])
  {
    hide SegOk;
  }

  lemma EmptySeg(fmt: Format, g: Seg)
    requires g.samples == [] && (fmt.V1? ==> g.base == 0)
    ensures SegsOk(fmt, [g]) && Flat([g]) == []
  {
    assert [g][..0] == [];
  }

  lemma StartKeeps(cfg: Cfg, l: Log, base: u64)
    requires Wf(cfg, l) && cfg.Allowed() && l.pending == [] && cfg.Segmented()
    ensures Wf(cfg, Start(cfg, l, base))
    ensures History(Start(cfg, l, base)) == History(l)
    ensures Start(cfg, l, base).Last() == Seg(HeldBase(cfg.Fmt(), base), [])
    ensures cfg.rollover ==> |Start(cfg, l, base).live| <= cfg.maxSegs
  {
    hide Fits, SegsOk, Flat;
    var g := Seg(HeldBase(cfg.Fmt(), base), []);
    var live := l.live + [g];
    var d := Excess(cfg, |live|);
    FlatSplit(live, d);
    FlatConcat(l.gone, live[..d]);
    FlatConcat(l.live, [g]);
    EmptySeg(cfg.Fmt(), g);
    SegsOkConcat(cfg.Fmt(), l.live, [g]);
    SegsOkSplit(cfg.Fmt(), live, d);
    SegsOkConcat(cfg.Fmt(), l.gone, live[..d]);
    assert live[d..][|live[d..]| - 1] == g;
  }

  lemma SizeAdds(fmt: Format, m: nat, n: nat)
    ensures Size(fmt, m + n) == Size(fmt, m) + Size(fmt, n)
    ensures Size(fmt, 0) == 0
  {
  }

  lemma AllFitConcat(fmt: Format, base: u64, a: seq<Sample>, b: seq<Sample>)
    requires AllFit(fmt, base, a) && AllFit(fmt, base, b)
    ensures AllFit(fmt, base, a + b) && AllFit(fmt, base, [])
  {
    hide Fits;
  }

  lemma LastOk(fmt: Format, gs: seq<Seg>)
    requires SegsOk(fmt, gs) && gs != []
    ensures SegOk(fmt, gs[|gs| - 1])
  {
    hide SegOk;
  }

  lemma OneOk(fmt: Format, g: Seg)
    requires SegOk(fmt, g)
    ensures SegsOk(fmt, [g])
  {
    hide SegOk;
  }

  lemma WrittenParts(cfg: Cfg, l: Log)
    requires l.live != []
    ensures var w := Written(cfg, l);
            && w.gone == l.gone && |w.live| == |l.live| && w.pending == []
            && w.Last().base == l.Last().base
            && w.curBytes == l.curBytes + Size(cfg.Fmt(), |l.pending|)
  {
  }

  lemma WrittenKeeps(cfg: Cfg, l: Log)
    requires Wf(cfg, l)
    ensures Wf(cfg, Written(cfg, l))
    ensures History(Written(cfg, l)) == History(l)
    ensures Flat(Written(cfg, l).live) == Contents(l)
  {
    hide AllFit, Size, SegsOk;
    var a := l.live[..|l.live| - 1];
    var last := l.Last();
    var g := Seg(last.base, last.samples + l.pending);
    assert (a + [g])[..|a + [g]| - 1] == a;
    LastOk(cfg.Fmt(), l.live);
    AllFitConcat(cfg.Fmt(), last.base, last.samples, l.pending);
    SizeAdds(cfg.Fmt(), |last.samples|, |l.pending|);
    SegsOkSplit(cfg.Fmt(), l.live, |a|);
    OneOk(cfg.Fmt(), g);
    SegsOkConcat(cfg.Fmt(), a, [g]);
  }

  lemma FlushKeeps(cfg: Cfg, l: Log)
    requires Wf(cfg, l) && cfg.Allowed()
    ensures Wf(cfg, Flush(cfg, l))
    ensures History(Flush(cfg, l)) == History(l)
    ensures Flush(cfg, l).pending == []
  {
    if l.pending != [] {
      WrittenKeeps(cfg, l);
      var w := Written(cfg, l);
      if Full(cfg, w) {
        StartKeeps(cfg, w, w.Last().base);
      }
    }
  }

  /** After preparation the record fits both the buffer and the base, so an
      append of any timestamp succeeds after at most one rebase. */
  lemma PreparedFits(cfg: Cfg, l: Log, s: Sample)
    requires Wf(cfg, l) && cfg.Allowed() && RecSize(cfg.Fmt()) <= cfg.cap
    ensures Wf(cfg, Prepared(cfg, l, s))
    ensures History(Prepared(cfg, l, s)) == History(l)
    ensures Fits(cfg.Fmt(), Prepared(cfg, l, s).Last().base, s)
    ensures !BufferFull(cfg, Prepared(cfg, l, s))
  {
    FlushKeeps(cfg, l);
    var r := Roomy(cfg, l);
    if !Fits(cfg.Fmt(), r.Last().base, s) {
      FlushKeeps(cfg, r);
      StartKeeps(cfg, Flush(cfg, r), s.ts);
    }
  }

  /** An append either is refused for want of buffer and changes nothing, or it
      adds exactly its sample at the end of the history. */
  lemma AppendAdds(cfg: Cfg, l: Log, s: Sample)
    requires Wf(cfg, l) && cfg.Allowed()
    ensures Wf(cfg, Append(cfg, l, s).1)
    ensures cfg.cap < RecSize(cfg.Fmt()) ==> Append(cfg, l, s) == (NoMem, l)
    ensures RecSize(cfg.Fmt()) <= cfg.cap ==>
              Append(cfg, l, s).0 == Ok && History(Append(cfg, l, s).1) == History(l) + [s]
  {
    hide Prepared, SegsOk, Flat, Fits;
    if RecSize(cfg.Fmt()) <= cfg.cap {
      PreparedFits(cfg, l, s);
      var p := Prepared(cfg, l, s);
      assert History(p.(pending := p.pending + [s])) == History(p) + [s];
    }
  }

  /** The cases an append goes through, each step's log named. */
  lemma AppendCases(cfg: Cfg, l: Log, s: Sample)
    requires Wf(cfg, l) && cfg.Allowed()
    ensures l.live != []
    ensures RecSize(cfg.Fmt()) > cfg.cap ==> Append(cfg, l, s) == (NoMem, l)
    ensures RecSize(cfg.Fmt()) <= cfg.cap ==>
              var r, p := Roomy(cfg, l), Prepared(cfg, l, s);
              && r == (if BufferFull(cfg, l) then Flush(cfg, l) else l)
              && r.live != [] && p.live != []
              && Flush(cfg, r) == Flush(cfg, l)
              && !BufferFull(cfg, r)
              && p == (if Fits(cfg.Fmt(), r.Last().base, s) then r else Start(cfg, Flush(cfg, r), s.ts))
              && Fits(cfg.Fmt(), p.Last().base, s) && !BufferFull(cfg, p)
              && Append(cfg, l, s) == (Ok, p.(pending := p.pending + [s]))
              && (!Fits(cfg.Fmt(), r.Last().base, s) ==> cfg.Segmented())
  {
    hide Start, SegsOk, AllFit, Written, Full;
    FlushKeeps(cfg, l);
    if RecSize(cfg.Fmt()) <= cfg.cap {
      PreparedFits(cfg, l, s);
    }
  }

  // Runs

  datatype Op = DoAppend(s: Sample) | DoBatch(ss: seq<Sample>) | DoFlush | DoReopen

  /** A batch is its appends in order. */
  function AppendAll(cfg: Cfg, l: Log, ss: seq<Sample>): (r: Log)
    requires Wf(cfg, l) && cfg.Allowed()
    ensures Wf(cfg, r)
  {
    if ss == [] then l
    else
      var r := AppendAll(cfg, l, ss[..|ss| - 1]);
      AppendAdds(cfg, r, ss[|ss| - 1]);
      Append(cfg, r, ss[|ss| - 1]).1
  }

  /** Closing the last handle flushes; opening again relearns the fill level of
      the newest segment from its file. */
  function Reopen(cfg: Cfg, l: Log): Log
    requires Wf(cfg, l) && cfg.Allowed()
  {
    FlushKeeps(cfg, l);
    var f := Flush(cfg, l);
    f.(curBytes := Size(cfg.Fmt(), |f.Last().samples|))
  }

  function Step(cfg: Cfg, l: Log, op: Op): Log
    requires Wf(cfg, l) && cfg.Allowed()
  {
    match op
    case DoAppend(s) => Append(cfg, l, s).1
    case DoBatch(ss) => AppendAll(cfg, l, ss)
    case DoFlush => Flush(cfg, l)
    case DoReopen => Reopen(cfg, l)
  }

  /** The samples an operation reports as accepted. */
  function Accepted(cfg: Cfg, op: Op): seq<Sample> {
    if cfg.cap < RecSize(cfg.Fmt()) then []
    else match op
      case DoAppend(s) => [s]
      case DoBatch(ss) => ss
      case DoFlush => []
      case DoReopen => []
  }

  function AllAccepted(cfg: Cfg, ops: seq<Op>): seq<Sample> {
    if ops == [] then [] else AllAccepted(cfg, ops[..|ops| - 1]) + Accepted(cfg, ops[|ops| - 1])
  }

  function Run(cfg: Cfg, l: Log, ops: seq<Op>): (r: Log)
    requires Wf(cfg, l) && cfg.Allowed()
    ensures Wf(cfg, r)
  {
    if ops == [] then l
    else
      var r := Run(cfg, l, ops[..|ops| - 1]);
      StepKeeps(cfg, r, ops[|ops| - 1]);
      Step(cfg, r, ops[|ops| - 1])
  }

  lemma {:induction false} AppendAllAdds(cfg: Cfg, l: Log, ss: seq<Sample>)
    requires Wf(cfg, l) && cfg.Allowed()
    ensures cfg.cap < RecSize(cfg.Fmt()) ==> AppendAll(cfg, l, ss) == l
    ensures RecSize(cfg.Fmt()) <= cfg.cap ==> History(AppendAll(cfg, l, ss)) == History(l) + ss
    decreases |ss|
  {
    hide Append, History, Wf;
    if ss != [] {
      var n := |ss| - 1;
      AppendAllAdds(cfg, l, ss[..n]);
      AppendAdds(cfg, AppendAll(cfg, l, ss[..n]), ss[n]);
    }
  }

  lemma StepKeeps(cfg: Cfg, l: Log, op: Op)
    requires Wf(cfg, l) && cfg.Allowed()
    ensures Wf(cfg, Step(cfg, l, op))
    ensures History(Step(cfg, l, op)) == History(l) + Accepted(cfg, op)
  {
    match op {
      case DoAppend(s) => AppendAdds(cfg, l, s);
      case DoBatch(ss) => AppendAllAdds(cfg, l, ss);
      case DoFlush => FlushKeeps(cfg, l);
      case DoReopen => FlushKeeps(cfg, l);
    }
  }

  /** Over every run of appends, batches, flushes, rolls, rebases and reopens, the
      stored segments followed by the buffer are exactly a suffix of everything
      accepted; what is missing is exactly the whole discarded segments, and
      without rollover nothing is missing. */
  lemma {:induction false} RunHoldsSuffix(cfg: Cfg, ops: seq<Op>)
    requires cfg.Allowed()
    ensures Wf(cfg, InitLog())
    ensures AllAccepted(cfg, ops) == Flat(Run(cfg, InitLog(), ops).gone) + Contents(Run(cfg, InitLog(), ops))
    ensures !cfg.rollover ==> Contents(Run(cfg, InitLog(), ops)) == AllAccepted(cfg, ops)
    decreases |ops|
  {
    hide Step;
    if ops == [] {
      assert Flat([Seg(0, [])]) == [];
    } else {
      RunHoldsSuffix(cfg, ops[..|ops| - 1]);
      StepKeeps(cfg, Run(cfg, InitLog(), ops[..|ops| - 1]), ops[|ops| - 1]);
    }
  }

  // When segments are sealed

  /** Every segment there ever was, oldest first. */
  function AllSegs(l: Log): seq<Seg> {
    l.gone + l.live
  }

  /** A compact record reaches 2^32 - 1 past its base, a self-describing one anywhere. */
  predicate Reaches(cfg: Cfg, base: u64, ts: u64) {
    cfg.delta ==> base <= ts <= base + 0xFFFF_FFFF
  }

  /** A bounded stream holds no fewer segments than it must. */
  predicate Trimmed(cfg: Cfg, l: Log) {
    |l.live| == if cfg.rollover && |AllSegs(l)| > cfg.maxSegs then cfg.maxSegs else |AllSegs(l)|
  }

  lemma StartExact(cfg: Cfg, l: Log, base: u64)
    requires cfg.Allowed()
    ensures var r := Start(cfg, l, base);
            && AllSegs(r) == AllSegs(l) + [Seg(if cfg.delta then base else 0, [])]
            && r.pending == l.pending && r.curBytes == 0
            && (Trimmed(cfg, l) ==> Trimmed(cfg, r))
            && (cfg.rollover && |l.live| >= cfg.maxSegs ==> |r.live| == cfg.maxSegs)
            && (!cfg.rollover || |l.live| < cfg.maxSegs ==> r.gone == l.gone)
  {
  }

  /** A flush puts the buffer at the end of the newest segment. It begins a segment
      with the same base if and only if it wrote something to a segmented stream and
      the newest segment has reached its size; segments are discarded only past the
      bound. */
  lemma FlushExact(cfg: Cfg, l: Log)
    requires Wf(cfg, l) && cfg.Allowed()
    ensures var r, last := Flush(cfg, l), l.live[|l.live| - 1];
            var bytes := l.curBytes + Size(cfg.Fmt(), |l.pending|);
            var rolls := cfg.Segmented() && l.pending != [] && bytes >= cfg.segBytes;
            && AllSegs(r) == AllSegs(l)[..|AllSegs(l)| - 1] + [Seg(last.base, last.samples + l.pending)]
                              + (if rolls then [Seg(last.base, [])] else [])
            && |AllSegs(r)| == |AllSegs(l)| + (if rolls then 1 else 0)
            && r.curBytes == (if rolls then 0 else bytes)
            && (Trimmed(cfg, l) ==> Trimmed(cfg, r))
            && (cfg.rollover && rolls && |l.live| >= cfg.maxSegs ==> |r.live| == cfg.maxSegs)
            && (!rolls || !cfg.rollover || |l.live| < cfg.maxSegs ==> r.gone == l.gone)
  {
    hide SegsOk, AllFit, Start, Written, Trimmed, AllSegs;
    var last := l.live[|l.live| - 1];
    WrittenExact(cfg, l);
    LastOk(cfg.Fmt(), l.live);
    if l.pending != [] {
      StartExact(cfg, Written(cfg, l), last.base);
    }
  }

  lemma WrittenExact(cfg: Cfg, l: Log)
    requires Wf(cfg, l)
    ensures var w, last := Written(cfg, l), l.live[|l.live| - 1];
            var after := AllSegs(l)[..|AllSegs(l)| - 1] + [Seg(last.base, last.samples + l.pending)];
            && AllSegs(w) == after == after + [] && |AllSegs(w)| == |AllSegs(l)| && |w.live| == |l.live|
            && w.gone == l.gone && w.curBytes == l.curBytes + Size(cfg.Fmt(), |l.pending|)
            && w.live != [] && w.Last().base == last.base && (Trimmed(cfg, l) ==> Trimmed(cfg, w))
            && (l.pending == [] ==> AllSegs(l) == after)
  {
    hide SegsOk, AllFit;
    var last := l.live[|l.live| - 1];
    var front := AllSegs(l)[..|AllSegs(l)| - 1];
    assert front == l.gone + l.live[..|l.live| - 1];
    assert AllSegs(l) == front + [last];
    if l.pending == [] {
      assert Seg(last.base, last.samples + []) == last;
    }
  }

  /** An append that has room and reach changes the buffer only; without room it
      flushes first; without reach it flushes and begins a segment whose base is the
      sample's own timestamp. */
  lemma AppendExact(cfg: Cfg, l: Log, s: Sample)
    requires Wf(cfg, l) && cfg.Allowed() && RecSize(cfg.Fmt()) <= cfg.cap
    ensures var r, f := Append(cfg, l, s).1, Flush(cfg, l);
            if !Reaches(cfg, l.live[|l.live| - 1].base, s.ts) then
              && AllSegs(r) == AllSegs(f) + [Seg(s.ts, [])] && r.pending == [s] && r.curBytes == 0
              && (Trimmed(cfg, l) ==> Trimmed(cfg, r))
            else if Size(cfg.Fmt(), |l.pending|) + RecSize(cfg.Fmt()) > cfg.cap then
              r == f.(pending := [s])
            else
              r == l.(pending := l.pending + [s])
  {
    hide SegsOk, AllFit, Flush, Start;
    AppendCases(cfg, l, s);
    FlushKeeps(cfg, l);
    FlushExact(cfg, l);
    LastStays(cfg, l);
    StartExact(cfg, Flush(cfg, l), s.ts);
  }

  /** A flush keeps the base. */
  lemma LastStays(cfg: Cfg, l: Log)
    requires Wf(cfg, l) && cfg.Allowed()
    ensures Flush(cfg, l).live != [] && Flush(cfg, l).Last().base == l.Last().base
  {
    hide SegsOk, AllFit, Flush;
    FlushKeeps(cfg, l);
    FlushExact(cfg, l);
    var r := Flush(cfg, l);
    assert AllSegs(r)[|AllSegs(r)| - 1] == r.live[|r.live| - 1];
  }

  /** In a crash-free run of a segmented stream no segment outgrows its size by a
      whole buffer, the newest is not yet full, a sealed one is full or its base does
      not reach the next one's, and no segment is discarded early. */
  predicate Tight(cfg: Cfg, l: Log) {
    && l.live != []
    && l.curBytes == Size(cfg.Fmt(), |l.Last().samples|) < cfg.segBytes
    && Size(cfg.Fmt(), |l.pending|) <= cfg.cap
    && Trimmed(cfg, l)
    && Sealed(cfg, AllSegs(l))
  }

  predicate Sealed(cfg: Cfg, gs: seq<Seg>) {
    && (forall i :: 0 <= i < |gs| ==> Size(cfg.Fmt(), |gs[i].samples|) < cfg.segBytes + cfg.cap)
    && (forall i :: 0 <= i < |gs| - 1 ==>
          cfg.segBytes <= Size(cfg.Fmt(), |gs[i].samples|) || !Reaches(cfg, gs[i].base, gs[i + 1].base))
  }

  lemma SealedSnoc(cfg: Cfg, gs: seq<Seg>, g: Seg)
    requires gs != [] && Sealed(cfg, gs) && Size(cfg.Fmt(), |g.samples|) < cfg.segBytes + cfg.cap
    requires var last := gs[|gs| - 1];
             cfg.segBytes <= Size(cfg.Fmt(), |last.samples|) || !Reaches(cfg, last.base, g.base)
    ensures Sealed(cfg, gs + [g])
  {
  }

  /** The newest segment may take more samples. */
  lemma SealedLast(cfg: Cfg, gs: seq<Seg>, g: Seg)
    requires gs != [] && Sealed(cfg, gs) && Size(cfg.Fmt(), |g.samples|) < cfg.segBytes + cfg.cap
    requires g.base == gs[|gs| - 1].base
    ensures Sealed(cfg, gs[..|gs| - 1] + [g])
  {
  }

  lemma FlushTight(cfg: Cfg, l: Log)
    requires cfg.Allowed() && cfg.Segmented() && Wf(cfg, l) && Tight(cfg, l)
    ensures Tight(cfg, Flush(cfg, l))
  {
    hide AllFit, SegsOk, Flush, Sealed;
    FlushKeeps(cfg, l);
    FlushExact(cfg, l);
    var r, last, all := Flush(cfg, l), l.Last(), AllSegs(l);
    var g := Seg(last.base, last.samples + l.pending);
    SizeAdds(cfg.Fmt(), |last.samples|, |l.pending|);
    assert all[|all| - 1] == last && AllSegs(r)[|AllSegs(r)| - 1] == r.Last();
    SealedLast(cfg, all, g);
    var next := all[..|all| - 1] + [g];
    if Size(cfg.Fmt(), |g.samples|) >= cfg.segBytes {
      SealedSnoc(cfg, next, Seg(last.base, []));
    } else {
      assert next + [] == next;
    }
  }

  lemma AppendTight(cfg: Cfg, l: Log, s: Sample)
    requires cfg.Allowed() && cfg.Segmented() && Wf(cfg, l) && Tight(cfg, l)
    ensures Tight(cfg, Append(cfg, l, s).1)
  {
    hide Sealed, SegsOk, AllFit, Flush, Append, Start, Prepared, Roomy, Reopen;
    AppendCases(cfg, l, s);
    if RecSize(cfg.Fmt()) <= cfg.cap {
      FlushTight(cfg, l);
      FlushKeeps(cfg, l);
      LastStays(cfg, l);
      AppendExact(cfg, l, s);
      var r, f := Append(cfg, l, s).1, Flush(cfg, l);
      if !Reaches(cfg, l.Last().base, s.ts) {
        assert AllSegs(f)[|AllSegs(f)| - 1] == f.Last() && AllSegs(r)[|AllSegs(r)| - 1] == r.Last();
        SealedSnoc(cfg, AllSegs(f), Seg(s.ts, []));
      }
    }
  }

  lemma {:induction false} AppendAllTight(cfg: Cfg, l: Log, ss: seq<Sample>)
    requires cfg.Allowed() && cfg.Segmented() && Wf(cfg, l) && Tight(cfg, l)
    ensures Tight(cfg, AppendAll(cfg, l, ss))
    decreases |ss|
  {
    hide Append, Tight;
    if ss != [] {
      var n := |ss| - 1;
      AppendAllTight(cfg, l, ss[..n]);
      AppendTight(cfg, AppendAll(cfg, l, ss[..n]), ss[n]);
    }
  }

  lemma {:induction false} RunTight(cfg: Cfg, ops: seq<Op>)
    requires cfg.Allowed() && cfg.Segmented()
    ensures Tight(cfg, Run(cfg, InitLog(), ops))
    decreases |ops|
  {
    if ops != [] {
      hide Tight, Flush, Append;
      RunTight(cfg, ops[..|ops| - 1]);
      var r := Run(cfg, InitLog(), ops[..|ops| - 1]);
      match ops[|ops| - 1] {
        case DoAppend(s) => AppendTight(cfg, r, s);
        case DoBatch(ss) => AppendAllTight(cfg, r, ss);
        case DoFlush => FlushTight(cfg, r);
        case DoReopen =>
          FlushTight(cfg, r);
          ReopenTight(cfg, r);
      }
    }
  }

  lemma ReopenTight(cfg: Cfg, l: Log)
    requires cfg.Allowed() && Wf(cfg, l) && Tight(cfg, Flush(cfg, l))
    ensures Reopen(cfg, l) == Flush(cfg, l)
  {
    hide SegsOk, AllFit, Flush, Sealed;
  }

  lemma {:induction false} FullSegmentsHold(gs: seq<Seg>, b: nat)
    requires forall i :: 0 <= i < |gs| ==> b <= Size(V1, |gs[i].samples|)
    ensures |gs| * b <= Size(V1, |Flat(gs)|)
    decreases |gs|
  {
    if gs != [] {
      FullSegmentsHold(gs[..|gs| - 1], b);
      assert |gs| * b == (|gs| - 1) * b + b;
    }
  }

  /** Retention, in every crash-free run of a segmented stream of either format: no
      segment ever exceeds its size by a whole buffer, the newest has not reached it,
      and a bounded stream that has discarded anything still has maxSegs segments;
      with self-describing records these hold the newest (maxSegs - 1) * segBytes
      bytes of records. */
  lemma RetentionBounds(cfg: Cfg, ops: seq<Op>)
    requires cfg.Allowed() && cfg.Segmented()
    ensures var l := Run(cfg, InitLog(), ops);
            && (forall i :: 0 <= i < |l.live| ==>
                  Size(cfg.Fmt(), |l.live[i].samples|) <= cfg.segBytes + cfg.cap - 1)
            && l.curBytes < cfg.segBytes
            && (cfg.rollover ==> |l.live| <= cfg.maxSegs)
            && (l.gone != [] ==> cfg.rollover && |l.live| == cfg.maxSegs)
            && (l.gone != [] && !cfg.delta ==> (cfg.maxSegs - 1) * cfg.segBytes <= Size(V1, |Contents(l)|))
  {
    hide Run;
    RunTight(cfg, ops);
    TightBounds(cfg, Run(cfg, InitLog(), ops));
  }

  lemma TightBounds(cfg: Cfg, l: Log)
    requires cfg.Allowed() && cfg.Segmented() && Wf(cfg, l) && Tight(cfg, l)
    ensures forall i :: 0 <= i < |l.live| ==> Size(cfg.Fmt(), |l.live[i].samples|) <= cfg.segBytes + cfg.cap - 1
    ensures l.curBytes < cfg.segBytes && (cfg.rollover ==> |l.live| <= cfg.maxSegs)
    ensures l.gone != [] ==> cfg.rollover && |l.live| == cfg.maxSegs
    ensures l.gone != [] && !cfg.delta ==> (cfg.maxSegs - 1) * cfg.segBytes <= Size(V1, |Contents(l)|)
  {
    hide Flat, SegsOk, AllFit, Sealed;
    SealedLive(cfg, l.gone, l.live);
    if l.gone != [] && !cfg.delta {
      var sealed := l.live[..|l.live| - 1];
      FullSegmentsHold(sealed, cfg.segBytes);
      FlatSplit(l.live, |sealed|);
      assert (cfg.maxSegs - 1) * cfg.segBytes == |sealed| * cfg.segBytes;
    }
  }

  lemma SealedLive(cfg: Cfg, gone: seq<Seg>, live: seq<Seg>)
    requires live != [] && Sealed(cfg, gone + live)
    ensures forall i :: 0 <= i < |live| ==> Size(cfg.Fmt(), |live[i].samples|) < cfg.segBytes + cfg.cap
    ensures var sealed := live[..|live| - 1];
            !cfg.delta ==> forall i :: 0 <= i < |sealed| ==> cfg.segBytes <= Size(V1, |sealed[i].samples|)
  {
    var all, n, sealed := gone + live, |gone|, live[..|live| - 1];
    forall i | 0 <= i < |live|
      ensures Size(cfg.Fmt(), |live[i].samples|) < cfg.segBytes + cfg.cap
    {
      assert all[n + i] == live[i];
    }
    if !cfg.delta {
      forall i | 0 <= i < |sealed|
        ensures cfg.segBytes <= Size(V1, |sealed[i].samples|)
      {
        assert all[n + i] == sealed[i] && n + i < |all| - 1;
        assert Reaches(cfg, all[n + i].base, all[n + i + 1].base);
      }
    }
  }
}
