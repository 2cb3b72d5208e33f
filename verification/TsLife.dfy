/** The life of a stream: operations, crashes at any point of them, and restarts, any
    number of times. */
module TsLife {
  import opened Bytes
  import opened TsRecord
  import opened TsLog
  import opened TsFiles
  import opened TsStream

  /** An operation that returned, or one during or right after which power failed,
      followed by a restart. */
  datatype Event = Did(op: Op) | Crashed(op: Op)

  function Given(op: Op): seq<Sample> {
    match op
    case DoAppend(s) => [s]
    case DoBatch(ss) => ss
    case _ => []
  }

  /** The logs an operation passes through when files are written: some of its samples
      appended, and perhaps flushed. */
  predicate Passes(cfg: Cfg, l: Log, op: Op, i: nat, m: Log)
    requires Wf(cfg, l) && cfg.Allowed()
  {
    && i <= |Given(op)|
    && var a := AppendAll(cfg, l, Given(op)[..i]);
    m == a || m == TsLog.Flush(cfg, a)
  }

  ghost predicate Next(cfg: Cfg, l: Log, e: Event, r: Log)
    requires Wf(cfg, l) && cfg.Allowed()
  {
    match e
    case Did(op) => r == Step(cfg, l, op)
    case Crashed(op) =>
      exists i: nat, m, drop: nat, kept: nat :: Passes(cfg, l, op, i, m) && Survives(cfg, m, r, drop, kept)
  }

  /** The logs of a life, in order. */
  ghost predicate IsLife(cfg: Cfg, ls: seq<Log>, es: seq<Event>) {
    && cfg.Allowed() && |ls| == |es| + 1
    && (forall i :: 0 <= i < |ls| ==> Wf(cfg, ls[i]))
    && forall i :: 0 <= i < |es| ==> Next(cfg, ls[i], es[i], ls[i + 1])
  }

  /** All samples that are in files, or were in files now discarded. */
  function Stored(l: Log): seq<Sample> {
    Flat(l.gone) + Flat(l.live)
  }

  lemma StoredIs(l: Log)
    ensures History(l) == Stored(l) + l.pending && Stored(l) == History(l)[..|History(l)| - |l.pending|]
  {
    hide Flat;
    assert Flat(l.gone) + (Flat(l.live) + l.pending) == Stored(l) + l.pending;
  }

  // ------------------------------------------------------------ one event

  /** No more is buffered than was, and what was given. */
  lemma AppendBuffers(cfg: Cfg, l: Log, s: Sample)
    requires Wf(cfg, l) && cfg.Allowed()
    ensures |TsLog.Append(cfg, l, s).1.pending|
         <= |l.pending| + if cfg.cap < RecSize(cfg.Fmt()) then 0 else 1
  {
    FlushKeeps(cfg, l);
  }

  lemma {:induction false} BatchBuffers(cfg: Cfg, l: Log, ss: seq<Sample>)
    requires Wf(cfg, l) && cfg.Allowed()
    ensures |AppendAll(cfg, l, ss).pending| <= |l.pending| + if cfg.cap < RecSize(cfg.Fmt()) then 0 else |ss|
    decreases |ss|
  {
    hide TsLog.Append, Wf;
    if ss != [] {
      var n := |ss| - 1;
      BatchBuffers(cfg, l, ss[..n]);
      AppendBuffers(cfg, AppendAll(cfg, l, ss[..n]), ss[n]);
    }
  }

  /** When the history grows by no less than the buffer, what was stored stays so. */
  lemma StoredGrows(l: Log, r: Log, more: seq<Sample>)
    requires History(r) == History(l) + more && |r.pending| <= |l.pending| + |more|
    ensures Stored(l) <= Stored(r)
  {
    hide History, Stored;
    StoredIs(l);
    StoredIs(r);
  }

  lemma StepStores(cfg: Cfg, l: Log, op: Op)
    requires Wf(cfg, l) && cfg.Allowed()
    ensures Stored(l) <= Stored(Step(cfg, l, op))
  {
    hide History, Stored, TsLog.Flush, AppendAll, TsLog.Append, Wf;
    StepKeeps(cfg, l, op);
    match op {
      case DoAppend(s) => AppendBuffers(cfg, l, s);
      case DoBatch(ss) => BatchBuffers(cfg, l, ss);
      case DoFlush => FlushKeeps(cfg, l);
      case DoReopen => FlushKeeps(cfg, l);
    }
    StoredGrows(l, Step(cfg, l, op), Accepted(cfg, op));
  }

  lemma SomeLive(cfg: Cfg, l: Log)
    requires Wf(cfg, l)
    ensures l.live != []
  {
  }

  lemma PassesStores(cfg: Cfg, l: Log, op: Op, i: nat, m: Log)
    requires Wf(cfg, l) && cfg.Allowed() && Passes(cfg, l, op, i, m)
    ensures History(m) == History(l) + (if cfg.cap < RecSize(cfg.Fmt()) then [] else Given(op)[..i])
    ensures Stored(l) <= Stored(m)
  {
    hide History, Stored, TsLog.Flush, AppendAll, Wf;
    var a := AppendAll(cfg, l, Given(op)[..i]);
    AppendAllAdds(cfg, l, Given(op)[..i]);
    BatchBuffers(cfg, l, Given(op)[..i]);
    StoredGrows(l, a, if cfg.cap < RecSize(cfg.Fmt()) then [] else Given(op)[..i]);
    FlushKeeps(cfg, a);
    SomeLive(cfg, a);
    StoredGrows(a, TsLog.Flush(cfg, a), []);
  }

  lemma SurvivesStores(cfg: Cfg, m: Log, r: Log, drop: nat, kept: nat)
    requires Survives(cfg, m, r, drop, kept)
    ensures History(r) == Stored(r) == Stored(m) + m.pending[..kept] == History(m)[..|Stored(m)| + kept]
    ensures |History(r)| <= |History(m)|
  {
    hide Flat;
    FlatConcat(m.gone, m.live[..drop]);
    FlatSplit(m.live, drop);
    StoredIs(m);
  }

  /** One event: the history grows by what was given, cut in a crash, but nothing that
      was stored is ever cut. */
  lemma NextKeeps(cfg: Cfg, l: Log, e: Event, r: Log) returns (n: nat)
    requires Wf(cfg, l) && cfg.Allowed() && Next(cfg, l, e, r)
    ensures |Stored(l)| <= n <= |History(l) + Accepted(cfg, e.op)|
    ensures History(r) == (History(l) + Accepted(cfg, e.op))[..n]
    ensures e.Did? ==> n == |History(l) + Accepted(cfg, e.op)|
    ensures Stored(l) <= Stored(r)
  {
    hide History, Stored, Survives, Passes, Step, Wf;
    var all := History(l) + Accepted(cfg, e.op);
    StoredIs(l);
    match e {
      case Did(op) =>
        StepKeeps(cfg, l, op);
        StepStores(cfg, l, op);
        n := |all|;
        assert all[..n] == all;
      case Crashed(op) =>
        var i: nat, m, drop: nat, kept: nat :| Passes(cfg, l, op, i, m) && Survives(cfg, m, r, drop, kept);
        PassesStores(cfg, l, op, i, m);
        SurvivesStores(cfg, m, r, drop, kept);
        PassesBound(cfg, l, op, i, m);
        n := |History(r)|;
        PrefixOf(History(l), Given(op), i, Accepted(cfg, op), History(m), n);
    }
  }

  lemma PrefixOf(h: seq<Sample>, given: seq<Sample>, i: nat, accepted: seq<Sample>, hm: seq<Sample>, n: nat)
    requires i <= |given| && n <= |hm|
    requires (accepted == [] && hm == h + []) || (accepted == given && hm == h + given[..i])
    ensures |hm| <= |h + accepted| && hm[..n] == (h + accepted)[..n]
  {
  }

  lemma PassesBound(cfg: Cfg, l: Log, op: Op, i: nat, m: Log)
    requires Wf(cfg, l) && cfg.Allowed() && Passes(cfg, l, op, i, m)
    ensures i <= |Given(op)|
    ensures Accepted(cfg, op) == if cfg.cap < RecSize(cfg.Fmt()) then [] else Given(op)
  {
  }

  // ------------------------------------------------------------ a life

  /** a is b with some samples left out. */
  predicate Sub(a: seq<Sample>, b: seq<Sample>)
    decreases |b|
  {
    a == []
    || (b != []
        && ((a[|a| - 1] == b[|b| - 1] && Sub(a[..|a| - 1], b[..|b| - 1])) || Sub(a, b[..|b| - 1])))
  }

  lemma {:induction false} SubMore(a: seq<Sample>, b: seq<Sample>, c: seq<Sample>)
    requires Sub(a, b)
    ensures Sub(a + c, b + c)
    decreases |c|
  {
    if c == [] {
      assert a + c == a && b + c == b;
    } else {
      var d := c[..|c| - 1];
      SubMore(a, b, d);
      assert (a + c)[..|a + c| - 1] == a + d && (b + c)[..|b + c| - 1] == b + d;
    }
  }

  lemma {:induction false} SubCut(a: seq<Sample>, b: seq<Sample>, n: nat)
    requires Sub(a, b) && n <= |a|
    ensures Sub(a[..n], b)
    decreases |b|
  {
    if n == |a| {
      assert a[..n] == a;
    } else if n > 0 {
      if a[|a| - 1] == b[|b| - 1] && Sub(a[..|a| - 1], b[..|b| - 1]) {
        SubCut(a[..|a| - 1], b[..|b| - 1], n);
        assert a[..|a| - 1][..n] == a[..n];
      } else {
        SubCut(a, b[..|b| - 1], n);
      }
    }
  }

  function AllGiven(cfg: Cfg, es: seq<Event>): seq<Sample> {
    if es == [] then [] else AllGiven(cfg, es[..|es| - 1]) + Accepted(cfg, es[|es| - 1].op)
  }

  /** What the crashes put at risk: at each one, what was buffered and what the
      operation was given. */
  function AtRisk(cfg: Cfg, ls: seq<Log>, es: seq<Event>): nat
    requires |ls| == |es| + 1
    decreases |es|
  {
    if es == [] then 0
    else
      var n := |es| - 1;
      AtRisk(cfg, ls[..n + 1], es[..n])
      + if es[n].Crashed? then |ls[n].pending| + |Accepted(cfg, es[n].op)| else 0
  }

  lemma LifePart(cfg: Cfg, ls: seq<Log>, es: seq<Event>)
    requires IsLife(cfg, ls, es) && es != []
    ensures var n := |es| - 1;
            |ls| == n + 2 && ls[..n + 1][0] == ls[0] && cfg.Allowed() && IsLife(cfg, ls[..n + 1], es[..n]) && Wf(cfg, ls[n]) && Next(cfg, ls[n], es[n], ls[n + 1])
  {
    hide Next, Wf;
  }

  /** In every life, whatever was stored at one point stays the beginning of what is
      stored at every later one. */
  lemma {:induction false} LifeStores(cfg: Cfg, ls: seq<Log>, es: seq<Event>, a: nat, b: nat)
    requires IsLife(cfg, ls, es) && a <= b < |ls|
    ensures Stored(ls[a]) <= Stored(ls[b])
    decreases b
  {
    hide Next, Stored, Wf;
    if a < b {
      LifeStores(cfg, ls, es, a, b - 1);
      var n := NextKeeps(cfg, ls[b - 1], es[b - 1], ls[b]);
    }
  }

  /** The history is everything accepted with some samples left out, no more than
      what the crashes put at risk. */
  lemma {:induction false} LifeLoses(cfg: Cfg, ls: seq<Log>, es: seq<Event>)
    requires IsLife(cfg, ls, es) && ls[0] == InitLog()
    ensures Sub(History(ls[|es|]), AllGiven(cfg, es))
    ensures |AllGiven(cfg, es)| <= |History(ls[|es|])| + AtRisk(cfg, ls, es)
    decreases |es|
  {
    hide Next, Stored, Wf, History, Sub, IsLife;
    if es == [] {
      StartsEmpty();
    } else {
      var k := |es| - 1;
      LifePart(cfg, ls, es);
      LifeLoses(cfg, ls[..k + 1], es[..k]);
      var n := NextKeeps(cfg, ls[k], es[k], ls[k + 1]);
      var more := Accepted(cfg, es[k].op);
      SubMore(History(ls[k]), AllGiven(cfg, es[..k]), more);
      SubCut(History(ls[k]) + more, AllGiven(cfg, es), n);
      StoredIs(ls[k]);
    }
  }

  /** In every life, with any number of crashes: the stored segments followed by the
      buffer are the history less the whole discarded segments, none without rollover;
      the history is everything accepted with some samples left out, no more than what
      the crashes put at risk; and whatever was stored at any point is in it. */
  lemma LifeHolds(cfg: Cfg, ls: seq<Log>, es: seq<Event>)
    requires IsLife(cfg, ls, es) && ls[0] == InitLog()
    ensures var l := ls[|es|];
            && Flat(l.gone) + Contents(l) == History(l) && (!cfg.rollover ==> Contents(l) == History(l))
            && Sub(History(l), AllGiven(cfg, es))
            && |AllGiven(cfg, es)| <= |History(l)| + AtRisk(cfg, ls, es)
            && forall a :: 0 <= a < |ls| ==> Stored(ls[a]) <= History(l)
  {
    var l := ls[|es|];
    NoneLost(cfg, l);
    LifeLoses(cfg, ls, es);
    hide Next, Stored, Wf, History, Contents, Sub, Flat, AllGiven, AtRisk;
    StoredIs(l);
    forall a | 0 <= a < |ls|
      ensures Stored(ls[a]) <= History(l)
    {
      LifeStores(cfg, ls, es, a, |es|);
    }
  }

  lemma NoneLost(cfg: Cfg, l: Log)
    requires Wf(cfg, l)
    ensures Flat(l.gone) + Contents(l) == History(l)
    ensures !cfg.rollover ==> Contents(l) == History(l)
  {
  }

  lemma StartsEmpty()
    ensures History(InitLog()) == [] && Sub([], [])
  {
    assert Flat([Seg(0, [])]) == [];
  }

  // ------------------------------------------------------------ the stream lives

  /** f is what a crash may leave during or right after an operation on l. */
  ghost predicate ImageOf(step: CrcStep, cfg: Cfg, id: u32, origin: int, l: Log, op: Op, f: Files)
    requires Wf(cfg, l) && cfg.Allowed()
  {
    exists i: nat, m :: Passes(cfg, l, op, i, m) && CrashSafe(step, cfg, id, origin, m, f)
  }

  lemma FirstPasses(cfg: Cfg, l: Log, op: Op)
    requires Wf(cfg, l) && cfg.Allowed()
    ensures Passes(cfg, l, op, 0, l) && Passes(cfg, l, op, 0, TsLog.Flush(cfg, l))
  {
    hide TsLog.Flush;
    assert Given(op)[..0] == [];
  }

  lemma ImagesOf(step: CrcStep, cfg: Cfg, id: u32, origin: int, l: Log, op: Op, f: Files)
    requires Wf(cfg, l) && cfg.Allowed()
    ensures CrashSafe(step, cfg, id, origin, l, f) ==> ImageOf(step, cfg, id, origin, l, op, f)
    ensures CrashSafe(step, cfg, id, origin, TsLog.Flush(cfg, l), f) ==> ImageOf(step, cfg, id, origin, l, op, f)
  {
    hide CrashSafe, TsLog.Flush, Passes;
    FirstPasses(cfg, l, op);
  }

  lemma BatchImages(s: Stream, origin: int, l: Log, ss: seq<Sample>, f: Files)
    requires Wf(s.cfg, l) && s.cfg.Allowed() && s.SafeDuring(origin, l, ss, f)
    ensures ImageOf(s.step, s.cfg, s.id, origin, l, DoBatch(ss), f)
  {
    hide CrashSafe, TsLog.Flush, AppendAll;
    var i :| 0 <= i <= |ss| && s.SafeAt(origin, l, ss, i, f);
    var m := AppendAll(s.cfg, l, ss[..i]);
    if CrashSafe(s.step, s.cfg, s.id, origin, m, f) {
      assert Passes(s.cfg, l, DoBatch(ss), i, m);
    } else {
      assert Passes(s.cfg, l, DoBatch(ss), i, TsLog.Flush(s.cfg, m));
    }
  }

  /** An operation on a stream is that event of its life, and every crash during or
      right after it leaves an image of it. */
  method Do(s: Stream, op: Op) returns (st: Status)
    requires s.Valid() && (op.DoReopen? ==> s.cur + 2 < 10000)
    modifies s, s.buf
    ensures s.Valid() && s.cfg.Allowed() && Wf(s.cfg, old(s.log)) && s.Origin() == old(s.Origin())
    ensures Next(s.cfg, old(s.log), Did(op), s.log)
    ensures forall f :: f in s.crashes && f !in old(s.crashes) ==>
              ImageOf(s.step, s.cfg, s.id, old(s.Origin()), old(s.log), op, f)
  {
    hide CrashSafe, Wf, TsLog.Flush, TsLog.Append, AppendAll, TsLog.Reopen, ImageOf, Stream.Valid, Stream.SafeDuring;
    ghost var l, origin := s.log, s.Origin();
    s.LogFacts();
    match op {
      case DoAppend(x) =>
        var due;
        st, due := s.Append(x);
      case DoBatch(xs) =>
        st := s.AppendBatch(xs);
      case DoFlush =>
        s.Flush();
        st := Ok;
      case DoReopen =>
        st := s.Reopen();
    }
    forall f | f in s.crashes && f !in old(s.crashes)
      ensures ImageOf(s.step, s.cfg, s.id, origin, l, op, f)
    {
      ImagesOf(s.step, s.cfg, s.id, origin, l, op, f);
      if op.DoBatch? {
        BatchImages(s, origin, l, op.ss, f);
      }
    }
  }

  /** Power fails during an operation, and the stream is opened over the image left:
      unless that is unreadable, the stream goes on with its life. A crash during the
      opening leaves an image of the same operation. */
  method CrashAndRestart(step: CrcStep, cfg: Cfg, id: u32, ghost origin: int, ghost l: Log, ghost op: Op, c: Files,
                         block: array<byte>, limit: nat)
    returns (s: Stream, st: Status, ghost alive: bool)
    requires cfg.Allowed() && Wf(cfg, l) && ImageOf(step, cfg, id, origin, l, op, c)
    requires block.Length == cfg.cap && (forall k :: k in c ==> k < 10000) && (!cfg.Segmented() ==> origin == 0)
    ensures fresh(s) && s.step == step && s.cfg == cfg && s.id == id && s.buf == block
    ensures alive ==> s.Valid() && s.Origin() == origin && Next(cfg, l, Crashed(op), s.log)
    ensures !alive ==> cfg.Segmented() && st == Io
    ensures forall f :: f in s.crashes ==> ImageOf(step, cfg, id, origin, l, op, f)
  {
    hide CrashSafe, Wf, Passes, Survives, Stream.Valid;
    ghost var i: nat, m :| Passes(cfg, l, op, i, m) && CrashSafe(step, cfg, id, origin, m, c);
    PassesOk(cfg, l, op, i, m);
    ghost var w, drop, kept;
    s, st, w, drop, kept := Restart(step, cfg, id, origin, m, c, block, limit);
    alive := !w.Unreadable();
  }

  lemma PassesOk(cfg: Cfg, l: Log, op: Op, i: nat, m: Log)
    requires Wf(cfg, l) && cfg.Allowed() && Passes(cfg, l, op, i, m)
    ensures Wf(cfg, m)
  {
    hide Wf, TsLog.Flush, AppendAll;
    FlushKeeps(cfg, AppendAll(cfg, l, Given(op)[..i]));
  }
}
