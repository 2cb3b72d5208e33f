/** The table of open streams that share one instance lock, and the byte counts
    recorded under that lock and published after it is released. */
module TsCore {
  import opened Bytes
  import opened TsRecord
  import opened TsLog

  /** One entry of the stream table. Its buffered samples live in its block. */
  datatype Slot = Slot(
    inUse: bool, name: string, block: nat, openCount: nat,
    log: Log, pendingFlush: nat, pendingDiscarded: nat)

  /** A wiped entry. */
  const FREE_SLOT := Slot(false, "", 0, 0, InitLog(), 0, 0)

  datatype Event = FlushEvent(stream: string, bytes: nat) | RolloverEvent(stream: string, bytes: nat)

  function PendingFlush(ss: seq<Slot>): nat {
    if ss == [] then 0 else PendingFlush(ss[..|ss| - 1]) + ss[|ss| - 1].pendingFlush
  }

  function PendingDiscarded(ss: seq<Slot>): nat {
    if ss == [] then 0 else PendingDiscarded(ss[..|ss| - 1]) + ss[|ss| - 1].pendingDiscarded
  }

  /** Bytes of records a stream has put into segment files, and bytes of the segment
      files it has discarded. */
  datatype Totals = Totals(written: nat, dropped: nat)

  function Plus(a: Totals, b: Totals): Totals {
    Totals(a.written + b.written, a.dropped + b.dropped)
  }

  function Of(fmt: Format, l: Log): Totals {
    Totals(Size(fmt, |Flat(l.gone)| + |Flat(l.live)|), FileBytes(fmt, l.gone))
  }

  function Mine(fmt: Format, s: Slot): Totals {
    if s.inUse then Of(fmt, s.log) else Totals(0, 0)
  }

  /** The totals of the open streams. */
  function SlotTotals(fmt: Format, ss: seq<Slot>): Totals {
    if ss == [] then Totals(0, 0) else Plus(SlotTotals(fmt, ss[..|ss| - 1]), Mine(fmt, ss[|ss| - 1]))
  }

  ghost function Picked(d: map<string, Log>): (n: string)
    requires d != map[]
    ensures n in d
  {
    var n :| n in d;
    n
  }

  lemma FewerKeys(d: map<string, Log>, n: string)
    requires n in d
    ensures |d - {n}| < |d|
  {
    assert (d - {n}).Keys == d.Keys - {n};
    assert |d.Keys| == |d| && |(d - {n}).Keys| == |d - {n}|;
  }

  /** The totals of the closed streams. */
  ghost function DiskTotals(fmt: Format, d: map<string, Log>): Totals
    decreases |d|
  {
    if d == map[] then Totals(0, 0)
    else
      var n := Picked(d);
      FewerKeys(d, n);
      Plus(Of(fmt, d[n]), DiskTotals(fmt, d - {n}))
  }

  /** The totals of closed streams do not depend on the order they are summed in. */
  lemma {:induction false} DiskTake(fmt: Format, d: map<string, Log>, n: string)
    requires n in d
    ensures DiskTotals(fmt, d) == Plus(Of(fmt, d[n]), DiskTotals(fmt, d - {n}))
    decreases |d|
  {
    hide Of;
    var m := Picked(d);
    if m != n {
      FewerKeys(d, m);
      FewerKeys(d, n);
      DiskTake(fmt, d - {m}, n);
      DiskTake(fmt, d - {n}, m);
      assert d - {m} - {n} == d - {n} - {m};
    }
  }

  lemma DiskPut(fmt: Format, d: map<string, Log>, n: string, l: Log)
    requires n !in d
    ensures DiskTotals(fmt, d[n := l]) == Plus(Of(fmt, l), DiskTotals(fmt, d))
  {
    hide Of;
    DiskTake(fmt, d[n := l], n);
    assert d[n := l] - {n} == d;
  }

  lemma {:induction false} TotalsUpdate(fmt: Format, ss: seq<Slot>, i: nat, s: Slot)
    requires i < |ss|
    ensures Plus(SlotTotals(fmt, ss[i := s]), Mine(fmt, ss[i])) == Plus(SlotTotals(fmt, ss), Mine(fmt, s))
    decreases |ss|
  {
    hide Mine;
    var n := |ss| - 1;
    if i == n {
      assert ss[i := s][..n] == ss[..n];
    } else {
      TotalsUpdate(fmt, ss[..n], i, s);
      assert ss[i := s][..n] == ss[..n][i := s];
    }
  }

  lemma {:induction false} TotalsSame(fmt: Format, a: seq<Slot>, b: seq<Slot>)
    requires |a| == |b| && forall i :: 0 <= i < |a| ==> Mine(fmt, a[i]) == Mine(fmt, b[i])
    ensures SlotTotals(fmt, a) == SlotTotals(fmt, b)
    decreases |a|
  {
    hide Mine;
    if a != [] {
      TotalsSame(fmt, a[..|a| - 1], b[..|b| - 1]);
    }
  }

  lemma {:induction false} NoTotals(fmt: Format, n: nat)
    ensures SlotTotals(fmt, seq(n, _ => FREE_SLOT)) == Totals(0, 0)
  {
    if n > 0 {
      NoTotals(fmt, n - 1);
      assert seq(n, _ => FREE_SLOT)[..n - 1] == seq(n - 1, _ => FREE_SLOT);
    }
  }

  /** The totals of open and closed streams together. */
  ghost function BooksOf(fmt: Format, ss: seq<Slot>, d: map<string, Log>): Totals {
    Plus(SlotTotals(fmt, ss), DiskTotals(fmt, d))
  }

  lemma BooksEmpty(fmt: Format, n: nat)
    ensures BooksOf(fmt, seq(n, _ => FREE_SLOT), map[]) == Totals(0, 0)
  {
    NoTotals(fmt, n);
  }

  /** The totals do not depend on anything but the logs. */
  lemma BooksSame(fmt: Format, a: seq<Slot>, b: seq<Slot>, d: map<string, Log>)
    requires |a| == |b| && forall i :: 0 <= i < |a| ==> a[i].inUse == b[i].inUse && a[i].log == b[i].log
    ensures BooksOf(fmt, a, d) == BooksOf(fmt, b, d)
  {
    hide Of, DiskTotals;
    TotalsSame(fmt, a, b);
  }

  /** Changing one entry changes the books by what its stream's totals changed. */
  lemma BooksUpdated(fmt: Format, ss: seq<Slot>, d: map<string, Log>, i: nat, s: Slot)
    requires i < |ss|
    ensures Plus(BooksOf(fmt, ss[i := s], d), Mine(fmt, ss[i])) == Plus(BooksOf(fmt, ss, d), Mine(fmt, s))
  {
    hide Of, DiskTotals, SlotTotals, Mine;
    TotalsUpdate(fmt, ss, i, s);
  }

  /** Opening a closed stream moves its totals to its entry. */
  lemma BooksClaimed(fmt: Format, ss: seq<Slot>, d: map<string, Log>, i: nat, s: Slot, name: string)
    requires i < |ss| && !ss[i].inUse && s.inUse
    requires Of(fmt, s.log) == Of(fmt, if name in d then d[name] else InitLog())
    ensures BooksOf(fmt, ss[i := s], d - {name}) == BooksOf(fmt, ss, d)
  {
    hide Of, DiskTotals, SlotTotals;
    TotalsUpdate(fmt, ss, i, s);
    NothingYet(fmt);
    if name in d {
      DiskTake(fmt, d, name);
    } else {
      assert d - {name} == d;
    }
  }

  /** Wiping the entry of a stream moves its totals to storage. */
  lemma BooksReleased(fmt: Format, ss: seq<Slot>, d: map<string, Log>, i: nat, s: Slot, name: string, l: Log)
    requires i < |ss| && ss[i].inUse && !s.inUse && name !in d && Of(fmt, l) == Of(fmt, ss[i].log)
    ensures BooksOf(fmt, ss[i := s], d[name := l]) == BooksOf(fmt, ss, d)
  {
    hide Of, DiskTotals, SlotTotals;
    TotalsUpdate(fmt, ss, i, s);
    DiskPut(fmt, d, name, l);
  }

  lemma NothingYet(fmt: Format)
    ensures Of(fmt, InitLog()) == Totals(0, 0)
  {
    assert [Seg(0, [])][..0] == [];
  }

  /** A flush writes exactly the buffered records, and discards exactly the files of
      the segments that join the discarded ones. */
  lemma FlushTotals(cfg: Cfg, l: Log)
    requires Wf(cfg, l) && cfg.Allowed()
    ensures l.gone <= TsLog.Flush(cfg, l).gone
    ensures var lost := FileBytes(cfg.Fmt(), TsLog.Flush(cfg, l).gone[|l.gone|..]);
            Of(cfg.Fmt(), TsLog.Flush(cfg, l)) == Plus(Of(cfg.Fmt(), l), Totals(Size(cfg.Fmt(), |l.pending|), lost))
  {
    hide TsLog.Flush, Flat, FileBytes, SegsOk, AllFit;
    FlushKeeps(cfg, l);
    FlushIdle(cfg, l);
    GoneTotals(cfg.Fmt(), l, TsLog.Flush(cfg, l));
  }

  lemma StartTotals(cfg: Cfg, l: Log, ts: u64)
    requires Wf(cfg, l) && cfg.Allowed() && l.pending == [] && cfg.Segmented()
    ensures l.gone <= Start(cfg, l, ts).gone
    ensures var lost := FileBytes(cfg.Fmt(), Start(cfg, l, ts).gone[|l.gone|..]);
            Of(cfg.Fmt(), Start(cfg, l, ts)) == Plus(Of(cfg.Fmt(), l), Totals(0, lost))
  {
    hide Flat, FileBytes, Wf;
    StartKeeps(cfg, l, ts);
    GoneTotals(cfg.Fmt(), l, Start(cfg, l, ts));
  }

  lemma OfStored(fmt: Format, l: Log, p: seq<Sample>)
    ensures Of(fmt, l.(pending := p)) == Of(fmt, l)
  {
  }

  lemma GoneTotals(fmt: Format, l: Log, r: Log)
    requires History(r) == History(l) && l.gone <= r.gone && r.pending == []
    ensures Of(fmt, r) == Plus(Of(fmt, l), Totals(Size(fmt, |l.pending|), FileBytes(fmt, r.gone[|l.gone|..])))
  {
    hide Flat, FileBytes;
    assert |History(r)| == |History(l)|;
    assert r.gone == l.gone + r.gone[|l.gone|..];
    FileBytesConcat(fmt, l.gone, r.gone[|l.gone|..]);
  }

  /** What the entry recorded is exactly what its stream's totals grew by. */
  predicate Accounts(fmt: Format, before: Slot, after: Slot) {
    && after.pendingFlush - before.pendingFlush == Of(fmt, after.log).written - Of(fmt, before.log).written
    && after.pendingDiscarded - before.pendingDiscarded == Of(fmt, after.log).dropped - Of(fmt, before.log).dropped
  }

  /** The events a release publishes for recorded byte counts. */
  function Reports(stream: string, fl: int, di: int): seq<Event> {
    (if fl > 0 then [FlushEvent(stream, fl)] else []) + (if di > 0 then [RolloverEvent(stream, di)] else [])
  }

  /** The events that report what a stream wrote and discarded between two logs. */
  function Growth(fmt: Format, stream: string, before: Log, after: Log): seq<Event> {
    Reports(stream, Of(fmt, after).written - Of(fmt, before).written, Of(fmt, after).dropped - Of(fmt, before).dropped)
  }

  lemma GrowthIs(fmt: Format, stream: string, before: Slot, after: Slot, bl: Log, al: Log)
    requires Accounts(fmt, before, after) && !Owes(before)
    requires Of(fmt, bl) == Of(fmt, before.log) && Of(fmt, al) == Of(fmt, after.log)
    ensures Growth(fmt, stream, bl, al) == Reports(stream, after.pendingFlush, after.pendingDiscarded)
  {
    hide Of;
  }

  predicate Owes(s: Slot) {
    s.pendingFlush > 0 || s.pendingDiscarded > 0
  }

  /** The names of the entries with something to report, in table order. */
  function Owing(ss: seq<Slot>): seq<string> {
    if ss == [] then []
    else Owing(ss[..|ss| - 1]) + if Owes(ss[|ss| - 1]) then [ss[|ss| - 1].name] else []
  }

  /** The stream a report names: the only one with something to report, counting a
      stream released under the same lock, or none. */
  function Named(ss: seq<Slot>, released: bool, releasedStream: string): string {
    Sole(Owing(ss) + if released then [releasedStream] else [])
  }

  function Sole(names: seq<string>): string {
    if |names| == 1 then names[0] else ""
  }

  /** The names of the open streams that hold buffered samples, in table order. */
  function Buffered(ss: seq<Slot>, bs: seq<seq<Sample>>): seq<string> {
    if ss == [] then []
    else
      var s := ss[|ss| - 1];
      Buffered(ss[..|ss| - 1], bs) + if s.inUse && s.block < |bs| && bs[s.block] != [] then [s.name] else []
  }

  lemma BufferedStep(ss: seq<Slot>, bs: seq<seq<Sample>>, n: nat)
    requires n <= |ss|
    ensures n == 0 ==> Buffered(ss[..n], bs) == []
    ensures n > 0 ==>
              var s := ss[n - 1];
              Buffered(ss[..n], bs) == Buffered(ss[..n - 1], bs)
                                       + if s.inUse && s.block < |bs| && bs[s.block] != [] then [s.name] else []
  {
    if n > 0 {
      assert ss[..n][..n - 1] == ss[..n - 1];
    }
  }

  /** The names of the streams that discarded something between two tables. */
  function Losing(fmt: Format, a: seq<Slot>, b: seq<Slot>): seq<string>
    requires |a| == |b|
  {
    if a == [] then []
    else
      var n := |a| - 1;
      Losing(fmt, a[..n], b[..n]) + if Of(fmt, b[n].log).dropped > Of(fmt, a[n].log).dropped then [b[n].name] else []
  }

  /** What an entry recorded as discarded is what its stream's discarded files grew by. */
  predicate Loses(fmt: Format, before: Slot, after: Slot) {
    after.pendingDiscarded == Of(fmt, after.log).dropped - Of(fmt, before.log).dropped
  }

  lemma {:induction false} OwingLosing(fmt: Format, a: seq<Slot>, b: seq<Slot>)
    requires |a| == |b|
    requires forall i :: 0 <= i < |b| ==> b[i].pendingFlush == 0 && Loses(fmt, a[i], b[i])
    ensures Owing(b) == Losing(fmt, a, b)
    decreases |a|
  {
    hide Of;
    if a != [] {
      OwingLosing(fmt, a[..|a| - 1], b[..|a| - 1]);
    }
  }

  lemma {:induction false} LosingSame(fmt: Format, a: seq<Slot>, b: seq<Slot>, c: seq<Slot>)
    requires |a| == |b| == |c|
    requires forall i :: 0 <= i < |b| ==> b[i].log == c[i].log && b[i].name == c[i].name
    ensures Losing(fmt, a, b) == Losing(fmt, a, c)
    decreases |a|
  {
    hide Of;
    if a != [] {
      LosingSame(fmt, a[..|a| - 1], b[..|a| - 1], c[..|a| - 1]);
    }
  }

  /** i is the only flag that is set. */
  predicate Alone(on: seq<bool>, i: nat) {
    i < |on| && on[i] && forall j :: 0 <= j < |on| && on[j] ==> j == i
  }

  /** names lists, in order, the names of the flagged entries. */
  predicate Picks(ss: seq<Slot>, on: seq<bool>, names: seq<string>)
    requires |ss| == |on|
    decreases |on|
  {
    if on == [] then names == []
    else
      var k := |on| - 1;
      if on[k] then names != [] && names[|names| - 1] == ss[k].name && Picks(ss[..k], on[..k], names[..|names| - 1])
      else Picks(ss[..k], on[..k], names)
  }

  lemma {:induction false} PicksOne(ss: seq<Slot>, on: seq<bool>, names: seq<string>)
    requires |ss| == |on| && Picks(ss, on, names)
    ensures names == [] <==> forall i :: 0 <= i < |on| ==> !on[i]
    ensures forall i: nat :: Alone(on, i) ==> names == [ss[i].name]
    ensures |names| == 1 ==> exists i: nat :: Alone(on, i)
    decreases |on|
  {
    if on != [] {
      var k := |on| - 1;
      var front := if on[k] then names[..|names| - 1] else names;
      PicksOne(ss[..k], on[..k], front);
      assert forall i :: 0 <= i < k ==> on[..k][i] == on[i] && ss[..k][i] == ss[i];
      if on[k] {
        assert names == front + [ss[k].name];
        if front == [] {
          assert Alone(on, k);
        }
      } else if |names| == 1 {
        var i: nat :| Alone(on[..k], i);
        assert Alone(on, i);
      }
      forall i: nat | Alone(on, i)
        ensures names == [ss[i].name]
      {
        if i < k {
          assert Alone(on[..k], i);
        }
      }
    }
  }

  /** A report that covers several streams names the one it concerns when there is
      exactly one, and none otherwise. */
  lemma SoleIs(ss: seq<Slot>, on: seq<bool>, names: seq<string>)
    requires |ss| == |on| && Picks(ss, on, names)
    ensures forall i: nat :: Alone(on, i) ==> Sole(names) == ss[i].name
    ensures (forall i: nat :: !Alone(on, i)) ==> Sole(names) == ""
  {
    hide Picks;
    PicksOne(ss, on, names);
  }

  /** The FLUSH of a drain is named after the one stream that held samples, and not
      named when there was none or more than one. */
  lemma {:induction false} FlushName(ss: seq<Slot>, bs: seq<seq<Sample>>, on: seq<bool>)
    requires |ss| == |on|
    requires forall i :: 0 <= i < |on| ==> (on[i] <==> ss[i].inUse && ss[i].block < |bs| && bs[ss[i].block] != [])
    ensures Picks(ss, on, Buffered(ss, bs))
    ensures forall i: nat :: Alone(on, i) ==> Sole(Buffered(ss, bs)) == ss[i].name
    ensures (forall i: nat :: !Alone(on, i)) ==> Sole(Buffered(ss, bs)) == ""
    decreases |ss|
  {
    if ss != [] {
      var k := |ss| - 1;
      FlushName(ss[..k], bs, on[..k]);
      if on[k] {
        assert Buffered(ss, bs)[..|Buffered(ss, bs)| - 1] == Buffered(ss[..k], bs);
      } else {
        assert Buffered(ss, bs) == Buffered(ss[..k], bs);
      }
    }
    SoleIs(ss, on, Buffered(ss, bs));
  }

  /** Its ROLLOVER is named after the one stream that discarded segments, likewise. */
  lemma {:induction false} RolloverName(fmt: Format, a: seq<Slot>, b: seq<Slot>, on: seq<bool>)
    requires |a| == |b| == |on|
    requires forall i :: 0 <= i < |on| ==> (on[i] <==> Of(fmt, b[i].log).dropped > Of(fmt, a[i].log).dropped)
    ensures Picks(b, on, Losing(fmt, a, b))
    ensures forall i: nat :: Alone(on, i) ==> Sole(Losing(fmt, a, b)) == b[i].name
    ensures (forall i: nat :: !Alone(on, i)) ==> Sole(Losing(fmt, a, b)) == ""
    decreases |a|
  {
    hide Of;
    if a != [] {
      var k := |a| - 1;
      RolloverName(fmt, a[..k], b[..k], on[..k]);
      if on[k] {
        assert Losing(fmt, a, b)[..|Losing(fmt, a, b)| - 1] == Losing(fmt, a[..k], b[..k]);
      } else {
        assert Losing(fmt, a, b) == Losing(fmt, a[..k], b[..k]);
      }
    }
    SoleIs(b, on, Losing(fmt, a, b));
  }

  function Cleared(s: Slot): Slot {
    s.(pendingFlush := 0, pendingDiscarded := 0)
  }

  function FlushReported(es: seq<Event>): nat {
    if es == [] then 0
    else FlushReported(es[..|es| - 1]) + if es[|es| - 1].FlushEvent? then es[|es| - 1].bytes else 0
  }

  function RolloverReported(es: seq<Event>): nat {
    if es == [] then 0
    else RolloverReported(es[..|es| - 1]) + if es[|es| - 1].RolloverEvent? then es[|es| - 1].bytes else 0
  }

  lemma ReportSnoc(es: seq<Event>, e: Event)
    ensures FlushReported(es + [e]) == FlushReported(es) + if e.FlushEvent? then e.bytes else 0
    ensures RolloverReported(es + [e]) == RolloverReported(es) + if e.RolloverEvent? then e.bytes else 0
  {
    assert (es + [e])[..|es|] == es;
  }

  /** Changing one entry changes the totals by that entry's difference. */
  lemma {:induction false} PendingUpdate(ss: seq<Slot>, i: nat, s: Slot)
    requires i < |ss|
    ensures PendingFlush(ss[i := s]) == PendingFlush(ss) - ss[i].pendingFlush + s.pendingFlush
    ensures PendingDiscarded(ss[i := s]) == PendingDiscarded(ss) - ss[i].pendingDiscarded + s.pendingDiscarded
    decreases |ss|
  {
    var n := |ss| - 1;
    if i == n {
      assert ss[i := s][..n] == ss[..n];
    } else {
      PendingUpdate(ss[..n], i, s);
      assert ss[i := s][..n] == ss[..n][i := s];
    }
  }

  lemma {:induction false} NothingPending(ss: seq<Slot>)
    requires forall i :: 0 <= i < |ss| ==> !Owes(ss[i])
    ensures PendingFlush(ss) == 0 && PendingDiscarded(ss) == 0 && Owing(ss) == []
    decreases |ss|
  {
    if ss != [] {
      NothingPending(ss[..|ss| - 1]);
    }
  }

  lemma {:induction false} AllPendingZero(ss: seq<Slot>)
    ensures PendingFlush(ss) == 0 ==> forall i :: 0 <= i < |ss| ==> ss[i].pendingFlush == 0
    ensures PendingDiscarded(ss) == 0 ==> forall i :: 0 <= i < |ss| ==> ss[i].pendingDiscarded == 0
    decreases |ss|
  {
    if ss != [] {
      var n := |ss| - 1;
      AllPendingZero(ss[..n]);
      assert forall i :: 0 <= i < n ==> ss[..n][i] == ss[i];
    }
  }

  /** The 8-bit count of claims saturates. */
  function Counted(n: nat): nat {
    if n < 255 then n + 1 else n
  }

  /** What callers do with one stream: an open that claimed the entry and returned a
      handle, an open whose recovery failed after the claim, and closes of either. */
  datatype Use = Opened | OpenFailed | Closed | FailedClosed

  function Last(run: seq<Use>): Use
    requires run != []
  {
    run[|run| - 1]
  }

  function Front(run: seq<Use>): seq<Use>
    requires run != []
  {
    run[..|run| - 1]
  }

  /** A handle is closed once. */
  predicate IsRun(run: seq<Use>) {
    run == []
    || (IsRun(Front(run)) && (Last(run).Closed? ==> Handles(Front(run)) > 0)
        && (Last(run).FailedClosed? ==> Failures(Front(run)) > 0))
  }

  /** The handles that are live after a run. */
  function Handles(run: seq<Use>): int {
    if run == [] then 0
    else Handles(Front(run)) + match Last(run) case Opened => 1 case Closed => -1 case _ => 0
  }

  /** The opens that failed and were not closed all the same. */
  function Failures(run: seq<Use>): int {
    if run == [] then 0
    else Failures(Front(run)) + match Last(run) case OpenFailed => 1 case FailedClosed => -1 case _ => 0
  }

  /** What the entry of the stream counts after a run; at 0 it is wiped. A failed open
      keeps its claim. */
  function Count(run: seq<Use>): nat {
    if run == [] then 0
    else
      var n := Count(Front(run));
      if Last(run).Opened? || Last(run).OpenFailed? then Counted(n) else if n > 0 then n - 1 else 0
  }

  /** The count was the number of live handles after every step of a run. */
  predicate CountsRight(run: seq<Use>) {
    run == [] || (CountsRight(Front(run)) && Count(run) == Handles(run))
  }

  /** No more than 255 handles were ever live, no open failed but while 255 were, and
      no failed one was closed but while none was. */
  predicate Harmless(run: seq<Use>) {
    run == []
    || (Harmless(Front(run))
        && match Last(run)
           case Opened => Handles(Front(run)) < 255
           case OpenFailed => Handles(Front(run)) == 255
           case Closed => true
           case FailedClosed => Handles(Front(run)) == 0)
  }

  /** The count is right all through a run if and only if no more than 255 handles are
      ever live and no failed open is counted. */
  lemma {:induction false} CountExact(run: seq<Use>)
    requires IsRun(run)
    ensures CountsRight(run) <==> Harmless(run)
    ensures Count(run) <= 255 && Handles(run) >= 0
    ensures Harmless(run) ==> Count(run) == Handles(run)
  {
    if run != [] {
      CountExact(Front(run));
    }
  }

  /** One open that fails leaves a count of 1 with no live handle; after one more
      open and its close it is still 1. */
  lemma FailureCounts()
    ensures IsRun([OpenFailed]) && Count([OpenFailed]) == 1 && Handles([OpenFailed]) == 0
    ensures var run := [OpenFailed, Opened, Closed]; IsRun(run) && Count(run) == 1 && Handles(run) == 0
  {
    var run := [OpenFailed, Opened, Closed];
    assert Front(run) == [OpenFailed, Opened] && Front([OpenFailed, Opened]) == [OpenFailed];
    assert Front([OpenFailed]) == [];
  }

  /** The blocks of an untouched slab of k. */
  function AllBlocks(k: nat): (r: set<nat>)
    ensures |r| == k && forall b: nat :: b in r <==> b < k
  {
    if k == 0 then {} else AllBlocks(k - 1) + {k - 1}
  }

  /** The entry an open stream occupies. */
  predicate Holder(ss: seq<Slot>, name: string, i: nat) {
    i < |ss| && ss[i].inUse && ss[i].name == name
  }

  class Core {
    const cfg: Cfg
    const slots: array<Slot>
    /** The ingest slab: what each block holds. */
    const blocks: array<seq<Sample>>
    var free: set<nat>
    /** The stored log of each stream that is closed. */
    var disk: map<string, Log>
    var releasedFlush: nat
    var releasedDiscarded: nat
    var releasedStream: string
    var locked: bool
    var events: seq<Event>
    /** Claims on each open stream, as far as they are counted; bytes a drain has
        yet to report. */
    ghost var claims: map<string, nat>
    ghost var inHand: nat

    /** A table of n wiped entries over a slab of k free blocks. */
    constructor (cfg: Cfg, n: nat, k: nat)
      requires cfg.Allowed()
      ensures Idle() && fresh(slots) && fresh(blocks) && this.cfg == cfg
      ensures slots.Length == n && blocks.Length == k && |free| == k
      ensures claims == map[] && disk == map[] && events == []
      ensures forall i :: 0 <= i < n ==> slots[i] == FREE_SLOT
    {
      hide Idle;
      this.cfg := cfg;
      slots := new Slot[n](_ => FREE_SLOT);
      blocks := new seq<Sample>[k](_ => []);
      free := AllBlocks(k);
      disk, claims := map[], map[];
      releasedFlush, releasedDiscarded, releasedStream, locked, events := 0, 0, "", false, [];
      inHand := 0;
      new;
      assert slots[..] == seq(n, _ => FREE_SLOT);
      EmptyIdle();
    }

    lemma EmptyIdle()
      requires cfg.Allowed() && slots[..] == seq(slots.Length, _ => FREE_SLOT)
      requires forall b :: b in free <==> 0 <= b < blocks.Length
      requires claims == map[] && disk == map[] && events == [] && !locked
      requires releasedFlush == 0 && releasedDiscarded == 0 && inHand == 0
      ensures Idle()
    {
      hide BooksOf, PendingFlush, PendingDiscarded, Owing, Wf;
      assert forall i :: 0 <= i < slots.Length ==> slots[i] == slots[..][i] == FREE_SLOT;
      NothingPending(slots[..]);
      BooksEmpty(cfg.Fmt(), slots.Length);
    }

    /** The full log of an open stream: its stored part and its block. */
    function LogOf(i: nat): Log
      requires i < slots.Length && slots[i].block < blocks.Length
      reads slots, blocks
    {
      slots[i].log.(pending := blocks[slots[i].block])
    }

    ghost predicate SlotOk(i: nat)
      requires i < slots.Length
      reads this`free, this`claims, slots, blocks
    {
      var s := slots[i];
      if s.inUse then
        && s.block < blocks.Length && s.block !in free && s.log.pending == []
        && s.name in claims && claims[s.name] == s.openCount && 1 <= s.openCount <= 255
        && Wf(cfg, LogOf(i))
      else !Owes(s)
    }

    /** The table: entries in use have distinct names and distinct blocks, each open
        stream's count is its number of counted claims, and a block is free exactly
        when no entry holds it. */
    ghost predicate Table()
      reads this`free, this`claims, this`disk, slots, blocks
    {
      && cfg.Allowed()
      && (forall i :: 0 <= i < slots.Length ==> SlotOk(i))
      && (forall i, j :: 0 <= i < j < slots.Length && slots[i].inUse && slots[j].inUse ==>
            slots[i].name != slots[j].name && slots[i].block != slots[j].block)
      && (forall n :: n in claims ==> exists i :: Holder(slots[..], n, i))
      && (forall b :: b in free ==> b < blocks.Length)
      && (forall b :: 0 <= b < blocks.Length && b !in free ==>
            exists i :: 0 <= i < slots.Length && slots[i].inUse && slots[i].block == b)
      && (forall n :: n in disk ==> Wf(cfg, disk[n]) && disk[n].pending == [] && n !in claims)
    }

    /** What all streams, open and closed, have written to files and discarded. */
    ghost function Books(): Totals
      reads this`disk, slots
    {
      BooksOf(cfg.Fmt(), slots[..], disk)
    }

    /** Every byte written to a file, and every byte of a discarded file, is reported,
        recorded or in hand, once. */
    ghost predicate Balanced()
      reads this, slots
    {
      && FlushReported(events) + PendingFlush(slots[..]) + releasedFlush + inHand == Books().written
      && RolloverReported(events) + PendingDiscarded(slots[..]) + releasedDiscarded == Books().dropped
    }

    /** Nothing is recorded for later. */
    ghost predicate Settled()
      reads this, slots
    {
      && PendingFlush(slots[..]) == 0 && PendingDiscarded(slots[..]) == 0
      && releasedFlush == 0 && releasedDiscarded == 0
    }

    ghost predicate Valid()
      reads this, slots, blocks
    {
      Table() && Balanced() && (!locked ==> Settled())
    }

    /** What is true between calls: the lock is free, and the events emitted account
        for every byte flushed and every byte discarded. */
    ghost predicate Idle()
      reads this, slots, blocks
    {
      Valid() && !locked && inHand == 0
    }

    lemma IdleReports()
      requires Idle()
      ensures FlushReported(events) == Books().written && RolloverReported(events) == Books().dropped
      ensures forall i :: 0 <= i < slots.Length ==> !Owes(slots[i])
    {
      hide BooksOf, FlushReported, RolloverReported, Table;
      AllPendingZero(slots[..]);
    }

    lemma NothingOwed()
      requires Idle()
      ensures releasedFlush == 0 && releasedDiscarded == 0
      ensures forall i :: 0 <= i < slots.Length ==> !Owes(slots[i])
    {
      hide Table, Balanced;
      AllPendingZero(slots[..]);
    }

    // Lock and publication

    method Lock()
      requires Idle()
      modifies this`locked
      ensures Valid() && locked && Settled()
    {
      hide BooksOf, FlushReported, RolloverReported, Table, PendingFlush, PendingDiscarded;
      locked := true;
    }

    /** Listeners run in the caller, and never while the instance lock is held. */
    method Emit(e: Event)
      requires !locked
      modifies this`events
      ensures events == old(events) + [e]
    {
      events := events + [e];
    }

    /** Collect and clear what was recorded under the lock. The stream is named only
        when exactly one has something to report. */
    method TakeDeferred() returns (fl: nat, di: nat, stream: string)
      requires locked
      modifies slots, this`releasedFlush, this`releasedDiscarded
      ensures fl == PendingFlush(old(slots[..])) + old(releasedFlush)
      ensures di == PendingDiscarded(old(slots[..])) + old(releasedDiscarded)
      ensures releasedFlush == 0 && releasedDiscarded == 0
      ensures forall i :: 0 <= i < slots.Length ==> slots[i] == Cleared(old(slots[i]))
      ensures stream == Named(old(slots[..]), old(releasedFlush) + old(releasedDiscarded) > 0, old(releasedStream))
    {
      hide PendingFlush, PendingDiscarded, Owing;
      ghost var ss := slots[..];
      var naming, only;
      fl, di, naming, only := TakeFromSlots();
      if releasedFlush > 0 || releasedDiscarded > 0 {
        fl, di := fl + releasedFlush, di + releasedDiscarded;
        releasedFlush, releasedDiscarded := 0, 0;
        naming, only := naming + 1, releasedStream;
      }
      stream := if naming == 1 then only else "";
    }

    method TakeFromSlots() returns (fl: nat, di: nat, naming: nat, only: string)
      modifies slots
      ensures fl == PendingFlush(old(slots[..])) && di == PendingDiscarded(old(slots[..]))
      ensures naming == |Owing(old(slots[..]))|
      ensures naming > 0 ==> only == Owing(old(slots[..]))[naming - 1]
      ensures forall i :: 0 <= i < slots.Length ==> slots[i] == Cleared(old(slots[i]))
    {
      ghost var ss := slots[..];
      fl, di, naming, only := 0, 0, 0, "";
      for i := 0 to slots.Length
        invariant forall j :: 0 <= j < i ==> slots[j] == Cleared(ss[j])
        invariant forall j :: i <= j < slots.Length ==> slots[j] == ss[j]
        invariant fl == PendingFlush(ss[..i]) && di == PendingDiscarded(ss[..i])
        invariant naming == |Owing(ss[..i])|
        invariant naming > 0 ==> only == Owing(ss[..i])[naming - 1]
      {
        assert ss[..i + 1][..i] == ss[..i];
        var s := slots[i];
        if s.pendingFlush > 0 || s.pendingDiscarded > 0 {
          fl, di := fl + s.pendingFlush, di + s.pendingDiscarded;
          slots[i] := Cleared(s);
          naming, only := naming + 1, s.name;
        }
      }
      assert ss[..|ss|] == ss;
    }

    /** The bytes recorded for flushes, and for discards, since the lock was taken. */
    ghost function Recorded(): (nat, nat)
      reads this, slots
    {
      (PendingFlush(slots[..]) + releasedFlush, PendingDiscarded(slots[..]) + releasedDiscarded)
    }

    /** Release the lock, then publish what the locked section recorded: at most one
        flush event and one rollover event, with exactly the recorded bytes. */
    method Unlock() returns (stream: string)
      requires Valid() && locked
      modifies slots, this`releasedFlush, this`releasedDiscarded, this`locked, this`events
      ensures Valid() && !locked
      ensures stream == Named(old(slots[..]), old(releasedFlush) + old(releasedDiscarded) > 0, old(releasedStream))
      ensures events == old(events) + Reports(stream, old(Recorded()).0, old(Recorded()).1)
      ensures forall i :: 0 <= i < slots.Length ==> slots[i] == Cleared(old(slots[i]))
    {
      hide Table, PendingFlush, PendingDiscarded, FlushReported, RolloverReported, BooksOf;
      var fl, di;
      fl, di, stream := TakeDeferred();
      locked := false;
      TableCleared();
      NothingPending(slots[..]);
      BooksSame(cfg.Fmt(), old(slots[..]), slots[..], disk);
      Publish(fl, di, stream);
    }

    /** Release a lock under which at most entry i recorded anything. */
    method UnlockOne(i: nat)
      requires Valid() && locked && inHand == 0 && i < slots.Length
      requires releasedFlush == 0 && releasedDiscarded == 0
      requires forall j :: 0 <= j < slots.Length && j != i ==> !Owes(slots[j])
      modifies slots, this`releasedFlush, this`releasedDiscarded, this`locked, this`events
      ensures Idle() && slots[i] == Cleared(old(slots[i]))
      ensures forall j :: 0 <= j < slots.Length && j != i ==> slots[j] == old(slots[j])
      ensures events == old(events) + Reports(slots[i].name, old(slots[i]).pendingFlush, old(slots[i]).pendingDiscarded)
    {
      hide Table, Balanced, PendingFlush, PendingDiscarded, Owing;
      OnlyOneOwes(slots[..], i);
      if !Owes(slots[i]) {
        NothingPending(slots[..]);
      }
      var stream := Unlock();
    }

    /** Release a lock when only a released stream, if any, has something to report. */
    method UnlockReleased()
      requires Valid() && locked && inHand == 0
      requires forall j :: 0 <= j < slots.Length ==> !Owes(slots[j])
      modifies slots, this`releasedFlush, this`releasedDiscarded, this`locked, this`events
      ensures Idle() && forall j :: 0 <= j < slots.Length ==> slots[j] == old(slots[j])
      ensures events == old(events) + Reports(old(releasedStream), old(releasedFlush), old(releasedDiscarded))
    {
      hide Table, Balanced, PendingFlush, PendingDiscarded, Owing;
      NothingPending(slots[..]);
      var stream := Unlock();
    }

    method Publish(fl: nat, di: nat, stream: string)
      requires !locked
      modifies this`events
      ensures events == old(events) + Reports(stream, fl, di)
      ensures FlushReported(events) == old(FlushReported(events)) + fl
      ensures RolloverReported(events) == old(RolloverReported(events)) + di
    {
      if fl > 0 {
        ReportSnoc(events, FlushEvent(stream, fl));
        Emit(FlushEvent(stream, fl));
      }
      if di > 0 {
        ReportSnoc(events, RolloverEvent(stream, di));
        Emit(RolloverEvent(stream, di));
      }
    }

    /** Entries that keep their names and blocks still hold the same streams and blocks. */
    twostate lemma StillHeld()
      requires old(Table()) && free == old(free) && claims.Keys == old(claims.Keys)
      requires forall j :: 0 <= j < slots.Length ==>
                 slots[j].inUse == old(slots[j]).inUse && slots[j].name == old(slots[j]).name
                 && slots[j].block == old(slots[j]).block
      ensures forall n :: n in claims ==> exists k :: Holder(slots[..], n, k)
      ensures forall b :: 0 <= b < blocks.Length && b !in free ==>
                exists k :: 0 <= k < slots.Length && slots[k].inUse && slots[k].block == b
    {
      hide SlotOk;
      forall n | n in claims ensures exists k :: Holder(slots[..], n, k) {
        var k :| Holder(old(slots[..]), n, k);
        assert Holder(slots[..], n, k);
      }
      forall b | 0 <= b < blocks.Length && b !in free
        ensures exists k :: 0 <= k < slots.Length && slots[k].inUse && slots[k].block == b
      {
        var k :| 0 <= k < slots.Length && old(slots[k]).inUse && old(slots[k]).block == b;
        assert slots[k].inUse && slots[k].block == b;
      }
    }

    /** Clearing what entries owe leaves the table as it was. */
    twostate lemma TableCleared()
      requires old(Table()) && unchanged(this`free, this`disk, this`claims, blocks)
      requires forall i :: 0 <= i < slots.Length ==> slots[i] == Cleared(old(slots[i]))
      ensures Table()
    {
      hide Wf;
      StillHeld();
      forall i | 0 <= i < slots.Length ensures SlotOk(i) {
        assert old(SlotOk(i));
      }
    }

    // Operations on one entry

    /** Every entry but i, and its stream's log, is as it was. */
    twostate predicate OthersKept(i: nat)
      reads slots, blocks
    {
      forall j: nat :: j < slots.Length && j != i ==>
        && slots[j] == old(slots[j])
        && (slots[j].inUse && slots[j].block < blocks.Length ==> LogOf(j) == old(LogOf(j)))
    }

    /** Replace the log of entry i: its stored part in the entry, its buffered samples
        in the entry's block. */
    method Update(i: nat, l: Log, bytes: nat, lost: nat)
      requires Table() && i < slots.Length && slots[i].inUse && Wf(cfg, l)
      modifies slots, blocks
      ensures Table() && OthersKept(i) && slots[i].block < blocks.Length && LogOf(i) == l
      ensures slots[i] == old(slots[i]).(log := l.(pending := []),
                                         pendingFlush := old(slots[i]).pendingFlush + bytes,
                                         pendingDiscarded := old(slots[i]).pendingDiscarded + lost)
      ensures slots[..] == old(slots[..])[i := slots[i]]
      ensures Of(cfg.Fmt(), slots[i].log) == Of(cfg.Fmt(), l)
    {
      hide Wf, Of;
      OfStored(cfg.Fmt(), l, []);
      assert SlotOk(i);
      var s := slots[i];
      slots[i] := s.(log := l.(pending := []), pendingFlush := s.pendingFlush + bytes,
                     pendingDiscarded := s.pendingDiscarded + lost);
      blocks[s.block] := l.pending;
      TableUpdated(i);
    }

    twostate lemma SlotsUpdated(i: nat)
      requires old(Table()) && unchanged(this`free, this`disk)
      requires i < slots.Length && old(slots[i]).inUse && slots[i].inUse
      requires slots[i].name == old(slots[i]).name && slots[i].block == old(slots[i]).block
      requires 1 <= slots[i].openCount <= 255 && slots[i].log.pending == []
      requires claims == old(claims)[slots[i].name := slots[i].openCount]
      requires forall j :: 0 <= j < slots.Length && j != i ==> slots[j] == old(slots[j])
      requires forall b :: 0 <= b < blocks.Length && b != slots[i].block ==> blocks[b] == old(blocks[b])
      requires slots[i].block < blocks.Length && Wf(cfg, LogOf(i))
      ensures forall k :: 0 <= k < slots.Length ==> SlotOk(k)
      ensures claims.Keys == old(claims.Keys) && OthersKept(i)
    {
      hide Wf;
      assert old(SlotOk(i));
      forall k | 0 <= k < slots.Length ensures SlotOk(k) {
        assert old(SlotOk(k));
      }
    }

    /** Changing what entry i holds, or its count together with its claims, keeps the table. */
    twostate lemma TableUpdated(i: nat)
      requires old(Table()) && unchanged(this`free, this`disk)
      requires i < slots.Length && old(slots[i]).inUse && slots[i].inUse
      requires slots[i].name == old(slots[i]).name && slots[i].block == old(slots[i]).block
      requires 1 <= slots[i].openCount <= 255 && slots[i].log.pending == []
      requires claims == old(claims)[slots[i].name := slots[i].openCount]
      requires forall j :: 0 <= j < slots.Length && j != i ==> slots[j] == old(slots[j])
      requires forall b :: 0 <= b < blocks.Length && b != slots[i].block ==> blocks[b] == old(blocks[b])
      requires slots[i].block < blocks.Length && Wf(cfg, LogOf(i))
      ensures Table() && OthersKept(i)
    {
      hide Wf, SlotOk, OthersKept;
      SlotsUpdated(i);
      StillHeld();
    }

    /** Write the block of entry i to its files, recording the bytes written and the
        bytes any roll discarded. */
    method FlushSlot(i: nat)
      requires Valid() && locked && i < slots.Length && slots[i].inUse
      modifies slots, blocks
      ensures Valid() && OthersKept(i) && slots[i].block < blocks.Length
      ensures old(slots[i]).block < blocks.Length && Wf(cfg, old(LogOf(i)))
      ensures LogOf(i) == TsLog.Flush(cfg, old(LogOf(i))) && LogOf(i).pending == []
      ensures slots[i] == old(slots[i]).(log := slots[i].log, pendingFlush := slots[i].pendingFlush,
                                         pendingDiscarded := slots[i].pendingDiscarded)
      ensures slots[i].pendingFlush == old(slots[i]).pendingFlush + Size(cfg.Fmt(), |old(LogOf(i)).pending|)
      ensures Accounts(cfg.Fmt(), old(slots[i]), slots[i])
      ensures PendingFlush(slots[..]) - slots[i].pendingFlush
           == old(PendingFlush(slots[..])) - old(slots[i]).pendingFlush
    {
      hide Table, TsLog.Flush, FlushReported, RolloverReported, PendingFlush, PendingDiscarded, FileBytes, BooksOf, Of, Flat;
      EntryOk(i);
      ghost var l := LogOf(i);
      FlushKeeps(cfg, l);
      FlushIdle(cfg, l);
      FlushTotals(cfg, l);
      if blocks[slots[i].block] == [] {
        return;
      }
      var full := LogOf(i);
      var next := TsLog.Flush(cfg, full);
      var bytes := Size(cfg.Fmt(), |full.pending|);
      var lost := FileBytes(cfg.Fmt(), next.gone[|full.gone|..]);
      Update(i, next, bytes, lost);
      PendingUpdate(old(slots[..]), i, slots[i]);
      BooksUpdated(cfg.Fmt(), old(slots[..]), disk, i, slots[i]);
    }

    lemma EntryOk(i: nat)
      requires Table() && i < slots.Length && slots[i].inUse
      ensures cfg.Allowed() && slots[i].block < blocks.Length && Wf(cfg, LogOf(i))
      ensures slots[i].log.pending == []
      ensures slots[i].name in claims && claims[slots[i].name] == slots[i].openCount && 1 <= slots[i].openCount <= 255
      ensures slots[i].block !in free && slots[i].name !in disk
      ensures Of(cfg.Fmt(), slots[i].log) == Of(cfg.Fmt(), LogOf(i))
    {
      hide Wf, Of;
      assert SlotOk(i);
      OfStored(cfg.Fmt(), slots[i].log, blocks[slots[i].block]);
    }

    /** The entry of an open stream, if it has one. */
    method SlotFind(name: string) returns (i: nat, found: bool)
      ensures found ==> Holder(slots[..], name, i)
      ensures !found ==> forall k :: 0 <= k < slots.Length ==> !Holder(slots[..], name, k)
    {
      i := 0;
      while i < slots.Length
        invariant 0 <= i <= slots.Length
        invariant forall k :: 0 <= k < i ==> !Holder(slots[..], name, k)
      {
        if slots[i].inUse && slots[i].name == name {
          return i, true;
        }
        i := i + 1;
      }
      found := false;
    }

    /** Begin a segment for entry i, recording what it discards. */
    method StartSlot(i: nat, ts: u64)
      requires Valid() && locked && i < slots.Length && slots[i].inUse && cfg.Segmented()
      requires slots[i].block < blocks.Length && LogOf(i).pending == []
      modifies slots, blocks
      ensures Valid() && OthersKept(i) && slots[i].block < blocks.Length
      ensures LogOf(i) == Start(cfg, old(LogOf(i)), ts)
      ensures slots[i] == old(slots[i]).(log := slots[i].log, pendingDiscarded := slots[i].pendingDiscarded)
      ensures Accounts(cfg.Fmt(), old(slots[i]), slots[i])
    {
      hide Table, Start, FlushReported, RolloverReported, PendingFlush, PendingDiscarded, FileBytes, BooksOf, Of, Flat;
      EntryOk(i);
      var full := LogOf(i);
      StartKeeps(cfg, full, ts);
      StartTotals(cfg, full, ts);
      var next := Start(cfg, full, ts);
      var lost := FileBytes(cfg.Fmt(), next.gone[|full.gone|..]);
      Update(i, next, 0, lost);
      PendingUpdate(old(slots[..]), i, slots[i]);
      BooksUpdated(cfg.Fmt(), old(slots[..]), disk, i, slots[i]);
    }

    method AppendLocked(i: nat, s: Sample) returns (st: Status)
      requires Valid() && locked && i < slots.Length && slots[i].inUse
      modifies slots, blocks
      ensures Valid() && OthersKept(i) && slots[i].block < blocks.Length
      ensures st != Inval && old(slots[i]).block < blocks.Length && Wf(cfg, old(LogOf(i)))
      ensures (st, LogOf(i)) == TsLog.Append(cfg, old(LogOf(i)), s)
      ensures slots[i] == old(slots[i]).(log := slots[i].log, pendingFlush := slots[i].pendingFlush,
                                         pendingDiscarded := slots[i].pendingDiscarded)
      ensures Accounts(cfg.Fmt(), old(slots[i]), slots[i])
    {
      hide Table, Wf, Fits, Start, FlushReported, RolloverReported, TsLog.Append, TsLog.Flush, Roomy, Prepared,
           PendingFlush, PendingDiscarded, BooksOf, Of;
      EntryOk(i);
      ghost var l := LogOf(i);
      AppendCases(cfg, l, s);
      if cfg.cap < RecSize(cfg.Fmt()) {
        return NoMem;
      }
      if BufferFull(cfg, LogOf(i)) {
        FlushSlot(i);
      }
      EntryOk(i);
      assert LogOf(i) == Roomy(cfg, l);
      if !Fits(cfg.Fmt(), LogOf(i).Last().base, s) {
        FlushSlot(i);
        StartSlot(i, s.ts);
      }
      assert LogOf(i) == Prepared(cfg, l, s);
      AppendAdds(cfg, l, s);
      BufferOne(i, s);
      st := Ok;
    }

    /** Put one more record into the block of entry i. */
    method BufferOne(i: nat, s: Sample)
      requires Valid() && locked && i < slots.Length && slots[i].inUse && slots[i].block < blocks.Length
      requires Wf(cfg, LogOf(i).(pending := LogOf(i).pending + [s]))
      modifies slots, blocks
      ensures Valid() && OthersKept(i) && slots[i].block < blocks.Length
      ensures LogOf(i) == old(LogOf(i)).(pending := old(LogOf(i)).pending + [s])
      ensures slots[i] == old(slots[i]).(log := slots[i].log) && Accounts(cfg.Fmt(), old(slots[i]), slots[i])
    {
      hide Table, Wf, FlushReported, RolloverReported, PendingFlush, PendingDiscarded, BooksOf, Of;
      EntryOk(i);
      OfStored(cfg.Fmt(), LogOf(i), LogOf(i).pending + [s]);
      Update(i, LogOf(i).(pending := LogOf(i).pending + [s]), 0, 0);
      PendingUpdate(old(slots[..]), i, slots[i]);
      BooksUpdated(cfg.Fmt(), old(slots[..]), disk, i, slots[i]);
    }

    /** Append one sample to an open stream. */
    method Append(name: string, s: Sample) returns (st: Status, i: nat)
      requires Idle()
      modifies slots, blocks, this`locked, this`events,
               this`releasedFlush, this`releasedDiscarded
      ensures Idle()
      ensures st == Inval ==> (forall k :: !Holder(old(slots[..]), name, k)) && unchanged(slots, blocks, this`events)
      ensures st != Inval ==>
                && Holder(old(slots[..]), name, i) && Holder(slots[..], name, i) && OthersKept(i)
                && slots[i].block < blocks.Length && slots[i] == old(slots[i]).(log := slots[i].log)
                && old(slots[i]).block < blocks.Length && Wf(cfg, old(LogOf(i)))
                && (st, LogOf(i)) == TsLog.Append(cfg, old(LogOf(i)), s)
                && events == old(events) + Growth(cfg.Fmt(), name, old(LogOf(i)), LogOf(i))
    {
      hide Table, TsLog.Append, Balanced, PendingFlush, PendingDiscarded, Wf, Of, Accounts, Growth, Reports;
      var found;
      i, found := SlotFind(name);
      if !found {
        return Inval, i;
      }
      NothingOwed();
      Lock();
      EntryOk(i);
      ghost var before, l := slots[i], LogOf(i);
      st := AppendLocked(i, s);
      EntryOk(i);
      GrowthIs(cfg.Fmt(), name, before, slots[i], l, LogOf(i));
      UnlockOne(i);
    }

    /** Append a batch to an open stream under one hold of the lock. */
    method AppendBatch(name: string, ss: seq<Sample>) returns (st: Status, i: nat)
      requires Idle()
      modifies slots, blocks, this`locked, this`events,
               this`releasedFlush, this`releasedDiscarded
      ensures Idle()
      ensures ss == [] ==> st == Inval
      ensures st == Inval && ss != [] ==> forall k :: !Holder(slots[..], name, k)
      ensures st == Inval ==> unchanged(slots, blocks, this`events)
      ensures st != Inval ==>
                && Holder(old(slots[..]), name, i) && Holder(slots[..], name, i) && OthersKept(i)
                && slots[i].block < blocks.Length && slots[i] == old(slots[i]).(log := slots[i].log)
                && old(slots[i]).block < blocks.Length && Wf(cfg, old(LogOf(i)))
                && LogOf(i) == AppendAll(cfg, old(LogOf(i)), ss)
                && st == (if cfg.cap < RecSize(cfg.Fmt()) then NoMem else Ok)
                && events == old(events) + Growth(cfg.Fmt(), name, old(LogOf(i)), LogOf(i))
    {
      hide Table, AppendAll, Balanced, PendingFlush, PendingDiscarded, Wf, Of, Accounts, Growth, Reports;
      var found;
      i, found := SlotFind(name);
      if !found || ss == [] {
        return Inval, i;
      }
      NothingOwed();
      Lock();
      EntryOk(i);
      ghost var before, l := slots[i], LogOf(i);
      st := BatchLocked(i, ss);
      EntryOk(i);
      GrowthIs(cfg.Fmt(), name, before, slots[i], l, LogOf(i));
      UnlockOne(i);
    }

    method BatchLocked(i: nat, ss: seq<Sample>) returns (st: Status)
      requires Valid() && locked && i < slots.Length && slots[i].inUse && ss != []
      modifies slots, blocks
      ensures Valid() && OthersKept(i) && slots[i].block < blocks.Length
      ensures st == (if cfg.cap < RecSize(cfg.Fmt()) then NoMem else Ok)
      ensures old(slots[i]).block < blocks.Length && Wf(cfg, old(LogOf(i)))
      ensures LogOf(i) == AppendAll(cfg, old(LogOf(i)), ss)
      ensures slots[i] == old(slots[i]).(log := slots[i].log, pendingFlush := slots[i].pendingFlush,
                                         pendingDiscarded := slots[i].pendingDiscarded)
      ensures Accounts(cfg.Fmt(), old(slots[i]), slots[i])
    {
      hide Table, Balanced, Settled, TsLog.Append, Wf, Of;
      EntryOk(i);
      ghost var l := LogOf(i);
      AppendAllAdds(cfg, l, ss);
      st := Ok;
      var k := 0;
      assert ss[..0] == [];
      while k < |ss|
        invariant 0 <= k <= |ss| && st == Ok && Valid() && locked
        invariant OthersKept(i) && slots[i].inUse && slots[i].block < blocks.Length
        invariant slots[i] == old(slots[i]).(log := slots[i].log, pendingFlush := slots[i].pendingFlush,
                                             pendingDiscarded := slots[i].pendingDiscarded)
        invariant Accounts(cfg.Fmt(), old(slots[i]), slots[i])
        invariant k > 0 ==> RecSize(cfg.Fmt()) <= cfg.cap
        invariant LogOf(i) == AppendAll(cfg, l, ss[..k])
      {
        AppendAdds(cfg, LogOf(i), ss[k]);
        assert ss[..k + 1][..k] == ss[..k];
        st := AppendLocked(i, ss[k]);
        if st != Ok {
          break;
        }
        k := k + 1;
      }
      assert ss[..|ss|] == ss;
    }

    // The background drain

    /** Every entry is held as it was. */
    twostate predicate SameHolders()
      reads slots
    {
      forall j :: 0 <= j < slots.Length ==>
        slots[j] == old(slots[j]).(log := slots[j].log, pendingFlush := slots[j].pendingFlush,
                                   pendingDiscarded := slots[j].pendingDiscarded)
    }

    /** Drop the record of a flush that its caller reports itself. */
    method TakeFlush(i: nat) returns (bytes: nat)
      requires Valid() && locked && i < slots.Length && slots[i].inUse
      modifies slots, this`inHand
      ensures Valid() && OthersKept(i) && bytes == old(slots[i]).pendingFlush
      ensures slots[i] == old(slots[i]).(pendingFlush := 0)
      ensures PendingFlush(slots[..]) == old(PendingFlush(slots[..])) - bytes
      ensures inHand == old(inHand) + bytes
    {
      hide Table, Wf, PendingFlush, PendingDiscarded, FlushReported, RolloverReported;
      EntryOk(i);
      bytes := slots[i].pendingFlush;
      slots[i] := slots[i].(pendingFlush := 0);
      assert slots[..] == old(slots[..])[i := slots[i]];
      PendingUpdate(old(slots[..]), i, slots[i]);
      inHand := inHand + bytes;
      BooksSame(cfg.Fmt(), old(slots[..]), slots[..], disk);
      TableUpdated(i);
    }

    /** Flush every stream holding buffered samples, taking over their reports; names
        the stream when there was exactly one. */
    method FlushAll() returns (bytes: nat, only: string)
      requires Valid() && locked && Settled() && inHand == 0
      modifies slots, blocks, this`inHand
      ensures Valid() && inHand == bytes && PendingFlush(slots[..]) == 0 && SameHolders()
      ensures only == Sole(Buffered(old(slots[..]), old(blocks[..])))
      ensures bytes == Books().written - old(Books()).written
      ensures forall j :: 0 <= j < slots.Length && slots[j].inUse ==>
                && slots[j].block < blocks.Length && Wf(cfg, old(LogOf(j)))
                && LogOf(j) == TsLog.Flush(cfg, old(LogOf(j)))
      ensures forall j :: 0 <= j < slots.Length ==> Loses(cfg.Fmt(), old(slots[..])[j], slots[j])
    {
      hide Table, Wf, TsLog.Flush, PendingFlush, PendingDiscarded, BooksOf, Of, FlushReported, RolloverReported, Loses,
           Balanced, Buffered;
      bytes, only := 0, "";
      var streams := 0;
      ghost var ss, bs := slots[..], blocks[..];
      NoLoss();
      AllEntriesOk();
      InHandIs();
      BufferedStep(ss, bs, 0);
      for i := 0 to slots.Length
        invariant Valid() && locked && inHand == bytes && PendingFlush(slots[..]) == 0 && SameHolders()
        invariant forall j :: 0 <= j < slots.Length && slots[j].inUse ==>
                    slots[j].block < blocks.Length && Wf(cfg, old(LogOf(j))) && old(LogOf(j)).live != []
        invariant forall j :: i <= j < slots.Length && slots[j].inUse ==> LogOf(j) == old(LogOf(j))
        invariant forall j :: 0 <= j < i && slots[j].inUse ==> LogOf(j) == TsLog.Flush(cfg, old(LogOf(j)))
        invariant forall j :: i <= j < slots.Length ==> slots[j] == ss[j]
        invariant forall j :: 0 <= j < slots.Length ==> Loses(cfg.Fmt(), ss[j], slots[j])
        invariant streams == |Buffered(ss[..i], bs)| && only == Sole(Buffered(ss[..i], bs))
      {
        BufferedStep(ss, bs, i + 1);
        if slots[i].inUse {
          EntryOk(i);
          FlushIdle(cfg, LogOf(i));
          assert blocks[slots[i].block] == LogOf(i).pending == old(LogOf(i)).pending == bs[ss[i].block];
          if blocks[slots[i].block] != [] {
            var n := FlushOne(i);
            bytes := bytes + n;
            streams := streams + 1;
            only := if streams == 1 then slots[i].name else "";
          }
        }
      }
      assert ss[..|ss|] == ss;
      InHandIs();
    }

    lemma InHandIs()
      requires Balanced() && PendingFlush(slots[..]) == 0 && releasedFlush == 0
      ensures FlushReported(events) + inHand == Books().written
    {
      hide BooksOf, FlushReported, RolloverReported, PendingDiscarded;
    }

    lemma NoLoss()
      requires PendingFlush(slots[..]) == 0 && PendingDiscarded(slots[..]) == 0
      ensures forall j :: 0 <= j < slots.Length ==>
                !Owes(slots[j]) && Loses(cfg.Fmt(), slots[j], slots[j])
    {
      hide Of;
      AllPendingZero(slots[..]);
    }

    /** Flush one entry whose report the drain takes over. */
    method FlushOne(i: nat) returns (bytes: nat)
      requires Valid() && locked && i < slots.Length && slots[i].inUse && PendingFlush(slots[..]) == 0
      requires slots[i].pendingFlush == 0 && slots[i].pendingDiscarded == 0
      modifies slots, blocks, this`inHand
      ensures Valid() && PendingFlush(slots[..]) == 0 && OthersKept(i) && inHand == old(inHand) + bytes
      ensures slots[i].block < blocks.Length && old(slots[i]).block < blocks.Length && Wf(cfg, old(LogOf(i)))
      ensures LogOf(i) == TsLog.Flush(cfg, old(LogOf(i)))
      ensures slots[i] == old(slots[i]).(log := slots[i].log, pendingDiscarded := slots[i].pendingDiscarded)
      ensures Loses(cfg.Fmt(), old(slots[i]), slots[i])
    {
      hide Table, Wf, TsLog.Flush, Balanced, PendingFlush, PendingDiscarded, BooksOf, Of;
      FlushSlot(i);
      bytes := TakeFlush(i);
    }

    lemma AllEntriesOk()
      requires Table()
      ensures forall j :: 0 <= j < slots.Length && slots[j].inUse ==>
                slots[j].block < blocks.Length && Wf(cfg, LogOf(j)) && LogOf(j).live != []
    {
      forall j | 0 <= j < slots.Length && slots[j].inUse
        ensures slots[j].block < blocks.Length && Wf(cfg, LogOf(j)) && LogOf(j).live != []
      {
        EntryOk(j);
      }
    }

    /** The work item: drain every stream under the lock, release it, which reports
        what was discarded, and only then report the total written. Each report names
        its stream when there was exactly one. */
    method Drain()
      requires Idle()
      modifies slots, blocks, this`inHand, this`locked, this`events, this`releasedFlush, this`releasedDiscarded
      ensures Idle() && SameHolders()
      ensures forall j :: 0 <= j < slots.Length && slots[j].inUse ==>
                && slots[j].block < blocks.Length && Wf(cfg, old(LogOf(j)))
                && LogOf(j) == TsLog.Flush(cfg, old(LogOf(j)))
      ensures events == old(events)
                        + Reports(Sole(Losing(cfg.Fmt(), old(slots[..]), slots[..])), 0, Books().dropped - old(Books()).dropped)
                        + Reports(Sole(Buffered(old(slots[..]), old(blocks[..]))), Books().written - old(Books()).written, 0)
    {
      hide Table, Wf, TsLog.Flush, BooksOf, Of, PendingFlush, PendingDiscarded, FlushReported, RolloverReported, Owing,
           Losing, Buffered, Loses;
      ghost var ss := slots[..];
      Lock();
      var bytes, only := FlushAll();
      ghost var mid := slots[..];
      AllPendingZero(slots[..]);
      OwingLosing(cfg.Fmt(), ss, mid);
      var stream := Unlock();
      BooksSame(cfg.Fmt(), mid, slots[..], disk);
      LosingSame(cfg.Fmt(), ss, mid, slots[..]);
      if bytes > 0 {
        ReportSnoc(events, FlushEvent(only, bytes));
        Emit(FlushEvent(only, bytes));
        inHand := 0;
      }
    }

    // Opening and closing

    /** The stored log of a stream that no entry holds. */
    function OnDisk(name: string): Log
      reads this`disk
    {
      if name in disk then disk[name] else InitLog()
    }

    /** Open a stream: another claim on its entry if it has one, otherwise a wiped
        entry and a free block. recovery is what recovering the newest file answers; a
        failure is reported, and the claim stays. */
    method Open(name: string, recovery: Status) returns (st: Status, i: nat, ghost claimed: bool)
      requires Idle()
      modifies slots, blocks, this`free, this`disk, this`claims
      ensures Idle()
      ensures claimed <==> name in old(claims) || (old(free) != {} && exists k :: 0 <= k < slots.Length && !old(slots[k]).inUse)
      ensures st == if claimed then recovery else Busy
      ensures !claimed ==> unchanged(slots, blocks, this`free, this`disk, this`claims)
      ensures claimed ==> Holder(slots[..], name, i) && OthersKept(i) && slots[i].block < blocks.Length
      ensures claimed ==> claims == old(claims)[name := Counted(if name in old(claims) then old(claims)[name] else 0)]
      ensures claimed && name in old(claims) ==>
                old(slots[i]).block < blocks.Length && LogOf(i) == old(LogOf(i)) && free == old(free)
      ensures claimed && name !in old(claims) ==>
                && LogOf(i) == Rescanned(cfg, old(OnDisk(name)))
                && slots[i].block in old(free) && free == old(free) - {slots[i].block}
    {
      hide Table, Wf, Balanced, Settled;
      var found;
      i, found := SlotFind(name);
      if found {
        EntryOk(i);
        OpenAgain(i);
        return recovery, i, true;
      }
      NotHeld(name);
      i := 0;
      while i < slots.Length && slots[i].inUse
        invariant 0 <= i <= slots.Length
        invariant forall k :: 0 <= k < i ==> slots[k].inUse
      {
        i := i + 1;
      }
      if i == slots.Length || free == {} {
        return Busy, i, false;
      }
      var b :| b in free;
      Claim(i, name, b);
      return recovery, i, true;
    }

    method OpenAgain(i: nat)
      requires Idle() && i < slots.Length && slots[i].inUse
      modifies slots, this`claims
      ensures Idle() && OthersKept(i) && slots[i] == old(slots[i]).(openCount := Counted(old(slots[i]).openCount))
      ensures slots[i].block < blocks.Length
      ensures claims == old(claims)[slots[i].name := slots[i].openCount]
    {
      hide Table, Wf, FlushReported, RolloverReported, PendingFlush, PendingDiscarded, BooksOf, Of;
      EntryOk(i);
      var count := Counted(slots[i].openCount);
      var s := slots[i].(openCount := count);
      slots[i] := s;
      claims := claims[s.name := count];
      PendingUpdate(old(slots[..]), i, s);
      assert slots[..] == old(slots[..])[i := s];
      BooksSame(cfg.Fmt(), old(slots[..]), slots[..], disk);
      TableUpdated(i);
    }

    method Claim(i: nat, name: string, b: nat)
      requires Idle() && i < slots.Length && !slots[i].inUse && b in free && name !in claims
      modifies slots, blocks, this`free, this`disk, this`claims
      ensures Idle() && OthersKept(i) && Holder(slots[..], name, i)
      ensures slots[i].block == b < blocks.Length && LogOf(i) == Rescanned(cfg, old(OnDisk(name)))
      ensures free == old(free) - {b} && claims == old(claims)[name := 1]
    {
      hide Table, Wf, FlushReported, RolloverReported, PendingFlush, PendingDiscarded, BooksOf, Of;
      ReadyToClaim(i, name, b);
      ghost var stored := OnDisk(name);
      slots[i] := Slot(true, name, b, 1, Rescanned(cfg, OnDisk(name)), 0, 0);
      blocks[b] := [];
      free, disk, claims := free - {b}, disk - {name}, claims[name := 1];
      PendingUpdate(old(slots[..]), i, slots[i]);
      assert slots[..] == old(slots[..])[i := slots[i]];
      RescannedTotals(cfg, stored);
      BooksClaimed(cfg.Fmt(), old(slots[..]), old(disk), i, slots[i], name);
      TableClaimed(i);
    }

    lemma NotHeld(name: string)
      requires Table() && forall k :: 0 <= k < slots.Length ==> !Holder(slots[..], name, k)
      ensures name !in claims
    {
      hide Wf;
    }

    lemma ReadyToClaim(i: nat, name: string, b: nat)
      requires Table() && i < slots.Length && !slots[i].inUse && b in free
      ensures b < blocks.Length
      ensures !Owes(slots[i]) && Wf(cfg, Rescanned(cfg, OnDisk(name))) && OnDisk(name).pending == []
    {
      hide SegsOk;
      assert SlotOk(i);
      assert SegsOk(cfg.Fmt(), [Seg(0, [])]) && SegsOk(cfg.Fmt(), []) by {
        EmptySeg(cfg.Fmt(), Seg(0, []));
        SegsOkSplit(cfg.Fmt(), [Seg(0, [])], 0);
        assert [Seg(0, [])][..0] == [];
      }
    }

    /** Claiming a wiped entry and a free block for a stream no entry holds keeps the table. */
    twostate lemma TableClaimed(i: nat)
      requires old(Table()) && i < slots.Length && !old(slots[i]).inUse
      requires var s := slots[i];
               && s.inUse && s.name !in old(claims) && s.block in old(free) && s.openCount == 1
               && s.log.pending == [] && !Owes(s) && s.block < blocks.Length && Wf(cfg, LogOf(i))
               && free == old(free) - {s.block} && claims == old(claims)[s.name := 1]
               && disk == old(disk) - {s.name}
      requires forall j :: 0 <= j < slots.Length && j != i ==> slots[j] == old(slots[j])
      requires forall b :: 0 <= b < blocks.Length && b != slots[i].block ==> blocks[b] == old(blocks[b])
      ensures Table() && OthersKept(i)
    {
      hide Wf;
      forall j | 0 <= j < slots.Length && j != i && slots[j].inUse
        ensures slots[j].name != slots[i].name && slots[j].block != slots[i].block
      {
        assert old(SlotOk(j));
      }
      forall n | n in claims ensures exists k :: Holder(slots[..], n, k) {
        if n == slots[i].name {
          assert Holder(slots[..], n, i);
        } else {
          var k :| Holder(old(slots[..]), n, k);
          assert Holder(slots[..], n, k);
        }
      }
      forall b | 0 <= b < blocks.Length && b !in free
        ensures exists k :: 0 <= k < slots.Length && slots[k].inUse && slots[k].block == b
      {
        if b != slots[i].block {
          var k :| 0 <= k < slots.Length && old(slots[k]).inUse && old(slots[k]).block == b;
          assert slots[k].inUse && slots[k].block == b;
        }
      }
      forall k | 0 <= k < slots.Length ensures SlotOk(k) {
        assert old(SlotOk(k));
      }
    }

    /** Drop one handle's claim on entry i; the last one frees its block, keeps what the
        entry still owes a listener, and wipes the entry. */
    method Release(i: nat)
      requires Valid() && locked && i < slots.Length && slots[i].inUse && slots[i].block < blocks.Length
      requires releasedFlush == 0 && releasedDiscarded == 0
      requires slots[i].openCount <= 1 ==> LogOf(i).pending == []
      modifies slots, this`free, this`disk, this`claims, this`releasedFlush, this`releasedDiscarded, this`releasedStream
      ensures Valid() && OthersKept(i)
      ensures releasedFlush == (if old(slots[i]).openCount > 1 then 0 else old(slots[i]).pendingFlush)
      ensures releasedDiscarded == (if old(slots[i]).openCount > 1 then 0 else old(slots[i]).pendingDiscarded)
      ensures releasedFlush > 0 || releasedDiscarded > 0 ==> releasedStream == old(slots[i]).name
      ensures old(slots[i]).openCount > 1 ==>
                && slots[i] == old(slots[i]).(openCount := old(slots[i]).openCount - 1)
                && free == old(free) && disk == old(disk)
                && claims == old(claims)[slots[i].name := slots[i].openCount]
      ensures old(slots[i]).openCount <= 1 ==>
                && slots[i] == FREE_SLOT && free == old(free) + {old(slots[i]).block}
                && claims == old(claims) - {old(slots[i]).name}
                && disk == old(disk)[old(slots[i]).name := old(LogOf(i))]
    {
      hide Table, Wf, FlushReported, RolloverReported, PendingFlush, PendingDiscarded, BooksOf, Of;
      EntryOk(i);
      var s := slots[i];
      if s.openCount > 1 {
        var t := s.(openCount := s.openCount - 1);
        slots[i] := t;
        claims := claims[s.name := t.openCount];
        PendingUpdate(old(slots[..]), i, t);
        assert slots[..] == old(slots[..])[i := t];
        BooksSame(cfg.Fmt(), old(slots[..]), slots[..], disk);
        TableUpdated(i);
        return;
      }
      Wipe(i);
    }

    method Wipe(i: nat)
      requires Valid() && locked && i < slots.Length && slots[i].inUse && slots[i].block < blocks.Length
      requires releasedFlush == 0 && releasedDiscarded == 0 && slots[i].openCount == 1 && LogOf(i).pending == []
      modifies slots, this`free, this`disk, this`claims, this`releasedFlush, this`releasedDiscarded, this`releasedStream
      ensures Valid() && OthersKept(i)
      ensures releasedFlush == old(slots[i]).pendingFlush && releasedDiscarded == old(slots[i]).pendingDiscarded
      ensures releasedFlush > 0 || releasedDiscarded > 0 ==> releasedStream == old(slots[i]).name
      ensures slots[i] == FREE_SLOT && free == old(free) + {old(slots[i]).block}
      ensures claims == old(claims) - {old(slots[i]).name}
      ensures disk == old(disk)[old(slots[i]).name := old(LogOf(i))]
    {
      hide Table, Wf, FlushReported, RolloverReported, PendingFlush, PendingDiscarded, BooksOf, Of;
      EntryOk(i);
      var s := slots[i];
      disk := disk[s.name := LogOf(i)];
      free := free + {s.block};
      if s.pendingFlush > 0 || s.pendingDiscarded > 0 {
        releasedFlush := releasedFlush + s.pendingFlush;
        releasedDiscarded := releasedDiscarded + s.pendingDiscarded;
        releasedStream := s.name;
      }
      claims := claims - {s.name};
      slots[i] := FREE_SLOT;
      PendingUpdate(old(slots[..]), i, FREE_SLOT);
      assert slots[..] == old(slots[..])[i := FREE_SLOT];
      OfStored(cfg.Fmt(), s.log, []);
      BooksReleased(cfg.Fmt(), old(slots[..]), old(disk), i, FREE_SLOT, s.name, disk[s.name]);
      TableReleased(i);
    }

    twostate lemma SlotsReleased(i: nat)
      requires old(Table()) && i < slots.Length && old(slots[i]).inUse && slots[i] == FREE_SLOT
      requires var s := old(slots[i]);
               && s.block < blocks.Length && old(LogOf(i)).pending == []
               && free == old(free) + {s.block} && claims == old(claims) - {s.name}
               && disk == old(disk)[s.name := old(LogOf(i))]
      requires forall j :: 0 <= j < slots.Length && j != i ==> slots[j] == old(slots[j])
      requires forall b :: 0 <= b < blocks.Length ==> blocks[b] == old(blocks[b])
      ensures forall k :: 0 <= k < slots.Length ==> SlotOk(k)
      ensures old(slots[i]).name in old(claims) && Wf(cfg, old(LogOf(i))) && OthersKept(i)
    {
      hide Wf;
      assert old(SlotOk(i));
      forall k | 0 <= k < slots.Length ensures SlotOk(k) {
        assert old(SlotOk(k));
      }
    }

    /** Wiping the entry of a stream's last handle and freeing its block keeps the table. */
    twostate lemma TableReleased(i: nat)
      requires old(Table()) && i < slots.Length && old(slots[i]).inUse && slots[i] == FREE_SLOT
      requires var s := old(slots[i]);
               && s.block < blocks.Length && old(LogOf(i)).pending == []
               && free == old(free) + {s.block} && claims == old(claims) - {s.name}
               && disk == old(disk)[s.name := old(LogOf(i))]
      requires forall j :: 0 <= j < slots.Length && j != i ==> slots[j] == old(slots[j])
      requires forall b :: 0 <= b < blocks.Length ==> blocks[b] == old(blocks[b])
      ensures Table() && OthersKept(i)
    {
      hide Wf, SlotOk, OthersKept;
      SlotsReleased(i);
      forall n | n in claims ensures exists k :: Holder(slots[..], n, k) {
        var k :| Holder(old(slots[..]), n, k);
        assert Holder(slots[..], n, k);
      }
      forall b | 0 <= b < blocks.Length && b !in free
        ensures exists k :: 0 <= k < slots.Length && slots[k].inUse && slots[k].block == b
      {
        var k :| 0 <= k < slots.Length && old(slots[k]).inUse && old(slots[k]).block == b;
        assert slots[k].inUse && slots[k].block == b;
      }
    }

    /** Give up one claim. The last one flushes the stream first, so its close never
        drops samples, and only then is the block freed. */
    method Close(name: string) returns (i: nat, found: bool)
      requires Idle()
      modifies slots, blocks, this`free, this`disk, this`claims, this`locked,
               this`events, this`releasedFlush, this`releasedDiscarded, this`releasedStream
      ensures Idle() && (found <==> name in old(claims))
      ensures !found ==>
                && (forall j :: 0 <= j < slots.Length ==> slots[j] == old(slots[j]))
                && unchanged(blocks, this`free, this`disk, this`claims) && events == old(events)
      ensures found ==>
                && Holder(old(slots[..]), name, i) && OthersKept(i) && Closed(i)
                && events == old(events) + (if old(slots[i]).openCount > 1 then []
                                            else Growth(cfg.Fmt(), name, old(LogOf(i)), disk[name]))
    {
      hide Table, Balanced, Wf, TsLog.Flush, PendingFlush, PendingDiscarded, Settled;
      Held(name);
      NothingOwed();
      Lock();
      i, found := SlotFind(name);
      if found {
        CloseLocked(i);
      }
      UnlockReleased();
    }

    method CloseLocked(i: nat)
      requires Valid() && locked && Settled() && i < slots.Length && slots[i].inUse && !Owes(slots[i])
      modifies slots, blocks, this`free, this`disk, this`claims,
               this`releasedFlush, this`releasedDiscarded, this`releasedStream
      ensures Valid() && OthersKept(i) && Closed(i) && !Owes(slots[i])
      ensures Released(i)
    {
      hide Table, Balanced, Wf, TsLog.Flush, PendingFlush, PendingDiscarded, Of, Growth, Accounts;
      EntryOk(i);
      LogNotEmpty(i);
      ghost var s, l := slots[i], LogOf(i);
      if slots[i].openCount <= 1 {
        FlushSlot(i);
        EntryOk(i);
        GrowthIs(cfg.Fmt(), s.name, s, slots[i], l, LogOf(i));
      }
      Release(i);
    }

    lemma LogNotEmpty(i: nat)
      requires Table() && i < slots.Length && slots[i].inUse
      ensures slots[i].block < blocks.Length && LogOf(i).live != []
    {
      EntryOk(i);
    }

    /** What closing one handle leaves to be reported: what the last flush wrote and
        discarded, under the stream's name. */
    twostate predicate Released(i: nat)
      reads this`releasedFlush, this`releasedDiscarded, this`releasedStream, this`disk
    {
      && i < slots.Length && old(slots[i]).block < blocks.Length
      && var s := old(slots[i]);
      var l := s.log.(pending := old(blocks[s.block]));
      Reports(releasedStream, releasedFlush, releasedDiscarded)
      == if s.openCount > 1 then [] else if s.name in disk then Growth(cfg.Fmt(), s.name, l, disk[s.name]) else []
    }

    /** What closing one handle does to entry i. */
    twostate predicate Closed(i: nat)
      reads this`free, this`disk, this`claims, slots, blocks
    {
      && i < slots.Length
      && var s := old(slots[i]);
      if s.openCount > 1 then
        && slots[i] == s.(openCount := s.openCount - 1) && free == old(free) && disk == old(disk)
        && s.block < blocks.Length && LogOf(i) == old(LogOf(i))
        && claims == old(claims)[s.name := s.openCount - 1]
      else
        && slots[i] == FREE_SLOT && s.block < blocks.Length && free == old(free) + {s.block}
        && old(LogOf(i)).live != []
        && disk == old(disk)[s.name := TsLog.Flush(cfg, old(LogOf(i)))]
        && claims == old(claims) - {s.name}
    }

    lemma ClaimsAre(i: nat)
      requires Idle() && i < slots.Length && slots[i].inUse
      ensures slots[i].name in claims && claims[slots[i].name] == slots[i].openCount
    {
      hide Wf, Balanced, Settled;
      assert SlotOk(i);
    }

    lemma Held(name: string)
      requires Table()
      ensures name in claims <==> exists k :: Holder(slots[..], name, k)
    {
      hide Wf;
      forall k | Holder(slots[..], name, k) ensures name in claims {
        assert SlotOk(k);
      }
    }
  }

  /** An open that fails in recovery keeps its entry and its block: on a slab of one
      block no other stream opens, though no handle is live. */
  method FailedOpenStrands(cfg: Cfg, name: string, other: string, failure: Status)
    returns (core: Core, failed: Status, refused: Status, i: nat)
    requires cfg.Allowed() && failure != Ok && name != other
    ensures failed == failure && refused == Busy
    ensures fresh(core) && fresh(core.slots) && fresh(core.blocks) && core.Idle() && core.cfg == cfg
    ensures core.claims == map[name := 1] && core.free == {} && core.events == []
    ensures Holder(core.slots[..], name, i) && core.slots[i].block < core.blocks.Length
    ensures core.slots.Length == 1 && core.LogOf(i) == Rescanned(cfg, InitLog())
  {
    hide Core.Idle, Wf, Core.OthersKept, Rescanned;
    core := new Core(cfg, 1, 1);
    ghost var all := core.free;
    assert !core.slots[0].inUse;
    ghost var claimed;
    failed, i, claimed := core.Open(name, failure);
    assert |all - {core.slots[i].block}| == |all| - 1;
    var j;
    refused, j, claimed := core.Open(other, Ok);
  }

  /** After such an open, closing the only live handle of the stream does not flush:
      its sample stays in the buffer. */
  method FailedOpenUnflushed(cfg: Cfg, name: string, failure: Status, s: Sample) returns (core: Core, i: nat)
    requires cfg.Allowed() && RecSize(cfg.Fmt()) <= cfg.cap && failure != Ok
    ensures core.Idle() && core.claims == map[name := 1] && core.events == []
    ensures Holder(core.slots[..], name, i) && core.slots[i].block < core.blocks.Length
    ensures core.LogOf(i).pending == [s]
  {
    hide Core.Idle, Wf, TsLog.Append, Growth, Core.OthersKept, Rescanned;
    var failed, refused, st, found;
    core, failed, refused, i := FailedOpenStrands(cfg, name, name + "2", failure);
    ghost var claimed;
    st, i, claimed := core.Open(name, Ok);
    assert core.claims == map[name := 2];
    core.ClaimsAre(i);
    FirstAppend(cfg, name, s);
    assert Holder(core.slots[..], name, i);
    st, i := core.Append(name, s);
    assert core.LogOf(i).pending == [s] && core.events == [];
    i, found := core.Close(name);
    assert core.claims == map[name := 1];
  }

  lemma FirstAppend(cfg: Cfg, name: string, s: Sample)
    requires cfg.Allowed() && RecSize(cfg.Fmt()) <= cfg.cap
    ensures var l := Rescanned(cfg, InitLog());
            Wf(cfg, l) ==> TsLog.Append(cfg, l, s).1.pending == [s]
                           && Growth(cfg.Fmt(), name, l, TsLog.Append(cfg, l, s).1) == []
  {
    hide SegsOk, AllFit;
  }

  /** Opening relearns the fill level of the newest segment from its file. */
  function Rescanned(cfg: Cfg, l: Log): Log {
    if l.live == [] then l else l.(curBytes := Size(cfg.Fmt(), |l.Last().samples|))
  }

  lemma RescannedTotals(cfg: Cfg, l: Log)
    ensures Of(cfg.Fmt(), Rescanned(cfg, l)) == Of(cfg.Fmt(), l)
  {
    hide Flat, FileBytes;
  }

  /** When only entry i has something to report, the report names its stream. */
  lemma {:induction false} OnlyOneOwes(ss: seq<Slot>, i: nat)
    requires i < |ss| && forall j :: 0 <= j < |ss| && j != i ==> !Owes(ss[j])
    ensures Owing(ss) == if Owes(ss[i]) then [ss[i].name] else []
    ensures PendingFlush(ss) == ss[i].pendingFlush && PendingDiscarded(ss) == ss[i].pendingDiscarded
    decreases |ss|
  {
    var n := |ss| - 1;
    if i == n {
      NothingPending(ss[..n]);
    } else {
      OnlyOneOwes(ss[..n], i);
    }
  }

  /** A flush never takes back a discarded segment, and with nothing buffered it does
      nothing. */
  lemma FlushIdle(cfg: Cfg, l: Log)
    requires Wf(cfg, l) && cfg.Allowed()
    ensures l.pending == [] ==> TsLog.Flush(cfg, l) == l
    ensures l.gone <= TsLog.Flush(cfg, l).gone
    ensures l.(pending := []).(pending := l.pending) == l
  {
    hide SegsOk, AllFit;
  }
}
