/** Cursors over a stream: a walk over the segment files and the ingest buffer, in
    either direction, yielding the records that match a window and a predicate. */
module TsCursor {
  import opened Bytes
  import opened TsRecord
  import opened TsLog
  import opened TsFiles
  import opened TsStream

  /** A stored record: its bytes and the sample they mean. */
  datatype Item = Item(raw: seq<byte>, s: Sample)

  /** The caller's selection: a time window and, unless absent, a predicate on the
      raw record. */
  datatype Query = Query(from: u64, to: u64, pred: Option<seq<byte> -> bool>) {
    predicate InWindow(ts: u64) {
      (from == 0 && to == 0) || (from <= ts && (to == 0 || ts <= to))
    }
    predicate Matches(it: Item) {
      InWindow(it.s.ts) && (pred.None? || pred.value(it.raw))
    }
    predicate Unbounded() {
      from == 0 && (to == 0 || to == 0xFFFF_FFFF_FFFF_FFFF) && pred.None?
    }
  }

  function Filter(q: Query, items: seq<Item>): seq<Item> {
    if items == [] then []
    else if q.Matches(items[0]) then [items[0]] + Filter(q, items[1..])
    else Filter(q, items[1..])
  }

  /** The records between the two bounds that the predicate accepts, an upper bound of
      zero being none, are those the filter keeps. */
  predicate Selected(q: Query, it: Item) {
    q.from <= it.s.ts && (q.to == 0 || it.s.ts <= q.to) && (q.pred.None? || q.pred.value(it.raw))
  }

  lemma {:induction false} FilterSelects(q: Query, items: seq<Item>, it: Item)
    ensures it in Filter(q, items) <==> it in items && Selected(q, it)
  {
    if items != [] {
      FilterSelects(q, items[1..], it);
      assert items == [items[0]] + items[1..];
    }
  }

  lemma {:induction false} RevHas<T>(s: seq<T>, x: T)
    ensures x in Rev(s) <==> x in s
  {
    if s != [] {
      RevHas(s[1..], x);
      assert s == [s[0]] + s[1..];
    }
  }

  function Rev<T>(s: seq<T>): (r: seq<T>)
    ensures |r| == |s|
  {
    if s == [] then [] else Rev(s[1..]) + [s[0]]
  }

  function ItemOf(step: CrcStep, fmt: Format, base: u64, s: Sample): Item
    requires Fits(fmt, base, s)
  {
    Item(Encode(step, fmt, base, s), s)
  }

  function Items(step: CrcStep, fmt: Format, base: u64, ss: seq<Sample>): (r: seq<Item>)
    requires AllFit(fmt, base, ss)
    ensures |r| == |ss|
  {
    seq(|ss|, i requires 0 <= i < |ss| => ItemOf(step, fmt, base, ss[i]))
  }

  /** The records of segment k of a log whose oldest segment is number lo; a
      discarded segment has none. */
  function SegItems(step: CrcStep, fmt: Format, l: Log, lo: nat, k: nat): seq<Item>
    requires SegsOk(fmt, l.live)
  {
    if lo <= k < lo + |l.live| then Items(step, fmt, l.live[k - lo].base, l.live[k - lo].samples) else []
  }

  function Directed(desc: bool, items: seq<Item>): (r: seq<Item>)
    ensures |r| == |items|
  {
    if desc then Rev(items) else items
  }

  /** The records of the segments a walk has still to reach after segment at. */
  function Ahead(step: CrcStep, fmt: Format, l: Log, lo: nat, desc: bool, at: nat, end: nat): seq<Item>
    requires SegsOk(fmt, l.live)
    decreases if desc then at - end else end - at
  {
    if desc then
      if at <= end then []
      else Directed(desc, SegItems(step, fmt, l, lo, at - 1)) + Ahead(step, fmt, l, lo, desc, at - 1, end)
    else
      if at >= end then []
      else Directed(desc, SegItems(step, fmt, l, lo, at + 1)) + Ahead(step, fmt, l, lo, desc, at + 1, end)
  }

  lemma {:induction false} RevConcat<T>(a: seq<T>, b: seq<T>)
    ensures Rev(a + b) == Rev(b) + Rev(a)
    decreases |a|
  {
    if a == [] {
      assert a + b == b;
    } else {
      assert (a + b)[1..] == a[1..] + b;
      RevConcat(a[1..], b);
    }
  }

  lemma {:induction false} RevAt<T>(s: seq<T>, i: nat)
    requires i < |s|
    ensures Rev(s)[i] == s[|s| - 1 - i]
    decreases |s|
  {
    if i < |s| - 1 {
      RevAt(s[1..], i);
    }
  }

  /** raw is a whole record that decodes to s. */
  predicate Reads(step: CrcStep, fmt: Format, base: u64, raw: seq<byte>, s: Sample) {
    |raw| == RecSize(fmt) && Decode(step, fmt, base, raw) == Good(s)
  }

  /** Reading raw took the first of the items that were before. */
  predicate Took(step: CrcStep, fmt: Format, base: u64, raw: seq<byte>, before: seq<Item>, after: seq<Item>) {
    before != [] && after == before[1..] && raw == before[0].raw && Reads(step, fmt, base, raw, before[0].s)
  }

  /** What is left of a file after n of its records were taken in a direction. */
  function Rest(desc: bool, items: seq<Item>, n: nat): seq<Item>
    requires n <= |items|
  {
    Directed(desc, items)[n..]
  }

  class Cursor {
    const stream: Stream
    const query: Query
    const descending: bool
    const segLo: nat
    const segHi: nat
    var curSeg: nat
    var file: seq<byte>
    var fileOpen: bool
    var fmt: Format
    var base: u64
    var fileOffset: nat
    var ramOffset: nat
    var fileDone: bool
    /** The segment the open file holds, and how many of its records and of the
        buffer's the walk has taken. */
    ghost var seg: Seg
    ghost var taken: nat
    ghost var ramTaken: nat

    ghost predicate Valid()
      reads this, stream, stream.buf
    {
      && stream.Valid() && fmt == stream.cfg.Fmt()
      && segLo <= curSeg <= segHi
      && (fileOpen ==> FileOk())
      && ramOffset == Size(fmt, ramTaken)
    }

    /** The open handle is on a segment file, positioned at a record boundary. */
    ghost predicate FileOk()
      reads this`fmt, this`seg, this`base, this`file, this`taken, this`fileOffset, stream
    {
      && fmt == stream.cfg.Fmt() && SegOk(fmt, seg) && base == seg.base
      && file == SegBytes(stream.step, fmt, stream.id, seg)
      && taken <= |seg.samples|
      && fileOffset == HdrSize(fmt) + Size(fmt, if descending then |seg.samples| - taken else taken)
    }

    /** Where the walk ends. */
    function LastSeg(): nat {
      if descending then segLo else segHi
    }

    /** The stream's window is the one the cursor was opened over, and the open file is
        that of the segment the walk stands at. */
    ghost predicate Anchored()
      reads this`curSeg, this`fileOpen, this`seg, stream
    {
      && fileOpen && segLo == stream.oldest && segHi == stream.cur
      && |stream.log.live| == stream.cur - stream.oldest + 1
      && stream.oldest <= curSeg <= stream.cur && seg == stream.log.live[curSeg - stream.oldest]
    }

    /** A walk that has run out of stored records stands at its end. */
    ghost predicate Ended()
      reads this`curSeg, this`fileDone
    {
      fileDone ==> curSeg == LastSeg()
    }

    ghost function Beyond(): seq<Item>
      requires stream.Valid()
      reads this`curSeg, stream, stream.buf
    {
      Ahead(stream.step, stream.cfg.Fmt(), stream.log, stream.oldest, descending, curSeg,
            if descending then segLo else segHi)
    }

    ghost function InFile(): seq<Item>
      requires FileOk()
      reads this`fmt, this`seg, this`base, this`file, this`taken, this`fileOffset, stream
    {
      Rest(descending, Items(stream.step, fmt, seg.base, seg.samples), taken)
    }

    /** The stored records the walk has still to visit. */
    ghost function FileTodo(): seq<Item>
      requires stream.Valid() && (fileOpen ==> FileOk())
      reads this`fmt, this`seg, this`base, this`file, this`taken, this`fileOffset, this`curSeg, this`fileOpen,
            this`fileDone, stream, stream.buf
    {
      if fileDone || !fileOpen then [] else InFile() + Beyond()
    }

    /** The buffered records the walk has still to visit. */
    ghost function RamTodo(): seq<Item>
      requires stream.Valid()
      reads this`ramTaken, stream, stream.buf
    {
      if ramTaken > |stream.log.pending| then []
      else Rest(descending, Items(stream.step, stream.cfg.Fmt(), stream.base, stream.log.pending), ramTaken)
    }

    /** The records the walk has still to visit, in the order it will visit them. */
    ghost function Todo(): seq<Item>
      requires Valid()
      reads this, stream, stream.buf
    {
      if descending then RamTodo() + FileTodo() else FileTodo() + RamTodo()
    }

    ghost function SegsLeft(): nat
      reads this`curSeg
    {
      if descending then (if curSeg > segLo then curSeg - segLo else 0)
      else if curSeg < segHi then segHi - curSeg else 0
    }

    /** Open a cursor over everything the stream holds now. */
    constructor (stream: Stream, query: Query, descending: bool)
      requires stream.Valid()
      ensures this.stream == stream && this.query == query && this.descending == descending
      ensures Valid() && fileOpen && !fileDone && taken == 0 && ramTaken == 0
      ensures segLo == stream.oldest && segHi == stream.cur
      ensures curSeg == (if descending then segHi else segLo)
      ensures seg == stream.log.live[curSeg - stream.oldest] && Anchored()
    {
      hide Stream.Valid, SegBytes, SegOk, EncodeAll, AllFit, SegsOk, FileOk, Holds, Wf;
      this.stream, this.query, this.descending := stream, query, descending;
      segLo, segHi := stream.oldest, stream.cur;
      curSeg := if descending then stream.cur else stream.oldest;
      file, fileOpen, fmt, base := [], false, stream.cfg.Fmt(), 0;
      fileOffset, ramOffset, fileDone := 0, 0, false;
      seg, taken, ramTaken := Seg(0, []), 0, 0;
      new;
      WindowSound(stream);
      var st := OpenSegment(curSeg);
    }

    /** Point the handle at one segment, positioned for the walk's direction. A
        discarded segment reports NotFound. */
    method OpenSegment(k: nat) returns (st: Status)
      requires stream.Valid() && fmt == stream.cfg.Fmt()
      modifies this`file, this`fileOpen, this`curSeg, this`fmt, this`base, this`fileOffset, this`seg, this`taken
      ensures fmt == stream.cfg.Fmt()
      ensures st == (if stream.oldest <= k <= stream.cur then Ok else NotFound)
      ensures st == Ok ==> fileOpen && FileOk() && taken == 0 && curSeg == k
                           && |stream.log.live| == stream.cur - stream.oldest + 1
                           && seg == stream.log.live[k - stream.oldest]
      ensures st != Ok ==> !fileOpen && curSeg == old(curSeg)
    {
      hide Stream.Valid, SegBytes, SegOk, EncodeAll, AllFit, SegsOk, LearnLayout, Size, Whole;
      WindowSound(stream);
      fileOpen := false;
      if k !in stream.files {
        return NotFound;
      }
      SegmentSound(stream, k);
      file, fileOpen, curSeg := stream.files[k], true, k;
      var layout := LearnLayout(file);
      fmt, base := layout.fmt, layout.base;
      seg, taken := stream.log.live[k - stream.oldest], 0;
      WholeOf(fmt, |seg.samples|);
      fileOffset := HdrSize(fmt) + if descending then Size(fmt, Whole(fmt, |file| - HdrSize(fmt))) else 0;
      st := Ok;
    }

    /** Move to the next segment in the walk's direction, skipping discarded ones. */
    method NextSegment() returns (st: Status)
      requires Valid()
      modifies this`file, this`fileOpen, this`curSeg, this`fmt, this`base, this`fileOffset, this`seg, this`taken
      ensures Valid() && (st == Ok || st == NotFound)
      ensures st == Ok ==> fileOpen && SegsLeft() < old(SegsLeft()) && InFile() + Beyond() == old(Beyond())
      ensures st == NotFound ==> old(Beyond()) == []
      ensures old(Anchored()) ==> Anchored() && (st == NotFound ==> curSeg == LastSeg())
    {
      hide Stream.Valid, FileOk, Ahead, SegItems, Rest, Directed;
      while true
        invariant Valid() && SegsLeft() <= old(SegsLeft())
        invariant old(Anchored()) ==> Anchored()
        invariant Beyond() == old(Beyond())
        decreases SegsLeft()
      {
        BeyondStep();
        if (if descending then curSeg == segLo else curSeg >= segHi) {
          return NotFound;
        }
        var next := if descending then curSeg - 1 else curSeg + 1;
        st := OpenSegment(next);
        if st == Ok {
          FreshFile();
          return;
        }
        curSeg := next;
      }
    }

    /** What lies beyond the current segment: the next one's records, none when it
        was discarded, and then what lies beyond that. */
    lemma BeyondStep()
      requires Valid()
      ensures SegsOk(fmt, stream.log.live)
      ensures var next := if descending then curSeg - 1 else curSeg + 1;
              var end := if descending then segLo else segHi;
              if (if descending then curSeg == segLo else curSeg >= segHi) then Beyond() == []
              else
                && Beyond() == Directed(descending, SegItems(stream.step, fmt, stream.log, stream.oldest, next))
                               + Ahead(stream.step, fmt, stream.log, stream.oldest, descending, next, end)
                && (!(stream.oldest <= next <= stream.cur) ==>
                      Directed(descending, SegItems(stream.step, fmt, stream.log, stream.oldest, next)) == [])
    {
      hide Stream.Valid, FileOk, Items, SegsOk;
      SegmentsSound(stream);
    }

    /** A file just opened has all its records to visit. */
    lemma FreshFile()
      requires Valid() && fileOpen && taken == 0 && stream.oldest <= curSeg <= stream.cur
      requires |stream.log.live| == stream.cur - stream.oldest + 1 && seg == stream.log.live[curSeg - stream.oldest]
      ensures SegsOk(stream.cfg.Fmt(), stream.log.live)
      ensures InFile() == Directed(descending, SegItems(stream.step, fmt, stream.log, stream.oldest, curSeg))
    {
      hide Items, Directed, SegBytes;
    }

    /** Read the next stored record in the walk's direction, moving across files. */
    method ReadFileRecord() returns (st: Status, raw: seq<byte>)
      requires Valid() && !fileDone
      modifies this`file, this`fileOpen, this`curSeg, this`fmt, this`base, this`fileOffset, this`seg, this`taken
      ensures Valid() && (st == Ok || st == NotFound)
      ensures st == NotFound ==> old(FileTodo()) == []
      ensures st == Ok ==>
                fileOpen && Took(stream.step, fmt, base, raw, old(FileTodo()), FileTodo())
      ensures old(Anchored()) ==> Anchored() && (st == NotFound ==> curSeg == LastSeg())
      decreases SegsLeft()
    {
      hide Stream.Valid, FileOk, Rest, Ahead, Decode;
      raw := [];
      if !fileOpen {
        return NotFound, raw;
      }
      var r := RecSize(fmt);
      HandleAt();
      if (if descending then fileOffset < HdrSize(fmt) + r else fileOffset == |file|) {
        st := NextSegment();
        if st == Ok {
          st, raw := ReadFileRecord();
        }
        return;
      }
      raw := ReadOne();
      st := Ok;
    }

    /** Read one record at the handle, leaving it past the record in the walk's direction. */
    method ReadOne() returns (raw: seq<byte>)
      requires Valid() && fileOpen && InFile() != []
      modifies this`fileOffset, this`taken
      ensures Valid() && Took(stream.step, fmt, base, raw, old(InFile()), InFile())
    {
      hide Stream.Valid, Items, Directed, Decode, SegBytes, AllFit;
      HandleAt();
      NextOf(descending, Items(stream.step, fmt, seg.base, seg.samples), taken);
      var at := if descending then fileOffset - RecSize(fmt) else fileOffset;
      raw := file[at..at + RecSize(fmt)];
      fileOffset := if descending then at else at + RecSize(fmt);
      taken := taken + 1;
    }

    /** Where the handle stands: past the last record of the walk, or on one. */
    lemma HandleAt()
      requires Valid() && fileOpen
      ensures HdrSize(fmt) <= fileOffset <= |file|
      ensures descending ==> (fileOffset < HdrSize(fmt) + RecSize(fmt) <==> InFile() == [])
      ensures !descending ==> (fileOffset == |file| <==> InFile() == [])
      ensures InFile() != [] ==>
                var at := if descending then fileOffset - RecSize(fmt) else fileOffset;
                && HdrSize(fmt) <= at && at + RecSize(fmt) <= |file|
                && file[at..at + RecSize(fmt)] == InFile()[0].raw
                && Reads(stream.step, fmt, base, InFile()[0].raw, InFile()[0].s)
    {
      hide Stream.Valid, SegBytes, Encode, Decode, AllFit, EncodeAll;
      var n := |seg.samples|;
      if taken < n {
        var i := if descending then n - 1 - taken else taken;
        RecordAt(stream.step, fmt, stream.id, seg, i);
        NextOf(descending, Items(stream.step, fmt, seg.base, seg.samples), taken);
      }
    }

    /** Where the next buffered record of the walk lies, and what it decodes to. */
    lemma RamAt()
      requires Valid()
      ensures ramOffset + RecSize(fmt) <= stream.used <==> RamTodo() != []
      ensures stream.used <= stream.buf.Length
      ensures RamTodo() != [] ==>
                var at := if descending then stream.used - ramOffset - RecSize(fmt) else ramOffset;
                && 0 <= at && at + RecSize(fmt) <= stream.used
                && stream.buf[at..at + RecSize(fmt)] == RamTodo()[0].raw
                && Reads(stream.step, fmt, stream.base, RamTodo()[0].raw, RamTodo()[0].s)
                && ramTaken < |stream.log.pending|
                && AllFit(fmt, stream.base, stream.log.pending)
                && Rest(descending, Items(stream.step, fmt, stream.base, stream.log.pending), ramTaken + 1) == RamTodo()[1..]
    {
      hide Stream.Valid, FileOk, Encode, Decode, AllFit, EncodeAll, Directed;
      WindowSound(stream);
      var p := stream.log.pending;
      if ramTaken < |p| {
        var i := if descending then |p| - 1 - ramTaken else ramTaken;
        WindowFits(stream, i);
        EncodeSlice(stream.step, fmt, stream.base, p, i);
        DecodeEncode(stream.step, fmt, stream.base, p[i]);
        NextOf(descending, Items(stream.step, fmt, stream.base, p), ramTaken);
        ArraySlice(stream.buf, stream.used, Size(fmt, i), Size(fmt, i + 1));
      }
    }

    /** Walk the ingest buffer to the next match. */
    method NextRam() returns (st: Status, it: Item)
      requires Valid()
      modifies this`ramOffset, this`ramTaken
      ensures Valid() && (st == Ok || st == NotFound)
      ensures st == NotFound ==> Filter(query, old(RamTodo())) == [] && RamTodo() == []
      ensures st == Ok ==> Filter(query, old(RamTodo())) == [it] + Filter(query, RamTodo())
    {
      hide Stream.Valid, FileOk, Rest, Items, Decode;
      var r := RecSize(fmt);
      it := Item([], Sample(0, 0));
      RamAt();
      while ramOffset + r <= stream.used
        invariant Valid()
        invariant ramOffset + r <= stream.used <==> RamTodo() != []
        invariant Filter(query, RamTodo()) == Filter(query, old(RamTodo()))
        decreases stream.used - ramOffset
      {
        RamAt();
        var at := if descending then stream.used - ramOffset - r else ramOffset;
        var raw := stream.buf[at..at + r];
        var d := Decode(stream.step, fmt, stream.base, raw);
        it := Item(raw, d.sample);
        ghost var todo := RamTodo();
        assert it == todo[0];
        ramOffset := ramOffset + r;
        ramTaken := ramTaken + 1;
        assert RamTodo() == todo[1..];
        RamAt();
        if query.Matches(it) {
          return Ok, it;
        }
      }
      st := NotFound;
    }

    /** Walk the stored segments to the next match. */
    method NextStored() returns (st: Status, it: Item)
      requires Valid()
      modifies this`file, this`fileOpen, this`curSeg, this`fmt, this`base, this`fileOffset, this`seg, this`taken,
               this`fileDone
      ensures Valid() && (st == Ok || st == NotFound)
      ensures st == NotFound ==> Filter(query, old(FileTodo())) == [] && FileTodo() == []
      ensures st == Ok ==> Filter(query, old(FileTodo())) == [it] + Filter(query, FileTodo())
      ensures old(Anchored()) ==> Anchored()
      ensures old(Anchored() && Ended()) ==> Ended() && (st == NotFound ==> fileDone)
    {
      hide Stream.Valid, FileOk, InFile, Beyond, Decode, Anchored;
      it := Item([], Sample(0, 0));
      while !fileDone
        invariant Valid()
        invariant Filter(query, FileTodo()) == Filter(query, old(FileTodo()))
        invariant old(Anchored()) ==> Anchored()
        invariant old(Anchored() && Ended()) ==> Ended()
        decreases |FileTodo()|
      {
        ghost var todo := FileTodo();
        var raw;
        st, raw := ReadFileRecord();
        if st == NotFound {
          fileDone := true;
          return;
        }
        var d := Decode(stream.step, fmt, base, raw);
        it := Item(raw, d.sample);
        assert it == todo[0] && FileTodo() == todo[1..];
        if query.Matches(it) {
          return;
        }
      }
      st := NotFound;
    }

    /** Yield the next matching record: buffer first when descending, last when ascending. */
    method Next() returns (st: Status, it: Item)
      requires Valid()
      modifies this
      ensures Valid() && (st == Ok || st == NotFound)
      ensures st == NotFound ==> Filter(query, old(Todo())) == [] && Filter(query, Todo()) == []
      ensures st == Ok ==> Filter(query, old(Todo())) == [it] + Filter(query, Todo())
      ensures old(Anchored()) ==> Anchored()
      ensures old(Anchored() && Ended()) ==> Ended() && (st == NotFound ==> fileDone)
    {
      hide Stream.Valid, FileOk, FileTodo, RamTodo, Filter, Anchored;
      FilterNone(query);
      FilterConcat(query, if descending then RamTodo() else FileTodo(), if descending then FileTodo() else RamTodo());
      if descending {
        st, it := NextRam();
        if st == NotFound {
          st, it := NextStored();
        }
      } else {
        st, it := NextStored();
        if st == NotFound {
          st, it := NextRam();
        }
      }
      FilterConcat(query, if descending then RamTodo() else FileTodo(), if descending then FileTodo() else RamTodo());
    }

    /** Walk to the end. Todo is a fixed finite sequence, so the walk terminates. */
    method WalkAll() returns (out: seq<Item>)
      requires Valid()
      modifies this
      ensures Valid() && out == Filter(query, old(Todo()))
      ensures old(Anchored()) ==> Anchored()
      ensures old(Anchored() && Ended()) ==> Ended() && fileDone
    {
      hide Stream.Valid, Valid, Todo, Filter, Anchored;
      out := [];
      while true
        invariant Valid() && (old(Anchored()) ==> Anchored()) && (old(Anchored() && Ended()) ==> Ended())
        invariant out + Filter(query, Todo()) == Filter(query, old(Todo()))
        decreases |Filter(query, Todo())|
      {
        var st, it := Next();
        if st == NotFound {
          return;
        }
        out := out + [it];
      }
    }

    /** The records of the open file fill it exactly. */
    lemma FileWhole()
      requires FileOk()
      ensures |file| == HdrSize(fmt) + Size(fmt, |seg.samples|)
      ensures Whole(fmt, |file| - HdrSize(fmt)) == |seg.samples|
    {
      hide AllFit;
    }

    /** Rewind the buffer position and the file that is open now, and nothing else. */
    method Reset()
      requires Valid()
      modifies this`ramOffset, this`ramTaken, this`fileDone, this`fileOffset, this`taken
      ensures Valid() && !fileDone && ramTaken == 0 && (fileOpen ==> taken == 0)
      ensures old(Anchored()) ==> Anchored()
    {
      hide Stream.Valid, SegBytes, AllFit, SegOk;
      ramOffset, ramTaken := 0, 0;
      fileDone := false;
      if fileOpen {
        FileWhole();
        taken := 0;
      }
      fileOffset := HdrSize(fmt);
      if descending && |file| > HdrSize(fmt) {
        fileOffset := HdrSize(fmt) + Size(fmt, Whole(fmt, |file| - HdrSize(fmt)));
      }
    }
  }

  lemma WholeOf(fmt: Format, n: nat)
    ensures Whole(fmt, Size(fmt, n)) == n && Size(fmt, 0) == 0
  {
  }

  lemma {:induction false} FilterConcat(q: Query, a: seq<Item>, b: seq<Item>)
    ensures Filter(q, a + b) == Filter(q, a) + Filter(q, b)
    decreases |a|
  {
    if a == [] {
      assert a + b == b;
    } else {
      assert (a + b)[1..] == a[1..] + b;
      FilterConcat(q, a[1..], b);
    }
  }

  lemma FilterNone(q: Query)
    ensures Filter(q, []) == []
  {
  }

  lemma ArraySlice(b: array<byte>, u: nat, x: nat, y: nat)
    requires x <= y <= u <= b.Length
    ensures b[..u][x..y] == b[x..y]
  {
  }

  lemma WindowFits(s: Stream, i: nat)
    requires AllFit(s.cfg.Fmt(), s.base, s.log.pending) && i < |s.log.pending|
    ensures Fits(s.cfg.Fmt(), s.base, s.log.pending[i])
  {
  }

  lemma NextOf(desc: bool, items: seq<Item>, n: nat)
    requires n < |items|
    ensures Rest(desc, items, n)[0] == items[if desc then |items| - 1 - n else n]
    ensures Rest(desc, items, n + 1) == Rest(desc, items, n)[1..]
  {
    if desc {
      RevAt(items, n);
    }
  }

  /** Record i of a segment file sits at its stride and decodes to sample i. */
  lemma RecordAt(step: CrcStep, fmt: Format, id: u32, g: Seg, i: nat)
    requires SegOk(fmt, g) && i < |g.samples|
    ensures Size(fmt, i) + RecSize(fmt) <= Size(fmt, |g.samples|)
    ensures SegBytes(step, fmt, id, g)[HdrSize(fmt) + Size(fmt, i)..HdrSize(fmt) + Size(fmt, i) + RecSize(fmt)]
         == Encode(step, fmt, g.base, g.samples[i])
    ensures Decode(step, fmt, g.base, Encode(step, fmt, g.base, g.samples[i])) == Good(g.samples[i])
  {
    hide Header, Encode, Decode, EncodeAll;
    EncodeSlice(step, fmt, g.base, g.samples, i);
    DecodeEncode(step, fmt, g.base, g.samples[i]);
    var e := EncodeAll(step, fmt, g.base, g.samples);
    var h := Header(step, fmt, id, g.base);
    assert (h + e)[|h| + Size(fmt, i)..|h| + Size(fmt, i + 1)] == e[Size(fmt, i)..Size(fmt, i + 1)];
  }

  lemma WindowSound(s: Stream)
    requires s.Valid()
    ensures s.oldest <= s.cur && |s.log.live| == s.cur - s.oldest + 1
    ensures forall k :: k in s.files <==> s.oldest <= k <= s.cur
    ensures SegsOk(s.cfg.Fmt(), s.log.live) && AllFit(s.cfg.Fmt(), s.base, s.log.pending)
    ensures s.used == Size(s.cfg.Fmt(), |s.log.pending|) <= s.buf.Length
    ensures s.buf[..s.used] == EncodeAll(s.step, s.cfg.Fmt(), s.base, s.log.pending)
  {
    hide SegBytes, Encode;
  }

  lemma SegmentsSound(s: Stream)
    requires s.Valid()
    ensures |s.log.live| == s.cur - s.oldest + 1 && SegsOk(s.cfg.Fmt(), s.log.live)
  {
  }

  lemma SegmentSound(s: Stream, k: nat)
    requires s.Valid() && s.oldest <= k <= s.cur
    ensures k in s.files && 0 <= k - s.oldest < |s.log.live|
    ensures var g := s.log.live[k - s.oldest];
            && SegOk(s.cfg.Fmt(), g) && s.files[k] == SegBytes(s.step, s.cfg.Fmt(), s.id, g)
            && LearnLayout(s.files[k]) == HeaderCheck.Valid(s.cfg.Fmt(), g.base)
            && |s.files[k]| == HdrSize(s.cfg.Fmt()) + Size(s.cfg.Fmt(), |g.samples|)
  {
    hide EncodeAll, Header, LearnLayout;
    var i := k - s.oldest;
    s.SegmentSize(i);
    assert s.files[s.oldest + i] == SegBytes(s.step, s.cfg.Fmt(), s.id, s.log.live[i]);
  }

  // What a walk yields

  /** The records of segments, oldest first. */
  function LogItems(step: CrcStep, fmt: Format, gs: seq<Seg>): seq<Item>
    requires SegsOk(fmt, gs)
  {
    if gs == [] then []
    else LogItems(step, fmt, gs[..|gs| - 1]) + Items(step, fmt, gs[|gs| - 1].base, gs[|gs| - 1].samples)
  }

  function Samples(items: seq<Item>): (r: seq<Sample>)
    ensures |r| == |items|
  {
    seq(|items|, i requires 0 <= i < |items| => items[i].s)
  }

  /** Every record the stream holds, oldest first: segments, then the buffer. */
  ghost function AllItems(s: Stream): seq<Item>
    requires s.Valid()
    reads s, s.buf
  {
    LogItems(s.step, s.cfg.Fmt(), s.log.live) + Items(s.step, s.cfg.Fmt(), s.base, s.log.pending)
  }

  lemma {:induction false} LogItemsConcat(step: CrcStep, fmt: Format, a: seq<Seg>, b: seq<Seg>)
    requires SegsOk(fmt, a) && SegsOk(fmt, b)
    ensures SegsOk(fmt, a + b)
    ensures LogItems(step, fmt, a + b) == LogItems(step, fmt, a) + LogItems(step, fmt, b)
    decreases |b|
  {
    hide SegOk, Items;
    if b == [] {
      assert a + b == a;
    } else {
      var n := |b| - 1;
      assert (a + b)[..|a + b| - 1] == a + b[..n];
      LogItemsConcat(step, fmt, a, b[..n]);
    }
  }

  lemma NoItems(step: CrcStep, fmt: Format)
    ensures SegsOk(fmt, []) && LogItems(step, fmt, []) == []
  {
  }

  lemma OneSegItems(step: CrcStep, fmt: Format, l: Log, lo: nat, k: nat)
    requires SegsOk(fmt, l.live) && lo <= k < lo + |l.live|
    ensures SegsOk(fmt, [l.live[k - lo]])
    ensures LogItems(step, fmt, [l.live[k - lo]]) == SegItems(step, fmt, l, lo, k)
  {
    hide Items;
    assert [l.live[k - lo]][..0] == [];
  }

  lemma {:induction false} AheadUp(step: CrcStep, fmt: Format, l: Log, lo: nat, at: nat, end: nat)
    requires SegsOk(fmt, l.live) && lo <= at <= end < lo + |l.live|
    ensures SegsOk(fmt, l.live[at + 1 - lo..end + 1 - lo])
    ensures Ahead(step, fmt, l, lo, false, at, end) == LogItems(step, fmt, l.live[at + 1 - lo..end + 1 - lo])
    decreases end - at
  {
    hide SegsOk, Items, SegItems, LogItems;
    NoItems(step, fmt);
    if at == end {
      assert l.live[at + 1 - lo..end + 1 - lo] == [];
    } else {
      AheadUp(step, fmt, l, lo, at + 1, end);
      OneSegItems(step, fmt, l, lo, at + 1);
      var one, rest := [l.live[at + 1 - lo]], l.live[at + 2 - lo..end + 1 - lo];
      LogItemsConcat(step, fmt, one, rest);
      assert one + rest == l.live[at + 1 - lo..end + 1 - lo];
    }
  }

  lemma {:induction false} AheadDown(step: CrcStep, fmt: Format, l: Log, lo: nat, at: nat)
    requires SegsOk(fmt, l.live) && lo <= at < lo + |l.live|
    ensures SegsOk(fmt, l.live[..at - lo])
    ensures Ahead(step, fmt, l, lo, true, at, lo) == Rev(LogItems(step, fmt, l.live[..at - lo]))
    decreases at
  {
    hide SegsOk, Items, SegItems, LogItems;
    SegsOkSplit(fmt, l.live, at - lo);
    if lo == at {
      assert l.live[..0] == [] && LogItems(step, fmt, []) == [] by {
        NoItems(step, fmt);
      }
    } else {
      AheadDown(step, fmt, l, lo, at - 1);
      OneSegItems(step, fmt, l, lo, at - 1);
      var rest, one := l.live[..at - 1 - lo], [l.live[at - 1 - lo]];
      LogItemsConcat(step, fmt, rest, one);
      assert rest + one == l.live[..at - lo];
      RevConcat(LogItems(step, fmt, rest), LogItems(step, fmt, one));
    }
  }

  /** The segments a walk that stands at segment k has before it. */
  function Left(l: Log, lo: nat, desc: bool, k: nat): seq<Seg>
    requires lo <= k < lo + |l.live|
  {
    if desc then l.live[..k - lo + 1] else l.live[k - lo..]
  }

  /** The segments such a walk has already left behind. */
  function Passed(l: Log, lo: nat, desc: bool, k: nat): seq<Seg>
    requires lo <= k < lo + |l.live|
  {
    if desc then l.live[k - lo + 1..] else l.live[..k - lo]
  }

  /** From segment k on, a walk meets exactly the records of the segments left. */
  lemma AheadFrom(step: CrcStep, fmt: Format, l: Log, lo: nat, desc: bool, k: nat)
    requires SegsOk(fmt, l.live) && lo <= k < lo + |l.live|
    ensures SegsOk(fmt, Left(l, lo, desc, k))
    ensures Directed(desc, SegItems(step, fmt, l, lo, k))
            + Ahead(step, fmt, l, lo, desc, k, if desc then lo else lo + |l.live| - 1)
            == Directed(desc, LogItems(step, fmt, Left(l, lo, desc, k)))
  {
    hide SegsOk, Items, SegItems, Ahead, LogItems, Rev;
    OneSegItems(step, fmt, l, lo, k);
    var i, n := k - lo, |l.live|;
    var one := [l.live[i]];
    if desc {
      AheadDown(step, fmt, l, lo, k);
      assert l.live[..i + 1] == l.live[..i] + one;
      LogItemsConcat(step, fmt, l.live[..i], one);
      RevConcat(LogItems(step, fmt, l.live[..i]), LogItems(step, fmt, one));
    } else {
      AheadUp(step, fmt, l, lo, k, lo + n - 1);
      assert l.live[i..] == one + l.live[i + 1..n];
      LogItemsConcat(step, fmt, one, l.live[i + 1..n]);
    }
  }

  /** The cursor stands at the start of its open file, and the stream's window is the
      one it was opened over: opening leaves a cursor so, and so does every reset of a
      cursor that walked any distance over a stream that did not change. */
  ghost predicate Rewound(c: Cursor)
    reads c, c.stream, c.stream.buf
  {
    c.Valid() && c.Anchored() && !c.fileDone && c.taken == 0 && c.ramTaken == 0
  }

  /** The cursor is as its constructor leaves it. */
  ghost predicate Fresh(c: Cursor)
    reads c, c.stream, c.stream.buf
  {
    Rewound(c) && c.curSeg == if c.descending then c.segHi else c.segLo
  }

  lemma RewoundFileTodo(c: Cursor)
    requires Rewound(c)
    ensures var left := Left(c.stream.log, c.stream.oldest, c.descending, c.curSeg);
            && SegsOk(c.stream.cfg.Fmt(), left)
            && c.FileTodo() == Directed(c.descending, LogItems(c.stream.step, c.stream.cfg.Fmt(), left))
  {
    hide Stream.Valid, SegItems, LogItems, Ahead, Cursor.FileOk, Cursor.InFile, Directed, SegsOk, Rest, Left, AllFit,
         EncodeAll, Items;
    var s, fmt := c.stream, c.stream.cfg.Fmt();
    SegmentsSound(s);
    c.FreshFile();
    AheadFrom(s.step, fmt, s.log, s.oldest, c.descending, c.curSeg);
  }

  lemma RewoundRamTodo(c: Cursor)
    requires Rewound(c)
    ensures AllFit(c.stream.cfg.Fmt(), c.stream.base, c.stream.log.pending)
    ensures c.RamTodo() == Directed(c.descending,
                             Items(c.stream.step, c.stream.cfg.Fmt(), c.stream.base, c.stream.log.pending))
  {
    hide Stream.Valid, Cursor.FileOk, Directed, AllFit, Items;
    WindowSound(c.stream);
  }

  /** A rewound cursor visits the records of the segments left and of the buffer. */
  lemma RewoundSees(c: Cursor)
    requires Rewound(c)
    ensures var left := Left(c.stream.log, c.stream.oldest, c.descending, c.curSeg);
            && SegsOk(c.stream.cfg.Fmt(), left)
            && AllFit(c.stream.cfg.Fmt(), c.stream.base, c.stream.log.pending)
            && c.Todo() == Directed(c.descending, LogItems(c.stream.step, c.stream.cfg.Fmt(), left)
                             + Items(c.stream.step, c.stream.cfg.Fmt(), c.stream.base, c.stream.log.pending))
  {
    hide Stream.Valid, Cursor.FileOk, Cursor.FileTodo, Cursor.RamTodo, Rev, AllFit, SegsOk, LogItems, Items, Left;
    RewoundFileTodo(c);
    RewoundRamTodo(c);
    var left := Left(c.stream.log, c.stream.oldest, c.descending, c.curSeg);
    if c.descending {
      RevConcat(LogItems(c.stream.step, c.stream.cfg.Fmt(), left),
                Items(c.stream.step, c.stream.cfg.Fmt(), c.stream.base, c.stream.log.pending));
    }
  }

  /** A newly opened cursor has every record of the stream before it, in order when
      ascending and in exactly the reverse order when descending. */
  lemma FreshCursorSeesAll(c: Cursor)
    requires Fresh(c)
    ensures c.Todo() == Directed(c.descending, AllItems(c.stream))
  {
    hide Stream.Valid, Cursor.FileOk, Cursor.Todo, Rev, AllFit, SegsOk, LogItems, Items;
    RewoundSees(c);
    var l := c.stream.log.live;
    assert l[..|l|] == l && l[0..] == l;
  }

  /** A rewound cursor repeats what the whole walk yields if and only if nothing in the
      segments it had passed matches the query; in the single-file layout there are no
      such segments. Every record is met again exactly when they hold none. */
  lemma RewoundRepeats(c: Cursor, q: Query)
    requires Rewound(c)
    ensures SegsOk(c.stream.cfg.Fmt(), PassedBy(c))
    ensures Filter(q, c.Todo()) == Filter(q, Directed(c.descending, AllItems(c.stream)))
       <==> Filter(q, LogItems(c.stream.step, c.stream.cfg.Fmt(), PassedBy(c))) == []
    ensures c.Todo() == Directed(c.descending, AllItems(c.stream)) <==> Flat(PassedBy(c)) == []
    ensures c.stream.oldest == c.stream.cur ==>
              PassedBy(c) == [] && Filter(q, c.Todo()) == Filter(q, Directed(c.descending, AllItems(c.stream)))
  {
    hide Stream.Valid, Cursor.FileOk, Cursor.Todo, Directed, AllFit, SegsOk, LogItems, Items, Flat, Left, Passed, Filter,
         EncodeAll, Size, Rev, Ahead;
    var s, fmt := c.stream, c.stream.cfg.Fmt();
    SegmentsSound(s);
    RewoundSees(c);
    PassedMatters(s.step, fmt, s.log, s.oldest, c.descending, c.curSeg, Items(s.step, fmt, s.base, s.log.pending), q);
    NonePassed(s.log, s.oldest, c.descending);
    NoItems(s.step, fmt);
    FilterNone(q);
  }

  /** The segments the walk of a rewound cursor had left behind. */
  ghost function PassedBy(c: Cursor): seq<Seg>
    requires Rewound(c)
    reads c, c.stream, c.stream.buf
  {
    Passed(c.stream.log, c.stream.oldest, c.descending, c.curSeg)
  }

  lemma NonePassed(l: Log, lo: nat, desc: bool)
    ensures |l.live| == 1 ==> Passed(l, lo, desc, lo) == []
  {
  }

  lemma PassedMatters(step: CrcStep, fmt: Format, l: Log, lo: nat, desc: bool, k: nat, ram: seq<Item>, q: Query)
    requires SegsOk(fmt, l.live) && lo <= k < lo + |l.live|
    ensures SegsOk(fmt, Left(l, lo, desc, k)) && SegsOk(fmt, Passed(l, lo, desc, k))
    ensures Filter(q, Directed(desc, LogItems(step, fmt, Left(l, lo, desc, k)) + ram))
         == Filter(q, Directed(desc, LogItems(step, fmt, l.live) + ram))
       <==> Filter(q, LogItems(step, fmt, Passed(l, lo, desc, k))) == []
    ensures Directed(desc, LogItems(step, fmt, Left(l, lo, desc, k)) + ram)
         == Directed(desc, LogItems(step, fmt, l.live) + ram)
       <==> Flat(Passed(l, lo, desc, k)) == []
  {
    hide SegsOk, LogItems, Flat, Directed, Filter;
    var left, passed := Left(l, lo, desc, k), Passed(l, lo, desc, k);
    SegsOkSplit(fmt, l.live, k - lo);
    SegsOkSplit(fmt, l.live, k - lo + 1);
    if desc {
      SplitItems(step, fmt, left, passed, l.live);
    } else {
      SplitItems(step, fmt, passed, left, l.live);
    }
    var x, p := LogItems(step, fmt, left), LogItems(step, fmt, passed);
    if Flat(passed) == [] {
      assert LogItems(step, fmt, l.live) == x;
    }
    FilterLength(q, desc, x + ram);
    FilterLength(q, desc, LogItems(step, fmt, l.live) + ram);
    FilterSplits(q, x, p, ram);
    FilterSplits(q, p, x, ram);
    if Filter(q, p) == [] {
      FilterDirected(q, desc, x + ram, LogItems(step, fmt, l.live) + ram);
    }
  }

  lemma FilterLength(q: Query, desc: bool, items: seq<Item>)
    ensures |Filter(q, Directed(desc, items))| == |Filter(q, items)|
  {
    FilterRev(q, items);
  }

  lemma FilterDirected(q: Query, desc: bool, a: seq<Item>, b: seq<Item>)
    requires Filter(q, a) == Filter(q, b)
    ensures Filter(q, Directed(desc, a)) == Filter(q, Directed(desc, b))
  {
    FilterRev(q, a);
    FilterRev(q, b);
  }

  lemma FilterSplits(q: Query, a: seq<Item>, b: seq<Item>, ram: seq<Item>)
    ensures Filter(q, (a + b) + ram) == Filter(q, a) + Filter(q, b) + Filter(q, ram)
    ensures Filter(q, a + ram) == Filter(q, a) + Filter(q, ram)
  {
    hide Filter;
    FilterConcat(q, a + b, ram);
    FilterConcat(q, a, b);
    FilterConcat(q, a, ram);
  }

  lemma SplitItems(step: CrcStep, fmt: Format, a: seq<Seg>, b: seq<Seg>, all: seq<Seg>)
    requires SegsOk(fmt, a) && SegsOk(fmt, b) && SegsOk(fmt, all) && all == a + b
    ensures LogItems(step, fmt, all) == LogItems(step, fmt, a) + LogItems(step, fmt, b)
    ensures |LogItems(step, fmt, a)| == |Flat(a)| && |LogItems(step, fmt, b)| == |Flat(b)|
  {
    hide SegsOk, LogItems, Flat;
    LogItemsConcat(step, fmt, a, b);
    LogItemsSamples(step, fmt, a);
    LogItemsSamples(step, fmt, b);
  }

  lemma {:induction false} FilterRev(q: Query, items: seq<Item>)
    ensures Filter(q, Rev(items)) == Rev(Filter(q, items))
    decreases |items|
  {
    if items != [] {
      FilterRev(q, items[1..]);
      FilterConcat(q, Rev(items[1..]), [items[0]]);
      var f := Filter(q, items[1..]);
      assert Filter(q, [items[0]]) == if q.Matches(items[0]) then [items[0]] else [];
      if q.Matches(items[0]) {
        RevConcat([items[0]], f);
        assert Rev([items[0]]) == [items[0]];
      }
    }
  }

  /** Walk the whole stream. On a quiescent stream an ascending walk yields exactly
      the matching records in order, a descending walk exactly their reverse. */
  method Walk(s: Stream, q: Query, descending: bool) returns (out: seq<Item>)
    requires s.Valid()
    ensures s.Valid()
    ensures out == if descending then Rev(Filter(q, AllItems(s))) else Filter(q, AllItems(s))
    ensures forall it :: it in out <==> it in AllItems(s) && Selected(q, it)
  {
    hide Stream.Valid, Cursor.Valid, Cursor.Todo, Cursor.FileOk, AllItems, Filter, Rev, SegsOk, AllFit, EncodeAll;
    var c := new Cursor(s, q, descending);
    WindowSound(s);
    FreshCursorSeesAll(c);
    FilterRev(q, AllItems(s));
    out := c.WalkAll();
    forall it
      ensures it in out <==> it in AllItems(s) && Selected(q, it)
    {
      RevHas(Filter(q, AllItems(s)), it);
      FilterSelects(q, AllItems(s), it);
    }
  }

  /** Walk any number of records, reset the cursor where it stands, and walk again. The
      second walk yields exactly the matches in the segments from there on and in the
      buffer. It repeats the whole walk if and only if nothing in the segments passed
      matches, and always does in the single-file layout. A first walk to the end
      passes all segments but the last. */
  method WalkResetWalk(s: Stream, q: Query, descending: bool, steps: nat)
    returns (first: seq<Item>, again: seq<Item>, at: nat)
    requires s.Valid()
    ensures s.Valid() && s.oldest <= at <= s.cur && |s.log.live| == s.cur - s.oldest + 1
    ensures var all := Filter(q, Directed(descending, AllItems(s)));
            && first == all[..if steps < |all| then steps else |all|]
            && (steps > |all| ==> at == if descending then s.oldest else s.cur)
            && (s.oldest == s.cur ==> again == all)
            && SegsOk(s.cfg.Fmt(), Passed(s.log, s.oldest, descending, at))
            && (again == all <==>
                Filter(q, LogItems(s.step, s.cfg.Fmt(), Passed(s.log, s.oldest, descending, at))) == [])
    ensures var left := Left(s.log, s.oldest, descending, at);
            && SegsOk(s.cfg.Fmt(), left) && AllFit(s.cfg.Fmt(), s.base, s.log.pending)
            && again == Filter(q, Directed(descending, LogItems(s.step, s.cfg.Fmt(), left)
                                             + Items(s.step, s.cfg.Fmt(), s.base, s.log.pending)))
  {
    hide Stream.Valid, Cursor.Valid, Cursor.Todo, Cursor.FileOk, AllItems, Filter, Directed, SegsOk, AllFit, EncodeAll,
         LogItems, Items, Left, Passed, Cursor.Anchored, Flat;
    var c := new Cursor(s, q, descending);
    WindowSound(s);
    FreshIs(c);
    FreshCursorSeesAll(c);
    ghost var all := Filter(q, Directed(descending, AllItems(s)));
    first := [];
    var k, done := 0, false;
    while k < steps && !done
      invariant c.Valid() && c.Anchored() && c.Ended() && c.stream == s && c.query == q && k <= steps
      invariant all == first + Filter(q, c.Todo())
      invariant !done ==> |first| == k
      invariant done ==> first == all && c.fileDone && k > |all|
    {
      var st, it := c.Next();
      k := k + 1;
      if st == NotFound {
        done := true;
        assert first + [] == first;
      } else {
        first := first + [it];
      }
    }
    assert first == all[..|first|];
    AnchoredAt(c);
    at := c.curSeg;
    c.Reset();
    AnchoredAt(c);
    RewoundRepeats(c, q);
    RewoundSees(c);
    again := c.WalkAll();
  }

  const EARLY := Sample(0, 1)
  const LATE := Sample(0x1_0000_0000, 2)
  const TWO_SEGMENTS := Cfg(true, false, 1000, 2, 64)

  /** Two samples too far apart for one segment: the first walk yields both, the walk
      after a reset only the second. */
  method ResetMisses(step: CrcStep, block: array<byte>) returns (first: seq<Item>, again: seq<Item>)
    requires block.Length == 64
    modifies block
    ensures Samples(first) == [EARLY, LATE] && Samples(again) == [LATE]
  {
    hide Stream.Valid, AllItems, Filter, LogItems, Items, Encode, TsLog.Append, AllFit, SegsOk, Flat;
    var s := new Stream(step, TWO_SEGMENTS, 0, block, map[], None);
    assert SegsOk(V2, []) by { NoItems(step, V2); }
    var st, truncated := s.Open(0, [], Nothing);
    TwoSegments();
    var due;
    st, due := s.Append(EARLY);
    st, due := s.Append(LATE);
    var q := Query(0, 0, None);
    AllItemsAreContents(s);
    FilterEverything(q, AllItems(s));
    FarApart(s.log);
    var at;
    first, again, at := WalkResetWalk(s, q, false, 3);
    assert first == AllItems(s);
    var left := Left(s.log, s.oldest, false, at);
    FilterEverything(q, LogItems(step, V2, left) + Items(step, V2, s.base, s.log.pending));
    LogItemsSamples(step, V2, left);
    ItemsSamples(step, V2, s.base, s.log.pending);
  }

  lemma TwoSegments()
    ensures Wf(TWO_SEGMENTS, InitLog()) && Wf(TWO_SEGMENTS, Log([], [Seg(0, [])], [EARLY], 0))
    ensures TsLog.Append(TWO_SEGMENTS, InitLog(), EARLY) == (Ok, Log([], [Seg(0, [])], [EARLY], 0))
    ensures TsLog.Append(TWO_SEGMENTS, Log([], [Seg(0, [])], [EARLY], 0), LATE)
         == (Ok, Log([], [Seg(0, [EARLY]), Seg(LATE.ts, [])], [LATE], 0))
  {
    var cfg, l0, l1 := TWO_SEGMENTS, InitLog(), Log([], [Seg(0, [])], [EARLY], 0);
    assert Prepared(cfg, l0, EARLY) == l0 && [] + [EARLY] == [EARLY];
    var w := Written(cfg, l1);
    assert w.live == [Seg(0, [EARLY])] && TsLog.Flush(cfg, l1) == w;
    assert w.live + [Seg(LATE.ts, [])] == [Seg(0, [EARLY]), Seg(LATE.ts, [])];
    var p := Start(cfg, w, LATE.ts);
    assert p == Log([], [Seg(0, [EARLY]), Seg(LATE.ts, [])], [], 0);
    assert Prepared(cfg, l1, LATE) == p && [] + [LATE] == [LATE];
  }

  lemma FarApart(l: Log)
    requires l == Log([], [Seg(0, [EARLY]), Seg(LATE.ts, [])], [LATE], 0)
    ensures Contents(l) == [EARLY, LATE] && l.live[1..] == [Seg(LATE.ts, [])] && Flat(l.live[1..]) == []
  {
    assert l.live[..1] == [Seg(0, [EARLY])] && [Seg(0, [EARLY])][..0] == [];
    assert [Seg(LATE.ts, [])][..0] == [];
    assert Flat([Seg(0, [EARLY])]) == [EARLY];
  }

  lemma ItemsSamples(step: CrcStep, fmt: Format, base: u64, ss: seq<Sample>)
    requires AllFit(fmt, base, ss)
    ensures Samples(Items(step, fmt, base, ss)) == ss
  {
    hide Encode;
  }

  lemma FreshIs(c: Cursor)
    requires c.Valid() && c.Anchored() && !c.fileDone && c.taken == 0 && c.ramTaken == 0
    requires c.curSeg == if c.descending then c.segHi else c.segLo
    ensures Fresh(c)
  {
    hide Cursor.Valid, Cursor.Anchored;
  }

  lemma AnchoredAt(c: Cursor)
    requires c.Anchored() && c.Ended()
    ensures c.fileOpen
    ensures c.stream.oldest <= c.curSeg <= c.stream.cur && |c.stream.log.live| == c.stream.cur - c.stream.oldest + 1
    ensures c.fileDone ==> c.curSeg == if c.descending then c.stream.oldest else c.stream.cur
  {
  }

  /** The samples of all records are the contents of the stream. */
  lemma {:induction false} LogItemsSamples(step: CrcStep, fmt: Format, gs: seq<Seg>)
    requires SegsOk(fmt, gs)
    ensures Samples(LogItems(step, fmt, gs)) == Flat(gs)
    decreases |gs|
  {
    hide Fits, Encode;
    if gs != [] {
      LogItemsSamples(step, fmt, gs[..|gs| - 1]);
      var g := gs[|gs| - 1];
      assert Samples(Items(step, fmt, g.base, g.samples)) == g.samples;
    }
  }

  lemma AllItemsAreContents(s: Stream)
    requires s.Valid()
    ensures Samples(AllItems(s)) == Contents(s.log)
  {
    hide Stream.Valid, SegOk, Encode, LogItems;
    WindowSound(s);
    LogItemsSamples(s.step, s.cfg.Fmt(), s.log.live);
    assert Samples(Items(s.step, s.cfg.Fmt(), s.base, s.log.pending)) == s.log.pending;
  }

  lemma {:induction false} FilterEverything(q: Query, items: seq<Item>)
    requires q.Unbounded()
    ensures Filter(q, items) == items
    decreases |items|
  {
    if items != [] {
      FilterEverything(q, items[1..]);
    }
  }

  /** The size arithmetic of the fast count agrees with what an unbounded walk of
      the stream yields, as long as the count fits 32 bits. */
  method CountBothWays(s: Stream, q: Query) returns (count: u32, walked: seq<Item>)
    requires s.Valid() && q.Unbounded()
    ensures |Contents(s.log)| < 0x1_0000_0000 ==> count == |walked|
    ensures Samples(walked) == Contents(s.log)
  {
    hide Stream.Valid, AllItems, Filter;
    count := s.CountAll();
    walked := Walk(s, q, false);
    FilterEverything(q, AllItems(s));
    AllItemsAreContents(s);
  }
}
