/** Aggregates over a window of a stream. */
module TsAggregate {
  import opened Bytes
  import opened TsRecord
  import opened TsLog
  import opened TsStream
  import opened TsCursor

  datatype Agg = Min | Max | Avg | Sum | Count

  datatype AggResult = AggResult(points: nat, value: real, truncated: bool)

  function Values(items: seq<Item>): (r: seq<real>)
    ensures |r| == |items|
  {
    seq(|items|, i requires 0 <= i < |items| => items[i].s.value as real)
  }

  function SumOf(xs: seq<real>): real {
    if xs == [] then 0.0 else SumOf(xs[..|xs| - 1]) + xs[|xs| - 1]
  }

  /** v is the aggregate of the values xs. */
  predicate IsAggregate(agg: Agg, xs: seq<real>, v: real)
    requires xs != []
  {
    match agg
    case Min => v in xs && forall i :: 0 <= i < |xs| ==> v <= xs[i]
    case Max => v in xs && forall i :: 0 <= i < |xs| ==> xs[i] <= v
    case Sum => v == SumOf(xs)
    case Avg => v * |xs| as real == SumOf(xs)
    case Count => v == |xs| as real
  }

  /** What the accumulator holds after the values xs. */
  predicate Accumulated(agg: Agg, xs: seq<real>, acc: real) {
    xs != [] ==>
      match agg
      case Min => IsAggregate(Min, xs, acc)
      case Max => IsAggregate(Max, xs, acc)
      case Sum => acc == SumOf(xs)
      case Avg => acc == SumOf(xs)
      case Count => true
  }

  /** Fold one more value into the accumulator. */
  function Update(agg: Agg, value: real, points: nat, acc: real): real {
    if points == 0 then value
    else match agg
      case Min => if value < acc then value else acc
      case Max => if value > acc then value else acc
      case Sum => acc + value
      case Avg => acc + value
      case Count => acc
  }

  lemma UpdateAccumulates(agg: Agg, xs: seq<real>, value: real, acc: real)
    requires Accumulated(agg, xs, acc)
    ensures Accumulated(agg, xs + [value], Update(agg, value, |xs|, acc))
  {
    var ys := xs + [value];
    assert ys[..|ys| - 1] == xs && ys[|xs|] == value;
    assert forall i :: 0 <= i < |xs| ==> ys[i] == xs[i];
    if xs != [] && (agg.Min? || agg.Max?) {
      var j :| 0 <= j < |xs| && xs[j] == acc;
      assert ys[j] == acc;
    }
  }

  /** The matching records of a window, in stream order. */
  ghost function Matching(s: Stream, from: u64, to: u64): seq<Item>
    requires s.Valid()
    reads s, s.buf
  {
    Filter(Query(from, to, None), AllItems(s))
  }

  /** These are the items with timestamps from one bound up to the other; an upper
      bound of zero is none. */
  ghost predicate Between(m: seq<Item>, items: seq<Item>, from: u64, to: u64) {
    forall it :: it in m <==> it in items && from <= it.s.ts && (to == 0 || it.s.ts <= to)
  }

  /** Aggregate a window. COUNT is uncapped and answers an empty window with 0; the
      others use the first cap matching samples, say so exactly when there were
      more, and report NotFound exactly when there were none. */
  method QueryAggregate(s: Stream, from: u64, to: u64, agg: Agg, cap: nat) returns (st: Status, r: AggResult)
    requires s.Valid() && 1 <= cap && |Contents(s.log)| < 0x1_0000_0000
    ensures s.Valid()
    ensures st == Ok || st == NotFound
    ensures Between(Matching(s, from, to), AllItems(s), from, to)
    ensures st == NotFound <==> agg != Count && Matching(s, from, to) == []
    ensures st == Ok ==>
              var m := Matching(s, from, to);
              var n := if agg == Count then |m| else if |m| < cap then |m| else cap;
              && r.points == n
              && r.truncated == (agg != Count && |m| > cap)
              && (if n == 0 then r.value == 0.0 else IsAggregate(agg, Values(m[..n]), r.value))
  {
    hide Stream.Valid, AllItems, Filter, Cursor.Valid, Cursor.Todo, Contents, IsAggregate, Between;
    var q := Query(from, to, None);
    r := AggResult(0, 0.0, false);
    MatchingIs(q, AllItems(s));
    if agg == Count && q.Unbounded() {
      var fast := s.CountAll();
      CountUnbounded(s, q);
      return Ok, AggResult(fast, fast as real, false);
    }
    var c := new Cursor(s, q, false);
    SegmentsSound(s);
    FreshCursorSeesAll(c);
    ghost var m := Matching(s, from, to);
    var points, acc;
    ghost var seen;
    points, acc, seen := Gather(c, agg, cap);
    assert m[..|seen|] == seen;
    var truncated := false;
    if agg != Count && points == cap {
      var peek, it := c.Next();
      truncated := peek == Ok;
    }
    if points == 0 && agg != Count {
      return NotFound, r;
    }
    var value := if agg == Count then points as real else if agg == Avg then acc / points as real else acc;
    FinalValue(agg, Values(seen), acc);
    return Ok, AggResult(points, value, truncated);
  }

  /** The scan: folds matches into the accumulator until there are none or the cap is
      reached; a count has no cap. */
  method Gather(c: Cursor, agg: Agg, cap: nat) returns (points: nat, acc: real, ghost seen: seq<Item>)
    requires c.Valid()
    modifies c
    ensures c.Valid()
    ensures old(Filter(c.query, c.Todo())) == seen + Filter(c.query, c.Todo())
    ensures points == |seen| && Accumulated(agg, Values(seen), acc)
    ensures agg != Count ==> points <= cap
    ensures agg == Count || points < cap ==> Filter(c.query, c.Todo()) == []
  {
    hide Filter, Cursor.Valid, Cursor.Todo, IsAggregate, Accumulated;
    ghost var m := Filter(c.query, c.Todo());
    seen, points, acc := [], 0, 0.0;
    NoneYet(agg);
    var exhausted := false;
    while !exhausted && (agg == Count || points < cap)
      invariant c.Valid()
      invariant m == seen + Filter(c.query, c.Todo())
      invariant points == |seen| && (agg == Count || points <= cap)
      invariant Accumulated(agg, Values(seen), acc)
      invariant exhausted ==> Filter(c.query, c.Todo()) == []
      decreases !exhausted, |Filter(c.query, c.Todo())|
    {
      var nst, it := c.Next();
      if nst == NotFound {
        exhausted := true;
      } else {
        UpdateAccumulates(agg, Values(seen), it.s.value as real, acc);
        assert Values(seen + [it]) == Values(seen) + [it.s.value as real];
        acc := Update(agg, it.s.value as real, points, acc);
        points := points + 1;
        seen := seen + [it];
      }
    }
  }

  lemma NoneYet(agg: Agg)
    ensures Accumulated(agg, Values([]), 0.0)
  {
  }

  lemma MatchingIs(q: Query, items: seq<Item>)
    requires q.pred.None?
    ensures Between(Filter(q, items), items, q.from, q.to)
  {
    forall it
      ensures it in Filter(q, items) <==> it in items && q.from <= it.s.ts && (q.to == 0 || it.s.ts <= q.to)
    {
      FilterSelects(q, items, it);
    }
  }

  /** Nothing is filtered out of an unbounded window: the count is that of the
      whole stream. */
  lemma CountUnbounded(s: Stream, q: Query)
    requires s.Valid() && q.Unbounded()
    ensures var m := Filter(q, AllItems(s));
            |m| == |Contents(s.log)| && m[..|m|] == m
            && (m != [] ==> IsAggregate(Count, Values(m), |m| as real))
  {
    hide Stream.Valid, Filter, Contents;
    FilterEverything(q, AllItems(s));
    AllItemsAreContents(s);
    CountIs(AllItems(s));
  }

  lemma CountIs(items: seq<Item>)
    ensures items[..|items|] == items
    ensures items != [] ==> IsAggregate(Count, Values(items), |items| as real)
  {
  }

  lemma FinalValue(agg: Agg, xs: seq<real>, acc: real)
    requires Accumulated(agg, xs, acc)
    ensures xs != [] ==>
              IsAggregate(agg, xs, if agg == Count then |xs| as real else if agg == Avg then acc / |xs| as real else acc)
  {
  }
}
