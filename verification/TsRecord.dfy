/** On-storage layouts of the time-series log: records of both formats, segment
    headers, and the segment files built from them. */
module TsRecord {
  import opened Bytes

  const STREAM_MAGIC: u32 := 0x5A44_5453
  const REC_MAGIC: u32 := 0x5A44_5442
  const MAX_DELTA := 0xFFFF_FFFF

  datatype Sample = Sample(ts: u64, value: i64)

  /** V1 is the self-describing record, V2 the compact one whose timestamp is an
      offset from the base its segment header carries. */
  datatype Format = V1 | V2

  datatype Decoded = Good(sample: Sample) | Bad(status: Status)

  function RecSize(fmt: Format): nat {
    if fmt.V1? then 28 else 16
  }

  function HdrSize(fmt: Format): nat {
    if fmt.V1? then 16 else 24
  }

  function VersionOf(fmt: Format): u16 {
    if fmt.V1? then 1 else 2
  }

  /** Bytes that n records occupy. */
  function Size(fmt: Format, n: nat): nat {
    if fmt.V1? then 28 * n else 16 * n
  }

  /** Whole records that b bytes hold. */
  function Whole(fmt: Format, b: nat): nat {
    if fmt.V1? then b / 28 else b / 16
  }

  /** A compact record can only express a timestamp within 32 bits of the base. */
  predicate Fits(fmt: Format, base: u64, s: Sample) {
    fmt.V1? || base <= s.ts <= base + MAX_DELTA
  }

  function Payload(fmt: Format, base: u64, s: Sample): (b: seq<byte>)
    requires Fits(fmt, base, s)
    ensures |b| == RecSize(fmt) - 4
  {
    match fmt
    case V1 => Put32(REC_MAGIC) + Put16(1) + Put16(0) + Put64(s.ts) + Put64(ToUnsigned(s.value))
    case V2 => Put32(s.ts - base) + Put64(ToUnsigned(s.value))
  }

  function Encode(step: CrcStep, fmt: Format, base: u64, s: Sample): (b: seq<byte>)
    requires Fits(fmt, base, s)
    ensures |b| == RecSize(fmt)
  {
    var p := Payload(fmt, base, s);
    p + Put32(Crc(step, 0, p))
  }

  function Decode(step: CrcStep, fmt: Format, base: u64, raw: seq<byte>): Decoded
    requires |raw| == RecSize(fmt)
  {
    match fmt
    case V1 =>
      if Get32(raw[0..4]) != REC_MAGIC then Bad(Corrupt)
      else if Get16(raw[4..6]) != 1 then Bad(Unsupported)
      else if Get32(raw[24..28]) != Crc(step, 0, raw[..24]) then Bad(Corrupt)
      else Good(Sample(Get64(raw[8..16]), ToSigned(Get64(raw[16..24]))))
    case V2 =>
      if Get32(raw[12..16]) != Crc(step, 0, raw[..12]) then Bad(Corrupt)
      else Good(Sample((base + Get32(raw[0..4])) % 0x1_0000_0000_0000_0000, ToSigned(Get64(raw[4..12]))))
  }

  /** A record that fits its base decodes back to the sample it was made from. */
  lemma DecodeEncode(step: CrcStep, fmt: Format, base: u64, s: Sample)
    requires Fits(fmt, base, s)
    ensures Decode(step, fmt, base, Encode(step, fmt, base, s)) == Good(s)
  {
    var raw := Encode(step, fmt, base, s);
    var p := Payload(fmt, base, s);
    match fmt {
      case V1 =>
        assert raw[..24] == p;
        assert raw[24..28] == Put32(Crc(step, 0, p));
        assert raw[0..4] == Put32(REC_MAGIC);
        assert raw[4..6] == Put16(1);
        assert raw[8..16] == Put64(s.ts);
        assert raw[16..24] == Put64(ToUnsigned(s.value));
      case V2 =>
        assert raw[..12] == p;
        assert raw[12..16] == Put32(Crc(step, 0, p));
        assert raw[0..4] == Put32(s.ts - base);
        assert raw[4..12] == Put64(ToUnsigned(s.value));
    }
  }

  /** A record carries the digest of the bytes before it, and a self-describing one
      its magic and version. */
  predicate Intact(step: CrcStep, fmt: Format, raw: seq<byte>)
    requires |raw| == RecSize(fmt)
  {
    && raw[|raw| - 4..] == Put32(Crc(step, 0, raw[..|raw| - 4]))
    && (fmt.V1? ==> raw[..4] == Put32(REC_MAGIC) && raw[4..6] == Put16(1))
  }

  /** A record decodes if and only if it is intact; what does not is CORRUPT, or
      UNSUPPORTED when only its version may be at fault. */
  lemma DecodeIntact(step: CrcStep, fmt: Format, base: u64, raw: seq<byte>)
    requires |raw| == RecSize(fmt)
    ensures Decode(step, fmt, base, raw).Good? <==> Intact(step, fmt, raw)
    ensures !Intact(step, fmt, raw) ==>
              Decode(step, fmt, base, raw)
              == Bad(if fmt.V1? && raw[..4] == Put32(REC_MAGIC) && raw[4..6] != Put16(1) then Unsupported else Corrupt)
  {
    hide Crc, Le, FromLe;
    var n := |raw|;
    assert raw[0..4] == raw[..4] && raw[n - 4..n] == raw[n - 4..];
    PutGet(raw[..4]);
    PutGet(raw[4..6]);
    PutGet(raw[n - 4..]);
  }

  /** A record that decodes is the encoding of its sample: a compact one whenever its
      timestamp does not wrap, a self-describing one up to the reserved half-word. */
  lemma DecodeSound(step: CrcStep, fmt: Format, base: u64, raw: seq<byte>)
    requires |raw| == RecSize(fmt) && Decode(step, fmt, base, raw).Good?
    ensures var s := Decode(step, fmt, base, raw).sample;
            match fmt
            case V1 =>
              var e := Encode(step, V1, base, s);
              raw[..6] == e[..6] && raw[8..24] == e[8..24] && (raw[6..8] == Put16(0) ==> raw == e)
            case V2 =>
              base + Get32(raw[..4]) < 0x1_0000_0000_0000_0000 ==> Fits(V2, base, s) && raw == Encode(step, V2, base, s)
  {
    hide Crc, Le, FromLe;
    DecodeIntact(step, fmt, base, raw);
    var s := Decode(step, fmt, base, raw).sample;
    match fmt {
      case V1 =>
        PutGet(raw[8..16]);
        PutGet(raw[16..24]);
        var p := Payload(V1, base, s);
        assert raw[0..4] == raw[..4];
        assert p == ((Put32(REC_MAGIC) + Put16(1)) + Put16(0)) + (raw[8..16] + raw[16..24]);
        assert raw[..6] == raw[..4] + raw[4..6];
        assert raw[8..24] == raw[8..16] + raw[16..24];
        if raw[6..8] == Put16(0) {
          assert raw[..24] == raw[..6] + raw[6..8] + raw[8..24] == p;
          assert raw == raw[..24] + raw[24..];
        }
      case V2 =>
        if base + Get32(raw[..4]) < 0x1_0000_0000_0000_0000 {
          assert raw[..4] == raw[0..4];
          PutGet(raw[0..4]);
          PutGet(raw[4..12]);
          var p := Payload(V2, base, s);
          assert p == raw[0..4] + raw[4..12] == raw[..12];
          assert raw == raw[..12] + raw[12..];
        }
    }
  }

  /** Whether a record decodes does not depend on the base it is read with. */
  lemma DecodableAnyBase(step: CrcStep, fmt: Format, b0: u64, b1: u64, raw: seq<byte>)
    requires |raw| == RecSize(fmt)
    ensures Decode(step, fmt, b0, raw).Good? <==> Decode(step, fmt, b1, raw).Good?
  {
  }

  predicate AllFit(fmt: Format, base: u64, ss: seq<Sample>) {
    forall i :: 0 <= i < |ss| ==> Fits(fmt, base, ss[i])
  }

  /** Records laid end to end, as the ingest buffer and the segment files hold them. */
  function EncodeAll(step: CrcStep, fmt: Format, base: u64, ss: seq<Sample>): (b: seq<byte>)
    requires AllFit(fmt, base, ss)
    ensures |b| == Size(fmt, |ss|)
  {
    if ss == [] then [] else
      EncodeAll(step, fmt, base, ss[..|ss| - 1]) + Encode(step, fmt, base, ss[|ss| - 1])
  }

  lemma EncodeSnoc(step: CrcStep, fmt: Format, base: u64, ss: seq<Sample>, s: Sample)
    requires AllFit(fmt, base, ss) && Fits(fmt, base, s)
    ensures AllFit(fmt, base, ss + [s])
    ensures EncodeAll(step, fmt, base, ss + [s]) == EncodeAll(step, fmt, base, ss) + Encode(step, fmt, base, s)
  {
    assert (ss + [s])[..|ss + [s]| - 1] == ss;
  }

  lemma {:induction false} EncodeConcat(step: CrcStep, fmt: Format, base: u64, a: seq<Sample>, b: seq<Sample>)
    requires AllFit(fmt, base, a) && AllFit(fmt, base, b)
    ensures AllFit(fmt, base, a + b)
    ensures EncodeAll(step, fmt, base, a + b) == EncodeAll(step, fmt, base, a) + EncodeAll(step, fmt, base, b)
    decreases |b|
  {
    hide Encode;
    if b == [] {
      assert a + b == a;
    } else {
      var b0, s := b[..|b| - 1], b[|b| - 1];
      EncodeConcat(step, fmt, base, a, b0);
      EncodeSnoc(step, fmt, base, a + b0, s);
      assert a + b == (a + b0) + [s];
    }
  }

  /** The first n records are a byte prefix, and record i sits at its stride. */
  lemma EncodeSlice(step: CrcStep, fmt: Format, base: u64, ss: seq<Sample>, i: nat)
    requires AllFit(fmt, base, ss) && i < |ss|
    ensures Size(fmt, i + 1) <= Size(fmt, |ss|)
    ensures EncodeAll(step, fmt, base, ss)[..Size(fmt, i)] == EncodeAll(step, fmt, base, ss[..i])
    ensures EncodeAll(step, fmt, base, ss)[Size(fmt, i)..Size(fmt, i + 1)] == Encode(step, fmt, base, ss[i])
  {
    hide Encode;
    var a, b := ss[..i], ss[i + 1..];
    assert ss == (a + [ss[i]]) + b;
    EncodeConcat(step, fmt, base, a + [ss[i]], b);
    EncodeSnoc(step, fmt, base, a, ss[i]);
  }

  lemma EncodePrefix(step: CrcStep, fmt: Format, base: u64, ss: seq<Sample>, n: nat)
    requires AllFit(fmt, base, ss) && n <= |ss|
    ensures Size(fmt, n) <= Size(fmt, |ss|)
    ensures EncodeAll(step, fmt, base, ss)[..Size(fmt, n)] == EncodeAll(step, fmt, base, ss[..n])
  {
    hide Encode;
    assert ss == ss[..n] + ss[n..];
    EncodeConcat(step, fmt, base, ss[..n], ss[n..]);
  }

  // Segment headers

  function HeaderPrefix(fmt: Format, id: u32, base: u64): (b: seq<byte>)
    ensures |b| == HdrSize(fmt) - 4
  {
    var p := Put32(STREAM_MAGIC) + Put16(VersionOf(fmt)) + Put16(0) + Put32(id);
    if fmt.V1? then p else p + Put64(base)
  }

  /** The header written into a new segment file. */
  function Header(step: CrcStep, fmt: Format, id: u32, base: u64): (b: seq<byte>)
    ensures |b| == HdrSize(fmt)
  {
    var p := HeaderPrefix(fmt, id, base);
    p + Put32(Crc(step, 0, p))
  }

  /** The base a header of this format preserves: V1 headers hold none. */
  function HeldBase(fmt: Format, base: u64): u64 {
    if fmt.V1? then 0 else base
  }

  datatype HeaderCheck = Valid(fmt: Format, base: u64) | Invalid(status: Status)

  /** Validation of an existing, non-empty file's header. */
  function CheckHeader(step: CrcStep, id: u32, file: seq<byte>): HeaderCheck {
    if |file| < 16 then Invalid(Corrupt)
    else if Get16(file[4..6]) == 2 then
      if |file| < 24 then Invalid(Corrupt)
      else if Get32(file[0..4]) != STREAM_MAGIC then Invalid(Corrupt)
      else if Get32(file[20..24]) != Crc(step, 0, file[..20]) then Invalid(Corrupt)
      else if Get32(file[8..12]) != id then Invalid(Corrupt)
      else Valid(V2, Get64(file[12..20]))
    else CheckV1Header(step, id, file)
  }

  /** Validation of a V1 header, whatever version the file declares. */
  function CheckV1Header(step: CrcStep, id: u32, file: seq<byte>): HeaderCheck
    requires 16 <= |file|
  {
    if Get32(file[0..4]) != STREAM_MAGIC then Invalid(Corrupt)
    else if Get16(file[4..6]) != 1 then Invalid(Unsupported)
    else if Get32(file[12..16]) != Crc(step, 0, file[..12]) then Invalid(Corrupt)
    else if Get32(file[8..12]) != id then Invalid(Corrupt)
    else Valid(V1, 0)
  }

  /** A written header is read back as the format and base it was written with,
      whatever follows it in the file. */
  lemma HeaderRoundTrip(step: CrcStep, fmt: Format, id: u32, base: u64, rest: seq<byte>)
    ensures CheckHeader(step, id, Header(step, fmt, id, base) + rest) == Valid(fmt, HeldBase(fmt, base))
  {
    var h := Header(step, fmt, id, base);
    var p := HeaderPrefix(fmt, id, base);
    var f := h + rest;
    assert f[0..4] == Put32(STREAM_MAGIC);
    assert f[4..6] == Put16(VersionOf(fmt));
    assert f[8..12] == Put32(id);
    match fmt {
      case V1 =>
        assert f[..12] == p;
        assert f[12..16] == Put32(Crc(step, 0, p));
      case V2 =>
        assert f[..20] == p;
        assert f[12..20] == Put64(base);
        assert f[20..24] == Put32(Crc(step, 0, p));
    }
  }

  lemma HeaderLayout(step: CrcStep, fmt: Format, id: u32, base: u64, rest: seq<byte>)
    ensures LearnLayout(Header(step, fmt, id, base) + rest) == Valid(fmt, HeldBase(fmt, base))
  {
    var f := Header(step, fmt, id, base) + rest;
    assert f[4..6] == Put16(VersionOf(fmt));
    if fmt.V2? {
      assert f[12..20] == Put64(base);
    }
  }

  /** A header cut short is refused: a file holding a strict, non-empty prefix of
      a header never validates. */
  lemma TornHeaderRefused(step: CrcStep, fmt: Format, id: u32, base: u64, k: nat)
    requires 0 < k < HdrSize(fmt)
    ensures CheckHeader(step, id, Header(step, fmt, id, base)[..k]) == Invalid(Corrupt)
  {
    if 16 <= k {
      var h := Header(step, fmt, id, base);
      HeaderLayout(step, fmt, id, base, []);
      assert h + [] == h && h[..k][4..6] == h[4..6];
    }
  }

  /** A header carries its magic, version, stream and digest. */
  predicate HeaderIntact(step: CrcStep, fmt: Format, id: u32, file: seq<byte>) {
    var h := HdrSize(fmt);
    && h <= |file| && file[..4] == Put32(STREAM_MAGIC) && file[4..6] == Put16(VersionOf(fmt))
    && file[8..12] == Put32(id) && file[h - 4..h] == Put32(Crc(step, 0, file[..h - 4]))
  }

  /** A header validates as a format if and only if it is intact in that format, and
      then with the base it carries. */
  lemma HeaderSound(step: CrcStep, id: u32, file: seq<byte>, fmt: Format)
    ensures (CheckHeader(step, id, file).Valid? && CheckHeader(step, id, file).fmt == fmt)
            <==> HeaderIntact(step, fmt, id, file)
    ensures HeaderIntact(step, fmt, id, file) ==>
              CheckHeader(step, id, file).base == if fmt.V1? then 0 else Get64(file[12..20])
  {
    hide Crc, Le, FromLe;
    if |file| >= 16 {
      assert file[0..4] == file[..4];
      PutGet(file[..4]);
      PutGet(file[4..6]);
      PutGet(file[8..12]);
      PutGet(file[12..16]);
      if |file| >= 24 {
        PutGet(file[20..24]);
      }
    }
  }

  /** Layout a reader learns from a file: header size, stride and base. Files too
      short for a header read as V1. */
  function LearnLayout(file: seq<byte>): HeaderCheck {
    if |file| < 16 || Get16(file[4..6]) != 2 then Valid(V1, 0)
    else if |file| < 24 then Invalid(Corrupt)
    else Valid(V2, Get64(file[12..20]))
  }

  // Segment files

  datatype Seg = Seg(base: u64, samples: seq<Sample>)

  predicate SegOk(fmt: Format, g: Seg) {
    AllFit(fmt, g.base, g.samples) && (fmt.V1? ==> g.base == 0)
  }

  function SegBytes(step: CrcStep, fmt: Format, id: u32, g: Seg): (b: seq<byte>)
    requires SegOk(fmt, g)
    ensures |b| == HdrSize(fmt) + Size(fmt, |g.samples|)
  {
    Header(step, fmt, id, g.base) + EncodeAll(step, fmt, g.base, g.samples)
  }

  lemma LayoutOfSegment(step: CrcStep, fmt: Format, id: u32, g: Seg, rest: seq<byte>)
    requires SegOk(fmt, g)
    ensures LearnLayout(SegBytes(step, fmt, id, g) + rest) == Valid(fmt, g.base)
    ensures CheckHeader(step, id, SegBytes(step, fmt, id, g) + rest) == Valid(fmt, g.base)
  {
    hide EncodeAll, CheckHeader, Header, LearnLayout;
    var tail := EncodeAll(step, fmt, g.base, g.samples) + rest;
    HeaderRoundTrip(step, fmt, id, g.base, tail);
    HeaderLayout(step, fmt, id, g.base, tail);
    assert SegBytes(step, fmt, id, g) + rest == Header(step, fmt, id, g.base) + tail;
  }

  /** The samples of the longest run of decodable records in a payload. */
  function DecodeAll(step: CrcStep, fmt: Format, base: u64, b: seq<byte>): seq<Sample>
    decreases |b|
  {
    if |b| < RecSize(fmt) then []
    else
      var d := Decode(step, fmt, base, b[..RecSize(fmt)]);
      if d.Bad? then [] else [d.sample] + DecodeAll(step, fmt, base, b[RecSize(fmt)..])
  }

  /** What a segment file means: the samples its bytes decode to. */
  function DecodeFile(step: CrcStep, id: u32, file: seq<byte>): seq<Sample> {
    var h := CheckHeader(step, id, file);
    if h.Invalid? || |file| < HdrSize(h.fmt) then []
    else DecodeAll(step, h.fmt, h.base, file[HdrSize(h.fmt)..])
  }

  /** Decoding records laid end to end returns the samples; a partial record
      after them is not mistaken for one. */
  lemma {:induction false} DecodeAllEncodeAll(step: CrcStep, fmt: Format, base: u64, ss: seq<Sample>, torn: seq<byte>)
    requires AllFit(fmt, base, ss) && |torn| < RecSize(fmt)
    ensures DecodeAll(step, fmt, base, EncodeAll(step, fmt, base, ss) + torn) == ss
    decreases |ss|
  {
    hide Encode, Decode;
    var b := EncodeAll(step, fmt, base, ss) + torn;
    if ss == [] {
      assert b == torn;
    } else {
      var r := RecSize(fmt);
      EncodeConcat(step, fmt, base, [ss[0]], ss[1..]);
      assert ss == [ss[0]] + ss[1..];
      EncodeSnoc(step, fmt, base, [], ss[0]);
      assert [] + [ss[0]] == [ss[0]];
      var e := Encode(step, fmt, base, ss[0]);
      assert EncodeAll(step, fmt, base, [ss[0]]) == e;
      assert b[..r] == e;
      assert b[r..] == EncodeAll(step, fmt, base, ss[1..]) + torn;
      DecodeEncode(step, fmt, base, ss[0]);
      DecodeAllEncodeAll(step, fmt, base, ss[1..], torn);
    }
  }

  /** A segment file decodes to the samples of its segment. */
  lemma DecodeSegment(step: CrcStep, fmt: Format, id: u32, g: Seg)
    requires SegOk(fmt, g)
    ensures DecodeFile(step, id, SegBytes(step, fmt, id, g)) == g.samples
  {
    hide EncodeAll, CheckHeader, Header, DecodeAll;
    var f := SegBytes(step, fmt, id, g);
    assert f + [] == f;
    LayoutOfSegment(step, fmt, id, g, []);
    assert f[HdrSize(fmt)..] == EncodeAll(step, fmt, g.base, g.samples) + [];
    DecodeAllEncodeAll(step, fmt, g.base, g.samples, []);
  }

  // Recovery

  lemma {:induction false} DecodeAllBound(step: CrcStep, fmt: Format, base: u64, b: seq<byte>)
    ensures Size(fmt, |DecodeAll(step, fmt, base, b)|) <= |b|
    decreases |b|
  {
    hide Decode;
    if |b| >= RecSize(fmt) {
      DecodeAllBound(step, fmt, base, b[RecSize(fmt)..]);
    }
  }

  /** How many records decode does not depend on the base they are read with. */
  lemma {:induction false} DecodeAllAnyBase(step: CrcStep, fmt: Format, b0: u64, b1: u64, b: seq<byte>)
    ensures |DecodeAll(step, fmt, b0, b)| == |DecodeAll(step, fmt, b1, b)|
    decreases |b|
  {
    if |b| >= RecSize(fmt) {
      DecodeAllAnyBase(step, fmt, b0, b1, b[RecSize(fmt)..]);
      DecodableAnyBase(step, fmt, b0, b1, b[..RecSize(fmt)]);
    }
  }

  /** DecodeAll yields the sample of each record, and stops exactly at the first that
      is short or not intact. */
  lemma {:induction false} DecodeAllStops(step: CrcStep, fmt: Format, base: u64, b: seq<byte>, n: nat)
    requires n == |DecodeAll(step, fmt, base, b)|
    ensures Size(fmt, n) <= |b|
    ensures |b| - Size(fmt, n) < RecSize(fmt) || !Intact(step, fmt, b[Size(fmt, n)..][..RecSize(fmt)])
    ensures forall i: nat :: i < n ==>
              && Size(fmt, i) + RecSize(fmt) <= |b|
              && Intact(step, fmt, b[Size(fmt, i)..][..RecSize(fmt)])
              && Decode(step, fmt, base, b[Size(fmt, i)..][..RecSize(fmt)]) == Good(DecodeAll(step, fmt, base, b)[i])
    decreases |b|
  {
    hide Decode, Intact;
    DecodeAllBound(step, fmt, base, b);
    var r := RecSize(fmt);
    assert b[0..] == b;
    if r <= |b| {
      DecodeIntact(step, fmt, base, b[..r]);
    }
    if n > 0 {
      var rest := b[r..];
      DecodeAllStops(step, fmt, base, rest, n - 1);
      assert rest[Size(fmt, n - 1)..] == b[Size(fmt, n)..];
      forall i: nat | i < n
        ensures Size(fmt, i) + r <= |b|
        ensures Intact(step, fmt, b[Size(fmt, i)..][..r])
        ensures Decode(step, fmt, base, b[Size(fmt, i)..][..r]) == Good(DecodeAll(step, fmt, base, b)[i])
      {
        if i > 0 {
          assert rest[Size(fmt, i - 1)..] == b[Size(fmt, i)..];
        }
      }
    }
  }

  /** Where recovery ends a file whose layout has this format: after the header and
      the longest run of decodable records. */
  function GoodEnd(step: CrcStep, fmt: Format, file: seq<byte>): (e: nat)
    requires HdrSize(fmt) <= |file|
    ensures HdrSize(fmt) <= e <= |file|
  {
    DecodeAllBound(step, fmt, 0, file[HdrSize(fmt)..]);
    HdrSize(fmt) + Size(fmt, |DecodeAll(step, fmt, 0, file[HdrSize(fmt)..])|)
  }

  /** A cut of a file after whole, intact records, before one that is short or not
      intact. */
  predicate CutsAt(step: CrcStep, fmt: Format, file: seq<byte>, n: nat) {
    var h, r := HdrSize(fmt), RecSize(fmt);
    && h + Size(fmt, n) <= |file|
    && (forall i: nat :: i < n ==>
          h + Size(fmt, i) + r <= |file| && Intact(step, fmt, file[h + Size(fmt, i)..][..r]))
    && (h + Size(fmt, n) + r <= |file| ==> !Intact(step, fmt, file[h + Size(fmt, n)..][..r]))
  }

  /** Recovery cuts exactly there: every record before the cut carries its digest, and
      a whole record at the cut does not, or is not one of its format. */
  lemma GoodEndExact(step: CrcStep, fmt: Format, file: seq<byte>) returns (n: nat)
    requires HdrSize(fmt) <= |file|
    ensures GoodEnd(step, fmt, file) == HdrSize(fmt) + Size(fmt, n) && CutsAt(step, fmt, file, n)
    ensures forall m: nat :: CutsAt(step, fmt, file, m) ==> m == n
  {
    hide Decode, Intact, DecodeAll, GoodEnd;
    var h, r := HdrSize(fmt), RecSize(fmt);
    var b := file[h..];
    n := |DecodeAll(step, fmt, 0, b)|;
    GoodEndOf(step, fmt, file);
    DecodeAllStops(step, fmt, 0, b, n);
    forall i: nat | i <= n && h + Size(fmt, i) + r <= |file|
      ensures Intact(step, fmt, file[h + Size(fmt, i)..][..r]) <==> i < n
    {
      assert b[Size(fmt, i)..] == file[h + Size(fmt, i)..];
    }
    forall m: nat | CutsAt(step, fmt, file, m)
      ensures m == n
    {
      CutOnce(step, fmt, file, n, m);
    }
  }

  lemma GoodEndOf(step: CrcStep, fmt: Format, file: seq<byte>)
    requires HdrSize(fmt) <= |file|
    ensures GoodEnd(step, fmt, file) == HdrSize(fmt) + Size(fmt, |DecodeAll(step, fmt, 0, file[HdrSize(fmt)..])|)
  {
  }

  lemma CutOnce(step: CrcStep, fmt: Format, file: seq<byte>, n: nat, m: nat)
    requires CutsAt(step, fmt, file, n) && CutsAt(step, fmt, file, m)
    ensures m == n
  {
    hide Intact;
    assert n < m ==> Size(fmt, n) + RecSize(fmt) <= Size(fmt, m);
    assert m < n ==> Size(fmt, m) + RecSize(fmt) <= Size(fmt, n);
  }

  /** Cutting a payload after its decodable records loses none of them. */
  lemma {:induction false} DecodeAllPrefix(step: CrcStep, fmt: Format, base: u64, b: seq<byte>, n: nat)
    requires n == |DecodeAll(step, fmt, base, b)| && Size(fmt, n) <= |b|
    ensures DecodeAll(step, fmt, base, b[..Size(fmt, n)]) == DecodeAll(step, fmt, base, b)
    decreases |b|
  {
    hide Decode;
    if n > 0 {
      var r := RecSize(fmt);
      var c := b[..Size(fmt, n)];
      assert c[..r] == b[..r];
      assert c[r..] == b[r..][..Size(fmt, n - 1)];
      DecodeAllPrefix(step, fmt, base, b[r..], n - 1);
    }
  }

  /** A recovered file is left alone by a second recovery. */
  lemma RecoverTwice(step: CrcStep, fmt: Format, file: seq<byte>)
    requires HdrSize(fmt) <= |file|
    ensures GoodEnd(step, fmt, file[..GoodEnd(step, fmt, file)]) == GoodEnd(step, fmt, file)
  {
    hide Decode, DecodeAll;
    var h := HdrSize(fmt);
    var p := file[h..];
    var n := |DecodeAll(step, fmt, 0, p)|;
    DecodeAllBound(step, fmt, 0, p);
    DecodeAllPrefix(step, fmt, 0, p, n);
    assert file[..GoodEnd(step, fmt, file)][h..] == p[..Size(fmt, n)];
  }

  /** A file that holds a segment and less than one record more recovers to exactly
      the segment's file. */
  lemma RecoverTorn(step: CrcStep, fmt: Format, id: u32, g: Seg, tail: seq<byte>)
    requires SegOk(fmt, g) && |tail| < RecSize(fmt)
    ensures |SegBytes(step, fmt, id, g)| == GoodEnd(step, fmt, SegBytes(step, fmt, id, g) + tail)
    ensures (SegBytes(step, fmt, id, g) + tail)[..GoodEnd(step, fmt, SegBytes(step, fmt, id, g) + tail)]
         == SegBytes(step, fmt, id, g)
    ensures DecodeFile(step, id, SegBytes(step, fmt, id, g) + tail) == g.samples
  {
    hide Decode, DecodeAll, EncodeAll, Header, CheckHeader;
    var b := EncodeAll(step, fmt, g.base, g.samples) + tail;
    PayloadOf(step, fmt, id, g, tail);
    LayoutOfSegment(step, fmt, id, g, tail);
    DecodeAllEncodeAll(step, fmt, g.base, g.samples, tail);
    DecodeAllAnyBase(step, fmt, 0, g.base, b);
  }

  lemma PayloadOf(step: CrcStep, fmt: Format, id: u32, g: Seg, rest: seq<byte>)
    requires SegOk(fmt, g)
    ensures (SegBytes(step, fmt, id, g) + rest)[HdrSize(fmt)..] == EncodeAll(step, fmt, g.base, g.samples) + rest
  {
    hide Encode, EncodeAll, Header;
  }
}
