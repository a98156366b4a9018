/**
 The binary proof file: writers that append little-endian words, readers that consume
 them, and their round trip (src/bin/stark_cli.rs).
 */
module ProofCodec {
  import opened Hashing

  // ---- the proof as words ----

  /** A decommitment on the wire; every value is a row of width words. */
  datatype WireDecommitment = WireDecommitment(
    values: seq<seq<u32>>, siblings: seq<seq<u32>>, paths: seq<seq<seq<u32>>>, siblingPaths: seq<seq<seq<u32>>>)

  datatype WireProof = WireProof(
    logTraceSize: u32,
    a: u32,
    b: u32,
    traceCommitment: seq<u32>,
    quotientCommitment: seq<u32>,
    friCommitments: seq<seq<u32>>,
    friLastLayer: seq<seq<u32>>,
    queryIndices: seq<nat>,
    traceDecommitment: WireDecommitment,
    quotientDecommitment: WireDecommitment,
    friDecommitments: seq<WireDecommitment>)

  const MAGIC: u32 := 0x4B52_414B
  const VERSION: u32 := 1

  /** `x as u32` */
  function Truncated(x: nat): u32 { x % 0x1_0000_0000 }

  // ---- encoding ----

  function EncodeWord(v: u32): seq<byte> { LeBytes(v) }

  function EncodeRows(rows: seq<seq<u32>>): seq<byte>
    decreases |rows|
  {
    if |rows| == 0 then [] else WordBytes(rows[0]) + EncodeRows(rows[1..])
  }

  function EncodePaths(paths: seq<seq<seq<u32>>>): seq<byte>
    decreases |paths|
  {
    if |paths| == 0 then []
    else EncodeWord(Truncated(|paths[0]|)) + EncodeRows(paths[0]) + EncodePaths(paths[1..])
  }

  function EncodeDecommitment(d: WireDecommitment): seq<byte> {
    EncodeWord(Truncated(|d.values|)) + EncodeRows(d.values) + EncodeRows(d.siblings) + EncodePaths(d.paths) + EncodePaths(d.siblingPaths)
  }

  function EncodeDecommitments(ds: seq<WireDecommitment>): seq<byte>
    decreases |ds|
  {
    if |ds| == 0 then [] else EncodeDecommitment(ds[0]) + EncodeDecommitments(ds[1..])
  }

  function EncodeIndices(qs: seq<nat>): seq<byte>
    decreases |qs|
  {
    if |qs| == 0 then [] else EncodeWord(Truncated(qs[0])) + EncodeIndices(qs[1..])
  }

  function EncodeHeader(p: WireProof): seq<byte> {
    WordBytes([MAGIC, VERSION, p.logTraceSize, p.a, p.b]) + WordBytes(p.traceCommitment) + WordBytes(p.quotientCommitment)
  }

  function EncodeLists(p: WireProof): seq<byte> {
    EncodeWord(Truncated(|p.friCommitments|)) + EncodeRows(p.friCommitments)
    + EncodeWord(Truncated(|p.friLastLayer|)) + EncodeRows(p.friLastLayer)
    + EncodeWord(Truncated(|p.queryIndices|)) + EncodeIndices(p.queryIndices)
  }

  function EncodeOpenings(p: WireProof): seq<byte> {
    EncodeDecommitment(p.traceDecommitment) + EncodeDecommitment(p.quotientDecommitment)
    + EncodeWord(Truncated(|p.friDecommitments|)) + EncodeDecommitments(p.friDecommitments)
  }

  function EncodeProof(p: WireProof): seq<byte> { EncodeHeader(p) + EncodeLists(p) + EncodeOpenings(p) }

  // ---- the file as a list of words ----

  function Flat(rows: seq<seq<u32>>): seq<u32>
    decreases |rows|
  {
    if |rows| == 0 then [] else rows[0] + Flat(rows[1..])
  }

  function PathWords(paths: seq<seq<seq<u32>>>): seq<u32>
    decreases |paths|
  {
    if |paths| == 0 then [] else [Truncated(|paths[0]|)] + Flat(paths[0]) + PathWords(paths[1..])
  }

  /** Count, values, sibling values, paths, sibling paths. */
  function DecommitmentWords(d: WireDecommitment): seq<u32> {
    [Truncated(|d.values|)] + Flat(d.values) + Flat(d.siblings) + PathWords(d.paths) + PathWords(d.siblingPaths)
  }

  function ListWords(ds: seq<WireDecommitment>): seq<u32>
    decreases |ds|
  {
    if |ds| == 0 then [] else DecommitmentWords(ds[0]) + ListWords(ds[1..])
  }

  function IndexWords(qs: seq<nat>): seq<u32> { seq(|qs|, i requires 0 <= i < |qs| => Truncated(qs[i])) }

  /** The words of a proof file in the order they are written. */
  function ProofWords(p: WireProof): seq<u32> {
    [MAGIC, VERSION, p.logTraceSize, p.a, p.b] + p.traceCommitment + p.quotientCommitment
    + [Truncated(|p.friCommitments|)] + Flat(p.friCommitments)
    + [Truncated(|p.friLastLayer|)] + Flat(p.friLastLayer)
    + [Truncated(|p.queryIndices|)] + IndexWords(p.queryIndices)
    + DecommitmentWords(p.traceDecommitment) + DecommitmentWords(p.quotientDecommitment)
    + [Truncated(|p.friDecommitments|)] + ListWords(p.friDecommitments)
  }

  lemma {:induction false} WordBytesJoin(a: seq<u32>, b: seq<u32>)
    ensures WordBytes(a + b) == WordBytes(a) + WordBytes(b)
    decreases |a|
  {
    hide LeBytes;
    if |a| == 0 {
      assert a + b == b;
    } else {
      WordBytesJoin(a[1..], b);
      assert (a + b)[0] == a[0] && (a + b)[1..] == a[1..] + b;
    }
  }

  lemma OneWord(v: u32)
    ensures WordBytes([v]) == EncodeWord(v)
  {
    hide LeBytes;
    assert [v][1..] == [];
    assert WordBytes([]) == [];
  }

  lemma {:induction false} RowsAsWords(rows: seq<seq<u32>>)
    ensures EncodeRows(rows) == WordBytes(Flat(rows))
    decreases |rows|
  {
    hide WordBytes;
    if |rows| == 0 {
      NoWords();
    } else {
      RowsAsWords(rows[1..]);
      WordBytesJoin(rows[0], Flat(rows[1..]));
    }
  }

  lemma NoWords()
    ensures WordBytes([]) == []
  {
  }

  lemma {:induction false} PathsAsWords(paths: seq<seq<seq<u32>>>)
    ensures EncodePaths(paths) == WordBytes(PathWords(paths))
    decreases |paths|
  {
    hide WordBytes, EncodeRows, Flat, EncodeWord;
    if |paths| == 0 {
      NoWords();
    } else {
      var n, f := Truncated(|paths[0]|), Flat(paths[0]);
      PathsAsWords(paths[1..]);
      OneWord(n); RowsAsWords(paths[0]);
      WordBytesJoin([n] + f, PathWords(paths[1..]));
      WordBytesJoin([n], f);
    }
  }

  lemma DecommitmentAsWords(d: WireDecommitment)
    ensures EncodeDecommitment(d) == WordBytes(DecommitmentWords(d))
  {
    hide WordBytes, EncodeRows, EncodePaths, Flat, PathWords, EncodeWord;
    var n, v, s, p, q := [Truncated(|d.values|)], Flat(d.values), Flat(d.siblings), PathWords(d.paths), PathWords(d.siblingPaths);
    OneWord(Truncated(|d.values|));
    RowsAsWords(d.values); RowsAsWords(d.siblings); PathsAsWords(d.paths); PathsAsWords(d.siblingPaths);
    WordBytesJoin(n, v); WordBytesJoin(n + v, s); WordBytesJoin(n + v + s, p); WordBytesJoin(n + v + s + p, q);
  }

  lemma {:induction false} DecommitmentsAsWords(ds: seq<WireDecommitment>)
    ensures EncodeDecommitments(ds) == WordBytes(ListWords(ds))
    decreases |ds|
  {
    hide WordBytes, EncodeDecommitment, DecommitmentWords;
    if |ds| == 0 {
      NoWords();
    } else {
      DecommitmentsAsWords(ds[1..]);
      DecommitmentAsWords(ds[0]);
      WordBytesJoin(DecommitmentWords(ds[0]), ListWords(ds[1..]));
    }
  }

  lemma {:induction false} IndicesAsWords(qs: seq<nat>)
    ensures EncodeIndices(qs) == WordBytes(IndexWords(qs))
    decreases |qs|
  {
    hide WordBytes, EncodeWord;
    if |qs| == 0 {
      NoWords();
    } else {
      IndicesAsWords(qs[1..]);
      OneWord(Truncated(qs[0]));
      WordBytesJoin([Truncated(qs[0])], IndexWords(qs[1..]));
      assert IndexWords(qs) == [Truncated(qs[0])] + IndexWords(qs[1..]);
    }
  }

  /** A proof file is its words, four little-endian bytes each, in the order of serialize_proof. */
  lemma ProofAsWords(p: WireProof)
    ensures EncodeProof(p) == WordBytes(ProofWords(p)) && |EncodeProof(p)| == 4 * |ProofWords(p)|
  {
    hide WordBytes, EncodeRows, EncodeIndices, EncodeDecommitment, EncodeDecommitments, Flat, IndexWords, DecommitmentWords, ListWords, EncodeWord;
    var h := [MAGIC, VERSION, p.logTraceSize, p.a, p.b] + p.traceCommitment + p.quotientCommitment;
    WordBytesJoin([MAGIC, VERSION, p.logTraceSize, p.a, p.b], p.traceCommitment);
    WordBytesJoin([MAGIC, VERSION, p.logTraceSize, p.a, p.b] + p.traceCommitment, p.quotientCommitment);
    var l := CountedWords(h, p.friCommitments);
    var m := CountedWords(l, p.friLastLayer);
    var i := m + [Truncated(|p.queryIndices|)];
    OneWord(Truncated(|p.queryIndices|)); WordBytesJoin(m, [Truncated(|p.queryIndices|)]);
    IndicesAsWords(p.queryIndices); WordBytesJoin(i, IndexWords(p.queryIndices));
    var j := i + IndexWords(p.queryIndices);
    DecommitmentAsWords(p.traceDecommitment); WordBytesJoin(j, DecommitmentWords(p.traceDecommitment));
    var k := j + DecommitmentWords(p.traceDecommitment);
    DecommitmentAsWords(p.quotientDecommitment); WordBytesJoin(k, DecommitmentWords(p.quotientDecommitment));
    var o := k + DecommitmentWords(p.quotientDecommitment);
    OneWord(Truncated(|p.friDecommitments|)); WordBytesJoin(o, [Truncated(|p.friDecommitments|)]);
    DecommitmentsAsWords(p.friDecommitments); WordBytesJoin(o + [Truncated(|p.friDecommitments|)], ListWords(p.friDecommitments));
    assert ProofWords(p) == o + [Truncated(|p.friDecommitments|)] + ListWords(p.friDecommitments);
  }

  /** A count and its rows after some words. */
  lemma CountedWords(before: seq<u32>, rows: seq<seq<u32>>) returns (after: seq<u32>)
    ensures after == before + [Truncated(|rows|)] + Flat(rows)
    ensures WordBytes(after) == WordBytes(before) + EncodeWord(Truncated(|rows|)) + EncodeRows(rows)
  {
    hide WordBytes, EncodeRows, Flat, EncodeWord;
    after := before + [Truncated(|rows|)] + Flat(rows);
    OneWord(Truncated(|rows|)); RowsAsWords(rows);
    WordBytesJoin(before, [Truncated(|rows|)]);
    WordBytesJoin(before + [Truncated(|rows|)], Flat(rows));
  }

  // ---- decoding ----

  /** A value and the unread bytes, or a panic: too few bytes, bad magic or bad version. */
  datatype Parsed<T> = Got(value: T, rest: seq<byte>) | Failed

  function DecodeWord(s: seq<byte>): Parsed<u32> {
    if |s| < 4 then Failed else Got(FromLeBytes(s[..4]), s[4..])
  }

  function DecodeWords(s: seq<byte>, n: nat): (r: Parsed<seq<u32>>)
    ensures r.Got? ==> |r.value| == n
    decreases n
  {
    if n == 0 then Got([], s)
    else
      match DecodeWord(s)
      case Failed => Failed
      case Got(v, s') => Prepend([v], DecodeWords(s', n - 1))
  }

  function Prepend<T>(front: seq<T>, r: Parsed<seq<T>>): Parsed<seq<T>> {
    match r
    case Failed => Failed
    case Got(more, rest) => Got(front + more, rest)
  }

  function DecodeRows(s: seq<byte>, n: nat, width: nat): Parsed<seq<seq<u32>>>
    decreases n
  {
    if n == 0 then Got([], s)
    else
      match DecodeWords(s, width)
      case Failed => Failed
      case Got(row, s') => Prepend([row], DecodeRows(s', n - 1, width))
  }

  function DecodePath(s: seq<byte>): Parsed<seq<seq<u32>>> {
    match DecodeWord(s)
    case Failed => Failed
    case Got(depth, s') => DecodeRows(s', depth, 8)
  }

  function DecodePaths(s: seq<byte>, n: nat): Parsed<seq<seq<seq<u32>>>>
    decreases n
  {
    if n == 0 then Got([], s)
    else
      match DecodePath(s)
      case Failed => Failed
      case Got(path, s') => Prepend([path], DecodePaths(s', n - 1))
  }

  function DecodeDecommitment(s: seq<byte>, width: nat): Parsed<WireDecommitment> {
    match DecodeWord(s)
    case Failed => Failed
    case Got(n, s1) =>
      match DecodeRows(s1, n, width)
      case Failed => Failed
      case Got(values, s2) =>
        match DecodeRows(s2, n, width)
        case Failed => Failed
        case Got(siblings, s3) =>
          match DecodePaths(s3, n)
          case Failed => Failed
          case Got(paths, s4) =>
            match DecodePaths(s4, n)
            case Failed => Failed
            case Got(siblingPaths, s5) => Got(WireDecommitment(values, siblings, paths, siblingPaths), s5)
  }

  function DecodeDecommitments(s: seq<byte>, n: nat, width: nat): Parsed<seq<WireDecommitment>>
    decreases n
  {
    if n == 0 then Got([], s)
    else
      match DecodeDecommitment(s, width)
      case Failed => Failed
      case Got(d, s') => Prepend([d], DecodeDecommitments(s', n - 1, width))
  }

  datatype Header = Header(logTraceSize: u32, a: u32, b: u32, traceCommitment: seq<u32>, quotientCommitment: seq<u32>)

  datatype Lists = Lists(friCommitments: seq<seq<u32>>, friLastLayer: seq<seq<u32>>, queryIndices: seq<nat>)

  datatype Openings = Openings(trace: WireDecommitment, quotient: WireDecommitment, fri: seq<WireDecommitment>)

  function DecodeHeader(s: seq<byte>): Parsed<Header> {
    match DecodeWords(s, 5)
    case Failed => Failed
    case Got(w, s1) =>
      if w[0] != MAGIC || w[1] != VERSION then Failed
      else
        match DecodeWords(s1, 8)
        case Failed => Failed
        case Got(trace, s2) =>
          match DecodeWords(s2, 8)
          case Failed => Failed
          case Got(quotient, s3) => Got(Header(w[2], w[3], w[4], trace, quotient), s3)
  }

  /** A count, then that many rows. */
  function DecodeCounted(s: seq<byte>, width: nat): Parsed<seq<seq<u32>>> {
    match DecodeWord(s)
    case Failed => Failed
    case Got(n, s') => DecodeRows(s', n, width)
  }

  function DecodeIndices(s: seq<byte>): Parsed<seq<u32>> {
    match DecodeWord(s)
    case Failed => Failed
    case Got(n, s') => DecodeWords(s', n)
  }

  function DecodeLists(s: seq<byte>): Parsed<Lists> {
    match DecodeCounted(s, 8)
    case Failed => Failed
    case Got(coms, s1) =>
      match DecodeCounted(s1, 4)
      case Failed => Failed
      case Got(last, s2) =>
        match DecodeIndices(s2)
        case Failed => Failed
        case Got(indices, s3) => Got(Lists(coms, last, indices), s3)
  }

  function DecodeOpenings(s: seq<byte>): Parsed<Openings> {
    match DecodeDecommitment(s, 1)
    case Failed => Failed
    case Got(trace, s1) =>
      match DecodeDecommitment(s1, 4)
      case Failed => Failed
      case Got(quotient, s2) =>
        match DecodeWord(s2)
        case Failed => Failed
        case Got(n, s3) =>
          match DecodeDecommitments(s3, n, 4)
          case Failed => Failed
          case Got(fri, s4) => Got(Openings(trace, quotient, fri), s4)
  }

  function DecodeProof(s: seq<byte>): Parsed<WireProof> {
    match DecodeHeader(s)
    case Failed => Failed
    case Got(h, s1) =>
      match DecodeLists(s1)
      case Failed => Failed
      case Got(l, s2) =>
        match DecodeOpenings(s2)
        case Failed => Failed
        case Got(o, s3) => Got(Assembled(h, l, o), s3)
  }

  function Assembled(h: Header, l: Lists, o: Openings): WireProof {
    WireProof(h.logTraceSize, h.a, h.b, h.traceCommitment, h.quotientCommitment, l.friCommitments, l.friLastLayer, l.queryIndices,
              o.trace, o.quotient, o.fri)
  }

  // ---- what the writer can represent ----

  predicate Fits(n: nat) { n < 0x1_0000_0000 }

  ghost predicate RowsOf(rows: seq<seq<u32>>, width: nat) { forall i :: 0 <= i < |rows| ==> |rows[i]| == width }

  ghost predicate PathsFit(paths: seq<seq<seq<u32>>>) {
    forall i :: 0 <= i < |paths| ==> Fits(|paths[i]|) && RowsOf(paths[i], 8)
  }

  /** All four vectors have one length, rows have the stated width, and lengths fit a u32. */
  ghost predicate DecommitmentFits(d: WireDecommitment, width: nat) {
    && |d.values| == |d.siblings| == |d.paths| == |d.siblingPaths| && Fits(|d.values|)
    && RowsOf(d.values, width) && RowsOf(d.siblings, width) && PathsFit(d.paths) && PathsFit(d.siblingPaths)
  }

  ghost predicate ProofFits(p: WireProof) {
    && |p.traceCommitment| == 8 && |p.quotientCommitment| == 8
    && Fits(|p.friCommitments|) && RowsOf(p.friCommitments, 8)
    && Fits(|p.friLastLayer|) && RowsOf(p.friLastLayer, 4)
    && Fits(|p.queryIndices|) && (forall i :: 0 <= i < |p.queryIndices| ==> Fits(p.queryIndices[i]))
    && DecommitmentFits(p.traceDecommitment, 1) && DecommitmentFits(p.quotientDecommitment, 4)
    && Fits(|p.friDecommitments|)
    && forall i :: 0 <= i < |p.friDecommitments| ==> DecommitmentFits(p.friDecommitments[i], 4)
  }

  // ---- round trips, each before any suffix ----

  lemma WordRoundTrip(v: u32, tail: seq<byte>)
    ensures DecodeWord(EncodeWord(v) + tail) == Got(v, tail)
  {
    hide LeBytes, FromLeBytes;
    LeBytesRoundTrip(v);
    assert (LeBytes(v) + tail)[..4] == LeBytes(v) && (LeBytes(v) + tail)[4..] == tail;
  }

  lemma {:induction false} WordsRoundTrip(ws: seq<u32>, tail: seq<byte>)
    ensures DecodeWords(WordBytes(ws) + tail, |ws|) == Got(ws, tail)
    decreases |ws|
  {
    hide LeBytes, DecodeWord;
    if |ws| == 0 {
      assert WordBytes(ws) + tail == tail;
    } else {
      WordRoundTrip(ws[0], WordBytes(ws[1..]) + tail);
      Regroup(LeBytes(ws[0]), WordBytes(ws[1..]), tail);
      WordsRoundTrip(ws[1..], tail);
      assert [ws[0]] + ws[1..] == ws;
    }
  }

  lemma Regroup<T>(a: seq<T>, b: seq<T>, c: seq<T>)
    ensures (a + b) + c == a + (b + c)
  {
  }

  lemma {:induction false} RowsRoundTrip(rows: seq<seq<u32>>, width: nat, tail: seq<byte>)
    requires RowsOf(rows, width)
    ensures DecodeRows(EncodeRows(rows) + tail, |rows|, width) == Got(rows, tail)
    decreases |rows|
  {
    hide WordBytes, DecodeWords;
    if |rows| == 0 {
      assert EncodeRows(rows) + tail == tail;
    } else {
      WordsRoundTrip(rows[0], EncodeRows(rows[1..]) + tail);
      Regroup(WordBytes(rows[0]), EncodeRows(rows[1..]), tail);
      RowsRoundTrip(rows[1..], width, tail);
      assert [rows[0]] + rows[1..] == rows;
    }
  }

  lemma PathRoundTrip(path: seq<seq<u32>>, tail: seq<byte>)
    requires Fits(|path|) && RowsOf(path, 8)
    ensures DecodePath(EncodeWord(Truncated(|path|)) + EncodeRows(path) + tail) == Got(path, tail)
  {
    hide EncodeRows, DecodeRows, EncodeWord, DecodeWord;
    Regroup(EncodeWord(Truncated(|path|)), EncodeRows(path), tail);
    WordRoundTrip(|path|, EncodeRows(path) + tail);
    RowsRoundTrip(path, 8, tail);
  }

  lemma {:induction false} PathsRoundTrip(paths: seq<seq<seq<u32>>>, tail: seq<byte>)
    requires PathsFit(paths)
    ensures DecodePaths(EncodePaths(paths) + tail, |paths|) == Got(paths, tail)
    decreases |paths|
  {
    hide EncodeRows, DecodePath, EncodeWord, Truncated;
    if |paths| == 0 {
      assert EncodePaths(paths) + tail == tail;
    } else {
      var first := EncodeWord(Truncated(|paths[0]|)) + EncodeRows(paths[0]);
      PathRoundTrip(paths[0], EncodePaths(paths[1..]) + tail);
      Regroup(first, EncodePaths(paths[1..]), tail);
      PathsRoundTrip(paths[1..], tail);
      assert [paths[0]] + paths[1..] == paths;
    }
  }

  /** The reader consumes exactly what the writer emitted, whatever follows. */
  lemma DecommitmentRoundTrip(d: WireDecommitment, width: nat, tail: seq<byte>)
    requires DecommitmentFits(d, width)
    ensures DecodeDecommitment(EncodeDecommitment(d) + tail, width) == Got(d, tail)
  {
    hide EncodeRows, DecodeRows, EncodePaths, DecodePaths, EncodeWord, DecodeWord, RowsOf, PathsFit;
    var n, v, s, p, q := EncodeWord(Truncated(|d.values|)), EncodeRows(d.values), EncodeRows(d.siblings), EncodePaths(d.paths), EncodePaths(d.siblingPaths);
    FiveParts(n, v, s, p, q, tail);
    WordRoundTrip(|d.values|, v + (s + (p + (q + tail))));
    RowsRoundTrip(d.values, width, s + (p + (q + tail)));
    RowsRoundTrip(d.siblings, width, p + (q + tail));
    PathsRoundTrip(d.paths, q + tail);
    PathsRoundTrip(d.siblingPaths, tail);
  }

  lemma FiveParts<T>(a: seq<T>, b: seq<T>, c: seq<T>, d: seq<T>, e: seq<T>, tail: seq<T>)
    ensures a + b + c + d + e + tail == a + (b + (c + (d + (e + tail))))
  {
  }

  lemma {:induction false} DecommitmentsRoundTrip(ds: seq<WireDecommitment>, tail: seq<byte>)
    requires forall i :: 0 <= i < |ds| ==> DecommitmentFits(ds[i], 4)
    ensures DecodeDecommitments(EncodeDecommitments(ds) + tail, |ds|, 4) == Got(ds, tail)
    decreases |ds|
  {
    hide EncodeDecommitment, DecodeDecommitment, DecommitmentFits;
    if |ds| == 0 {
      assert EncodeDecommitments(ds) + tail == tail;
    } else {
      DecommitmentRoundTrip(ds[0], 4, EncodeDecommitments(ds[1..]) + tail);
      Regroup(EncodeDecommitment(ds[0]), EncodeDecommitments(ds[1..]), tail);
      DecommitmentsRoundTrip(ds[1..], tail);
      assert [ds[0]] + ds[1..] == ds;
    }
  }

  lemma {:induction false} IndicesRoundTrip(qs: seq<nat>, tail: seq<byte>)
    requires forall i :: 0 <= i < |qs| ==> Fits(qs[i])
    ensures DecodeWords(EncodeIndices(qs) + tail, |qs|) == Got(qs, tail)
    decreases |qs|
  {
    hide EncodeWord, DecodeWord;
    if |qs| == 0 {
      assert EncodeIndices(qs) + tail == tail;
    } else {
      WordRoundTrip(qs[0], EncodeIndices(qs[1..]) + tail);
      Regroup(EncodeWord(Truncated(qs[0])), EncodeIndices(qs[1..]), tail);
      IndicesRoundTrip(qs[1..], tail);
      assert [qs[0]] + qs[1..] == qs;
    }
  }

  lemma CountedRoundTrip(rows: seq<seq<u32>>, width: nat, tail: seq<byte>)
    requires Fits(|rows|) && RowsOf(rows, width)
    ensures DecodeCounted(EncodeWord(Truncated(|rows|)) + (EncodeRows(rows) + tail), width) == Got(rows, tail)
  {
    hide EncodeRows, DecodeRows, EncodeWord, DecodeWord;
    WordRoundTrip(|rows|, EncodeRows(rows) + tail);
    RowsRoundTrip(rows, width, tail);
  }

  lemma HeaderRoundTrip(p: WireProof, tail: seq<byte>)
    requires |p.traceCommitment| == 8 && |p.quotientCommitment| == 8
    ensures DecodeHeader(EncodeHeader(p) + tail)
         == Got(Header(p.logTraceSize, p.a, p.b, p.traceCommitment, p.quotientCommitment), tail)
  {
    hide WordBytes, DecodeWords;
    var w: seq<u32> := [MAGIC, VERSION, p.logTraceSize, p.a, p.b];
    var t, q := WordBytes(p.traceCommitment), WordBytes(p.quotientCommitment);
    assert EncodeHeader(p) + tail == WordBytes(w) + (t + (q + tail));
    WordsRoundTrip(w, t + (q + tail));
    WordsRoundTrip(p.traceCommitment, q + tail);
    WordsRoundTrip(p.quotientCommitment, tail);
  }

  lemma ListsRoundTrip(p: WireProof, tail: seq<byte>)
    requires Fits(|p.friCommitments|) && RowsOf(p.friCommitments, 8) && Fits(|p.friLastLayer|) && RowsOf(p.friLastLayer, 4)
    requires Fits(|p.queryIndices|) && forall i :: 0 <= i < |p.queryIndices| ==> Fits(p.queryIndices[i])
    ensures DecodeLists(EncodeLists(p) + tail) == Got(Lists(p.friCommitments, p.friLastLayer, p.queryIndices), tail)
  {
    hide EncodeRows, EncodeWord, EncodeIndices, DecodeWord, DecodeWords, DecodeCounted, RowsOf;
    var n1, c := EncodeWord(Truncated(|p.friCommitments|)), EncodeRows(p.friCommitments);
    var n2, l := EncodeWord(Truncated(|p.friLastLayer|)), EncodeRows(p.friLastLayer);
    var n3, i := EncodeWord(Truncated(|p.queryIndices|)), EncodeIndices(p.queryIndices);
    assert EncodeLists(p) + tail == n1 + (c + (n2 + (l + (n3 + (i + tail)))));
    CountedRoundTrip(p.friCommitments, 8, n2 + (l + (n3 + (i + tail))));
    CountedRoundTrip(p.friLastLayer, 4, n3 + (i + tail));
    WordRoundTrip(|p.queryIndices|, i + tail);
    IndicesRoundTrip(p.queryIndices, tail);
  }

  lemma OpeningsRoundTrip(p: WireProof, tail: seq<byte>)
    requires ProofFits(p)
    ensures DecodeOpenings(EncodeOpenings(p) + tail)
         == Got(Openings(p.traceDecommitment, p.quotientDecommitment, p.friDecommitments), tail)
  {
    hide EncodeDecommitment, DecodeDecommitment, EncodeDecommitments, DecodeDecommitments, EncodeWord, DecodeWord, DecommitmentFits;
    var t, q := EncodeDecommitment(p.traceDecommitment), EncodeDecommitment(p.quotientDecommitment);
    var n, ds := EncodeWord(Truncated(|p.friDecommitments|)), EncodeDecommitments(p.friDecommitments);
    assert EncodeOpenings(p) + tail == t + (q + (n + (ds + tail)));
    DecommitmentRoundTrip(p.traceDecommitment, 1, q + (n + (ds + tail)));
    DecommitmentRoundTrip(p.quotientDecommitment, 4, n + (ds + tail));
    WordRoundTrip(|p.friDecommitments|, ds + tail);
    DecommitmentsRoundTrip(p.friDecommitments, tail);
  }

  /** Reading back a written proof gives the proof and leaves exactly what follows it. */
  lemma ProofRoundTrip(p: WireProof, tail: seq<byte>)
    requires ProofFits(p)
    ensures DecodeProof(EncodeProof(p) + tail) == Got(p, tail)
  {
    hide EncodeHeader, EncodeLists, EncodeOpenings, DecodeHeader, DecodeLists, DecodeOpenings, DecommitmentFits, RowsOf;
    assert EncodeProof(p) + tail == EncodeHeader(p) + (EncodeLists(p) + (EncodeOpenings(p) + tail));
    HeaderRoundTrip(p, EncodeLists(p) + (EncodeOpenings(p) + tail));
    ListsRoundTrip(p, EncodeOpenings(p) + tail);
    OpeningsRoundTrip(p, tail);
  }

  /** A count or index beyond 32 bits is cut off by the writer, so the proof does not come back. */
  lemma LongIndexIsLost(q: nat, tail: seq<byte>)
    ensures DecodeWord(EncodeWord(Truncated(q)) + tail) == Got(q, tail) <==> Fits(q)
  {
    hide EncodeWord, DecodeWord;
    WordRoundTrip(Truncated(q), tail);
  }

  // ---- the writer ----

  class Writer {
    var bytes: seq<byte>

    constructor ()
      ensures bytes == []
    {
      bytes := [];
    }

    /** write_u32 */
    method WriteU32(v: u32)
      modifies this
      ensures bytes == old(bytes) + EncodeWord(v)
    {
      bytes := bytes + LeBytes(v);
    }

    /** write_u32_slice */
    method WriteSlice(ws: seq<u32>)
      modifies this
      ensures bytes == old(bytes) + WordBytes(ws)
    {
      hide LeBytes;
      ghost var start := bytes;
      for i := 0 to |ws|
        invariant bytes + WordBytes(ws[i..]) == start + WordBytes(ws)
      {
        assert ws[i..][1..] == ws[i + 1..];
        Regroup(bytes, LeBytes(ws[i]), WordBytes(ws[i + 1..]));
        WriteU32(ws[i]);
      }
      assert ws[|ws|..] == [];
    }

    method WriteRows(rows: seq<seq<u32>>)
      modifies this
      ensures bytes == old(bytes) + EncodeRows(rows)
    {
      hide WordBytes;
      ghost var start := bytes;
      for i := 0 to |rows|
        invariant bytes + EncodeRows(rows[i..]) == start + EncodeRows(rows)
      {
        assert rows[i..][1..] == rows[i + 1..];
        Regroup(bytes, WordBytes(rows[i]), EncodeRows(rows[i + 1..]));
        WriteSlice(rows[i]);
      }
      assert rows[|rows|..] == [];
    }

    method WritePaths(paths: seq<seq<seq<u32>>>)
      modifies this
      ensures bytes == old(bytes) + EncodePaths(paths)
    {
      hide EncodeRows, EncodeWord, Truncated;
      ghost var start := bytes;
      for i := 0 to |paths|
        invariant bytes + EncodePaths(paths[i..]) == start + EncodePaths(paths)
      {
        assert paths[i..][1..] == paths[i + 1..];
        var n := Truncated(|paths[i]|);
        Regroup(bytes, EncodeWord(n) + EncodeRows(paths[i]), EncodePaths(paths[i + 1..]));
        Regroup(bytes, EncodeWord(n), EncodeRows(paths[i]));
        WriteU32(n);
        WriteRows(paths[i]);
      }
      assert paths[|paths|..] == [];
    }

    /** write_decommitment_u32, write_decommitment_4 */
    method WriteDecommitment(d: WireDecommitment)
      modifies this
      ensures bytes == old(bytes) + EncodeDecommitment(d)
    {
      hide EncodeRows, EncodeWord, EncodePaths, Truncated;
      WriteU32(Truncated(|d.values|));
      WriteRows(d.values);
      WriteRows(d.siblings);
      WritePaths(d.paths);
      WritePaths(d.siblingPaths);
    }

    method WriteDecommitments(ds: seq<WireDecommitment>)
      modifies this
      ensures bytes == old(bytes) + EncodeDecommitments(ds)
    {
      hide EncodeDecommitment;
      ghost var start := bytes;
      for i := 0 to |ds|
        invariant bytes + EncodeDecommitments(ds[i..]) == start + EncodeDecommitments(ds)
      {
        assert ds[i..][1..] == ds[i + 1..];
        Regroup(bytes, EncodeDecommitment(ds[i]), EncodeDecommitments(ds[i + 1..]));
        WriteDecommitment(ds[i]);
      }
      assert ds[|ds|..] == [];
    }

    method WriteIndices(qs: seq<nat>)
      modifies this
      ensures bytes == old(bytes) + EncodeIndices(qs)
    {
      hide EncodeWord, Truncated;
      ghost var start := bytes;
      for i := 0 to |qs|
        invariant bytes + EncodeIndices(qs[i..]) == start + EncodeIndices(qs)
      {
        assert qs[i..][1..] == qs[i + 1..];
        Regroup(bytes, EncodeWord(Truncated(qs[i])), EncodeIndices(qs[i + 1..]));
        WriteU32(Truncated(qs[i]));
      }
      assert qs[|qs|..] == [];
    }

    method WriteHeader(p: WireProof)
      modifies this
      ensures bytes == old(bytes) + EncodeHeader(p)
    {
      hide EncodeWord, WordBytes;
      WriteU32(MAGIC);
      WriteU32(VERSION);
      WriteU32(p.logTraceSize);
      WriteU32(p.a);
      WriteU32(p.b);
      FiveWords(MAGIC, VERSION, p.logTraceSize, p.a, p.b);
      WriteSlice(p.traceCommitment);
      WriteSlice(p.quotientCommitment);
    }

    method WriteLists(p: WireProof)
      modifies this
      ensures bytes == old(bytes) + EncodeLists(p)
    {
      hide EncodeRows, EncodeWord, EncodeIndices, Truncated;
      WriteU32(Truncated(|p.friCommitments|));
      WriteRows(p.friCommitments);
      WriteU32(Truncated(|p.friLastLayer|));
      WriteRows(p.friLastLayer);
      WriteU32(Truncated(|p.queryIndices|));
      WriteIndices(p.queryIndices);
    }

    method WriteOpenings(p: WireProof)
      modifies this
      ensures bytes == old(bytes) + EncodeOpenings(p)
    {
      hide EncodeWord, EncodeDecommitment, EncodeDecommitments, Truncated;
      WriteDecommitment(p.traceDecommitment);
      WriteDecommitment(p.quotientDecommitment);
      WriteU32(Truncated(|p.friDecommitments|));
      WriteDecommitments(p.friDecommitments);
    }
  }

  /** serialize_proof */
  method SerializeProof(p: WireProof) returns (w: seq<byte>)
    ensures w == EncodeProof(p)
  {
    hide EncodeHeader, EncodeLists, EncodeOpenings;
    var writer := new Writer();
    writer.WriteHeader(p);
    writer.WriteLists(p);
    writer.WriteOpenings(p);
    w := writer.bytes;
  }

  lemma FiveWords(a: u32, b: u32, c: u32, d: u32, e: u32)
    ensures WordBytes([a, b, c, d, e]) == EncodeWord(a) + EncodeWord(b) + EncodeWord(c) + EncodeWord(d) + EncodeWord(e)
  {
    hide LeBytes;
    assert [a, b, c, d, e][1..] == [b, c, d, e] && [b, c, d, e][1..] == [c, d, e] && [c, d, e][1..] == [d, e];
    assert [d, e][1..] == [e] && [e][1..] == [];
    assert WordBytes([e]) == LeBytes(e);
    assert WordBytes([d, e]) == LeBytes(d) + LeBytes(e);
    assert WordBytes([c, d, e]) == LeBytes(c) + (LeBytes(d) + LeBytes(e));
    assert WordBytes([b, c, d, e]) == LeBytes(b) + (LeBytes(c) + (LeBytes(d) + LeBytes(e)));
  }

  // ---- the reader ----

  datatype Option<T> = Some(value: T) | None

  /** What a reader returned and left unread is what the decoder says; nothing read means a panic. */
  ghost predicate Reads<T(!new)>(parsed: Parsed<T>, r: Option<T>, rest: seq<byte>) {
    match parsed
    case Failed => r.None?
    case Got(v, left) => r == Some(v) && rest == left
  }

  class Reader {
    var rest: seq<byte>

    constructor (data: seq<byte>)
      ensures rest == data
    {
      rest := data;
    }

    /** read_u32 */
    method ReadU32() returns (r: Option<u32>)
      modifies this
      ensures Reads(DecodeWord(old(rest)), r, rest)
    {
      if |rest| < 4 { return None; }
      r := Some(FromLeBytes(rest[..4]));
      rest := rest[4..];
    }

    /** read_u32_array */
    method ReadArray(n: nat) returns (r: Option<seq<u32>>)
      modifies this
      ensures Reads(DecodeWords(old(rest), n), r, rest)
    {
      hide DecodeWord;
      var arr := [];
      ghost var all := DecodeWords(rest, n);
      PrependNothing(all);
      for i := 0 to n
        invariant all == Prepend(arr, DecodeWords(rest, n - i))
      {
        ghost var before := rest;
        var v := ReadU32();
        if v.None? { return None; }
        PrependTwice(arr, [v.value], DecodeWords(rest, n - i - 1));
        arr := arr + [v.value];
      }
      PrependDone(arr, rest);
      r := Some(arr);
    }

    /** n arrays of a fixed width. */
    method ReadRows(n: nat, width: nat) returns (r: Option<seq<seq<u32>>>)
      modifies this
      ensures Reads(DecodeRows(old(rest), n, width), r, rest)
    {
      hide DecodeWords;
      var rows := [];
      ghost var all := DecodeRows(rest, n, width);
      PrependNothing(all);
      for i := 0 to n
        invariant all == Prepend(rows, DecodeRows(rest, n - i, width))
      {
        var row := ReadArray(width);
        if row.None? { return None; }
        PrependTwice(rows, [row.value], DecodeRows(rest, n - i - 1, width));
        rows := rows + [row.value];
      }
      PrependDone(rows, rest);
      r := Some(rows);
    }

    method ReadPath() returns (r: Option<seq<seq<u32>>>)
      modifies this
      ensures Reads(DecodePath(old(rest)), r, rest)
    {
      hide DecodeWord, DecodeRows;
      var depth := ReadU32();
      if depth.None? { return None; }
      r := ReadRows(depth.value, 8);
    }

    method ReadPaths(n: nat) returns (r: Option<seq<seq<seq<u32>>>>)
      modifies this
      ensures Reads(DecodePaths(old(rest), n), r, rest)
    {
      hide DecodePath;
      var paths := [];
      ghost var all := DecodePaths(rest, n);
      PrependNothing(all);
      for i := 0 to n
        invariant all == Prepend(paths, DecodePaths(rest, n - i))
      {
        var path := ReadPath();
        if path.None? { return None; }
        PrependTwice(paths, [path.value], DecodePaths(rest, n - i - 1));
        paths := paths + [path.value];
      }
      PrependDone(paths, rest);
      r := Some(paths);
    }

    /** read_decommitment_u32 with width 1, read_decommitment_4 with width 4 */
    method ReadDecommitment(width: nat) returns (r: Option<WireDecommitment>)
      modifies this
      ensures Reads(DecodeDecommitment(old(rest), width), r, rest)
    {
      hide DecodeWord, DecodeRows, DecodePaths;
      var n := ReadU32();
      if n.None? { return None; }
      var values := ReadRows(n.value, width);
      if values.None? { return None; }
      var siblings := ReadRows(n.value, width);
      if siblings.None? { return None; }
      var paths := ReadPaths(n.value);
      if paths.None? { return None; }
      var siblingPaths := ReadPaths(n.value);
      if siblingPaths.None? { return None; }
      r := Some(WireDecommitment(values.value, siblings.value, paths.value, siblingPaths.value));
    }

    method ReadDecommitments(n: nat, width: nat) returns (r: Option<seq<WireDecommitment>>)
      modifies this
      ensures Reads(DecodeDecommitments(old(rest), n, width), r, rest)
    {
      hide DecodeDecommitment;
      var ds := [];
      ghost var all := DecodeDecommitments(rest, n, width);
      PrependNothing(all);
      for i := 0 to n
        invariant all == Prepend(ds, DecodeDecommitments(rest, n - i, width))
      {
        var d := ReadDecommitment(width);
        if d.None? { return None; }
        PrependTwice(ds, [d.value], DecodeDecommitments(rest, n - i - 1, width));
        ds := ds + [d.value];
      }
      PrependDone(ds, rest);
      r := Some(ds);
    }

    method ReadCounted(width: nat) returns (r: Option<seq<seq<u32>>>)
      modifies this
      ensures Reads(DecodeCounted(old(rest), width), r, rest)
    {
      hide DecodeWord, DecodeRows;
      var n := ReadU32();
      if n.None? { return None; }
      r := ReadRows(n.value, width);
    }

    method ReadHeader() returns (r: Option<Header>)
      modifies this
      ensures Reads(DecodeHeader(old(rest)), r, rest)
    {
      hide DecodeWords;
      var w := ReadArray(5);
      if w.None? || w.value[0] != MAGIC || w.value[1] != VERSION { return None; }
      var trace := ReadArray(8);
      if trace.None? { return None; }
      var quotient := ReadArray(8);
      if quotient.None? { return None; }
      r := Some(Header(w.value[2], w.value[3], w.value[4], trace.value, quotient.value));
    }

    method ReadLists() returns (r: Option<Lists>)
      modifies this
      ensures Reads(DecodeLists(old(rest)), r, rest)
    {
      hide DecodeCounted, DecodeWord, DecodeWords;
      var coms := ReadCounted(8);
      if coms.None? { return None; }
      var last := ReadCounted(4);
      if last.None? { return None; }
      var n := ReadU32();
      if n.None? { return None; }
      var indices := ReadArray(n.value);
      if indices.None? { return None; }
      r := Some(Lists(coms.value, last.value, indices.value));
    }

    method ReadOpenings() returns (r: Option<Openings>)
      modifies this
      ensures Reads(DecodeOpenings(old(rest)), r, rest)
    {
      hide DecodeDecommitment, DecodeDecommitments, DecodeWord;
      var trace := ReadDecommitment(1);
      if trace.None? { return None; }
      var quotient := ReadDecommitment(4);
      if quotient.None? { return None; }
      var n := ReadU32();
      if n.None? { return None; }
      var fri := ReadDecommitments(n.value, 4);
      if fri.None? { return None; }
      r := Some(Openings(trace.value, quotient.value, fri.value));
    }
  }

  lemma PrependNothing<T>(r: Parsed<seq<T>>)
    ensures Prepend([], r) == r
  {
    if r.Got? { assert [] + r.value == r.value; }
  }

  lemma PrependTwice<T>(a: seq<T>, b: seq<T>, r: Parsed<seq<T>>)
    ensures Prepend(a, Prepend(b, r)) == Prepend(a + b, r)
  {
    if r.Got? { assert a + (b + r.value) == (a + b) + r.value; }
  }

  lemma PrependDone<T>(a: seq<T>, rest: seq<byte>)
    ensures Prepend(a, Got([], rest)) == Got(a, rest)
  {
    assert a + [] == a;
  }

  /** deserialize_proof: trailing bytes are left unread. */
  method DeserializeProof(data: seq<byte>) returns (r: Option<WireProof>)
    ensures match DecodeProof(data)
            case Failed => r.None?
            case Got(p, _) => r == Some(p)
  {
    hide DecodeHeader, DecodeLists, DecodeOpenings;
    var reader := new Reader(data);
    var h := reader.ReadHeader();
    if h.None? { return None; }
    var l := reader.ReadLists();
    if l.None? { return None; }
    var o := reader.ReadOpenings();
    if o.None? { return None; }
    r := Some(Assembled(h.value, l.value, o.value));
  }

  /** Writing and reading back. */
  method WriteThenRead(p: WireProof) returns (r: Option<WireProof>)
    requires ProofFits(p)
    ensures r == Some(p)
  {
    hide DecodeProof, EncodeProof, ProofFits;
    var w := SerializeProof(p);
    ProofRoundTrip(p, []);
    assert EncodeProof(p) + [] == EncodeProof(p);
    r := DeserializeProof(w);
  }
}
