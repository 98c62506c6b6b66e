/**
  The byte-level reader, the mailbox double and the consumer's cursor: they agree at every
  cursor position, on every file.
 */
module JsonlAgreement {
  import opened Results
  import opened Octets
  import opened Jsonl
  import opened Sequences

  // ---------------------------------------------------------------- lines and bytes

  predicate IsLine(l: Bytes) { NEWLINE !in l }

  predicate AreLines(lines: seq<Bytes>) {
    forall i :: 0 <= i < |lines| ==> IsLine(lines[i])
  }

  /** The bytes of a file made of these lines, as the appender writes them. */
  function Join(lines: seq<Bytes>): Bytes {
    if lines == [] then [] else lines[0] + ([NEWLINE] + Join(lines[1..]))
  }

  lemma {:induction false} JoinConcat(a: seq<Bytes>, b: seq<Bytes>)
    ensures Join(a + b) == Join(a) + Join(b)
  {
    if a == [] {
      assert a + b == b;
    } else {
      assert (a + b)[1..] == a[1..] + b;
      JoinConcat(a[1..], b);
    }
  }

  lemma {:induction false} SizeOfJoin(lines: seq<Bytes>)
    ensures |Join(lines)| == SizeOf(lines)
  {
    if lines != [] { SizeOfJoin(lines[1..]); }
  }

  lemma FirstNewlineIs(l: Bytes, rest: Bytes)
    requires IsLine(l)
    ensures FirstNewline(l + ([NEWLINE] + rest)) == Some(|l|)
  {
    var b := l + ([NEWLINE] + rest);
    assert b[|l|] == NEWLINE;
    assert forall i :: 0 <= i < |l| ==> b[i] == l[i];
  }

  lemma ChunksOfOneMore(l: Bytes, rest: Bytes)
    requires IsLine(l)
    ensures Chunks(l + ([NEWLINE] + rest)) == [l] + Chunks(rest)
  {
    var b := l + ([NEWLINE] + rest);
    FirstNewlineIs(l, rest);
    assert b[..|l|] == l && b[|l| + 1..] == rest;
  }

  lemma JoinThenTail(lines: seq<Bytes>, tail: Bytes)
    requires lines != []
    ensures Join(lines) + tail == lines[0] + ([NEWLINE] + (Join(lines[1..]) + tail))
  {
  }

  lemma ChunksOfFirst(lines: seq<Bytes>, tail: Bytes)
    requires lines != [] && IsLine(lines[0])
    ensures Chunks(Join(lines) + tail) == [lines[0]] + Chunks(Join(lines[1..]) + tail)
  {
    JoinThenTail(lines, tail);
    ChunksOfOneMore(lines[0], Join(lines[1..]) + tail);
  }

  lemma FirstThenRest(lines: seq<Bytes>, more: seq<Bytes>)
    requires lines != []
    ensures lines + more == [lines[0]] + (lines[1..] + more)
  {
  }

  /** Splitting undoes joining, whatever unterminated tail follows. */
  lemma {:induction false} ChunksOfJoin(lines: seq<Bytes>, tail: Bytes)
    requires AreLines(lines) && IsLine(tail)
    ensures Chunks(Join(lines) + tail) == lines + [tail]
    decreases |lines|
  {
    if lines == [] {
      assert Join(lines) + tail == tail;
    } else {
      ChunksOfFirst(lines, tail);
      ChunksOfJoin(lines[1..], tail);
      FirstThenRest(lines, [tail]);
    }
  }

  lemma CutAt(b: Bytes, k: nat)
    requires k < |b|
    ensures b == b[..k] + ([b[k]] + b[k + 1..])
  {
  }

  lemma FileAtFirstNewline(b: Bytes)
    requires FirstNewline(b).Some?
    ensures var k := FirstNewline(b).value;
            && b == b[..k] + ([NEWLINE] + b[k + 1..])
            && CompleteLines(b) == [b[..k]] + CompleteLines(b[k + 1..]) && Tail(b) == Tail(b[k + 1..])
  {
    var k := FirstNewline(b).value;
    CutAt(b, k);
    SplitAtFirst(b, k);
  }

  lemma SplitAtFirst(b: Bytes, k: nat)
    requires FirstNewline(b) == Some(k)
    ensures CompleteLines(b) == [b[..k]] + CompleteLines(b[k + 1..]) && Tail(b) == Tail(b[k + 1..])
  {
  }

  /** Every file is its complete lines, each with its newline, followed by a newline-free tail. */
  lemma {:induction false} FileIsLinesAndTail(b: Bytes)
    ensures AreLines(CompleteLines(b)) && IsLine(Tail(b))
    ensures Join(CompleteLines(b)) + Tail(b) == b
    decreases |b|
  {
    match FirstNewline(b) {
      case None =>
      case Some(k) =>
        FileAtFirstNewline(b);
        FileIsLinesAndTail(b[k + 1..]);
        JoinThenTail(CompleteLines(b), Tail(b));
        assert CompleteLines(b)[1..] == CompleteLines(b[k + 1..]);
    }
  }

  // ---------------------------------------------------------------- parsing drained records

  /** Parse drained records in order, stopping at the first that fails. */
  function ParseRecords<V>(parse: Bytes -> Option<V>, records: seq<Record>, line: nat): Result<seq<Entry<V>>, ReadError>
    decreases |records|
  {
    if records == [] then Ok([])
    else
      match parse(records[0].bytes)
      case None => Err(CorruptLine(line))
      case Some(v) =>
        match ParseRecords(parse, records[1..], line + 1)
        case Err(error) => Err(error)
        case Ok(rest) => Ok([Entry(v, records[0].end)] + rest)
  }

  /** From a line start, walking chunks is parsing every record from there on. */
  lemma {:induction false} WalkIsParse<V>(parse: Bytes -> Option<V>, lines: seq<Bytes>, tail: Bytes, cursor: nat,
                                          since: nat, line: nat)
    requires since <= cursor
    ensures ParseChunks(parse, lines + [tail], cursor, line)
            == ParseRecords(parse, RecordsFrom(lines, cursor, since), line)
    decreases |lines|
  {
    if lines == [] {
      assert lines + [tail] == [tail];
    } else {
      var chunks := lines + [tail];
      var next := cursor + |lines[0]| + TERMINATOR_LEN;
      assert chunks[0] == lines[0] && chunks[1..] == lines[1..] + [tail];
      var records := RecordsFrom(lines, cursor, since);
      assert records[0] == Record(lines[0], cursor, next) && records[1..] == RecordsFrom(lines[1..], next, since);
      WalkIsParse(parse, lines[1..], tail, next, since, line + 1);
    }
  }

  /** Records strictly before the cursor drop out line by line. */
  lemma {:induction false} RecordsPastEnd(lines: seq<Bytes>, cursor: nat, since: nat)
    requires cursor + SizeOf(lines) <= since
    ensures RecordsFrom(lines, cursor, since) == []
    decreases |lines|
  {
    if lines != [] { RecordsPastEnd(lines[1..], cursor + |lines[0]| + TERMINATOR_LEN, since); }
  }

  lemma {:induction false} SizeOfPrefix(lines: seq<Bytes>, k: nat)
    requires k < |lines|
    ensures SizeOf(lines[..k + 1]) == SizeOf(lines[..k]) + |lines[k]| + 1
    ensures SizeOf(lines[..k + 1]) <= SizeOf(lines)
    decreases |lines|
  {
    var l, rest := lines[0], lines[1..];
    if k == 0 {
      assert lines[..1] == [l] && lines[..1][1..] == [];
    } else {
      SizeOfPrefix(rest, k - 1);
      assert lines[..k + 1][1..] == rest[..k] && lines[..k][1..] == rest[..k - 1];
    }
  }

  /** The first line starting at or after the cursor; every earlier line starts before it. */
  lemma {:induction false} LineAfterCursor(lines: seq<Bytes>, since: nat, from: nat) returns (k: nat)
    requires from <= |lines| && since <= SizeOf(lines)
    requires forall j :: 0 <= j < from ==> SizeOf(lines[..j]) < since
    ensures k <= |lines| && since <= SizeOf(lines[..k])
    ensures forall j :: 0 <= j < k ==> SizeOf(lines[..j]) < since
    decreases |lines| - from
  {
    if since <= SizeOf(lines[..from]) {
      k := from;
    } else {
      assert lines[..|lines|] == lines;
      k := LineAfterCursor(lines, since, from + 1);
    }
  }

  /** Lines that start before the cursor are not drained. */
  lemma {:induction false} SkipRecords(lines: seq<Bytes>, k: nat, since: nat)
    requires k <= |lines| && forall j :: 0 <= j < k ==> SizeOf(lines[..j]) < since
    ensures RecordsFrom(lines, 0, since) == RecordsFrom(lines[k..], SizeOf(lines[..k]), since)
  {
    if k == 0 {
      assert lines[0..] == lines;
    } else {
      SkipRecords(lines, k - 1, since);
      SizeOfPrefix(lines, k - 1);
      assert lines[k - 1..][1..] == lines[k..];
      assert SizeOf(lines[..k - 1]) < since;
    }
  }

  /** The bytes before a line, the line, and the bytes after it. */
  lemma FileAroundLine(lines: seq<Bytes>, tail: Bytes, k: nat)
    requires k < |lines|
    ensures Join(lines) + tail == Join(lines[..k]) + (lines[k] + ([NEWLINE] + (Join(lines[k + 1..]) + tail)))
    ensures |Join(lines[..k])| == SizeOf(lines[..k])
  {
    assert lines == lines[..k] + lines[k..];
    JoinConcat(lines[..k], lines[k..]);
    Associates(Join(lines[..k]), Join(lines[k..]), tail);
    JoinThenTail(lines[k..], tail);
    assert lines[k..][1..] == lines[k + 1..];
    SizeOfJoin(lines[..k]);
  }

  /** A cursor inside the complete lines snaps to the first line starting at or after it. */
  lemma SnapFindsLine(lines: seq<Bytes>, tail: Bytes, k: nat, since: nat)
    requires AreLines(lines) && k <= |lines| && since <= SizeOf(lines[..k])
    requires forall j :: 0 <= j < k ==> SizeOf(lines[..j]) < since
    requires since < |Join(lines) + tail|
    ensures Snap(Join(lines) + tail, since) == Some(SizeOf(lines[..k]))
  {
    if k == 0 {
      assert SizeOf(lines[..0]) == 0;
    } else {
      var before, l := Join(lines[..k - 1]), lines[k - 1];
      var after := Join(lines[k..]) + tail;
      FileAroundLine(lines, tail, k - 1);
      SizeOfPrefix(lines, k - 1);
      assert SizeOf(lines[..k - 1]) < since;
      if since == SizeOf(lines[..k]) {
        SnapAtNewline(before, l, after);
      } else {
        SnapInsideLine(before, l, after, since);
      }
    }
  }

  lemma SnapAtNewline(before: Bytes, l: Bytes, after: Bytes)
    requires var at := |before| + |l| + 1; at < |before + (l + ([NEWLINE] + after))|
    ensures Snap(before + (l + ([NEWLINE] + after)), |before| + |l| + 1) == Some(|before| + |l| + 1)
  {
  }

  /** Inside a line the snap goes just past that line's newline. */
  lemma SnapInsideLine(before: Bytes, l: Bytes, after: Bytes, since: nat)
    requires IsLine(l) && |before| < since <= |before| + |l|
    ensures Snap(before + (l + ([NEWLINE] + after)), since) == Some(|before| + |l| + 1)
  {
    var b := before + (l + ([NEWLINE] + after));
    var i := since - |before|;
    assert b[since - 1] == l[i - 1];
    assert b[since..] == l[i..] + ([NEWLINE] + after);
    FirstNewlineIs(l[i..], after);
  }

  /** Past every complete line, a cursor inside the tail finds nothing. */
  lemma SnapInsideTail(lines: Bytes, tail: Bytes, since: nat)
    requires IsLine(tail) && |lines| < since < |lines| + |tail|
    ensures Snap(lines + tail, since).None?
  {
  }

  /**
    The reader and the double agree on every file and at every cursor: reading the bytes from
    `since` gives the values and end offsets of exactly the records the mailbox drains from the
    file's complete lines, and fails at the first of those that does not parse.
   */
  lemma ReaderAgreesWithMailbox<V>(parse: Bytes -> Option<V>, b: Bytes, since: nat)
    ensures ReadFrom(parse, b, since) == ParseRecords(parse, DrainLines(CompleteLines(b), since).records, 1)
  {
    var lines, tail := CompleteLines(b), Tail(b);
    FileIsLinesAndTail(b);
    SizeOfJoin(lines);
    if since < |b| {
      if since > SizeOf(lines) {
        SnapInsideTail(Join(lines), tail, since);
      } else {
        ReadsFromLine(parse, lines, tail, since);
      }
    }
  }

  lemma ReadsFromLine<V>(parse: Bytes -> Option<V>, lines: seq<Bytes>, tail: Bytes, since: nat)
    requires AreLines(lines) && IsLine(tail) && since <= SizeOf(lines) && since < |Join(lines) + tail|
    ensures ReadFrom(parse, Join(lines) + tail, since) == ParseRecords(parse, DrainLines(lines, since).records, 1)
  {
    var b := Join(lines) + tail;
    var k := LineAfterCursor(lines, since, 0);
    var at := SizeOf(lines[..k]);
    SnapFindsLine(lines, tail, k, since);
    SkipRecords(lines, k, since);
    WalkIsParse(parse, lines[k..], tail, at, since, 1);
    FileFromLine(lines, tail, k);
    ChunksOfJoin(lines[k..], tail);
    if since == SizeOf(lines) { RecordsPastEnd(lines, 0, since); }
    if at >= |b| {
      SizeOfJoin(lines[k..]);
      assert Join(lines[k..]) + tail == [];
    }
  }

  lemma FileFromLine(lines: seq<Bytes>, tail: Bytes, k: nat)
    requires k <= |lines|
    ensures SizeOf(lines[..k]) <= |Join(lines) + tail|
    ensures (Join(lines) + tail)[SizeOf(lines[..k])..] == Join(lines[k..]) + tail
  {
    assert lines == lines[..k] + lines[k..];
    JoinConcat(lines[..k], lines[k..]);
    Associates(Join(lines[..k]), Join(lines[k..]), tail);
    SizeOfJoin(lines[..k]);
  }

  // ---------------------------------------------------------------- the two readers

  /** Values and offsets come from the same walk. */
  lemma {:induction false} ValuesAreEntryValues<V>(parse: Bytes -> Option<V>, chunks: seq<Bytes>, running: nat,
                                                   line: nat)
    requires |chunks| >= 1
    ensures var r := ParseChunks(parse, chunks, running, line);
            ParseValues(parse, chunks, line) == if r.Err? then Err(r.error) else Ok(ValuesOf(r.value))
    decreases |chunks|
  {
    if |chunks| > 1 && parse(chunks[0]).Some? {
      ValuesAreEntryValues(parse, chunks[1..], running + |chunks[0]| + 1, line + 1);
    }
  }

  function ValuesOf<V>(entries: seq<Entry<V>>): seq<V> {
    if entries == [] then [] else [entries[0].value] + ValuesOf(entries[1..])
  }

  /** The values `read_from` yields from the start of the file. */
  function ValuesFromStart<V>(parse: Bytes -> Option<V>, b: Bytes): Result<seq<V>, ReadError> {
    var r := ReadFrom(parse, b, 0);
    if r.Err? then Err(r.error) else Ok(ValuesOf(r.value))
  }

  lemma WholeFileRead<V>(parse: Bytes -> Option<V>, b: Bytes)
    ensures ReadFrom(parse, b, 0) == ParseChunks(parse, Chunks(b), 0, 1)
  {
  }

  /** Some newline-terminated line of the file does not parse. */
  predicate IsCorrupt<V>(parse: Bytes -> Option<V>, b: Bytes) {
    exists i :: 0 <= i < |CompleteLines(b)| && parse(CompleteLines(b)[i]).None?
  }

  /** Reading fails exactly on a corrupt line. */
  lemma {:induction false} FailsIffCorrupt<V>(parse: Bytes -> Option<V>, chunks: seq<Bytes>, line: nat)
    requires |chunks| >= 1
    ensures ParseValues(parse, chunks, line).Err? <==> exists i :: 0 <= i < |chunks| - 1 && parse(chunks[i]).None?
    decreases |chunks|
  {
    if |chunks| > 1 && parse(chunks[0]).Some? {
      var rest := chunks[1..];
      FailsIffCorrupt(parse, rest, line + 1);
      if i :| 0 <= i < |rest| - 1 && parse(rest[i]).None? { assert parse(chunks[i + 1]).None?; }
      if i :| 0 <= i < |chunks| - 1 && parse(chunks[i]).None? { assert parse(rest[i - 1]).None?; }
    }
  }

  /**
    The two readers agree on a file if and only if some complete line is corrupt, or the tail is
    empty or does not parse. A newline-terminated file has an empty tail; a cut-off last line
    that still parses is returned by one reader and dropped by the other.
   */
  lemma ReadersAgreeIff<V>(parse: Bytes -> Option<V>, b: Bytes)
    ensures ReadAll(parse, b) == ValuesFromStart(parse, b)
            <==> IsCorrupt(parse, b) || Tail(b) == [] || parse(Tail(b)).None?
  {
    WholeFileRead(parse, b);
    ValuesAreEntryValues(parse, Chunks(b), 0, 1);
    CorruptIsFailure(parse, b);
    var r := ParseValues(parse, Chunks(b), 1);
    if r.Ok? {
      assert |r.value + TailValue(parse, Tail(b))| == |r.value| + |TailValue(parse, Tail(b))|;
      assert TailValue(parse, Tail(b)) == [] ==> r.value + [] == r.value;
    }
  }

  lemma CorruptIsFailure<V>(parse: Bytes -> Option<V>, b: Bytes)
    ensures IsCorrupt(parse, b) <==> ParseValues(parse, Chunks(b), 1).Err?
  {
    var chunks := Chunks(b);
    FailsIffCorrupt(parse, chunks, 1);
    assert forall i :: 0 <= i < |chunks| - 1 ==> CompleteLines(b)[i] == chunks[i];
  }

  /** The failing family: parseable lines, then a non-empty tail that parses though its newline never came. */
  lemma ParseableTailDivides<V>(parse: Bytes -> Option<V>, lines: seq<Bytes>, tail: Bytes)
    requires AreLines(lines) && IsLine(tail) && tail != [] && parse(tail).Some?
    requires forall i :: 0 <= i < |lines| ==> parse(lines[i]).Some?
    ensures var b := Join(lines) + tail;
            && ValuesFromStart(parse, b).Ok?
            && ReadAll(parse, b) == Ok(ValuesFromStart(parse, b).value + [parse(tail).value])
  {
    var b := Join(lines) + tail;
    ChunksOfJoin(lines, tail);
    assert CompleteLines(b) == lines && Tail(b) == tail;
    CorruptIsFailure(parse, b);
    WholeFileRead(parse, b);
    ValuesAreEntryValues(parse, Chunks(b), 0, 1);
  }

  // ---------------------------------------------------------------- truncation

  /**
    Crash recovery: cut the file at any byte and what reads back from the start is exactly the
    records of the lines that lie wholly before the cut.
   */
  lemma TruncationKeepsWholeLines<V>(parse: Bytes -> Option<V>, lines: seq<Bytes>, cut: nat, k: nat)
    requires AreLines(lines) && cut <= SizeOf(lines) && k <= |lines|
    requires SizeOf(lines[..k]) <= cut && (k < |lines| ==> cut < SizeOf(lines[..k + 1]))
    ensures |Join(lines)| == SizeOf(lines)
    ensures CompleteLines(Join(lines)[..cut]) == lines[..k]
    ensures ReadFrom(parse, Join(lines)[..cut], 0) == ParseRecords(parse, RecordsFrom(lines[..k], 0, 0), 1)
  {
    SizeOfJoin(lines);
    CutInsideLine(lines, cut, k);
    ReaderAgreesWithMailbox(parse, Join(lines)[..cut], 0);
    if SizeOf(lines[..k]) == 0 { RecordsPastEnd(lines[..k], 0, 0); }
  }

  lemma CutInsideLine(lines: seq<Bytes>, cut: nat, k: nat)
    requires AreLines(lines) && |Join(lines)| == SizeOf(lines) && cut <= SizeOf(lines) && k <= |lines|
    requires SizeOf(lines[..k]) <= cut && (k < |lines| ==> cut < SizeOf(lines[..k + 1]))
    ensures CompleteLines(Join(lines)[..cut]) == lines[..k]
  {
    var whole, i := Join(lines[..k]), cut - SizeOf(lines[..k]);
    SizeOfJoin(lines[..k]);
    if k == |lines| {
      assert lines[..k] == lines && Join(lines)[..cut] == Join(lines) + [];
      ChunksOfJoin(lines, []);
    } else {
      FileAroundLine(lines, [], k);
      SizeOfPrefix(lines, k);
      assert Join(lines) + [] == Join(lines);
      var l := lines[k];
      assert Join(lines)[..cut] == whole + l[..i];
      ChunksOfJoin(lines[..k], l[..i]);
    }
  }

  // ---------------------------------------------------------------- exactly-once consumption

  /** Producer and consumer of one mailbox: an append, or a drain whose first `taken` records are consumed. */
  datatype Event = Append(line: Bytes) | Consume(taken: nat)

  datatype Feed = Feed(lines: seq<Bytes>, cursor: nat, consumed: seq<Bytes>)

  const EMPTY_FEED: Feed := Feed([], 0, [])

  function PayloadsOf(records: seq<Record>): seq<Bytes> {
    if records == [] then [] else [records[0].bytes] + PayloadsOf(records[1..])
  }

  /** The cursor only ever moves to the end of a record that was returned. */
  function FeedStep(f: Feed, e: Event): Feed {
    match e
    case Append(line) => f.(lines := f.lines + [line])
    case Consume(taken) =>
      var records := DrainLines(f.lines, f.cursor).records;
      if taken == 0 || taken > |records| then f
      else f.(cursor := records[taken - 1].end, consumed := f.consumed + PayloadsOf(records[..taken]))
  }

  function FeedAfter(f: Feed, events: seq<Event>): Feed
    decreases |events|
  {
    if events == [] then f else FeedAfter(FeedStep(f, events[0]), events[1..])
  }

  /** The consumer has taken exactly the first `k` lines and stands after them. */
  predicate Consumed(f: Feed, k: nat) {
    k <= |f.lines| && f.consumed == f.lines[..k] && f.cursor == SizeOf(f.lines[..k])
  }

  /** From a line start, the drained records are the lines from there on, end to end. */
  lemma {:induction false} RecordsAreLines(lines: seq<Bytes>, cursor: nat, since: nat, n: nat)
    requires since <= cursor
    ensures |RecordsFrom(lines, cursor, since)| == |lines|
    ensures n <= |lines| ==> PayloadsOf(RecordsFrom(lines, cursor, since)[..n]) == lines[..n]
    ensures 0 < n <= |lines| ==> RecordsFrom(lines, cursor, since)[n - 1].end == cursor + SizeOf(lines[..n])
    decreases |lines|
  {
    if lines != [] {
      var next := cursor + |lines[0]| + TERMINATOR_LEN;
      var records := RecordsFrom(lines, cursor, since);
      assert records[0] == Record(lines[0], cursor, next) && records[1..] == RecordsFrom(lines[1..], next, since);
      RecordsAreLines(lines[1..], next, since, if n == 0 then 0 else n - 1);
      if 0 < n <= |lines| {
        assert records[..n][1..] == records[1..][..n - 1] && lines[..n][1..] == lines[1..][..n - 1];
        assert lines[..n] == [lines[0]] + lines[1..][..n - 1];
      }
    }
  }

  lemma DrainAtLine(lines: seq<Bytes>, k: nat)
    requires k <= |lines|
    ensures DrainLines(lines, SizeOf(lines[..k])).records
            == RecordsFrom(lines[k..], SizeOf(lines[..k]), SizeOf(lines[..k]))
  {
    var since := SizeOf(lines[..k]);
    forall j | 0 <= j < k ensures SizeOf(lines[..j]) < since { PrefixesGrow(lines, j, k); }
    SkipRecords(lines, k, since);
    if since >= SizeOf(lines) { RecordsPastEnd(lines, 0, since); }
  }

  lemma {:induction false} PrefixesGrow(lines: seq<Bytes>, j: nat, k: nat)
    requires j < k <= |lines|
    ensures SizeOf(lines[..j]) < SizeOf(lines[..k])
  {
    SizeOfPrefix(lines, k - 1);
    if j < k - 1 { PrefixesGrow(lines, j, k - 1); }
  }

  lemma ConsumeMovesOn(f: Feed, k: nat, taken: nat)
    requires Consumed(f, k) && 0 < taken <= |DrainLines(f.lines, f.cursor).records|
    ensures Consumed(FeedStep(f, Consume(taken)), k + taken)
  {
    var left := f.lines[k..];
    DrainAtLine(f.lines, k);
    RecordsAreLines(left, f.cursor, f.cursor, taken);
    assert f.lines[..k + taken] == f.lines[..k] + left[..taken];
    SizeOfConcat(f.lines[..k], left[..taken]);
  }

  lemma {:induction false} SizeOfConcat(a: seq<Bytes>, b: seq<Bytes>)
    ensures SizeOf(a + b) == SizeOf(a) + SizeOf(b)
  {
    if a == [] {
      assert a + b == b;
    } else {
      assert (a + b)[1..] == a[1..] + b;
      SizeOfConcat(a[1..], b);
    }
  }

  lemma StepKeepsPrefix(f: Feed, e: Event, k: nat) returns (k': nat)
    requires Consumed(f, k)
    ensures Consumed(FeedStep(f, e), k')
  {
    k' := k;
    match e {
      case Append(line) =>
        assert (f.lines + [line])[..k] == f.lines[..k];
      case Consume(taken) =>
        if 0 < taken <= |DrainLines(f.lines, f.cursor).records| {
          ConsumeMovesOn(f, k, taken);
          k' := k + taken;
        }
    }
  }

  lemma {:induction false} ConsumedStaysPrefix(f: Feed, events: seq<Event>, k: nat) returns (k': nat)
    requires Consumed(f, k)
    ensures Consumed(FeedAfter(f, events), k')
    decreases |events|
  {
    k' := k;
    if events != [] {
      var next := StepKeepsPrefix(f, events[0], k);
      k' := ConsumedStaysPrefix(FeedStep(f, events[0]), events[1..], next);
    }
  }

  lemma StepAppends(f: Feed, e: Event)
    ensures FeedStep(f, e).lines == f.lines + if e.Append? then [e.line] else []
  {
  }

  lemma {:induction false} LinesAreAppended(f: Feed, events: seq<Event>)
    ensures FeedAfter(f, events).lines == f.lines + AppendedIn(events)
    decreases |events|
  {
    if events != [] {
      StepAppends(f, events[0]);
      LinesAreAppended(FeedStep(f, events[0]), events[1..]);
      Associates(f.lines, if events[0].Append? then [events[0].line] else [], AppendedIn(events[1..]));
    }
  }

  /** The lines appended by a sequence of events. */
  function AppendedIn(events: seq<Event>): seq<Bytes> {
    if events == [] then [] else (if events[0].Append? then [events[0].line] else []) + AppendedIn(events[1..])
  }

  /**
    Exactly once, in order: however appends and partial drains interleave, what has been
    consumed is exactly a prefix of what was appended, the cursor stands right after it, and
    consuming the next drain whole leaves no line behind.
   */
  lemma ExactlyOnce(events: seq<Event>)
    ensures var f := FeedAfter(EMPTY_FEED, events);
            && f.lines == AppendedIn(events) && f.consumed <= AppendedIn(events) && f.cursor == SizeOf(f.consumed)
            && FeedStep(f, Consume(|DrainLines(f.lines, f.cursor).records|)).consumed == AppendedIn(events)
  {
    var f := FeedAfter(EMPTY_FEED, events);
    var k := ConsumedStaysPrefix(EMPTY_FEED, events, 0);
    LinesAreAppended(EMPTY_FEED, events);
    assert EMPTY_FEED.lines + AppendedIn(events) == AppendedIn(events);
    ConsumeAll(f, k);
  }

  /** Consuming every record a drain returns leaves nothing unconsumed. */
  lemma ConsumeAll(f: Feed, k: nat)
    requires Consumed(f, k)
    ensures FeedStep(f, Consume(|DrainLines(f.lines, f.cursor).records|)).consumed == f.lines
  {
    var n := |DrainLines(f.lines, f.cursor).records|;
    DrainAtLine(f.lines, k);
    RecordsAreLines(f.lines[k..], f.cursor, f.cursor, 0);
    if n > 0 { ConsumeMovesOn(f, k, n); }
    assert k + n == |f.lines| && f.lines[..|f.lines|] == f.lines;
  }
}
