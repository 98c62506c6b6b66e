/**
  The JSONL inbox at byte level: the appender, the two readers, and the in-memory mailbox that
  stands in for the file. Parsing a line as JSON is a parameter.
 */
module Jsonl {
  import opened Results
  import opened Octets

  const NEWLINE: Byte := 10
  const TERMINATOR_LEN: nat := 1

  datatype ReadError = Io | EmbeddedNewline | CorruptLine(lineNo: nat)

  /** A value read from a line, with the offset one past that line's newline. */
  datatype Entry<V> = Entry(value: V, end: nat)

  // ---------------------------------------------------------------- splitting

  /** Position of the first newline. */
  function FirstNewline(b: Bytes): (r: Option<nat>)
    ensures r.Some? ==> r.value < |b| && b[r.value] == NEWLINE && NEWLINE !in b[..r.value]
    ensures r.None? ==> NEWLINE !in b
  {
    if b == [] then None
    else if b[0] == NEWLINE then Some(0)
    else
      var r := FirstNewline(b[1..]);
      if r.None? then None
      else
        assert b[..r.value + 1] == [b[0]] + b[1..][..r.value];
        Some(r.value + 1)
  }

  /** `split(b'\n')`: the pieces between newlines, always at least one. */
  function Chunks(b: Bytes): (chunks: seq<Bytes>)
    ensures |chunks| >= 1
    decreases |b|
  {
    match FirstNewline(b)
    case None => [b]
    case Some(k) => [b[..k]] + Chunks(b[k + 1..])
  }

  /** The newline-terminated lines of a file. */
  function CompleteLines(b: Bytes): seq<Bytes> {
    Chunks(b)[..|Chunks(b)| - 1]
  }

  /** What follows the last newline: empty, or a line cut short. */
  function Tail(b: Bytes): Bytes {
    Chunks(b)[|Chunks(b)| - 1]
  }

  // ---------------------------------------------------------------- readers, as functions

  /** Parse all chunks but the last, stopping at the first that fails; `line` numbers the first. */
  function ParseChunks<V>(parse: Bytes -> Option<V>, chunks: seq<Bytes>, running: nat,
                          line: nat): Result<seq<Entry<V>>, ReadError>
    requires |chunks| >= 1
    decreases |chunks|
  {
    if |chunks| == 1 then Ok([])
    else
      match parse(chunks[0])
      case None => Err(CorruptLine(line))
      case Some(v) =>
        var end := running + |chunks[0]| + 1;
        match ParseChunks(parse, chunks[1..], end, line + 1)
        case Err(error) => Err(error)
        case Ok(rest) => Ok([Entry(v, end)] + rest)
  }

  /** The line start a cursor snaps forward to, if there is one. */
  function Snap(b: Bytes, start: nat): (r: Option<nat>)
    requires start < |b|
    ensures r.Some? ==> start <= r.value <= |b|
  {
    if start == 0 || b[start - 1] == NEWLINE then Some(start)
    else
      match FirstNewline(b[start..])
      case Some(off) => Some(start + off + 1)
      case None => None
  }

  function ReadFrom<V>(parse: Bytes -> Option<V>, b: Bytes, start: nat): Result<seq<Entry<V>>, ReadError> {
    if start >= |b| then Ok([])
    else
      match Snap(b, start)
      case None => Ok([])
      case Some(snapped) =>
        if snapped >= |b| then Ok([]) else ParseChunks(parse, Chunks(b[snapped..]), snapped, 1)
  }

  /** As `ParseChunks`, without offsets. */
  function ParseValues<V>(parse: Bytes -> Option<V>, chunks: seq<Bytes>, line: nat): Result<seq<V>, ReadError>
    requires |chunks| >= 1
    decreases |chunks|
  {
    if |chunks| == 1 then Ok([])
    else
      match parse(chunks[0])
      case None => Err(CorruptLine(line))
      case Some(v) =>
        match ParseValues(parse, chunks[1..], line + 1)
        case Err(error) => Err(error)
        case Ok(rest) => Ok([v] + rest)
  }

  /** The value of a cut-off tail, when it happens to parse. */
  function TailValue<V>(parse: Bytes -> Option<V>, tail: Bytes): seq<V> {
    if tail != [] && parse(tail).Some? then [parse(tail).value] else []
  }

  function ReadAll<V>(parse: Bytes -> Option<V>, b: Bytes): Result<seq<V>, ReadError> {
    match ParseValues(parse, Chunks(b), 1)
    case Err(error) => Err(error)
    case Ok(values) => Ok(values + TailValue(parse, Tail(b)))
  }

  // ---------------------------------------------------------------- readers, as loops

  /** What a loop that has gathered `out` will return, given what the rest returns. */
  function After<T>(out: seq<T>, rest: Result<seq<T>, ReadError>): Result<seq<T>, ReadError> {
    if rest.Err? then rest else Ok(out + rest.value)
  }

  lemma AfterOneMore<T>(out: seq<T>, x: T, rest: Result<seq<T>, ReadError>)
    ensures After(out, After([x], rest)) == After(out + [x], rest)
  {
    if rest.Ok? { assert out + ([x] + rest.value) == (out + [x]) + rest.value; }
  }

  method ParseLoop<V>(parse: Bytes -> Option<V>, chunks: seq<Bytes>, snapped: nat)
    returns (r: Result<seq<Entry<V>>, ReadError>)
    requires |chunks| >= 1
    ensures r == ParseChunks(parse, chunks, snapped, 1)
  {
    var out: seq<Entry<V>> := [];
    var running: nat := snapped;
    var idx := 0;
    assert chunks[0..] == chunks;
    ghost var whole := ParseChunks(parse, chunks, snapped, 1);
    assert whole.Ok? ==> [] + whole.value == whole.value;
    while idx + 1 < |chunks|
      invariant 0 <= idx < |chunks|
      invariant After(out, ParseChunks(parse, chunks[idx..], running, idx + 1)) == whole
    {
      ghost var left := chunks[idx..];
      assert left[0] == chunks[idx] && left[1..] == chunks[idx + 1..];
      var value := parse(chunks[idx]);
      if value.None? { return Err(CorruptLine(idx + 1)); }
      running := running + |chunks[idx]| + 1;
      AfterOneMore(out, Entry(value.value, running), ParseChunks(parse, chunks[idx + 1..], running, idx + 2));
      out := out + [Entry(value.value, running)];
      idx := idx + 1;
    }
    assert out + [] == out;
    return Ok(out);
  }

  /** `read_from`; `file` is `None` when the file does not exist. */
  method ReadFromFile<V>(parse: Bytes -> Option<V>, file: Option<Bytes>, start: nat)
    returns (r: Result<seq<Entry<V>>, ReadError>)
    ensures r == if file.None? then Ok([]) else ReadFrom(parse, file.value, start)
  {
    if file.None? { return Ok([]); }
    var b := file.value;
    if start >= |b| { return Ok([]); }
    var snapped := start;
    if start != 0 && b[start - 1] != NEWLINE {
      var off := FirstNewline(b[start..]);
      if off.None? { return Ok([]); }
      snapped := start + off.value + 1;
    }
    if snapped >= |b| { return Ok([]); }
    r := ParseLoop(parse, Chunks(b[snapped..]), snapped);
  }

  lemma EmptyFileReadsEmpty<V>(parse: Bytes -> Option<V>)
    ensures ReadAll(parse, []) == Ok([])
  {
    var none: seq<V> := [];
    assert Chunks([]) == [[]] && Tail([]) == [];
    assert ParseValues(parse, Chunks([]), 1) == Ok(none);
    assert none + TailValue(parse, []) == none;
  }

  /** `read_all`. */
  method ReadAllOfFile<V>(parse: Bytes -> Option<V>, file: Option<Bytes>) returns (r: Result<seq<V>, ReadError>)
    ensures r == if file.None? then Err(Io) else ReadAll(parse, file.value)
  {
    if file.None? { return Err(Io); }
    var b := file.value;
    if b == [] {
      EmptyFileReadsEmpty(parse);
      return Ok([]);
    }
    var chunks := Chunks(b);
    var out: seq<V> := [];
    assert chunks[0..] == chunks;
    ghost var whole := ParseValues(parse, chunks, 1);
    assert whole.Ok? ==> [] + whole.value == whole.value;
    var idx := 0;
    while idx + 1 < |chunks|
      invariant 0 <= idx < |chunks|
      invariant After(out, ParseValues(parse, chunks[idx..], idx + 1)) == whole
    {
      ghost var left := chunks[idx..];
      assert left[0] == chunks[idx] && left[1..] == chunks[idx + 1..];
      var value := parse(chunks[idx]);
      if value.None? {
        assert ParseValues(parse, left, idx + 1) == Err(CorruptLine(idx + 1));
        return Err(CorruptLine(idx + 1));
      }
      AfterOneMore(out, value.value, ParseValues(parse, chunks[idx + 1..], idx + 2));
      out := out + [value.value];
      idx := idx + 1;
    }
    assert out + [] == out;
    return Ok(out + TailValue(parse, chunks[idx]));
  }

  // ---------------------------------------------------------------- writers

  /** The append-only inbox file. */
  class Inbox {
    var file: Bytes

    constructor ()
      ensures file == []
    {
      file := [];
    }

    method Append(envelope: Bytes) returns (r: Result<(), ReadError>)
      modifies this
      ensures NEWLINE in envelope ==> r == Err(EmbeddedNewline) && file == old(file)
      ensures NEWLINE !in envelope ==> r.Ok? && file == old(file) + (envelope + [NEWLINE])
    {
      if NEWLINE in envelope { return Err(EmbeddedNewline); }
      file := file + envelope;
      file := file + [NEWLINE];
      return Ok(());
    }
  }

  datatype MailboxName = Agent(name: string) | Channel(name: string)

  /** One record with its own framing: payload, first byte, one past its newline. */
  datatype Record = Record(bytes: Bytes, start: nat, end: nat)

  datatype Drain = Drain(records: seq<Record>, next: nat)

  function SizeOf(lines: seq<Bytes>): nat {
    if lines == [] then 0 else |lines[0]| + TERMINATOR_LEN + SizeOf(lines[1..])
  }

  /** Records whose first byte is at or after `since`, the first line starting at `cursor`. */
  function RecordsFrom(lines: seq<Bytes>, cursor: nat, since: nat): seq<Record>
    decreases |lines|
  {
    if lines == [] then []
    else
      var next := cursor + |lines[0]| + TERMINATOR_LEN;
      (if cursor >= since then [Record(lines[0], cursor, next)] else []) + RecordsFrom(lines[1..], next, since)
  }

  /** Draining a present mailbox. */
  function DrainLines(lines: seq<Bytes>, since: nat): Drain {
    Drain(if since >= SizeOf(lines) then [] else RecordsFrom(lines, 0, since), SizeOf(lines))
  }

  class InMemoryMailbox {
    var boxes: map<MailboxName, seq<Bytes>>

    constructor ()
      ensures boxes == map[]
    {
      boxes := map[];
    }

    method Append(name: MailboxName, line: Bytes)
      modifies this
      ensures boxes == old(boxes)[name := (if name in old(boxes) then old(boxes)[name] else []) + [line]]
    {
      if name !in boxes { boxes := boxes[name := []]; }
      boxes := boxes[name := boxes[name] + [line]];
    }

    method Truncate(name: MailboxName)
      modifies this
      ensures boxes == if name in old(boxes) then old(boxes)[name := []] else old(boxes)
    {
      if name in boxes { boxes := boxes[name := []]; }
    }

    /** An absent mailbox echoes the cursor; a present one clamps it to its end. */
    method DrainFrom(name: MailboxName, since: nat) returns (d: Drain)
      ensures d == if name in boxes then DrainLines(boxes[name], since) else Drain([], since)
    {
      if name !in boxes { return Drain([], since); }
      var entries := boxes[name];
      var total := 0;
      assert entries[0..] == entries;
      for i := 0 to |entries|
        invariant total + SizeOf(entries[i..]) == SizeOf(entries)
      {
        assert entries[i..][1..] == entries[i + 1..];
        total := total + |entries[i]| + TERMINATOR_LEN;
      }
      if since >= total { return Drain([], total); }
      var cursor: nat := 0;
      var records: seq<Record> := [];
      for i := 0 to |entries|
        invariant cursor + SizeOf(entries[i..]) == total
        invariant records + RecordsFrom(entries[i..], cursor, since) == RecordsFrom(entries, 0, since)
      {
        RecordsStep(entries, i, cursor, since, records);
        var next := cursor + |entries[i]| + TERMINATOR_LEN;
        if cursor >= since { records := records + [Record(entries[i], cursor, next)]; }
        cursor := next;
      }
      return Drain(records, cursor);
    }
  }

  lemma RecordsStep(entries: seq<Bytes>, i: nat, cursor: nat, since: nat, sofar: seq<Record>)
    requires i < |entries|
    ensures var next := cursor + |entries[i]| + TERMINATOR_LEN;
            && SizeOf(entries[i..]) == |entries[i]| + TERMINATOR_LEN + SizeOf(entries[i + 1..])
            && sofar + RecordsFrom(entries[i..], cursor, since)
               == (if cursor >= since then sofar + [Record(entries[i], cursor, next)] else sofar)
                  + RecordsFrom(entries[i + 1..], next, since)
  {
    assert entries[i..][1..] == entries[i + 1..];
  }
}
