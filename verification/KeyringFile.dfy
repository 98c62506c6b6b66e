/** The keyring file: two line shapes, the loader that checks it and the writer that sorts it. */
module KeyringFile {
  import opened Results
  import opened Clock
  import opened Crypto
  import opened Identity
  import opened Keyring
  import opened KeyringRuns
  import Text

  datatype LoadError =
    | MalformedEntry
    | BadKey
    | DuplicatePrincipal
    | DuplicateKeyEntry
    | DuplicatePubkey

  // ---------------------------------------------------------------- words and lines

  /** Unicode White_Space, as `char::is_whitespace`. */
  predicate IsWhitespace(c: char) {
    || '\U{9}' <= c <= '\U{D}' || c == ' ' || c == '\U{85}' || c == '\U{A0}' || c == '\U{1680}'
    || '\U{2000}' <= c <= '\U{200A}' || c == '\U{2028}' || c == '\U{2029}' || c == '\U{202F}'
    || c == '\U{205F}' || c == '\U{3000}'
  }

  /** Length of the leading run of non-whitespace. */
  function WordLength(s: string): (n: nat)
    ensures n <= |s|
    ensures forall i :: 0 <= i < n ==> !IsWhitespace(s[i])
    ensures n < |s| ==> IsWhitespace(s[n])
  {
    if s == "" || IsWhitespace(s[0]) then 0 else 1 + WordLength(s[1..])
  }

  /** `str::split_whitespace`. */
  function Fields(s: string): seq<string>
    decreases |s|
  {
    if s == "" then []
    else if IsWhitespace(s[0]) then Fields(s[1..])
    else [s[..WordLength(s)]] + Fields(s[WordLength(s)..])
  }

  function TrimStart(s: string): string {
    if s == "" || !IsWhitespace(s[0]) then s else TrimStart(s[1..])
  }

  function StripCr(s: string): string {
    if s != "" && s[|s| - 1] == '\r' then s[..|s| - 1] else s
  }

  /** `BufRead::lines`: a line ends at `\n`, a `\r` before it goes too, an unterminated tail is a line. */
  function Lines(t: string): seq<string>
    decreases |t|
  {
    if t == "" then []
    else
      match Find(t, '\n')
      case None => [t]
      case Some(k) => [StripCr(t[..k])] + Lines(t[k + 1..])
  }

  /** A field that survives splitting and the inline-comment check. */
  predicate IsWord(w: string) {
    w != "" && forall i :: 0 <= i < |w| ==> !IsWhitespace(w[i]) && w[i] != '#'
  }

  /** Fields joined by exactly two spaces. */
  function JoinFields(fs: seq<string>): string
    requires fs != []
  {
    if |fs| == 1 then fs[0] else fs[0] + ("  " + JoinFields(fs[1..]))
  }

  lemma WordThenBreak(w: string, rest: string)
    requires IsWord(w) && (rest == "" || IsWhitespace(rest[0]))
    ensures Fields(w + rest) == [w] + Fields(rest)
  {
    var s := w + rest;
    assert forall i :: 0 <= i < |w| ==> s[i] == w[i];
    assert rest != "" ==> s[|w|] == rest[0];
    assert WordLength(s) == |w|;
    assert s[..|w|] == w && s[|w|..] == rest;
  }

  /** Splitting undoes joining. */
  lemma {:induction false} FieldsOfJoin(fs: seq<string>)
    requires fs != [] && forall i :: 0 <= i < |fs| ==> IsWord(fs[i])
    ensures Fields(JoinFields(fs)) == fs
  {
    if |fs| == 1 {
      WordThenBreak(fs[0], "");
      assert fs[0] + "" == fs[0];
    } else {
      var tail := JoinFields(fs[1..]);
      FieldsOfJoin(fs[1..]);
      WordThenBreak(fs[0], "  " + tail);
      TwoSpacesSplitNothing(tail);
      assert fs == [fs[0]] + fs[1..];
    }
  }

  lemma TwoSpacesSplitNothing(s: string)
    ensures Fields("  " + s) == Fields(s)
  {
  }

  /** A joined line holds no newline and no '#', and both its ends are ends of words. */
  lemma {:induction false} JoinIsClean(fs: seq<string>)
    requires fs != [] && forall i :: 0 <= i < |fs| ==> IsWord(fs[i])
    ensures var l := JoinFields(fs);
            && l != "" && IsWord(fs[0]) && l[0] == fs[0][0] && !IsWhitespace(l[|l| - 1])
            && forall i :: 0 <= i < |l| ==> l[i] == ' ' || (!IsWhitespace(l[i]) && l[i] != '#')
  {
    if |fs| > 1 { JoinIsClean(fs[1..]); }
  }

  function Unlines(ls: seq<string>): string {
    if ls == [] then "" else ls[0] + ("\n" + Unlines(ls[1..]))
  }

  predicate IsCleanLine(l: string) {
    '\n' !in l && (l != "" ==> l[|l| - 1] != '\r')
  }

  lemma LinesOfOneMore(l: string, rest: string)
    requires IsCleanLine(l)
    ensures Lines(l + ("\n" + rest)) == [l] + Lines(rest)
  {
    var t := l + ("\n" + rest);
    FindFirst(l, '\n', rest);
    assert t[..|l|] == l && t[|l| + 1..] == rest;
  }

  lemma {:induction false} LinesOfUnlines(ls: seq<string>)
    requires forall i :: 0 <= i < |ls| ==> IsCleanLine(ls[i])
    ensures Lines(Unlines(ls)) == ls
  {
    if ls != [] {
      LinesOfUnlines(ls[1..]);
      LinesOfOneMore(ls[0], Unlines(ls[1..]));
      assert ls == [ls[0]] + ls[1..];
    }
  }

  lemma {:induction false} UnlinesOfConcat(a: seq<string>, b: seq<string>)
    ensures Unlines(a + b) == Unlines(a) + Unlines(b)
  {
    if a == [] {
      assert a + b == b;
    } else {
      assert (a + b)[1..] == a[1..] + b;
      UnlinesOfConcat(a[1..], b);
    }
  }

  // ---------------------------------------------------------------- one line

  const ABSENT: string := "-"

  function TokenOf(s: KeyState): string {
    match s
    case Active => "active"
    case Retired => "retired"
    case Revoked => "revoked"
  }

  function StateOf(token: string): Option<KeyState> {
    if token == "active" then Some(Active)
    else if token == "retired" then Some(Retired)
    else if token == "revoked" then Some(Revoked)
    else None
  }

  /** 43 characters of the URL-safe alphabet; which of these texts are keys is up to the decoder. */
  predicate IsKeyText(s: string) {
    |s| == 43 && forall i :: 0 <= i < |s| ==> IsAlphanumeric(s[i]) || s[i] == '-' || s[i] == '_'
  }

  /** The strict key decoder: `isPoint` stands for its curve and canonical-form checks. */
  function DecodeKey(isPoint: string -> bool, s: string): Option<Key> {
    if IsKeyText(s) && isPoint(s) then Some(Key(s)) else None
  }

  predicate IsLegacyShaped(e: KeyEntry) {
    e.state.Active? && e.validUntil.None? && e.pinnedAt.None? && e.stateSince.None?
  }

  function StampField(v: Option<string>): string {
    if v.Some? then v.value else ABSENT
  }

  /** The six-field shape, which a legacy-shaped entry may also come in. */
  function SixFields(p: Principal, e: KeyEntry): seq<string> {
    [PrintPrincipal(p), e.key.text, TokenOf(e.state), StampField(e.validUntil), StampField(e.pinnedAt),
     StampField(e.stateSince)]
  }

  /** The fields of an entry's line: two for a legacy-shaped entry, six otherwise. */
  function EntryFields(p: Principal, e: KeyEntry): seq<string> {
    if IsLegacyShaped(e) then [PrintPrincipal(p), e.key.text] else SixFields(p, e)
  }

  /** One save-format line, without its newline. */
  function EntryLine(p: Principal, e: KeyEntry): string {
    JoinFields(EntryFields(p, e))
  }

  datatype Parsed = Parsed(p: Principal, e: KeyEntry)

  /** A timestamp field: the absent mark, or a canonical stamp; the outer option is the verdict. */
  function ParseStamp(s: string): Option<Option<string>> {
    if s == ABSENT then Some(None) else if IsCanonicalUtc(s) then Some(Some(s)) else None
  }

  function ParseFields(isPoint: string -> bool, fs: seq<string>): Result<Parsed, LoadError> {
    if |fs| != 2 && |fs| != 6 then Err(MalformedEntry)
    else
      var p := ParsePrincipal(fs[0]);
      var key := DecodeKey(isPoint, fs[1]);
      if p.Err? then Err(MalformedEntry)
      else if key.None? then Err(BadKey)
      else if |fs| == 2 then Ok(Parsed(p.value, Legacy(key.value)))
      else
        var state := StateOf(fs[2]);
        var vu, pinned, since := ParseStamp(fs[3]), ParseStamp(fs[4]), ParseStamp(fs[5]);
        if state.None? || vu.None? || pinned.None? || since.None? then Err(MalformedEntry)
        else Ok(Parsed(p.value, KeyEntry(key.value, state.value, vu.value, pinned.value, since.value)))
  }

  function ParseLine(isPoint: string -> bool, raw: string): Result<Parsed, LoadError> {
    var line := StripCr(raw);
    if '#' in line then Err(MalformedEntry) else ParseFields(isPoint, Fields(line))
  }

  /** An entry the file format can carry. */
  predicate IsStorable(isPoint: string -> bool, p: Principal, e: KeyEntry) {
    IsPrincipal(p) && IsStamped(e) && DecodeKey(isPoint, e.key.text) == Some(e.key)
  }

  lemma EntryFieldsAreWords(isPoint: string -> bool, p: Principal, e: KeyEntry)
    requires IsStorable(isPoint, p, e)
    ensures forall i :: 0 <= i < |EntryFields(p, e)| ==> IsWord(EntryFields(p, e)[i])
  {
    PrincipalIsWord(p);
    StampIsWord(e.validUntil);
    StampIsWord(e.pinnedAt);
    StampIsWord(e.stateSince);
    assert IsWord(TokenOf(e.state));
  }

  lemma StampIsWord(v: Option<string>)
    requires IsCanonicalOpt(v)
    ensures IsWord(StampField(v)) && ParseStamp(StampField(v)) == Some(v)
  {
  }

  lemma PrincipalIsWord(p: Principal)
    requires IsPrincipal(p)
    ensures IsWord(PrintPrincipal(p))
  {
  }

  lemma TokenRoundTrip(s: KeyState)
    ensures StateOf(TokenOf(s)) == Some(s)
  {
  }

  lemma SixFieldsParse(isPoint: string -> bool, fs: seq<string>, p: Principal, e: KeyEntry)
    requires |fs| == 6 && ParsePrincipal(fs[0]) == Ok(p) && DecodeKey(isPoint, fs[1]) == Some(e.key)
    requires StateOf(fs[2]) == Some(e.state) && ParseStamp(fs[3]) == Some(e.validUntil)
    requires ParseStamp(fs[4]) == Some(e.pinnedAt) && ParseStamp(fs[5]) == Some(e.stateSince)
    ensures ParseFields(isPoint, fs) == Ok(Parsed(p, e))
  {
  }

  lemma TwoFieldsParse(isPoint: string -> bool, fs: seq<string>, p: Principal, key: Key)
    requires |fs| == 2 && ParsePrincipal(fs[0]) == Ok(p) && DecodeKey(isPoint, fs[1]) == Some(key)
    ensures ParseFields(isPoint, fs) == Ok(Parsed(p, Legacy(key)))
  {
  }

  lemma SixFieldsOf(isPoint: string -> bool, p: Principal, e: KeyEntry)
    requires IsStorable(isPoint, p, e)
    ensures ParseFields(isPoint, SixFields(p, e)) == Ok(Parsed(p, e))
  {
    PrintedPrincipalParses(p);
    TokenRoundTrip(e.state);
    StampIsWord(e.validUntil);
    StampIsWord(e.pinnedAt);
    StampIsWord(e.stateSince);
    SixFieldsParse(isPoint, SixFields(p, e), p, e);
  }

  lemma EntryFieldsParse(isPoint: string -> bool, p: Principal, e: KeyEntry)
    requires IsStorable(isPoint, p, e)
    ensures ParseFields(isPoint, EntryFields(p, e)) == Ok(Parsed(p, e))
  {
    PrintedPrincipalParses(p);
    if IsLegacyShaped(e) {
      TwoFieldsParse(isPoint, EntryFields(p, e), p, e.key);
    } else {
      SixFieldsOf(isPoint, p, e);
    }
  }

  /** Line round trip, across both shapes. */
  lemma EntryLineParses(isPoint: string -> bool, p: Principal, e: KeyEntry)
    requires IsStorable(isPoint, p, e)
    ensures ParseLine(isPoint, EntryLine(p, e)) == Ok(Parsed(p, e))
    ensures IsCleanLine(EntryLine(p, e)) && !IsSkipped(EntryLine(p, e))
  {
    var fs := EntryFields(p, e);
    EntryFieldsAreWords(isPoint, p, e);
    FieldsOfJoin(fs);
    JoinIsClean(fs);
    EntryFieldsParse(isPoint, p, e);
    assert fs[0][0] == 'a';
  }

  lemma JoinOneMore(f: string, fs: seq<string>)
    requires fs != []
    ensures JoinFields([f] + fs) == f + ("  " + JoinFields(fs))
  {
    assert ([f] + fs)[1..] == fs;
  }

  lemma JoinOfSix(a: string, b: string, c: string, d: string, e: string, f: string)
    ensures JoinFields([a, b, c, d, e, f])
            == a + ("  " + (b + ("  " + (c + ("  " + (d + ("  " + (e + ("  " + f)))))))))
  {
    JoinOneMore(e, [f]);
    JoinOneMore(d, [e] + [f]);
    JoinOneMore(c, [d] + ([e] + [f]));
    JoinOneMore(b, [c] + ([d] + ([e] + [f])));
    JoinOneMore(a, [b] + ([c] + ([d] + ([e] + [f]))));
    assert [a, b, c, d, e, f] == [a] + ([b] + ([c] + ([d] + ([e] + [f]))));
  }

  /** An entry's line, character by character: two fields for a plain active key, six for any other. */
  lemma LineIsLaidOut(p: Principal, e: KeyEntry)
    ensures var stamp := (v: Option<string>) => if v.None? then "-" else v.value;
            var state := if e.state.Active? then "active" else if e.state.Retired? then "retired" else "revoked";
            EntryLine(p, e) ==
            if e == KeyEntry(e.key, Active, None, None, None) then PrintPrincipal(p) + ("  " + e.key.text)
            else PrintPrincipal(p) + ("  " + (e.key.text + ("  " + (state + ("  " + (stamp(e.validUntil)
                 + ("  " + (stamp(e.pinnedAt) + ("  " + stamp(e.stateSince))))))))))
  {
    var state := if e.state.Active? then "active" else if e.state.Retired? then "retired" else "revoked";
    JoinOfSix(PrintPrincipal(p), e.key.text, state, StampField(e.validUntil), StampField(e.pinnedAt),
              StampField(e.stateSince));
    JoinOneMore(PrintPrincipal(p), [e.key.text]);
    assert [PrintPrincipal(p)] + [e.key.text] == [PrintPrincipal(p), e.key.text];
  }

  lemma ParsedFieldsAre(isPoint: string -> bool, fs: seq<string>, p: Principal, e: KeyEntry)
    requires ParseFields(isPoint, fs) == Ok(Parsed(p, e))
    ensures IsStorable(isPoint, p, e) && (fs == EntryFields(p, e) || fs == SixFields(p, e))
  {
    ParsedPrincipalReprints(fs[0]);
    if |fs| == 2 {
      assert fs == [fs[0], fs[1]];
    } else {
      StampIs(fs[3]);
      StampIs(fs[4]);
      StampIs(fs[5]);
      assert TokenOf(StateOf(fs[2]).value) == fs[2];
      assert fs == [fs[0], fs[1], fs[2], fs[3], fs[4], fs[5]];
    }
  }

  lemma StampIs(s: string)
    requires ParseStamp(s).Some?
    ensures StampField(ParseStamp(s).value) == s && IsCanonicalOpt(ParseStamp(s).value)
  {
  }

  /** The fields parse as an entry exactly when they are its own, in either shape; nothing else is let in. */
  lemma FieldsParseIff(isPoint: string -> bool, fs: seq<string>, p: Principal, e: KeyEntry)
    ensures ParseFields(isPoint, fs) == Ok(Parsed(p, e))
            <==> IsStorable(isPoint, p, e) && (fs == EntryFields(p, e) || fs == SixFields(p, e))
  {
    if ParseFields(isPoint, fs) == Ok(Parsed(p, e)) {
      ParsedFieldsAre(isPoint, fs, p, e);
    } else if IsStorable(isPoint, p, e) {
      EntryFieldsParse(isPoint, p, e);
      SixFieldsOf(isPoint, p, e);
    }
  }

  /** A line is refused for its key only when everything read before the key is right. */
  lemma BadKeyIff(isPoint: string -> bool, raw: string)
    ensures var fs := Fields(StripCr(raw));
            && (ParseLine(isPoint, raw) == Err(BadKey)
                <==> '#' !in raw && |fs| in {2, 6} && ParsePrincipal(fs[0]).Ok? && DecodeKey(isPoint, fs[1]).None?)
            && (ParseLine(isPoint, raw).Err? ==> ParseLine(isPoint, raw).error in {BadKey, MalformedEntry})
            && ('#' in raw ==> ParseLine(isPoint, raw) == Err(MalformedEntry))
  {
    var line := StripCr(raw);
    assert raw == line || raw == line + "\r";
  }

  // ---------------------------------------------------------------- loading

  /** Loader state: the keyring so far and the owner of every key seen. */
  datatype Loading = Loading(ring: Ring, seen: map<Key, Principal>)

  const NOTHING_LOADED: Loading := Loading(map[], map[])

  /** Take one parsed entry: second active, repeated key and foreign key are refused, in that order. */
  function Accept(st: Loading, p: Principal, e: KeyEntry): Result<Loading, LoadError> {
    var es := EntriesOf(st.ring, p);
    if e.state.Active? && FirstIn(es, Active).Some? then Err(DuplicatePrincipal)
    else if e.key in st.seen then Err(if st.seen[e.key] == p then DuplicateKeyEntry else DuplicatePubkey)
    else Ok(Loading(st.ring[p := es + [e]], st.seen[e.key := p]))
  }

  /** An entry is taken exactly when its key is new to the whole file and its principal keeps at most one active key. */
  lemma AcceptedIff(st: Loading, p: Principal, e: KeyEntry)
    requires AtMostOneActive(EntriesOf(st.ring, p))
    ensures Accept(st, p, e).Ok? <==> e.key !in st.seen && AtMostOneActive(EntriesOf(st.ring, p) + [e])
  {
    var es := EntriesOf(st.ring, p);
    var all := es + [e];
    assert all[|es|] == e;
    if FirstIn(es, Active).Some? { assert all[FirstIn(es, Active).value].state.Active?; }
  }

  predicate IsSkipped(line: string) {
    var t := TrimStart(line);
    t == "" || t[0] == '#'
  }

  /** Skipped are the blank lines and the lines whose first character that is not whitespace is '#'. */
  lemma {:induction false} SkippedIff(line: string)
    ensures IsSkipped(line)
            <==> || (forall i :: 0 <= i < |line| ==> IsWhitespace(line[i]))
                 || (exists i :: 0 <= i < |line| && line[i] == '#' && forall j :: 0 <= j < i ==> IsWhitespace(line[j]))
  {
    if line != "" && IsWhitespace(line[0]) {
      var rest := line[1..];
      SkippedIff(rest);
      assert forall i :: 0 < i < |line| ==> line[i] == rest[i - 1];
      assert forall i :: 0 <= i < |rest| ==> rest[i] == line[i + 1];
      assert IsSkipped(line) <==> IsSkipped(rest);
      if exists i :: 0 <= i < |rest| && rest[i] == '#' && forall j :: 0 <= j < i ==> IsWhitespace(rest[j]) {
        var i :| 0 <= i < |rest| && rest[i] == '#' && forall j :: 0 <= j < i ==> IsWhitespace(rest[j]);
        assert line[i + 1] == '#' && forall j :: 0 <= j < i + 1 ==> IsWhitespace(line[j]);
      }
    } else if line != "" {
      assert line[0] == line[0];
    }
  }

  function LoadLine(isPoint: string -> bool, st: Loading, line: string): Result<Loading, LoadError> {
    if IsSkipped(line) then Ok(st)
    else
      match ParseLine(isPoint, line)
      case Err(error) => Err(error)
      case Ok(parsed) => Accept(st, parsed.p, parsed.e)
  }

  function LoadLines(isPoint: string -> bool, st: Loading, lines: seq<string>): Result<Loading, LoadError>
    decreases |lines|
  {
    if lines == [] then Ok(st)
    else
      match LoadLine(isPoint, st, lines[0])
      case Err(error) => Err(error)
      case Ok(st') => LoadLines(isPoint, st', lines[1..])
  }

  function Load(isPoint: string -> bool, text: string): Result<Ring, LoadError> {
    match LoadLines(isPoint, NOTHING_LOADED, Lines(text))
    case Err(error) => Err(error)
    case Ok(st) => Ok(st.ring)
  }

  method TakeEntry(st: Loading, p: Principal, e: KeyEntry) returns (r: Result<Loading, LoadError>)
    ensures r == Accept(st, p, e)
  {
    if e.state.Active? && p in st.ring && FirstIn(st.ring[p], Active).Some? { return Err(DuplicatePrincipal); }
    if e.key in st.seen {
      if st.seen[e.key] == p { return Err(DuplicateKeyEntry); }
      return Err(DuplicatePubkey);
    }
    var ring := if p in st.ring then st.ring else st.ring[p := []];
    assert ring[p := ring[p] + [e]] == st.ring[p := EntriesOf(st.ring, p) + [e]];
    return Ok(Loading(ring[p := ring[p] + [e]], st.seen[e.key := p]));
  }

  /** `load_from_file`: stops at the first bad line. */
  method LoadFromText(isPoint: string -> bool, text: string) returns (r: Result<Ring, LoadError>)
    ensures r == Load(isPoint, text)
  {
    var lines := Lines(text);
    var st := NOTHING_LOADED;
    var idx := 0;
    while idx < |lines|
      invariant 0 <= idx <= |lines|
      invariant LoadLines(isPoint, st, lines[idx..]) == LoadLines(isPoint, NOTHING_LOADED, lines)
    {
      assert lines[idx..][0] == lines[idx] && lines[idx..][1..] == lines[idx + 1..];
      if !IsSkipped(lines[idx]) {
        var parsed := ParseLine(isPoint, lines[idx]);
        if parsed.Err? { return Err(parsed.error); }
        var next := TakeEntry(st, parsed.value.p, parsed.value.e);
        if next.Err? { return Err(next.error); }
        st := next.value;
      }
      idx := idx + 1;
    }
    return Ok(st.ring);
  }

  // ---------------------------------------------------------------- saving

  /** Stable insertion by key text. */
  function Insert(e: KeyEntry, sorted: seq<KeyEntry>): seq<KeyEntry> {
    if sorted == [] then [e]
    else if Text.Less(sorted[0].key.text, e.key.text) || sorted[0].key.text == e.key.text then
      [sorted[0]] + Insert(e, sorted[1..])
    else [e] + sorted
  }

  /** Entries in key-text order. */
  function Sorted(es: seq<KeyEntry>): seq<KeyEntry> {
    if es == [] then [] else Insert(es[|es| - 1], Sorted(es[..|es| - 1]))
  }

  ghost predicate IsLeast(ps: set<Principal>, p: Principal) {
    p in ps && forall q <- ps :: Text.LessOrEqual(PrintPrincipal(p), PrintPrincipal(q))
  }

  method FindLeast(ps: set<Principal>) returns (least: Principal)
    requires ps != {}
    ensures IsLeast(ps, least)
  {
    least :| least in ps;
    var rest := ps - {least};
    while rest != {}
      invariant rest <= ps && least in ps - rest
      invariant forall q <- ps - rest :: Text.LessOrEqual(PrintPrincipal(least), PrintPrincipal(q))
    {
      var p :| p in rest;
      var a, b := PrintPrincipal(p), PrintPrincipal(least);
      if Text.Less(a, b) {
        forall q | q in ps - rest ensures Text.LessOrEqual(a, PrintPrincipal(q)) {
          if b != PrintPrincipal(q) { Text.LessTransitive(a, b, PrintPrincipal(q)); }
        }
        least := p;
      } else {
        Text.LessTotal(a, b);
      }
      rest := rest - {p};
    }
  }
}
