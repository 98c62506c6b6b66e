/** Principal and instance identities: the grammar, its two parsers and its printers. */
module Identity {
  import opened Results

  datatype Principal = Principal(authority: string, name: string)

  datatype Instance = Instance(authority: string, name: string, instanceId: string)

  datatype ParseError =
    | MissingScheme
    | UnexpectedInstanceTail
    | MissingInstanceTail
    | MissingNameSeparator
    | InvalidAuthority
    | InvalidName
    | InvalidInstanceId

  const SCHEME: string := "agent:"
  const AUTHORITY_MAX: nat := 253
  const NAME_MAX: nat := 64

  // ---------------------------------------------------------------- characters and searching

  predicate IsAlphanumeric(c: char) {
    '0' <= c <= '9' || 'A' <= c <= 'Z' || 'a' <= c <= 'z'
  }

  /** Index of the first `c`, as `str::find`. */
  function Find(s: string, c: char): (r: Option<nat>)
    ensures r.Some? ==> r.value < |s| && s[r.value] == c && c !in s[..r.value]
    ensures r.None? ==> c !in s
  {
    if s == "" then None
    else if s[0] == c then Some(0)
    else
      var r := Find(s[1..], c);
      if r.None? then None
      else
        assert s[..r.value + 1] == [s[0]] + s[1..][..r.value];
        Some(r.value + 1)
  }

  /** The first occurrence is the one with no earlier occurrence. */
  lemma FindFirst(a: string, c: char, b: string)
    requires c !in a
    ensures Find(a + ([c] + b), c) == Some(|a|)
  {
    var s := a + ([c] + b);
    assert s[|a|] == c;
    assert forall i :: 0 <= i < |a| ==> s[i] == a[i];
  }

  // ---------------------------------------------------------------- validators

  /** `str::split`: the pieces between separators, always at least one. */
  function Split(s: string, sep: char): (parts: seq<string>)
    ensures |parts| >= 1
    decreases |s|
  {
    match Find(s, sep)
    case None => [s]
    case Some(k) => [s[..k]] + Split(s[k + 1..], sep)
  }

  predicate IsLabel(l: string) {
    && l != "" && l[0] != '-' && l[|l| - 1] != '-'
    && forall i :: 0 <= i < |l| ==> IsAlphanumeric(l[i]) || l[i] == '-'
  }

  /** Position `i` is at an end of the text or next to a dot. */
  predicate AtLabelEdge(s: string, i: nat)
    requires i < |s|
  {
    i == 0 || i == |s| - 1 || s[i - 1] == '.' || s[i + 1] == '.'
  }

  /** A dotted name, read position by position: only letters and digits may sit at a label's edge. */
  predicate IsDotted(s: string) {
    && s != ""
    && forall i :: 0 <= i < |s| ==> IsAlphanumeric(s[i]) || ((s[i] == '-' || s[i] == '.') && !AtLabelEdge(s, i))
  }

  predicate IsAuthority(s: string) {
    |s| <= AUTHORITY_MAX && IsDotted(s)
  }

  predicate IsName(s: string) {
    && 1 <= |s| <= NAME_MAX
    && forall i :: 0 <= i < |s| ==> IsAlphanumeric(s[i]) || s[i] == '.' || s[i] == '_' || s[i] == '-'
  }

  lemma DottedSplitsOnce(s: string, k: nat)
    requires k < |s| && s[k] == '.' && '.' !in s[..k]
    ensures IsDotted(s) <==> IsLabel(s[..k]) && IsDotted(s[k + 1..])
  {
  }

  lemma LoneLabelIsDotted(s: string)
    requires '.' !in s
    ensures IsDotted(s) <==> IsLabel(s)
  {
  }

  /** Checking label by label is checking position by position. */
  lemma {:induction false} LabelsMakeDotted(s: string)
    ensures IsDotted(s) <==> forall l <- Split(s, '.') :: IsLabel(l)
    decreases |s|
  {
    match Find(s, '.') {
      case None =>
        assert Split(s, '.') == [s] && s in Split(s, '.');
        LoneLabelIsDotted(s);
      case Some(k) =>
        DottedSplitsOnce(s, k);
        LabelsMakeDotted(s[k + 1..]);
        assert Split(s, '.') == [s[..k]] + Split(s[k + 1..], '.');
        assert s[..k] in Split(s, '.');
        assert forall l <- Split(s[k + 1..], '.') :: l in Split(s, '.');
    }
  }

  method ValidateAuthority(s: string) returns (ok: bool)
    ensures ok <==> IsAuthority(s)
  {
    if s == "" || |s| > AUTHORITY_MAX { return false; }
    LabelsMakeDotted(s);
    var labels := Split(s, '.');
    var labelCount := 0;
    while labelCount < |labels|
      invariant 0 <= labelCount <= |labels|
      invariant forall j :: 0 <= j < labelCount ==> IsLabel(labels[j])
    {
      var part := labels[labelCount];
      assert part in labels;
      if part == "" || part[0] == '-' || part[|part| - 1] == '-' {
        assert !IsLabel(part);
        return false;
      }
      for i := 0 to |part|
        invariant forall j :: 0 <= j < i ==> IsAlphanumeric(part[j]) || part[j] == '-'
      {
        if !(IsAlphanumeric(part[i]) || part[i] == '-') {
          assert !IsLabel(part);
          return false;
        }
      }
      labelCount := labelCount + 1;
    }
    return true;
  }

  method ValidateName(s: string) returns (ok: bool)
    ensures ok <==> IsName(s)
  {
    if s == "" || |s| > NAME_MAX { return false; }
    for i := 0 to |s|
      invariant forall j :: 0 <= j < i ==> IsAlphanumeric(s[j]) || s[j] == '.' || s[j] == '_' || s[j] == '-'
    {
      if !(IsAlphanumeric(s[i]) || s[i] == '.' || s[i] == '_' || s[i] == '-') { return false; }
    }
    return true;
  }

  // ---------------------------------------------------------------- principals

  predicate IsPrincipal(p: Principal) {
    IsAuthority(p.authority) && IsName(p.name)
  }

  function PrintPrincipal(p: Principal): string {
    SCHEME + (p.authority + ("/" + p.name))
  }

  function ParsePrincipal(s: string): (r: Result<Principal, ParseError>)
    ensures r.Ok? ==> IsPrincipal(r.value)
  {
    if !(SCHEME <= s) then Err(MissingScheme)
    else
      var rest := s[|SCHEME|..];
      if '#' in rest then Err(UnexpectedInstanceTail)
      else
        match Find(rest, '/')
        case None => Err(MissingNameSeparator)
        case Some(slash) =>
          var authority, name := rest[..slash], rest[slash + 1..];
          if !IsAuthority(authority) then Err(InvalidAuthority)
          else if !IsName(name) then Err(InvalidName)
          else Ok(Principal(authority, name))
  }

  /** Accepted text reprints byte for byte. */
  lemma ParsedPrincipalReprints(s: string)
    requires ParsePrincipal(s).Ok?
    ensures PrintPrincipal(ParsePrincipal(s).value) == s
  {
  }

  lemma AuthorityExcludes(s: string, c: char)
    requires IsAuthority(s) && !IsAlphanumeric(c) && c != '-' && c != '.'
    ensures c !in s
  {
  }

  lemma NameExcludes(s: string, c: char)
    requires IsName(s) && !IsAlphanumeric(c) && c != '-' && c != '.' && c != '_'
    ensures c !in s
  {
  }

  /** Every well-formed principal survives printing and parsing. */
  lemma PrintedPrincipalParses(p: Principal)
    requires IsPrincipal(p)
    ensures ParsePrincipal(PrintPrincipal(p)) == Ok(p)
  {
    var s := PrintPrincipal(p);
    var rest := p.authority + ("/" + p.name);
    assert s == SCHEME + rest;
    assert s[|SCHEME|..] == rest && SCHEME <= s;
    AuthorityExcludes(p.authority, '/');
    AuthorityExcludes(p.authority, '#');
    NameExcludes(p.name, '#');
    FindFirst(p.authority, '/', p.name);
    assert rest[..|p.authority|] == p.authority && rest[|p.authority| + 1..] == p.name;
  }

  lemma PrintIsInjective(p: Principal, q: Principal)
    requires IsPrincipal(p) && IsPrincipal(q) && PrintPrincipal(p) == PrintPrincipal(q)
    ensures p == q
  {
    PrintedPrincipalParses(p);
    PrintedPrincipalParses(q);
  }

  /** A text cut at its first '/' after the scheme. */
  ghost predicate IsCut(s: string, authority: string, rest: string) {
    "agent:" <= s && s[6..] == authority + ("/" + rest) && '/' !in authority
  }

  ghost predicate HasCut(s: string) {
    exists a, n :: IsCut(s, a, n)
  }

  lemma CutIs(s: string, a: string, n: string)
    ensures IsCut(s, a, n)
            <==> SCHEME <= s && Find(s[6..], '/') == Some(|a|) && s[6..][..|a|] == a && s[6..][|a| + 1..] == n
  {
    var tail := a + ("/" + n);
    if IsCut(s, a, n) {
      FindFirst(a, '/', n);
      assert tail[..|a|] == a && tail[|a| + 1..] == n;
    }
  }

  /** Everything before the first '/' after the scheme, and everything behind it. */
  function CutOf(s: string): (string, string)
    requires SCHEME <= s && Find(s[6..], '/').Some?
  {
    var rest := s[6..];
    var slash := Find(rest, '/').value;
    (rest[..slash], rest[slash + 1..])
  }

  lemma CutExists(s: string)
    ensures HasCut(s) <==> SCHEME <= s && '/' in s[6..]
    ensures HasCut(s) ==> IsCut(s, CutOf(s).0, CutOf(s).1)
  {
    if SCHEME <= s && '/' in s[6..] {
      CutIs(s, CutOf(s).0, CutOf(s).1);
    }
    forall a, n | IsCut(s, a, n) ensures '/' in s[6..] { CutIs(s, a, n); }
  }

  /** The length limits and the alphabet of a name. */
  predicate IsPlainName(s: string) {
    1 <= |s| <= 64 && forall c <- s :: '0' <= c <= '9' || 'A' <= c <= 'Z' || 'a' <= c <= 'z' || c in "._-"
  }

  lemma PlainNameIff(s: string)
    ensures IsPlainName(s) <==> IsName(s)
  {
    assert forall c :: c in "._-" <==> c == '.' || c == '_' || c == '-';
    if IsPlainName(s) { assert forall i :: 0 <= i < |s| ==> s[i] in s; }
  }

  /** What each refusal of a principal says of the text, whatever else is wrong with it. */
  ghost predicate HasFault(s: string, why: ParseError) {
    match why
    case MissingScheme => !("agent:" <= s)
    case UnexpectedInstanceTail => "agent:" <= s && '#' in s
    case MissingNameSeparator => "agent:" <= s && !HasCut(s)
    case InvalidAuthority => exists a, n :: IsCut(s, a, n) && !(|a| <= 253 && IsDotted(a))
    case InvalidName => exists a, n :: IsCut(s, a, n) && !IsPlainName(n)
    case _ => false
  }

  /** The order of the checks. */
  function Rank(why: ParseError): nat {
    match why
    case MissingScheme => 1
    case UnexpectedInstanceTail => 2
    case MissingNameSeparator => 3
    case InvalidAuthority => 4
    case InvalidName => 5
    case _ => 6
  }

  lemma CutFaults(s: string, a: string, n: string)
    requires IsCut(s, a, n)
    ensures HasFault(s, InvalidAuthority) <==> !IsAuthority(a)
    ensures HasFault(s, InvalidName) <==> !IsName(n)
  {
    CutIs(s, a, n);
    PlainNameIff(n);
    forall a', n' | IsCut(s, a', n') ensures a' == a && n' == n { CutIs(s, a', n'); }
  }

  lemma HashIsPastScheme(s: string)
    requires SCHEME <= s
    ensures '#' in s <==> '#' in s[6..]
  {
    assert s == SCHEME + s[6..];
  }

  lemma CutTells(s: string, a: string, n: string)
    requires IsCut(s, a, n)
    ensures ParsePrincipal(s)
            == if '#' in s then Err(UnexpectedInstanceTail)
               else if !IsAuthority(a) then Err(InvalidAuthority)
               else if !IsName(n) then Err(InvalidName)
               else Ok(Principal(a, n))
  {
    HashIsPastScheme(s);
    CutIs(s, a, n);
  }

  lemma UncutTells(s: string)
    requires !HasCut(s)
    ensures ParsePrincipal(s)
            == if !("agent:" <= s) then Err(MissingScheme)
               else if '#' in s then Err(UnexpectedInstanceTail)
               else Err(MissingNameSeparator)
  {
    if SCHEME <= s { HashIsPastScheme(s); }
    CutExists(s);
  }

  /** Parsing names the first fault the text has, and accepts exactly the texts that have none. */
  lemma FirstFaultIsReported(s: string)
    ensures var r := ParsePrincipal(s);
            && (r.Ok? <==> forall e :: !HasFault(s, e))
            && (r.Err? ==> HasFault(s, r.error) && forall e | HasFault(s, e) :: Rank(r.error) <= Rank(e))
  {
    if HasCut(s) {
      var a, n :| IsCut(s, a, n);
      CutTells(s, a, n);
      CutFaults(s, a, n);
    } else {
      UncutTells(s);
    }
    var r := ParsePrincipal(s);
    if r.Err? { assert HasFault(s, r.error); }
  }

  // ---------------------------------------------------------------- instances

  predicate IsInstance(p: Instance) {
    IsAuthority(p.authority) && IsName(p.name) && IsName(p.instanceId)
  }

  function PrintInstance(p: Instance): string {
    SCHEME + (p.authority + ("/" + (p.name + ("#" + p.instanceId))))
  }

  /** Cut at the first '/' and the first '#' after it; a second '#' is refused. */
  function CutInstance(rest: string): Result<Instance, ParseError> {
    match Find(rest, '/')
    case None => Err(MissingNameSeparator)
    case Some(slash) =>
      var tail := rest[slash + 1..];
      match Find(tail, '#')
      case None => Err(MissingInstanceTail)
      case Some(hash) =>
        if '#' in tail[hash + 1..] then Err(InvalidInstanceId)
        else Ok(Instance(rest[..slash], tail[..hash], tail[hash + 1..]))
  }

  function ParseInstance(s: string): (r: Result<Instance, ParseError>)
    ensures r.Ok? ==> IsInstance(r.value)
  {
    if !(SCHEME <= s) then Err(MissingScheme)
    else
      var cut := CutInstance(s[|SCHEME|..]);
      if cut.Err? then cut
      else if !IsAuthority(cut.value.authority) then Err(InvalidAuthority)
      else if !IsName(cut.value.name) then Err(InvalidName)
      else if !IsName(cut.value.instanceId) then Err(InvalidInstanceId)
      else cut
  }

  lemma ParsedInstanceReprints(s: string)
    requires ParseInstance(s).Ok?
    ensures PrintInstance(ParseInstance(s).value) == s
  {
  }

  lemma CutOfJoin(p: Instance)
    requires '/' !in p.authority && '#' !in p.name && '#' !in p.instanceId
    ensures CutInstance(p.authority + ("/" + (p.name + ("#" + p.instanceId)))) == Ok(p)
  {
    var tail := p.name + ("#" + p.instanceId);
    var rest := p.authority + ("/" + tail);
    FindFirst(p.authority, '/', tail);
    FindFirst(p.name, '#', p.instanceId);
    assert rest[..|p.authority|] == p.authority && rest[|p.authority| + 1..] == tail;
    assert tail[..|p.name|] == p.name && tail[|p.name| + 1..] == p.instanceId;
  }

  lemma PrintedInstanceParses(p: Instance)
    requires IsInstance(p)
    ensures ParseInstance(PrintInstance(p)) == Ok(p)
  {
    var s := PrintInstance(p);
    var rest := p.authority + ("/" + (p.name + ("#" + p.instanceId)));
    assert s[|SCHEME|..] == rest && SCHEME <= s;
    AuthorityExcludes(p.authority, '/');
    NameExcludes(p.name, '#');
    NameExcludes(p.instanceId, '#');
    CutOfJoin(p);
  }

  /** A text cut at its first '/' after the scheme and its first '#' after that. */
  ghost predicate IsInstanceCut(s: string, p: Instance) {
    IsCut(s, p.authority, p.name + ("#" + p.instanceId)) && '#' !in p.name
  }

  /** A text can be cut in one way only, and the answer goes by its parts. */
  lemma CutInstanceTells(s: string, p: Instance)
    requires IsInstanceCut(s, p)
    ensures ParseInstance(s)
            == if '#' in p.instanceId then Err(InvalidInstanceId)
               else if !IsAuthority(p.authority) then Err(InvalidAuthority)
               else if !IsName(p.name) then Err(InvalidName)
               else if !IsName(p.instanceId) then Err(InvalidInstanceId)
               else Ok(p)
  {
    var tail := p.name + ("#" + p.instanceId);
    CutIs(s, p.authority, tail);
    FindFirst(p.name, '#', p.instanceId);
    assert tail[..|p.name|] == p.name && tail[|p.name| + 1..] == p.instanceId;
  }

  lemma CutIsOne(a: string, c: char, b: string, a': string, b': string)
    requires a + ([c] + b) == a' + ([c] + b') && c !in a && c !in a'
    ensures a == a' && b == b'
  {
    FindFirst(a, c, b);
    FindFirst(a', c, b');
    var s := a + ([c] + b);
    assert s[..|a|] == a && s[..|a'|] == a';
    assert s[|a| + 1..] == b && s[|a'| + 1..] == b';
  }

  lemma InstanceCutIsOne(s: string, p: Instance, q: Instance)
    requires IsInstanceCut(s, p) && IsInstanceCut(s, q)
    ensures p == q
  {
    CutIsOne(p.authority, '/', p.name + ("#" + p.instanceId), q.authority, q.name + ("#" + q.instanceId));
    CutIsOne(p.name, '#', p.instanceId, q.name, q.instanceId);
  }

  lemma CutHasTail(s: string, p: Instance, a: string, n: string)
    requires IsInstanceCut(s, p) && IsCut(s, a, n)
    ensures '#' in n
  {
    var tail := p.name + ("#" + p.instanceId);
    CutIs(s, p.authority, tail);
    CutIs(s, a, n);
    assert tail[|p.name|] == '#';
  }

  lemma TailIsCut(s: string, a: string, n: string)
    requires IsCut(s, a, n) && '#' in n
    ensures exists p :: IsInstanceCut(s, p)
  {
    var hash := Find(n, '#').value;
    var p := Instance(a, n[..hash], n[hash + 1..]);
    assert n == p.name + ("#" + p.instanceId);
    assert IsInstanceCut(s, p);
  }

  lemma NoTailTells(s: string, a: string, n: string)
    requires IsCut(s, a, n) && '#' !in n
    ensures ParseInstance(s) == Err(MissingInstanceTail)
  {
    CutIs(s, a, n);
  }

  lemma UncutInstanceTells(s: string)
    requires !HasCut(s)
    ensures ParseInstance(s) == if !("agent:" <= s) then Err(MissingScheme) else Err(MissingNameSeparator)
  {
    CutExists(s);
  }

  /**
    Each refusal of an instance, exactly: a '#' in the instance id is found while cutting, before
    any part is looked at; the parts are then looked at in order.
   */
  lemma InstanceTells(s: string)
    ensures var r := ParseInstance(s);
            && (r == Err(MissingScheme) <==> !("agent:" <= s))
            && (r == Err(MissingNameSeparator) <==> "agent:" <= s && !HasCut(s))
            && (r == Err(MissingInstanceTail) <==> exists a, n :: IsCut(s, a, n) && '#' !in n)
            && (r == Err(InvalidInstanceId)
                <==> exists p :: IsInstanceCut(s, p)
                                 && ('#' in p.instanceId
                                     || (IsAuthority(p.authority) && IsName(p.name) && !IsName(p.instanceId))))
            && (r == Err(InvalidAuthority)
                <==> exists p :: IsInstanceCut(s, p) && '#' !in p.instanceId && !IsAuthority(p.authority))
            && (r == Err(InvalidName)
                <==> exists p :: IsInstanceCut(s, p) && '#' !in p.instanceId && IsAuthority(p.authority)
                                 && !IsName(p.name))
  {
    if p :| IsInstanceCut(s, p) {
      CutInstanceTells(s, p);
      forall q | IsInstanceCut(s, q) ensures q == p { InstanceCutIsOne(s, p, q); }
      forall a, n | IsCut(s, a, n) ensures '#' in n { CutHasTail(s, p, a, n); }
      assert HasCut(s);
    } else if HasCut(s) {
      var a, n :| IsCut(s, a, n);
      if '#' in n { TailIsCut(s, a, n); }
      NoTailTells(s, a, n);
    } else {
      UncutInstanceTells(s);
    }
  }

  /** No text names both a principal and an instance. */
  lemma ParsersAreDisjoint(s: string)
    ensures !(ParsePrincipal(s).Ok? && ParseInstance(s).Ok?)
  {
  }

  // ---------------------------------------------------------------- the relay's shortcut

  /** The relay's own parse, which looks no further than the authority. */
  function ExtractDomain(s: string): Option<string> {
    if !(SCHEME <= s) then None
    else
      var rest := s[|SCHEME|..];
      match Find(rest, '/')
      case None => None
      case Some(slash) => if slash == 0 then None else Some(rest[..slash])
  }

  /** The shortcut finds a domain exactly where the text has one to cut, and an empty one is none. */
  lemma ShortcutFindsIff(s: string, d: string)
    ensures ExtractDomain(s) == Some(d) <==> d != "" && exists rest :: IsCut(s, d, rest)
  {
    if ExtractDomain(s) == Some(d) { CutIs(s, d, s[6..][|d| + 1..]); }
    if exists rest :: IsCut(s, d, rest) {
      var rest :| IsCut(s, d, rest);
      CutIs(s, d, rest);
    }
  }

  /** On every text the full parser accepts, the shortcut finds exactly its authority. */
  lemma ShortcutFindsAuthority(s: string)
    requires ParsePrincipal(s).Ok?
    ensures ExtractDomain(s) == Some(ParsePrincipal(s).value.authority)
  {
  }
}
