/** Saving a keyring and loading it back: what is recovered, and exactly when it can be loaded at all. */
module KeyringRoundTrip {
  import opened Results
  import opened Crypto
  import opened Identity
  import opened Keyring
  import opened KeyringRuns
  import opened KeyringFile
  import opened Sequences
  import Text

  // ---------------------------------------------------------------- sorting

  lemma {:induction false} InsertIsPermutation(e: KeyEntry, s: seq<KeyEntry>)
    ensures multiset(Insert(e, s)) == multiset(s) + multiset{e}
  {
    if s != [] {
      assert s == [s[0]] + s[1..];
      InsertIsPermutation(e, s[1..]);
    }
  }

  lemma {:induction false} SortedIsPermutation(es: seq<KeyEntry>)
    ensures multiset(Sorted(es)) == multiset(es)
    ensures |Sorted(es)| == |es|
    ensures forall e :: e in Sorted(es) <==> e in es
  {
    if es != [] {
      var k := |es| - 1;
      assert es == es[..k] + [es[k]];
      SortedIsPermutation(es[..k]);
      InsertIsPermutation(es[k], Sorted(es[..k]));
    }
    assert |multiset(Sorted(es))| == |multiset(es)|;
    forall e ensures e in Sorted(es) <==> e in es {
      assert e in multiset(Sorted(es)) <==> e in multiset(es);
    }
  }

  predicate InKeyOrder(s: seq<KeyEntry>) {
    forall i, j :: 0 <= i < j < |s| ==> Text.Less(s[i].key.text, s[j].key.text)
  }

  lemma {:induction false} InsertKeepsOrder(e: KeyEntry, s: seq<KeyEntry>)
    requires InKeyOrder(s) && forall i :: 0 <= i < |s| ==> s[i].key.text != e.key.text
    ensures InKeyOrder(Insert(e, s))
    ensures forall x :: x in Insert(e, s) <==> x == e || x in s
  {
    if s != [] {
      var head, tail := s[0], s[1..];
      assert s == [head] + tail;
      InsertKeepsOrder(e, tail);
      Text.LessTotal(head.key.text, e.key.text);
      if Text.Less(head.key.text, e.key.text) {
        var r := Insert(e, tail);
        forall j | 0 <= j < |r| ensures Text.Less(head.key.text, r[j].key.text) { assert r[j] in r; }
      } else {
        forall j | 0 <= j < |s| ensures Text.Less(e.key.text, s[j].key.text) {
          if j > 0 { Text.LessTransitive(e.key.text, head.key.text, s[j].key.text); }
        }
      }
    }
  }

  lemma {:induction false} SortedIsInOrder(es: seq<KeyEntry>)
    requires DistinctKeys(es)
    ensures InKeyOrder(Sorted(es))
  {
    if es != [] {
      var k := |es| - 1;
      SortedIsInOrder(es[..k]);
      SortedIsPermutation(es[..k]);
      forall i | 0 <= i < |Sorted(es[..k])| ensures Sorted(es[..k])[i].key.text != es[k].key.text {
        var e := Sorted(es[..k])[i];
        assert e in es[..k];
        assert e.key != es[k].key;
      }
      InsertKeepsOrder(es[k], Sorted(es[..k]));
    }
  }

  lemma OrderIsDistinct(s: seq<KeyEntry>)
    requires InKeyOrder(s)
    ensures DistinctKeys(s)
  {
    forall i, j | 0 <= i < j < |s| ensures s[i].key != s[j].key {
      Text.LessIrreflexive(s[i].key.text);
    }
  }

  lemma {:induction false} InsertAtEnd(e: KeyEntry, s: seq<KeyEntry>)
    requires forall i :: 0 <= i < |s| ==> Text.Less(s[i].key.text, e.key.text)
    ensures Insert(e, s) == s + [e]
  {
    if s != [] {
      InsertAtEnd(e, s[1..]);
      assert s == [s[0]] + s[1..];
    }
  }

  lemma {:induction false} SortedOfOrdered(s: seq<KeyEntry>)
    requires InKeyOrder(s)
    ensures Sorted(s) == s
  {
    if s != [] {
      var k := |s| - 1;
      SortedOfOrdered(s[..k]);
      InsertAtEnd(s[k], s[..k]);
      assert s == s[..k] + [s[k]];
    }
  }

  /** The entries whose key has this text, in order. */
  function WithText(es: seq<KeyEntry>, text: string): seq<KeyEntry> {
    if es == [] then []
    else (if es[0].key.text == text then [es[0]] else []) + WithText(es[1..], text)
  }

  lemma {:induction false} WithTextOfConcat(a: seq<KeyEntry>, b: seq<KeyEntry>, text: string)
    ensures WithText(a + b, text) == WithText(a, text) + WithText(b, text)
  {
    if a == [] {
      assert a + b == b;
    } else {
      assert (a + b)[1..] == a[1..] + b;
      WithTextOfConcat(a[1..], b, text);
    }
  }

  lemma {:induction false} NoneWithText(s: seq<KeyEntry>, text: string)
    requires forall i :: 0 <= i < |s| ==> s[i].key.text != text
    ensures WithText(s, text) == []
  {
    if s != [] { NoneWithText(s[1..], text); }
  }

  /** Key-text order, ties allowed. */
  predicate InTextOrder(s: seq<KeyEntry>) {
    forall i, j :: 0 <= i < j < |s| ==> !Text.Less(s[j].key.text, s[i].key.text)
  }

  lemma {:induction false} InsertIsStable(e: KeyEntry, s: seq<KeyEntry>, text: string)
    requires InTextOrder(s)
    ensures InTextOrder(Insert(e, s)) && forall x :: x in Insert(e, s) <==> x == e || x in s
    ensures WithText(Insert(e, s), text) == WithText(s, text) + WithText([e], text)
  {
    if s != [] {
      var head, tail := s[0], s[1..];
      assert s == [head] + tail;
      InsertIsStable(e, tail, text);
      if Text.Less(head.key.text, e.key.text) || head.key.text == e.key.text {
        var r := Insert(e, tail);
        NotAfter(head, e, tail, r);
        assert Insert(e, s)[1..] == r;
      } else {
        Text.LessTotal(head.key.text, e.key.text);
        forall j | 0 <= j < |s| ensures Text.Less(e.key.text, s[j].key.text) {
          if j > 0 { BelowAll(e.key.text, head.key.text, s[j].key.text); }
        }
        if e.key.text == text {
          forall j | 0 <= j < |s| ensures s[j].key.text != text { Text.LessIrreflexive(text); }
          NoneWithText(s, text);
        }
        InsertFront(e, s, text);
      }
    }
  }

  lemma BelowAll(e: string, head: string, other: string)
    requires Text.Less(e, head) && !Text.Less(other, head)
    ensures Text.Less(e, other)
  {
    Text.LessTotal(head, other);
    if head != other { Text.LessTransitive(e, head, other); }
  }

  lemma NotAfter(head: KeyEntry, e: KeyEntry, tail: seq<KeyEntry>, r: seq<KeyEntry>)
    requires InTextOrder([head] + tail) && InTextOrder(r) && forall x :: x in r <==> x == e || x in tail
    requires Text.Less(head.key.text, e.key.text) || head.key.text == e.key.text
    ensures InTextOrder([head] + r)
  {
    forall x | x in r ensures !Text.Less(x.key.text, head.key.text) {
      if x == e {
        Text.LessIrreflexive(e.key.text);
        if Text.Less(e.key.text, head.key.text) { Text.LessAsymmetric(e.key.text, head.key.text); }
      } else {
        var j :| 0 <= j < |tail| && tail[j] == x;
        assert ([head] + tail)[j + 1] == x && ([head] + tail)[0] == head;
      }
    }
    var all := [head] + r;
    assert forall j :: 0 < j < |all| ==> all[j] == r[j - 1] && all[j] in r;
  }

  lemma InsertFront(e: KeyEntry, s: seq<KeyEntry>, text: string)
    requires InTextOrder(s) && forall j :: 0 <= j < |s| ==> Text.Less(e.key.text, s[j].key.text)
    requires e.key.text == text ==> WithText(s, text) == []
    ensures InTextOrder([e] + s) && WithText([e] + s, text) == WithText(s, text) + WithText([e], text)
  {
    forall j | 0 <= j < |s| ensures !Text.Less(s[j].key.text, e.key.text) {
      Text.LessAsymmetric(e.key.text, s[j].key.text);
    }
    assert ([e] + s)[1..] == s;
    assert [e][1..] == [];
  }

  /** The writer's sort, for any list: in key-text order, and ties stay in the order they were in. */
  lemma {:induction false} SortIsStable(es: seq<KeyEntry>, text: string)
    ensures InTextOrder(Sorted(es)) && WithText(Sorted(es), text) == WithText(es, text)
  {
    if es != [] {
      var k := |es| - 1;
      SortIsStable(es[..k], text);
      InsertIsStable(es[k], Sorted(es[..k]), text);
      WithTextOfConcat(es[..k], [es[k]], text);
      assert es == es[..k] + [es[k]];
    }
  }

  /** A rearrangement has distinct keys exactly when the original does. */
  lemma {:induction false} SortedIsDistinctIff(es: seq<KeyEntry>)
    ensures DistinctKeys(Sorted(es)) <==> DistinctKeys(es)
  {
    if DistinctKeys(es) {
      SortedIsInOrder(es);
      OrderIsDistinct(Sorted(es));
    }
    if DistinctKeys(Sorted(es)) {
      SortedIsPermutation(es);
      var s := Sorted(es);
      KeysDetermineDistinct(s);
      KeysDetermineDistinct(es);
      assert KeySet(s) == KeySet(es);
    }
  }

  function KeySet(es: seq<KeyEntry>): set<Key> {
    set e | e in es :: e.key
  }

  lemma DistinctWithLast(before: seq<KeyEntry>, e: KeyEntry)
    ensures DistinctKeys(before + [e]) <==> DistinctKeys(before) && e.key !in KeySet(before)
  {
    var es := before + [e];
    assert forall i :: 0 <= i < |before| ==> es[i] == before[i];
    if DistinctKeys(es) {
      forall x | x in before ensures x.key != e.key {
        var i :| 0 <= i < |before| && before[i] == x;
        assert es[i].key != es[|before|].key;
      }
      assert DistinctKeys(before);
    }
    if DistinctKeys(before) && e.key !in KeySet(before) {
      assert forall i :: 0 <= i < |before| ==> before[i].key in KeySet(before);
    }
  }

  /** Keys are distinct exactly when there are as many of them as entries. */
  lemma {:induction false} KeysDetermineDistinct(es: seq<KeyEntry>)
    ensures |KeySet(es)| <= |es|
    ensures DistinctKeys(es) <==> |KeySet(es)| == |es|
  {
    if es != [] {
      var k := |es| - 1;
      var before := es[..k];
      KeysDetermineDistinct(before);
      assert es == before + [es[k]];
      DistinctWithLast(before, es[k]);
      assert KeySet(es) == KeySet(before) + {es[k].key};
    }
  }

  // ---------------------------------------------------------------- saving

  predicate AllPrincipals(ps: set<Principal>) {
    forall p <- ps :: IsPrincipal(p)
  }

  lemma LeastIsUnique(ps: set<Principal>, p: Principal, q: Principal)
    requires AllPrincipals(ps) && IsLeast(ps, p) && IsLeast(ps, q)
    ensures p == q
  {
    var a, b := PrintPrincipal(p), PrintPrincipal(q);
    if a != b { Text.LessAsymmetric(a, b); }
    PrintIsInjective(p, q);
  }

  lemma {:induction false} LeastExists(ps: set<Principal>)
    requires ps != {}
    ensures exists p :: IsLeast(ps, p)
    decreases |ps|
  {
    var p :| p in ps;
    var rest := ps - {p};
    if rest == {} {
      assert ps == {p} && IsLeast(ps, p);
    } else {
      LeastExists(rest);
      var q :| IsLeast(rest, q);
      var a, b := PrintPrincipal(p), PrintPrincipal(q);
      Text.LessTotal(a, b);
      if Text.Less(a, b) {
        forall r | r in ps ensures Text.LessOrEqual(a, PrintPrincipal(r)) {
          if r != p && b != PrintPrincipal(r) { Text.LessTransitive(a, b, PrintPrincipal(r)); }
        }
        assert IsLeast(ps, p);
      } else {
        assert IsLeast(ps, q);
      }
    }
  }

  /** The principals in the order of their printed form. */
  ghost function InOrder(ps: set<Principal>): (r: seq<Principal>)
    ensures forall p :: p in r <==> p in ps
    ensures forall i, j :: 0 <= i < j < |r| ==> r[i] != r[j]
    decreases |ps|
  {
    if ps == {} then []
    else
      LeastExists(ps);
      var p :| IsLeast(ps, p);
      [p] + InOrder(ps - {p})
  }

  function EntryLines(p: Principal, es: seq<KeyEntry>): seq<string> {
    if es == [] then [] else [EntryLine(p, es[0])] + EntryLines(p, es[1..])
  }

  ghost function LinesFor(ring: Ring, ps: seq<Principal>): seq<string>
    requires forall p <- ps :: p in ring
  {
    if ps == [] then [] else EntryLines(ps[0], Sorted(ring[ps[0]])) + LinesFor(ring, ps[1..])
  }

  /** The save format: principals in printed order, entries in key order, one line each. */
  ghost function Save(ring: Ring): string {
    Unlines(LinesFor(ring, InOrder(ring.Keys)))
  }

  /** What remains to be written for a set of principals. */
  ghost function TextFor(ring: Ring, rest: set<Principal>): string
    requires rest <= ring.Keys
  {
    Unlines(LinesFor(ring, InOrder(rest)))
  }

  lemma TextSplits(ring: Ring, rest: set<Principal>, p: Principal)
    requires rest <= ring.Keys && AllPrincipals(rest) && IsLeast(rest, p)
    ensures TextFor(ring, rest) == Unlines(EntryLines(p, Sorted(ring[p]))) + TextFor(ring, rest - {p})
  {
    var order := InOrder(rest);
    var q :| IsLeast(rest, q) && order == [q] + InOrder(rest - {q});
    LeastIsUnique(rest, p, q);
    assert order[0] == p && order[1..] == InOrder(rest - {p});
    UnlinesOfConcat(EntryLines(p, Sorted(ring[p])), LinesFor(ring, order[1..]));
  }

  lemma WriteOneMore(ring: Ring, rest: set<Principal>, p: Principal, text: string, whole: string)
    requires rest <= ring.Keys && AllPrincipals(rest) && IsLeast(rest, p) && text + TextFor(ring, rest) == whole
    ensures (text + Unlines(EntryLines(p, Sorted(ring[p])))) + TextFor(ring, rest - {p}) == whole
  {
    TextSplits(ring, rest, p);
    Associates(text, Unlines(EntryLines(p, Sorted(ring[p]))), TextFor(ring, rest - {p}));
  }

  method SaveToText(ring: Ring) returns (text: string)
    requires AllPrincipals(ring.Keys)
    ensures text == Save(ring)
  {
    text := "";
    var rest := ring.Keys;
    while rest != {}
      invariant rest <= ring.Keys && text + TextFor(ring, rest) == Save(ring)
      decreases |rest|
    {
      var p := FindLeast(rest);
      WriteOneMore(ring, rest, p, text, Save(ring));
      var more := SaveEntries(p, Sorted(ring[p]));
      text := text + more;
      rest := rest - {p};
    }
  }

  lemma EntryLinesSplit(p: Principal, es: seq<KeyEntry>, i: nat)
    requires i < |es|
    ensures Unlines(EntryLines(p, es[i..])) == EntryLine(p, es[i]) + ("\n" + Unlines(EntryLines(p, es[i + 1..])))
  {
  }

  method SaveEntries(p: Principal, es: seq<KeyEntry>) returns (text: string)
    ensures text == Unlines(EntryLines(p, es))
  {
    text := "";
    assert es[0..] == es;
    for i := 0 to |es|
      invariant text + Unlines(EntryLines(p, es[i..])) == Unlines(EntryLines(p, es))
    {
      EntryLinesSplit(p, es, i);
      text := text + (EntryLine(p, es[i]) + "\n");
    }
  }

  // ---------------------------------------------------------------- loading what was saved

  predicate AllStorable(isPoint: string -> bool, p: Principal, es: seq<KeyEntry>) {
    forall i :: 0 <= i < |es| ==> IsStorable(isPoint, p, es[i])
  }

  /** A keyring the file format can carry: sound lists of storable entries. */
  predicate IsStorableRing(isPoint: string -> bool, ring: Ring) {
    forall p <- ring :: IsPrincipal(p) && IsSoundList(ring[p]) && AllStorable(isPoint, p, ring[p])
  }

  /** No key twice, under one principal or under two. */
  predicate IsGloballyDistinct(ring: Ring) {
    && IsDistinct(ring)
    && forall p, q | p in ring && q in ring && p != q :: KeySet(ring[p]) !! KeySet(ring[q])
  }

  /** Taking parsed entries in order: loading without the text. */
  function LoadItems(st: Loading, items: seq<Parsed>): Result<Loading, LoadError>
    decreases |items|
  {
    if items == [] then Ok(st)
    else
      match Accept(st, items[0].p, items[0].e)
      case Err(error) => Err(error)
      case Ok(st') => LoadItems(st', items[1..])
  }

  function ItemsOf(p: Principal, es: seq<KeyEntry>): seq<Parsed> {
    if es == [] then [] else [Parsed(p, es[0])] + ItemsOf(p, es[1..])
  }

  ghost function ItemsFor(ring: Ring, ps: seq<Principal>): seq<Parsed>
    requires forall p <- ps :: p in ring
  {
    if ps == [] then [] else ItemsOf(ps[0], Sorted(ring[ps[0]])) + ItemsFor(ring, ps[1..])
  }

  function ItemLines(items: seq<Parsed>): seq<string> {
    if items == [] then [] else [EntryLine(items[0].p, items[0].e)] + ItemLines(items[1..])
  }

  predicate AreStorable(isPoint: string -> bool, items: seq<Parsed>) {
    forall i :: 0 <= i < |items| ==> IsStorable(isPoint, items[i].p, items[i].e)
  }

  lemma {:induction false} ItemLinesConcat(a: seq<Parsed>, b: seq<Parsed>)
    ensures ItemLines(a + b) == ItemLines(a) + ItemLines(b)
  {
    if a == [] {
      assert a + b == b;
    } else {
      assert (a + b)[1..] == a[1..] + b;
      ItemLinesConcat(a[1..], b);
    }
  }

  lemma {:induction false} EntryLinesAreItems(p: Principal, es: seq<KeyEntry>)
    ensures EntryLines(p, es) == ItemLines(ItemsOf(p, es))
  {
    if es != [] {
      EntryLinesAreItems(p, es[1..]);
      assert ItemsOf(p, es)[1..] == ItemsOf(p, es[1..]);
    }
  }

  lemma {:induction false} LinesForAreItems(ring: Ring, ps: seq<Principal>)
    requires forall p <- ps :: p in ring
    ensures LinesFor(ring, ps) == ItemLines(ItemsFor(ring, ps))
    decreases |ps|
  {
    if ps != [] {
      var es := Sorted(ring[ps[0]]);
      EntryLinesAreItems(ps[0], es);
      LinesForAreItems(ring, ps[1..]);
      ItemLinesConcat(ItemsOf(ps[0], es), ItemsFor(ring, ps[1..]));
    }
  }

  lemma LoadEntryLine(isPoint: string -> bool, st: Loading, p: Principal, e: KeyEntry)
    requires IsStorable(isPoint, p, e)
    ensures LoadLine(isPoint, st, EntryLine(p, e)) == Accept(st, p, e)
  {
    EntryLineParses(isPoint, p, e);
  }

  /** On written lines, loading the text is taking the entries. */
  lemma {:induction false} LoadLinesOfItems(isPoint: string -> bool, st: Loading, items: seq<Parsed>)
    requires AreStorable(isPoint, items)
    ensures LoadLines(isPoint, st, ItemLines(items)) == LoadItems(st, items)
    decreases |items|
  {
    if items != [] {
      LoadEntryLine(isPoint, st, items[0].p, items[0].e);
      var lines := ItemLines(items);
      assert lines[0] == EntryLine(items[0].p, items[0].e) && lines[1..] == ItemLines(items[1..]);
      var r := Accept(st, items[0].p, items[0].e);
      if r.Ok? { LoadLinesOfItems(isPoint, r.value, items[1..]); }
    }
  }

  lemma {:induction false} LoadConcat(st: Loading, a: seq<Parsed>, b: seq<Parsed>)
    ensures LoadItems(st, a + b) == var r := LoadItems(st, a); if r.Err? then r else LoadItems(r.value, b)
    decreases |a|
  {
    if a == [] {
      assert a + b == b;
    } else {
      assert (a + b)[0] == a[0] && (a + b)[1..] == a[1..] + b;
      var r := Accept(st, a[0].p, a[0].e);
      if r.Ok? { LoadConcat(r.value, a[1..], b); }
    }
  }

  /** These entries can be taken one after the other. */
  predicate CanTake(st: Loading, p: Principal, es: seq<KeyEntry>) {
    AtMostOneActive(EntriesOf(st.ring, p) + es) && DistinctKeys(es) && KeySet(es) !! st.seen.Keys
  }

  lemma AcceptFirst(st: Loading, p: Principal, es: seq<KeyEntry>)
    requires es != [] && CanTake(st, p, es)
    ensures Accept(st, p, es[0]).Ok? && CanTake(Accept(st, p, es[0]).value, p, es[1..])
  {
    var held := EntriesOf(st.ring, p);
    var all := held + es;
    assert all[|held|] == es[0] && es[0].key in KeySet(es);
    assert FirstIn(held, Active).Some? ==> all[FirstIn(held, Active).value].state.Active?;
    var st' := Accept(st, p, es[0]).value;
    assert (held + [es[0]]) + es[1..] == all;
    forall k | k in KeySet(es[1..]) ensures k !in st'.seen {
      var e :| e in es[1..] && e.key == k;
      var i :| 0 <= i < |es| - 1 && es[1..][i] == e;
      assert es[i + 1].key != es[0].key && es[i + 1] in es;
    }
  }

  lemma ItemsHead(p: Principal, es: seq<KeyEntry>)
    requires es != []
    ensures ItemsOf(p, es)[0] == Parsed(p, es[0]) && ItemsOf(p, es)[1..] == ItemsOf(p, es[1..])
  {
  }

  lemma {:induction false} TakingSucceeds(st: Loading, p: Principal, es: seq<KeyEntry>)
    requires CanTake(st, p, es)
    ensures LoadItems(st, ItemsOf(p, es)).Ok?
    decreases |es|
  {
    if es != [] {
      ItemsHead(p, es);
      AcceptFirst(st, p, es);
      TakingSucceeds(Accept(st, p, es[0]).value, p, es[1..]);
    }
  }

  function Grown(ring: Ring, p: Principal, es: seq<KeyEntry>): Ring {
    if es == [] then ring else ring[p := EntriesOf(ring, p) + es]
  }

  lemma GrownOneByOne(ring: Ring, p: Principal, es: seq<KeyEntry>)
    requires es != []
    ensures Grown(ring[p := EntriesOf(ring, p) + [es[0]]], p, es[1..]) == Grown(ring, p, es)
  {
    var held := EntriesOf(ring, p);
    if |es| == 1 {
      assert es == [es[0]];
    } else {
      assert (held + [es[0]]) + es[1..] == held + es;
    }
  }

  /** What taking one principal's entries gives: the list grown by those entries, their keys seen. */
  lemma {:induction false} TakingGrows(st: Loading, p: Principal, es: seq<KeyEntry>)
    requires LoadItems(st, ItemsOf(p, es)).Ok?
    ensures LoadItems(st, ItemsOf(p, es)).value.ring == Grown(st.ring, p, es)
    ensures LoadItems(st, ItemsOf(p, es)).value.seen.Keys == st.seen.Keys + KeySet(es)
    decreases |es|
  {
    if es != [] {
      ItemsHead(p, es);
      TakingGrows(Accept(st, p, es[0]).value, p, es[1..]);
      GrownOneByOne(st.ring, p, es);
      assert KeySet(es) == {es[0].key} + KeySet(es[1..]) by { assert es == [es[0]] + es[1..]; }
    }
  }

  ghost function NormalOn(ring: Ring, ps: seq<Principal>): Ring
    requires forall p <- ps :: p in ring
  {
    map p | p in ps :: Sorted(ring[p])
  }

  /** The same keyring with every list in key order. */
  function Normal(ring: Ring): Ring {
    map p | p in ring :: Sorted(ring[p])
  }

  predicate NoneSeen(st: Loading, ring: Ring, ps: seq<Principal>)
    requires forall p <- ps :: p in ring
  {
    forall p <- ps :: KeySet(ring[p]) !! st.seen.Keys
  }

  lemma SortedListFacts(isPoint: string -> bool, ring: Ring, p: Principal)
    requires IsStorableRing(isPoint, ring) && p in ring
    ensures AllStorable(isPoint, p, Sorted(ring[p])) && Sorted(ring[p]) != []
    ensures KeySet(Sorted(ring[p])) == KeySet(ring[p])
    ensures DistinctKeys(ring[p]) ==> DistinctKeys(Sorted(ring[p])) && AtMostOneActive(Sorted(ring[p]))
  {
    var es, s := ring[p], Sorted(ring[p]);
    SortedIsPermutation(es);
    forall i | 0 <= i < |s| ensures IsStorable(isPoint, p, s[i]) {
      assert s[i] in es;
    }
    if DistinctKeys(es) {
      SortedIsDistinctIff(es);
      forall i, j | 0 <= i < j < |s| ensures !(s[i].state.Active? && s[j].state.Active?) {
        assert s[i] in es && s[j] in es;
        var a :| 0 <= a < |es| && es[a] == s[i];
        var b :| 0 <= b < |es| && es[b] == s[j];
        assert s[i].key != s[j].key && a != b;
      }
    }
  }

  lemma NewPrincipalCanTake(isPoint: string -> bool, st: Loading, ring: Ring, p: Principal)
    requires IsStorableRing(isPoint, ring) && p in ring && p !in st.ring
    requires DistinctKeys(ring[p]) && KeySet(ring[p]) !! st.seen.Keys
    ensures CanTake(st, p, Sorted(ring[p]))
  {
    SortedListFacts(isPoint, ring, p);
    assert EntriesOf(st.ring, p) + Sorted(ring[p]) == Sorted(ring[p]);
  }

  /** A principal not yet loaded, taken whole: its list is its entries in key order. */
  lemma TakePrincipal(isPoint: string -> bool, st: Loading, ring: Ring, p: Principal)
    requires IsStorableRing(isPoint, ring) && p in ring && p !in st.ring
    ensures var r := LoadItems(st, ItemsOf(p, Sorted(ring[p])));
            && (DistinctKeys(ring[p]) && KeySet(ring[p]) !! st.seen.Keys ==> r.Ok?)
            && (r.Ok? ==>
                  && r.value.ring == st.ring[p := Sorted(ring[p])]
                  && r.value.seen.Keys == st.seen.Keys + KeySet(ring[p]))
  {
    var es := Sorted(ring[p]);
    SortedListFacts(isPoint, ring, p);
    if DistinctKeys(ring[p]) && KeySet(ring[p]) !! st.seen.Keys {
      NewPrincipalCanTake(isPoint, st, ring, p);
      TakingSucceeds(st, p, es);
    }
    if LoadItems(st, ItemsOf(p, es)).Ok? {
      TakingGrows(st, p, es);
      assert EntriesOf(st.ring, p) + es == es;
    }
  }

  predicate NoRepeats(ps: seq<Principal>) {
    forall i, j :: 0 <= i < j < |ps| ==> ps[i] != ps[j]
  }

  lemma NormalOnHead(ring: Ring, ps: seq<Principal>, base: Ring)
    requires ps != [] && NoRepeats(ps) && forall p <- ps :: p in ring
    ensures base[ps[0] := Sorted(ring[ps[0]])] + NormalOn(ring, ps[1..]) == base + NormalOn(ring, ps)
  {
  }

  /** Distinct principals of `ring`, none of them in `base` yet. */
  predicate AreNew(ring: Ring, base: Ring, ps: seq<Principal>) {
    NoRepeats(ps) && forall p <- ps :: p in ring && p !in base
  }

  lemma OthersAreNew(ring: Ring, base: Ring, ps: seq<Principal>, es: seq<KeyEntry>)
    requires ps != [] && AreNew(ring, base, ps)
    ensures AreNew(ring, base[ps[0] := es], ps[1..])
  {
    assert forall q <- ps[1..] :: q in ps && q != ps[0];
  }

  lemma {:induction false} PrincipalsGrow(isPoint: string -> bool, st: Loading, ring: Ring, ps: seq<Principal>)
    requires IsStorableRing(isPoint, ring) && AreNew(ring, st.ring, ps)
    requires LoadItems(st, ItemsFor(ring, ps)).Ok?
    ensures LoadItems(st, ItemsFor(ring, ps)).value.ring == st.ring + NormalOn(ring, ps)
    decreases |ps|
  {
    if ps == [] {
      assert st.ring + NormalOn(ring, ps) == st.ring;
    } else {
      FirstThenOthers(isPoint, st, ring, ps);
      NormalOnHead(ring, ps, st.ring);
      OthersAreNew(ring, st.ring, ps, Sorted(ring[ps[0]]));
      PrincipalsGrow(isPoint, LoadItems(st, ItemsOf(ps[0], Sorted(ring[ps[0]]))).value, ring, ps[1..]);
    }
  }

  /** Loading several principals is loading the first, then the others. */
  lemma FirstThenOthers(isPoint: string -> bool, st: Loading, ring: Ring, ps: seq<Principal>)
    requires IsStorableRing(isPoint, ring) && ps != [] && ps[0] in ring && ps[0] !in st.ring
    requires (forall p <- ps :: p in ring) && LoadItems(st, ItemsFor(ring, ps)).Ok?
    ensures var r := LoadItems(st, ItemsOf(ps[0], Sorted(ring[ps[0]])));
            && r.Ok? && r.value.ring == st.ring[ps[0] := Sorted(ring[ps[0]])]
            && (forall q <- ps[1..] :: q in ring)
            && LoadItems(st, ItemsFor(ring, ps)) == LoadItems(r.value, ItemsFor(ring, ps[1..]))
  {
    LoadConcat(st, ItemsOf(ps[0], Sorted(ring[ps[0]])), ItemsFor(ring, ps[1..]));
    TakePrincipal(isPoint, st, ring, ps[0]);
  }

  lemma {:induction false} PrincipalsAreTaken(isPoint: string -> bool, st: Loading, ring: Ring, ps: seq<Principal>)
    requires IsStorableRing(isPoint, ring) && NoRepeats(ps) && forall p <- ps :: p in ring && p !in st.ring
    requires IsGloballyDistinct(ring) && NoneSeen(st, ring, ps)
    ensures LoadItems(st, ItemsFor(ring, ps)).Ok?
    decreases |ps|
  {
    if ps != [] {
      var p, rest := ps[0], ps[1..];
      assert p in ps && forall q <- rest :: q in ps && q != p;
      LoadConcat(st, ItemsOf(p, Sorted(ring[p])), ItemsFor(ring, rest));
      TakePrincipal(isPoint, st, ring, p);
      PrincipalsAreTaken(isPoint, LoadItems(st, ItemsOf(p, Sorted(ring[p]))).value, ring, rest);
    }
  }

  lemma {:induction false} ItemsOfAreStorable(isPoint: string -> bool, p: Principal, es: seq<KeyEntry>)
    requires AllStorable(isPoint, p, es)
    ensures AreStorable(isPoint, ItemsOf(p, es))
  {
    if es != [] { ItemsOfAreStorable(isPoint, p, es[1..]); }
  }

  lemma {:induction false} ItemsForAreStorable(isPoint: string -> bool, ring: Ring, ps: seq<Principal>)
    requires IsStorableRing(isPoint, ring) && forall p <- ps :: p in ring
    ensures AreStorable(isPoint, ItemsFor(ring, ps))
    decreases |ps|
  {
    if ps != [] {
      SortedListFacts(isPoint, ring, ps[0]);
      ItemsOfAreStorable(isPoint, ps[0], Sorted(ring[ps[0]]));
      ItemsForAreStorable(isPoint, ring, ps[1..]);
    }
  }

  lemma {:induction false} ItemLinesAreClean(isPoint: string -> bool, items: seq<Parsed>)
    requires AreStorable(isPoint, items)
    ensures forall i :: 0 <= i < |ItemLines(items)| ==> IsCleanLine(ItemLines(items)[i])
  {
    if items != [] {
      EntryLineParses(isPoint, items[0].p, items[0].e);
      ItemLinesAreClean(isPoint, items[1..]);
    }
  }

  /** The text of a save splits back into its lines, and those into its entries. */
  lemma LoadOfSaveIsLoadItems(isPoint: string -> bool, ring: Ring)
    requires IsStorableRing(isPoint, ring)
    ensures LoadLines(isPoint, NOTHING_LOADED, Lines(Save(ring)))
            == LoadItems(NOTHING_LOADED, ItemsFor(ring, InOrder(ring.Keys)))
  {
    var ps := InOrder(ring.Keys);
    var items := ItemsFor(ring, ps);
    LinesForAreItems(ring, ps);
    ItemsForAreStorable(isPoint, ring, ps);
    ItemLinesAreClean(isPoint, items);
    LinesOfUnlines(ItemLines(items));
    LoadLinesOfItems(isPoint, NOTHING_LOADED, items);
  }

  /** Loading a saved keyring: if it succeeds, the same lists in key order; with distinct keys it succeeds. */
  lemma LoadOfSave(isPoint: string -> bool, ring: Ring)
    requires IsStorableRing(isPoint, ring)
    ensures IsGloballyDistinct(ring) ==> Load(isPoint, Save(ring)).Ok?
    ensures Load(isPoint, Save(ring)).Ok? ==> Load(isPoint, Save(ring)).value == Normal(ring)
  {
    var ps := InOrder(ring.Keys);
    LoadOfSaveIsLoadItems(isPoint, ring);
    if IsGloballyDistinct(ring) {
      PrincipalsAreTaken(isPoint, NOTHING_LOADED, ring, ps);
    }
    if LoadItems(NOTHING_LOADED, ItemsFor(ring, ps)).Ok? {
      PrincipalsGrow(isPoint, NOTHING_LOADED, ring, ps);
      NormalOnAll(ring);
    }
  }

  lemma NormalOnAll(ring: Ring)
    requires AllPrincipals(ring.Keys)
    ensures NOTHING_LOADED.ring + NormalOn(ring, InOrder(ring.Keys)) == Normal(ring)
  {
  }

  // ---------------------------------------------------------------- what loading guarantees

  /** Every key in the keyring is on record as its owner's, and lists are sound and distinct. */
  predicate IsLoadedState(isPoint: string -> bool, st: Loading) {
    && IsStorableRing(isPoint, st.ring) && IsDistinct(st.ring)
    && forall p <- st.ring :: forall i :: 0 <= i < |st.ring[p]| ==>
                                            st.ring[p][i].key in st.seen && st.seen[st.ring[p][i].key] == p
  }

  lemma ParsedIsStorable(isPoint: string -> bool, line: string)
    requires ParseLine(isPoint, line).Ok?
    ensures var parsed := ParseLine(isPoint, line).value; IsStorable(isPoint, parsed.p, parsed.e)
  {
  }

  lemma AcceptKeepsLoaded(isPoint: string -> bool, st: Loading, p: Principal, e: KeyEntry)
    requires IsLoadedState(isPoint, st) && IsStorable(isPoint, p, e) && Accept(st, p, e).Ok?
    ensures IsLoadedState(isPoint, Accept(st, p, e).value)
  {
    var st' := Accept(st, p, e).value;
    var held := EntriesOf(st.ring, p);
    assert st'.ring[p] == held + [e];
    assert forall i :: 0 <= i < |held| ==> held[i].key in st.seen && held[i].key != e.key && IsStamped(held[i]);
    assert DistinctKeys(held + [e]) && IsSoundList(held + [e]) && AllStorable(isPoint, p, held + [e]);
  }

  /**
    Each duplicate the loader refuses is one the keyring so far really has: a second active key, or
    the key again, under this principal or under another. It takes every entry that is neither.
   */
  lemma DuplicateIsReal(isPoint: string -> bool, st: Loading, p: Principal, e: KeyEntry)
    requires IsLoadedState(isPoint, st) && IsOnlySeen(st)
    ensures var es := EntriesOf(st.ring, p);
            var second := e.state.Active? && exists x <- es :: x.state.Active?;
            && (Accept(st, p, e) == Err(DuplicatePrincipal) <==> second)
            && (Accept(st, p, e) == Err(DuplicateKeyEntry) <==> !second && e.key in KeySet(es))
            && (Accept(st, p, e) == Err(DuplicatePubkey)
                <==> !second && exists q <- st.ring :: q != p && e.key in KeySet(st.ring[q]))
            && (Accept(st, p, e).Ok? ==> IsOnlySeen(Accept(st, p, e).value))
  {
    var es := EntriesOf(st.ring, p);
    if FirstIn(es, Active).Some? { assert es[FirstIn(es, Active).value] in es; }
    assert e.key in st.seen ==> e.key in KeySet(EntriesOf(st.ring, st.seen[e.key]));
    if Accept(st, p, e).Ok? {
      var st' := Accept(st, p, e).value;
      forall k | k in st'.seen ensures k in KeySet(EntriesOf(st'.ring, st'.seen[k])) {
        var q := st'.seen[k];
        if k == e.key {
          assert e in es + [e];
        } else {
          var x :| x in EntriesOf(st.ring, q) && x.key == k;
          assert x in EntriesOf(st'.ring, q);
        }
      }
    }
  }

  /** No key is on record that its owner does not hold. */
  predicate IsOnlySeen(st: Loading) {
    forall k <- st.seen :: k in KeySet(EntriesOf(st.ring, st.seen[k]))
  }

  lemma {:induction false} LoadKeepsLoaded(isPoint: string -> bool, st: Loading, lines: seq<string>)
    requires IsLoadedState(isPoint, st) && LoadLines(isPoint, st, lines).Ok?
    ensures IsLoadedState(isPoint, LoadLines(isPoint, st, lines).value)
    decreases |lines|
  {
    if lines != [] {
      if !IsSkipped(lines[0]) {
        ParsedIsStorable(isPoint, lines[0]);
        var parsed := ParseLine(isPoint, lines[0]).value;
        AcceptKeepsLoaded(isPoint, st, parsed.p, parsed.e);
      }
      LoadKeepsLoaded(isPoint, LoadLine(isPoint, st, lines[0]).value, lines[1..]);
    }
  }

  /** Whatever the text, a keyring that loads is sound, storable and globally distinct. */
  lemma LoadedIsSound(isPoint: string -> bool, text: string)
    requires Load(isPoint, text).Ok?
    ensures var ring := Load(isPoint, text).value;
            IsStorableRing(isPoint, ring) && IsSound(ring) && IsGloballyDistinct(ring)
  {
    LoadKeepsLoaded(isPoint, NOTHING_LOADED, Lines(text));
    var st := LoadLines(isPoint, NOTHING_LOADED, Lines(text)).value;
    forall p, q | p in st.ring && q in st.ring && p != q ensures KeySet(st.ring[p]) !! KeySet(st.ring[q]) {
      forall k | k in KeySet(st.ring[p]) ensures k !in KeySet(st.ring[q]) {
        var e :| e in st.ring[p] && e.key == k;
        assert st.seen[k] == p;
      }
    }
  }

  // ---------------------------------------------------------------- main results

  lemma NormalIsDistinctIff(isPoint: string -> bool, ring: Ring)
    requires IsStorableRing(isPoint, ring)
    ensures IsGloballyDistinct(Normal(ring)) <==> IsGloballyDistinct(ring)
  {
    forall p | p in ring
      ensures KeySet(Normal(ring)[p]) == KeySet(ring[p])
      ensures DistinctKeys(Normal(ring)[p]) <==> DistinctKeys(ring[p])
    {
      SortedListFacts(isPoint, ring, p);
      SortedIsDistinctIff(ring[p]);
    }
    var n := Normal(ring);
    assert n.Keys == ring.Keys;
    assert forall p, q | p in ring && q in ring && p != q ::
             KeySet(n[p]) !! KeySet(n[q]) <==> KeySet(ring[p]) !! KeySet(ring[q]);
  }

  /**
    A saved keyring can be loaded again if and only if no key occurs in it twice. The running
    keyring does not enforce that, so a save can produce a file the loader refuses.
   */
  lemma LoadableIffDistinct(isPoint: string -> bool, ring: Ring)
    requires IsStorableRing(isPoint, ring)
    ensures Load(isPoint, Save(ring)).Ok? <==> IsGloballyDistinct(ring)
  {
    LoadOfSave(isPoint, ring);
    if Load(isPoint, Save(ring)).Ok? {
      LoadedIsSound(isPoint, Save(ring));
      NormalIsDistinctIff(isPoint, ring);
    }
  }

  lemma FirstPinAdds(ring: Ring, p: Principal, key: Key)
    requires p !in ring
    ensures PinTofu(ring, p, key) == Change(ring[p := [Legacy(key)]], Ok(Done))
  {
    var none: seq<KeyEntry> := [];
    assert EntriesOf(ring, p) == none;
    assert none + [Legacy(key)] == [Legacy(key)];
  }

  lemma SharedIsNotDistinct(ring: Ring, p: Principal, q: Principal, key: Key)
    requires p != q && p in ring && q in ring && ring[p] == [Legacy(key)] && ring[q] == [Legacy(key)]
    ensures !IsGloballyDistinct(ring)
  {
    assert Legacy(key) in ring[p];
    assert key in KeySet(ring[p]);
  }

  lemma LoneLegacyIsSound(isPoint: string -> bool, p: Principal, key: Key)
    requires IsStorable(isPoint, p, Legacy(key))
    ensures IsSoundList([Legacy(key)]) && AllStorable(isPoint, p, [Legacy(key)])
  {
  }

  // ---------------------------------------------------------------- every keyring operations can reach

  /** The principals and keys an operation brings in are well formed, as their types make them. */
  predicate IsWellFormed(isPoint: string -> bool, op: Op) {
    op.OpPin? || op.OpRotate? ==> IsPrincipal(op.p) && DecodeKey(isPoint, op.key.text) == Some(op.key)
  }

  lemma EditKeepsStorable(isPoint: string -> bool, p: Principal, es: seq<KeyEntry>, edit: Edit)
    requires IsEdit(es, edit) && AllStorable(isPoint, p, es)
    requires edit.Push? || edit.Rotate? ==> IsStorable(isPoint, p, edit.e)
    ensures AllStorable(isPoint, p, EditList(es, edit))
  {
  }

  lemma PushedIsStorable(isPoint: string -> bool, scheme: Scheme, ring: Ring, op: Op)
    requires IsSound(ring) && IsWellFormed(isPoint, op) && SubjectOf(op).Some?
    ensures var edit := EditOf(scheme, ring, op);
            edit.Push? || edit.Rotate? ==> IsStorable(isPoint, SubjectOf(op).value, edit.e)
  {
    OperationIsEdit(scheme, ring, op);
  }

  lemma OperationKeepsStorable(isPoint: string -> bool, scheme: Scheme, ring: Ring, op: Op)
    requires IsStorableRing(isPoint, ring) && IsWellFormed(isPoint, op)
    ensures IsStorableRing(isPoint, Apply(scheme, ring, op).ring)
  {
    OperationIsEdit(scheme, ring, op);
    OperationKeepsSound(scheme, ring, op);
    var ring' := Apply(scheme, ring, op).ring;
    if SubjectOf(op).Some? {
      var p, edit := SubjectOf(op).value, EditOf(scheme, ring, op);
      PushedIsStorable(isPoint, scheme, ring, op);
      EditKeepsStorable(isPoint, p, EntriesOf(ring, p), edit);
      forall q <- ring' ensures IsPrincipal(q) && IsSoundList(ring'[q]) && AllStorable(isPoint, q, ring'[q]) {
        if q == p {
          assert IsStorable(isPoint, p, EntriesOf(ring', p)[0]);
        } else {
          assert EntriesOf(ring', q) == ring[q];
        }
      }
    }
  }

  lemma {:induction false} RunsStayStorable(isPoint: string -> bool, scheme: Scheme, ring: Ring, ops: seq<Op>)
    requires IsStorableRing(isPoint, ring) && forall op <- ops :: IsWellFormed(isPoint, op)
    ensures IsStorableRing(isPoint, RingAfter(scheme, ring, ops))
    decreases |ops|
  {
    if ops != [] {
      OperationKeepsStorable(isPoint, scheme, ring, ops[0]);
      RunsStayStorable(isPoint, scheme, Apply(scheme, ring, ops[0]).ring, ops[1..]);
    }
  }

  /**
    Every keyring that operations can reach: its saved file loads again, to the same entries, if
    and only if no key is held twice, by one principal or by two.
   */
  lemma ReachableLoadsIff(isPoint: string -> bool, scheme: Scheme, ops: seq<Op>)
    requires forall op <- ops :: IsWellFormed(isPoint, op)
    ensures var ring := RingAfter(scheme, map[], ops);
            var r := Load(isPoint, Save(ring));
            && (r.Ok? <==> IsGloballyDistinct(ring))
            && (r.Ok? ==> r.value.Keys == ring.Keys && forall p <- ring :: multiset(r.value[p]) == multiset(ring[p]))
  {
    RunsStayStorable(isPoint, scheme, map[], ops);
    var ring := RingAfter(scheme, map[], ops);
    LoadableIffDistinct(isPoint, ring);
    if IsGloballyDistinct(ring) { RoundTrip(isPoint, ring); }
  }

  /** Two principals trusted on first use with one key: the running keyring accepts both, its file is refused. */
  lemma SharedKeyIsUnloadable(isPoint: string -> bool, p: Principal, q: Principal, key: Key)
    requires p != q && IsStorable(isPoint, p, Legacy(key)) && IsStorable(isPoint, q, Legacy(key))
    ensures var one := PinTofu(map[], p, key);
            var two := PinTofu(one.ring, q, key);
            && one.outcome == Ok(Done) && two.outcome == Ok(Done)
            && Load(isPoint, Save(two.ring)).Err?
  {
    FirstPinAdds(map[], p, key);
    FirstPinAdds(map[p := [Legacy(key)]], q, key);
    var two: Ring := map[p := [Legacy(key)]][q := [Legacy(key)]];
    LoneLegacyIsSound(isPoint, p, key);
    LoneLegacyIsSound(isPoint, q, key);
    LoadableIffDistinct(isPoint, two);
    SharedIsNotDistinct(two, p, q, key);
  }

  /**
    File round trip: loading a saved keyring recovers every principal's entries, as a multiset,
    and saving the result gives the same bytes.
   */
  lemma RoundTrip(isPoint: string -> bool, ring: Ring)
    requires IsStorableRing(isPoint, ring) && IsGloballyDistinct(ring)
    ensures var r := Load(isPoint, Save(ring));
            && r.Ok? && r.value.Keys == ring.Keys
            && (forall p <- ring :: multiset(r.value[p]) == multiset(ring[p]))
            && Save(r.value) == Save(ring)
  {
    LoadOfSave(isPoint, ring);
    var n := Normal(ring);
    forall p | p in ring ensures multiset(n[p]) == multiset(ring[p]) && Sorted(n[p]) == Sorted(ring[p]) {
      SortedIsPermutation(ring[p]);
      SortedIsInOrder(ring[p]);
      SortedOfOrdered(Sorted(ring[p]));
    }
    SameLines(ring, n, InOrder(ring.Keys));
  }

  lemma {:induction false} SameLines(a: Ring, b: Ring, ps: seq<Principal>)
    requires forall p <- ps :: p in a && p in b && Sorted(a[p]) == Sorted(b[p])
    ensures LinesFor(a, ps) == LinesFor(b, ps)
    decreases |ps|
  {
    if ps != [] { SameLines(a, b, ps[1..]); }
  }
}
