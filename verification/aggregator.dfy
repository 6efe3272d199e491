/** The aggregation in translation_downloader.py's `main` (lines 19-27): the
    records are sorted by language name and folded into `by_code` (locale code
    to language name) and `by_name` (language name to category to label). The
    `by_name` table is the one the editor looks default container names up in. */
module Aggregator {
  import opened Ordering
  import opened StableSort
  import opened Extractor
  import opened Stages

  /** A dict built by assigning `d[key(x)] = val(x)` for each `x` in order: a later
      assignment to the same key overrides an earlier one. */
  function Fold<T, K, V>(s: seq<T>, key: T -> K, val: T -> V): map<K, V>
  {
    if |s| == 0 then map[] else Fold(s[..|s| - 1], key, val)[key(s[|s| - 1]) := val(s[|s| - 1])]
  }

  /** The folded dict has a key exactly for every element's key. */
  lemma {:induction false} FoldKeys<T, K, V>(s: seq<T>, key: T -> K, val: T -> V)
    ensures forall k :: k in Fold(s, key, val) <==> exists i :: 0 <= i < |s| && key(s[i]) == k
    decreases |s|
  {
    if |s| > 0 {
      var p := s[..|s| - 1];
      FoldKeys(p, key, val);
      assert forall i :: 0 <= i < |p| ==> p[i] == s[i];
    }
  }

  lemma FoldKeyMembers<T, K, V>(s: seq<T>, key: T -> K, val: T -> V)
    ensures forall k :: k in Fold(s, key, val) <==> exists x :: x in s && key(x) == k
  {
    FoldKeys(s, key, val);
    forall x | x in s
      ensures key(x) in Fold(s, key, val)
    {
      var i :| 0 <= i < |s| && s[i] == x;
      FoldHasKey(s, key, val, i);
    }
  }

  lemma FoldHasKey<T, K, V>(s: seq<T>, key: T -> K, val: T -> V, i: nat)
    requires i < |s|
    ensures key(s[i]) in Fold(s, key, val)
  {
    FoldKeys(s, key, val);
  }

  /** The value under a key is that of the last element with that key. */
  lemma {:induction false} FoldLast<T, K, V>(s: seq<T>, key: T -> K, val: T -> V, i: nat)
    requires i < |s|
    requires forall j :: i < j < |s| ==> key(s[j]) != key(s[i])
    ensures key(s[i]) in Fold(s, key, val) && Fold(s, key, val)[key(s[i])] == val(s[i])
    decreases |s|
  {
    if i < |s| - 1 {
      var p := s[..|s| - 1];
      assert p[i] == s[i];
      FoldLast(p, key, val, i);
    }
  }

  /** For a key that occurs, the position of its last occurrence. */
  lemma LastOccurrence<T, K>(s: seq<T>, key: T -> K, k: K) returns (i: nat)
    requires exists j :: 0 <= j < |s| && key(s[j]) == k
    ensures i < |s| && key(s[i]) == k && forall j :: i < j < |s| ==> key(s[j]) != k
  {
    var j :| 0 <= j < |s| && key(s[j]) == k;
    i := j;
    while i < |s| - 1 && exists m :: i < m < |s| && key(s[m]) == k
      invariant j <= i < |s| && key(s[i]) == k
      decreases |s| - i
    {
      var m :| i < m < |s| && key(s[m]) == k;
      i := m;
    }
  }

  /** `{cont: translation for cont, translation in trans}`. */
  function LabelMap(es: seq<Entry>): map<string, string> {
    Fold(es, CategoryName, EntryText)
  }

  function CategoryName(e: Entry): string { e.category.Name() }
  function EntryText(e: Entry): string { e.text }
  function RecordCode(r: Record): string { r.code }
  function RecordName(r: Record): string { r.name }
  function RecordLabels(r: Record): map<string, string> { LabelMap(r.entries) }

  /** The sort key of line 23, as the one-component key list of StableSort. */
  function NameKey(r: Record): seq<Atom> {
    [Text(r.name)]
  }

  function ByCode(s: seq<Record>): map<string, string> {
    Fold(s, RecordCode, RecordName)
  }

  function ByName(s: seq<Record>): map<string, map<string, string>> {
    Fold(s, RecordName, RecordLabels)
  }

  datatype Translations = Translations(byCode: map<string, string>, byName: map<string, map<string, string>>)

  /** Lines 19-27: a stable sort by name, then one assignment per record into each dict. */
  function Aggregate(res: seq<Record>): Translations
  {
    var sorted := SortBy(res, NameKey, false);
    Translations(ByCode(sorted), ByName(sorted))
  }

  /** The dicts have exactly the records' codes and names as keys. */
  lemma AggregateKeys(res: seq<Record>)
    ensures forall c :: c in Aggregate(res).byCode <==> exists r :: r in res && r.code == c
    ensures forall n :: n in Aggregate(res).byName <==> exists r :: r in res && r.name == n
  {
    var sorted := SortBy(res, NameKey, false);
    FoldKeyMembers(sorted, RecordCode, RecordName);
    FoldKeyMembers(sorted, RecordName, RecordLabels);
    SameMembers(res, sorted);
  }

  lemma AggregateHasKeys(res: seq<Record>, r: Record)
    requires r in res
    ensures r.name in Aggregate(res).byName && r.code in Aggregate(res).byCode
  {
    AggregateKeys(res);
  }

  lemma AggregateUnfold(res: seq<Record>)
    ensures var sorted := SortBy(res, NameKey, false);
            Aggregate(res).byName == ByName(sorted) && Aggregate(res).byCode == ByCode(sorted)
  {
  }

  lemma SameMembers(a: seq<Record>, b: seq<Record>)
    requires multiset(a) == multiset(b)
    ensures forall x :: x in a <==> x in b
  {
    forall x
      ensures x in a <==> x in b
    {
      assert x in a <==> x in multiset(a);
      assert x in b <==> x in multiset(b);
    }
  }

  /** In a label table a later line for the same category overrides an earlier one. */
  lemma LabelMapLast(es: seq<Entry>, i: nat)
    requires i < |es|
    requires forall j :: i < j < |es| ==> es[j].category != es[i].category
    ensures es[i].category.Name() in LabelMap(es) && LabelMap(es)[es[i].category.Name()] == es[i].text
  {
    forall j | i < j < |es|
      ensures es[j].category.Name() != es[i].category.Name()
    {
      NamesDiffer(es[j].category, es[i].category);
    }
    FoldLast(es, CategoryName, EntryText, i);
  }

  lemma NamesDiffer(c: Category, d: Category)
    requires c != d
    ensures c.Name() != d.Name()
  {
    assert c.Name()[0] != d.Name()[0];
  }

  lemma {:induction false} WithKeyNone<T>(s: seq<T>, key: T -> seq<Atom>, k: seq<Atom>)
    requires forall j :: 0 <= j < |s| ==> key(s[j]) != k
    ensures WithKey(s, key, k) == []
    decreases |s|
  {
    if |s| > 0 {
      WithKeyNone(s[1..], key, k);
    }
  }

  /** The last element `WithKey` keeps is the last element with that key. */
  lemma {:induction false} WithKeyLast<T>(s: seq<T>, key: T -> seq<Atom>, k: seq<Atom>, i: nat)
    requires i < |s| && key(s[i]) == k
    requires forall j :: i < j < |s| ==> key(s[j]) != k
    ensures var w := WithKey(s, key, k); |w| > 0 && w[|w| - 1] == s[i]
    decreases |s|
  {
    if i == 0 {
      WithKeyNone(s[1..], key, k);
      assert WithKey(s, key, k) == [s[0]] + [];
    } else {
      WithKeyLast(s[1..], key, k, i - 1);
      var w1 := WithKey(s[1..], key, k);
      assert WithKey(s, key, k) == Pick(s[0], key, k) + w1;
    }
  }

  lemma {:induction false} WithKeyMembers<T>(s: seq<T>, key: T -> seq<Atom>, k: seq<Atom>)
    ensures forall x :: x in WithKey(s, key, k) ==> x in s && key(x) == k
    decreases |s|
  {
    if |s| > 0 {
      WithKeyMembers(s[1..], key, k);
    }
  }

  /** In `ByName(s)` the table under `n` is that of the last record named `n`. */
  lemma ByNameValue(s: seq<Record>, n: string)
    requires n in ByName(s)
    ensures var named := WithKey(s, NameKey, [Text(n)]);
            |named| > 0 && ByName(s)[n] == LabelMap(named[|named| - 1].entries)
  {
    FoldKeys(s, RecordName, RecordLabels);
    var i := LastOccurrence(s, RecordName, n);
    FoldLast(s, RecordName, RecordLabels, i);
    forall j | i < j < |s|
      ensures NameKey(s[j]) != [Text(n)]
    {
      assert NameKey(s[j])[0] == Text(s[j].name);
    }
    WithKeyLast(s, NameKey, [Text(n)], i);
  }

  /** `by_name[n]` is the label table of the last record named `n` in the order
      the records arrived: the sort is stable, so records with one name keep their order. */
  lemma AggregateByName(res: seq<Record>, n: string)
    requires n in Aggregate(res).byName
    ensures var named := WithKey(res, NameKey, [Text(n)]);
            |named| > 0 && Aggregate(res).byName[n] == LabelMap(named[|named| - 1].entries)
  {
    var sorted := SortBy(res, NameKey, false);
    AggregateUnfold(res);
    ByNameValue(sorted, n);
    SortByStable(res, NameKey, false, [Text(n)]);
  }

  /** The record whose table `by_name[n]` holds: one of the records, named `n`. */
  lemma NamedRecord(res: seq<Record>, n: string) returns (x: Record)
    requires n in Aggregate(res).byName
    ensures x in res && x.name == n && Aggregate(res).byName[n] == LabelMap(x.entries)
  {
    AggregateByName(res, n);
    var named := WithKey(res, NameKey, [Text(n)]);
    x := named[|named| - 1];
    WithKeyLastMember(res, NameKey, [Text(n)]);
    assert NameKey(x)[0] == Text(x.name);
  }

  lemma WithKeyLastMember<T>(s: seq<T>, key: T -> seq<Atom>, k: seq<Atom>)
    requires |WithKey(s, key, k)| > 0
    ensures var w := WithKey(s, key, k); w[|w| - 1] in s && key(w[|w| - 1]) == k
  {
    WithKeyMembers(s, key, k);
    var w := WithKey(s, key, k);
    assert w[|w| - 1] in w;
  }

  lemma SingleNameOrder(a: string, b: string)
    ensures VecLess([Text(a)], [Text(b)]) <==> StrLess(a, b)
  {
    assert [Text(a)][1..] == [];
    assert [Text(b)][1..] == [];
  }

  /** In a list sorted by name, `ByCode(s)[c]` is the greatest name among the records with code `c`. */
  lemma ByCodeValue(s: seq<Record>, c: string)
    requires c in ByCode(s)
    requires Sorted(s, NameKey, false)
    ensures exists r :: r in s && r.code == c && ByCode(s)[c] == r.name
    ensures forall r :: r in s && r.code == c ==> !StrLess(ByCode(s)[c], r.name)
  {
    FoldKeys(s, RecordCode, RecordName);
    var i := LastOccurrence(s, RecordCode, c);
    FoldLast(s, RecordCode, RecordName, i);
    assert s[i] in s;
    forall r | r in s && r.code == c
      ensures !StrLess(s[i].name, r.name)
    {
      var j :| 0 <= j < |s| && s[j] == r;
      if j < i {
        assert !Before(NameKey, false, s[i], s[j]);
        SingleNameOrder(s[i].name, s[j].name);
      } else {
        assert j == i;
        StrLessIrreflexive(r.name);
      }
    }
  }

  /** `by_code[c]` is the name of a record with code `c`, and no record with that
      code has a greater name: for a shared code the name sorting last wins. */
  lemma AggregateByCode(res: seq<Record>, c: string)
    requires c in Aggregate(res).byCode
    ensures exists r :: r in res && r.code == c && Aggregate(res).byCode[c] == r.name
    ensures forall r :: r in res && r.code == c ==> !StrLess(Aggregate(res).byCode[c], r.name)
  {
    var sorted := SortBy(res, NameKey, false);
    AggregateUnfold(res);
    SortBySorted(res, NameKey, false);
    ByCodeValue(sorted, c);
    SameMembers(res, sorted);
  }

  /** A language name determines the record it belongs to. */
  predicate NamesDetermine(res: seq<Record>) {
    forall r1, r2 :: r1 in res && r2 in res && r1.name == r2.name ==> r1 == r2
  }

  /** When names determine the records, the tables do not depend on the order
      in which the workers delivered them. */
  lemma AggregateOrderIndependent(res: seq<Record>, res2: seq<Record>)
    requires multiset(res) == multiset(res2)
    requires NamesDetermine(res)
    ensures Aggregate(res) == Aggregate(res2)
  {
    ByNameAgree(res, res2);
    ByCodeAgree(res, res2);
  }

  /** `by_name` does not depend on the arrival order when names determine the records. */
  lemma ByNameAgree(res: seq<Record>, res2: seq<Record>)
    requires multiset(res) == multiset(res2)
    requires NamesDetermine(res)
    ensures Aggregate(res).byName == Aggregate(res2).byName
  {
    var t, t2 := Aggregate(res).byName, Aggregate(res2).byName;
    forall n | n in t
      ensures n in t2 && t[n] == t2[n]
    {
      ByNameAt(res, res2, n);
    }
    forall n | n in t2
      ensures n in t
    {
      var x2 := NamedRecord(res2, n);
      assert x2 in res by {
        assert x2 in multiset(res2);
      }
      AggregateHasKeys(res, x2);
    }
  }

  lemma ByNameAt(res: seq<Record>, res2: seq<Record>, n: string)
    requires multiset(res) == multiset(res2)
    requires NamesDetermine(res)
    requires n in Aggregate(res).byName
    ensures n in Aggregate(res2).byName && Aggregate(res).byName[n] == Aggregate(res2).byName[n]
  {
    var x := NamedRecord(res, n);
    assert x in res2 by {
      assert x in multiset(res);
    }
    AggregateHasKeys(res2, x);
    var x2 := NamedRecord(res2, n);
    assert x2 in res by {
      assert x2 in multiset(res2);
    }
    SameRecord(res, x, x2);
  }

  /** `by_code` never depends on the arrival order: the stable sort by name
      makes the greatest name of a code win, whatever order the records came in. */
  lemma ByCodeAgree(res: seq<Record>, res2: seq<Record>)
    requires multiset(res) == multiset(res2)
    ensures Aggregate(res).byCode == Aggregate(res2).byCode
  {
    var t, t2 := Aggregate(res).byCode, Aggregate(res2).byCode;
    forall c | c in t
      ensures c in t2 && t[c] == t2[c]
    {
      ByCodeAt(res, res2, c);
    }
    forall c | c in t2
      ensures c in t
    {
      AggregateByCode(res2, c);
      var r2 :| r2 in res2 && r2.code == c && t2[c] == r2.name;
      assert r2 in res by {
        assert r2 in multiset(res2);
      }
      AggregateHasKeys(res, r2);
    }
  }

  lemma ByCodeAt(res: seq<Record>, res2: seq<Record>, c: string)
    requires multiset(res) == multiset(res2)
    requires c in Aggregate(res).byCode
    ensures c in Aggregate(res2).byCode && Aggregate(res).byCode[c] == Aggregate(res2).byCode[c]
  {
    AggregateByCode(res, c);
    var r :| r in res && r.code == c && Aggregate(res).byCode[c] == r.name;
    assert r in res2 by {
      assert r in multiset(res);
    }
    AggregateHasKeys(res2, r);
    AggregateByCode(res2, c);
    var r2 :| r2 in res2 && r2.code == c && Aggregate(res2).byCode[c] == r2.name;
    assert r2 in res by {
      assert r2 in multiset(res2);
    }
    assert !StrLess(r.name, r2.name) && !StrLess(r2.name, r.name);
    StrLessAntisymmetric(r.name, r2.name);
  }

  lemma SameRecord(res: seq<Record>, r1: Record, r2: Record)
    requires NamesDetermine(res)
    requires r1 in res && r2 in res && r1.name == r2.name
    ensures r1 == r2
  {
  }
}
