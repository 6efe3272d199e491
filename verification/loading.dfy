/** get_containers (mac_easy_manager.py:893-924): the identities of the loaded
    file are split into the *ready* list the editor shows and the *ignored* list
    that is written back untouched. A default container gets its display name
    from the translation table, looked up by the category its accessKey names. */
module Loading {
  import opened Wrappers
  import opened Identities
  import Reorder

  const Prefix: string := "userContext"
  const Suffix: string := "accesskey"

  /** `re.search(r"userContext(.*)?.accesskey", s)` matches `s[p..q + 10]` with
      group 1 equal to `s[p + 11..q]`: `.` is any character but a newline, and it
      stands at `q`. */
  predicate MatchAt(s: string, p: int, q: int) {
    0 <= p && p + |Prefix| <= q && q + 1 + |Suffix| <= |s|
    && s[p..p + |Prefix|] == Prefix
    && s[q] != '\n'
    && s[q + 1..q + 1 + |Suffix|] == Suffix
    && forall k :: p + |Prefix| <= k < q ==> s[k] != '\n'
  }

  /** The greedy `(.*)`: the largest end `q' <= q` of a match starting at `p`. */
  function LastEnd(s: string, p: nat, q: int): (r: Option<nat>)
    ensures r.Some? ==> r.value <= q && MatchAt(s, p, r.value)
    ensures r.Some? ==> forall q' :: r.value < q' <= q ==> !MatchAt(s, p, q')
    ensures r.None? ==> forall q' :: q' <= q ==> !MatchAt(s, p, q')
    decreases q - p
  {
    if q < p + |Prefix| then None
    else if MatchAt(s, p, q) then Some(q)
    else LastEnd(s, p, q - 1)
  }

  /** The leftmost start `p' >= p` at which a match exists, with its greedy end. */
  function SearchFrom(s: string, p: nat): (r: Option<(nat, nat)>)
    ensures r.Some? ==> p <= r.value.0 && MatchAt(s, r.value.0, r.value.1)
    ensures r.Some? ==> forall p', q' :: p <= p' < r.value.0 ==> !MatchAt(s, p', q')
    ensures r.Some? ==> forall q' :: r.value.1 < q' ==> !MatchAt(s, r.value.0, q')
    ensures r.None? ==> forall p', q' :: p <= p' ==> !MatchAt(s, p', q')
    decreases |s| - p
  {
    if p + |Prefix| + 1 + |Suffix| > |s| then None
    else match LastEnd(s, p, |s| - 1 - |Suffix|)
      case Some(q) => Some((p, q))
      case None => SearchFrom(s, p + 1)
  }

  /** Group 1 of the accessKey search: the container category, such as "Work".
      `None` where the program's `.group(1)` would fail on a missing match. */
  function AccessKeyCategory(s: string): (r: Option<string>)
    ensures r.None? <==> forall p, q :: !MatchAt(s, p, q)
    ensures r.Some? ==> exists p, q :: MatchAt(s, p, q) && r.value == s[p + |Prefix|..q]
                                     && (forall p', q' :: 0 <= p' < p ==> !MatchAt(s, p', q'))
                                     && (forall q' :: q < q' ==> !MatchAt(s, p, q'))
  {
    match SearchFrom(s, 0)
    case Some((p, q)) => Some(s[p + |Prefix|..q])
    case None => None
  }

  /** The accessKey Firefox writes for a default container names its category back. */
  lemma AccessKeyCategoryRoundTrip(c: string)
    requires forall k :: 0 <= k < |c| ==> c[k] != '\n'
    ensures AccessKeyCategory(Prefix + c + "." + Suffix) == Some(c)
  {
    var s := Prefix + c + "." + Suffix;
    var q := |Prefix| + |c|;
    assert s[..|Prefix|] == Prefix;
    assert s[q + 1..] == Suffix;
    assert forall k :: |Prefix| <= k < q ==> s[k] == c[k - |Prefix|];
    assert MatchAt(s, 0, q);
    var m := SearchFrom(s, 0);
    assert m.Some? && m.value == (0, q);
    assert s[|Prefix|..q] == c;
  }

  datatype LoadError =
    | NoCategory(id: int)                            // the accessKey search finds no match
    | UnknownLanguage(lang: string)                  // the selected language has no translation table
    | UnknownLabel(lang: string, category: string)  // the table has no label for the category
    | MissingName(id: int)                           // the ignore test reads a name the identity lacks

  /** The translation tables: `translation_data["by_name"]`, language name to category to label. */
  type Labels = map<string, map<string, string>>

  /** Lines 909-914: a public default container gets the translated label of its
      category as its name; any other identity passes unchanged. */
  function Resolve(x: Identity, labels: Labels, lang: string): (r: Result<Identity, LoadError>)
    ensures r.Success? ==> r.value == x.(name := r.value.name)
    ensures r.Success? && x.public && x.accessKey.Some? ==>
              exists c :: AccessKeyCategory(x.accessKey.value) == Some(c)
                          && lang in labels && c in labels[lang] && r.value.name == Some(labels[lang][c])
    ensures r.Failure? <==> x.public && x.accessKey.Some?
                            && (AccessKeyCategory(x.accessKey.value).None? || lang !in labels
                                || AccessKeyCategory(x.accessKey.value).value !in labels[lang])
  {
    if !x.public || x.accessKey.None? then Success(x)
    else match AccessKeyCategory(x.accessKey.value)
      case None => Failure(NoCategory(x.id))
      case Some(c) =>
        if lang !in labels then Failure(UnknownLanguage(lang))
        else if c !in labels[lang] then Failure(UnknownLabel(lang, c))
        else Success(x.(name := Some(labels[lang][c])))
  }

  /** Where an identity whose name has been resolved belongs: non-public ones are
      always ignored, public ones only when ignoring is on and the name matches
      the ignore pattern (`matches`, the compiled regex's fullmatch). */
  predicate IsIgnored(x: Identity, ignoreOn: bool, matches: string -> bool) {
    !x.public || (ignoreOn && x.name.Some? && matches(x.name.value))
  }

  /** Lines 906-924 for one resolved identity; reading the name of a nameless
      identity for the ignore test fails. */
  function IgnoreTest(x: Identity, ignoreOn: bool, matches: string -> bool): (r: Result<bool, LoadError>)
    ensures r.Failure? <==> x.public && ignoreOn && x.name.None?
    ensures r.Success? ==> r.value == IsIgnored(x, ignoreOn, matches)
  {
    if !x.public then Success(true)
    else if !ignoreOn then Success(false)
    else if x.name.None? then Failure(MissingName(x.id))
    else Success(matches(x.name.value))
  }

  /** Both steps for one identity. */
  function Classify(x: Identity, labels: Labels, lang: string, ignoreOn: bool, matches: string -> bool): Result<(Identity, bool), LoadError>
  {
    var y :- Resolve(x, labels, lang);
    var ign :- IgnoreTest(y, ignoreOn, matches);
    Success((y, ign))
  }

  datatype Split = Split(ready: seq<Identity>, ignored: seq<Identity>)

  /** The loop of get_containers; the first identity that fails fails the load. */
  function GetContainers(raw: seq<Identity>, labels: Labels, lang: string, ignoreOn: bool, matches: string -> bool): (r: Result<Split, LoadError>)
    ensures r.Success? <==> forall i :: 0 <= i < |raw| ==> Classify(raw[i], labels, lang, ignoreOn, matches).Success?
    ensures r.Success? ==> |r.value.ready| + |r.value.ignored| == |raw|
  {
    if |raw| == 0 then Success(Split([], []))
    else
      var (y, ign) :- Classify(raw[0], labels, lang, ignoreOn, matches);
      var rest :- GetContainers(raw[1..], labels, lang, ignoreOn, matches);
      assert forall i :: 1 <= i < |raw| ==> raw[i] == raw[1..][i - 1];
      Success(if ign then Split(rest.ready, [y] + rest.ignored) else Split([y] + rest.ready, rest.ignored))
  }

  /** The identities after name resolution, for a load that succeeds. */
  function Resolved(raw: seq<Identity>, labels: Labels, lang: string): (r: seq<Identity>)
    requires forall i :: 0 <= i < |raw| ==> Resolve(raw[i], labels, lang).Success?
    ensures |r| == |raw|
    ensures forall i :: 0 <= i < |raw| ==> r[i] == Resolve(raw[i], labels, lang).value
  {
    if |raw| == 0 then []
    else [Resolve(raw[0], labels, lang).value] + Resolved(raw[1..], labels, lang)
  }

  /** Every identity lands in exactly one list and both keep file order: the
      ready list is the resolved identities that are not ignored, the ignored list
      the rest. */
  lemma {:induction false} GetContainersPartition(raw: seq<Identity>, labels: Labels, lang: string, ignoreOn: bool, matches: string -> bool)
    requires GetContainers(raw, labels, lang, ignoreOn, matches).Success?
    ensures forall i :: 0 <= i < |raw| ==> Resolve(raw[i], labels, lang).Success?
    ensures var split := GetContainers(raw, labels, lang, ignoreOn, matches).value;
            var rs := Resolved(raw, labels, lang);
            var ign := (x: Identity) => IsIgnored(x, ignoreOn, matches);
            split.ready == Reorder.Keep(rs, ign, false) && split.ignored == Reorder.Keep(rs, ign, true)
    decreases |raw|
  {
    if |raw| > 0 {
      assert Classify(raw[0], labels, lang, ignoreOn, matches).Success?;
      GetContainersPartition(raw[1..], labels, lang, ignoreOn, matches);
      forall i | 0 <= i < |raw|
        ensures Resolve(raw[i], labels, lang).Success?
      {
        assert Classify(raw[i], labels, lang, ignoreOn, matches).Success?;
      }
      var rs := Resolved(raw, labels, lang);
      assert rs[1..] == Resolved(raw[1..], labels, lang);
    }
  }

  /** Non-public identities are always ignored; with ignoring off, every public one is ready. */
  lemma {:induction false} GetContainersPublic(raw: seq<Identity>, labels: Labels, lang: string, ignoreOn: bool, matches: string -> bool)
    requires GetContainers(raw, labels, lang, ignoreOn, matches).Success?
    ensures var split := GetContainers(raw, labels, lang, ignoreOn, matches).value;
            (forall x :: x in split.ready ==> x.public)
            && (!ignoreOn ==> forall x :: x in split.ignored ==> !x.public)
    decreases |raw|
  {
    if |raw| > 0 {
      GetContainersPublic(raw[1..], labels, lang, ignoreOn, matches);
    }
  }
}
