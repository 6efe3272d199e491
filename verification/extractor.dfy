/** The label extractor of translation_downloader.py (lines 143-156): `re.findall`
    of `userContext(Personal|Work|Banking|Shopping|None)\.label = (.*?)\n` over a
    language pack's browser.properties, as a left-to-right scanner that never
    lets two matches overlap. */
module Extractor {
  import opened Wrappers

  /** The five container categories of the pattern; `NoContainer` is written "None". */
  datatype Category = Personal | Work | Banking | Shopping | NoContainer
  {
    function Name(): (r: string)
      ensures |r| > 0
    {
      match this
      case Personal => "Personal"
      case Work => "Work"
      case Banking => "Banking"
      case Shopping => "Shopping"
      case NoContainer => "None"
    }
  }

  datatype Entry = Entry(category: Category, text: string)

  predicate NoNewline(s: string) {
    forall k :: 0 <= k < |s| ==> s[k] != '\n'
  }

  /** Everything of a match before the label. */
  function Header(c: Category): (r: string)
    ensures NoNewline(r)
  {
    "userContext" + c.Name() + ".label = "
  }

  /** The first category names differ in their first letter, so no two headers
      start the same text. */
  lemma HeadersDiffer(c: Category, d: Category, t: string)
    requires |Header(c)| <= |t| && t[..|Header(c)|] == Header(c)
    requires |Header(d)| <= |t| && t[..|Header(d)|] == Header(d)
    ensures c == d
  {
    assert t[11] == Header(c)[11] == c.Name()[0];
    assert t[11] == Header(d)[11] == d.Name()[0];
  }

  /** The position of the first newline in `t` at or after `from`. */
  function NextNewline(t: string, from: nat): (r: Option<nat>)
    ensures r.Some? ==> from <= r.value < |t| && t[r.value] == '\n'
    ensures r.Some? ==> forall k :: from <= k < r.value ==> t[k] != '\n'
    ensures r.None? ==> forall k :: from <= k < |t| ==> t[k] != '\n'
    decreases |t| - from
  {
    if from >= |t| then None
    else if t[from] == '\n' then Some(from)
    else NextNewline(t, from + 1)
  }

  /** The category whose header starts `t`, if any. */
  function HeaderAt(t: string): (r: Option<Category>)
    ensures r.Some? ==> |Header(r.value)| <= |t| && t[..|Header(r.value)|] == Header(r.value)
    ensures r.None? ==> forall c: Category :: !(|Header(c)| <= |t| && t[..|Header(c)|] == Header(c))
  {
    if StartsWith(t, Header(Personal)) then Some(Personal)
    else if StartsWith(t, Header(Work)) then Some(Work)
    else if StartsWith(t, Header(Banking)) then Some(Banking)
    else if StartsWith(t, Header(Shopping)) then Some(Shopping)
    else if StartsWith(t, Header(NoContainer)) then Some(NoContainer)
    else None
  }

  predicate StartsWith(t: string, h: string) {
    |h| <= |t| && t[..|h|] == h
  }

  /** A match starting at the head of `t`: its category, its label (the shortest
      text before a newline) and the length it consumes, newline included. */
  function MatchHead(t: string): (r: Option<(Entry, nat)>)
    ensures r.Some? ==>
              var h := Header(r.value.0.category);
              var n := r.value.1;
              StartsWith(t, h) && |h| + |r.value.0.text| + 1 == n <= |t|
              && t[|h|..n - 1] == r.value.0.text && t[n - 1] == '\n'
              && NoNewline(r.value.0.text)
  {
    match HeaderAt(t)
    case None => None
    case Some(c) =>
      match NextNewline(t, |Header(c)|)
      case None => None
      case Some(e) => Some((Entry(c, t[|Header(c)|..e]), e + 1))
  }

  /** findall: take a match at the head and continue after it, or move on one character. */
  function Extract(t: string): (r: seq<Entry>)
    ensures forall i :: 0 <= i < |r| ==> NoNewline(r[i].text)
    decreases |t|
  {
    if |t| == 0 then []
    else match MatchHead(t)
      case Some((e, n)) => [e] + Extract(t[n..])
      case None => Extract(t[1..])
  }

  /** The text a list of entries is written as, one `key = value` line each. */
  function Render(es: seq<Entry>): string {
    if |es| == 0 then "" else Header(es[0].category) + es[0].text + "\n" + Render(es[1..])
  }

  lemma MatchHeadOfLine(e: Entry, rest: string)
    requires NoNewline(e.text)
    ensures MatchHead(Header(e.category) + e.text + "\n" + rest)
            == Some((e, |Header(e.category)| + |e.text| + 1))
  {
    var h := Header(e.category);
    var t := h + e.text + "\n" + rest;
    var end := |h| + |e.text|;
    assert t[..|h|] == h;
    HeaderAtIs(t, e.category);
    assert t[|h|..end] == e.text;
    assert NextNewline(t, |h|) == Some(end) by {
      assert forall k :: |h| <= k < end ==> t[k] == e.text[k - |h|];
      NextNewlineAt(t, |h|, end);
    }
    MatchHeadWhen(t, e.category, end);
  }

  lemma MatchHeadWhen(t: string, c: Category, end: nat)
    requires HeaderAt(t) == Some(c) && NextNewline(t, |Header(c)|) == Some(end)
    ensures MatchHead(t) == Some((Entry(c, t[|Header(c)|..end]), end + 1))
  {
  }

  /** The header a text starts with is the one the scan finds. */
  lemma HeaderAtIs(t: string, c: Category)
    requires StartsWith(t, Header(c))
    ensures HeaderAt(t) == Some(c)
  {
    var r := HeaderAt(t);
    assert r.Some?;
    HeadersDiffer(r.value, c, t);
  }

  /** The first newline from `from` on is the one with none before it. */
  lemma {:induction false} NextNewlineAt(t: string, from: nat, e: nat)
    requires from <= e < |t| && t[e] == '\n'
    requires forall k :: from <= k < e ==> t[k] != '\n'
    ensures NextNewline(t, from) == Some(e)
    decreases e - from
  {
    if from < e {
      NextNewlineAt(t, from + 1, e);
    }
  }

  /** Extraction reads back every rendered entry, in order. */
  lemma {:induction false} ExtractRender(es: seq<Entry>)
    requires forall i :: 0 <= i < |es| ==> NoNewline(es[i].text)
    ensures Extract(Render(es)) == es
    decreases |es|
  {
    if |es| > 0 {
      var e := es[0];
      var rest := Render(es[1..]);
      var t := Render(es);
      assert t == Header(e.category) + e.text + "\n" + rest;
      MatchHeadOfLine(e, rest);
      var n := |Header(e.category)| + |e.text| + 1;
      assert t[n..] == rest;
      ExtractRender(es[1..]);
    }
  }

  /** A match needs a newline, so text without one yields nothing: an entry on a
      last line without its newline is never extracted. */
  lemma {:induction false} ExtractNoNewline(t: string)
    requires NoNewline(t)
    ensures Extract(t) == []
    decreases |t|
  {
    if |t| > 0 {
      assert MatchHead(t).None?;
      ExtractNoNewline(t[1..]);
    }
  }

  /** A header has no newline, so it starts text ending in a newline exactly when
      it starts that text with anything appended. */
  lemma StartsWithAppend(t1: string, t2: string, h: string)
    requires |t1| > 0 && t1[|t1| - 1] == '\n' && NoNewline(h)
    ensures StartsWith(t1 + t2, h) <==> StartsWith(t1, h)
  {
    var t := t1 + t2;
    if StartsWith(t, h) {
      assert t[|t1| - 1] == '\n';
      assert forall k :: 0 <= k < |h| ==> t[k] == h[k];
      assert t1[..|h|] == t[..|h|];
    }
    if StartsWith(t1, h) {
      assert t1[..|h|] == t[..|h|];
    }
  }

  lemma HeaderAtAppend(t1: string, t2: string)
    requires |t1| > 0 && t1[|t1| - 1] == '\n'
    ensures HeaderAt(t1 + t2) == HeaderAt(t1)
  {
    StartsWithAppend(t1, t2, Header(Personal));
    StartsWithAppend(t1, t2, Header(Work));
    StartsWithAppend(t1, t2, Header(Banking));
    StartsWithAppend(t1, t2, Header(Shopping));
    StartsWithAppend(t1, t2, Header(NoContainer));
  }

  lemma {:induction false} NextNewlineAppend(t1: string, t2: string, from: nat)
    requires from < |t1| && t1[|t1| - 1] == '\n'
    ensures NextNewline(t1 + t2, from) == NextNewline(t1, from)
    decreases |t1| - from
  {
    var t := t1 + t2;
    assert t[from] == t1[from];
    if t1[from] != '\n' {
      NextNewlineAppend(t1, t2, from + 1);
    }
  }

  /** A match starting in text that ends with a newline ends inside it. */
  lemma MatchHeadAppend(t1: string, t2: string)
    requires |t1| > 0 && t1[|t1| - 1] == '\n'
    ensures MatchHead(t1 + t2) == MatchHead(t1)
  {
    var t := t1 + t2;
    HeaderAtAppend(t1, t2);
    var hc := HeaderAt(t1);
    if hc.Some? {
      var h := Header(hc.value);
      HeaderEndsBeforeNewline(t1, h);
      NextNewlineAppend(t1, t2, |h|);
      var e := NextNewline(t1, |h|).value;
      MatchHeadWhen(t1, hc.value, e);
      MatchHeadWhen(t, hc.value, e);
      assert t[|h|..e] == t1[|h|..e];
    } else {
      MatchHeadNoHeader(t1);
      MatchHeadNoHeader(t);
    }
  }

  lemma MatchHeadNoHeader(t: string)
    requires HeaderAt(t).None?
    ensures MatchHead(t).None?
  {
  }

  /** A header without newlines that starts a line ends before the line's newline. */
  lemma HeaderEndsBeforeNewline(t: string, h: string)
    requires |t| > 0 && t[|t| - 1] == '\n'
    requires StartsWith(t, h) && NoNewline(h)
    ensures |h| < |t| && NextNewline(t, |h|).Some?
  {
    assert forall k :: 0 <= k < |h| ==> t[k] == h[k];
  }

  /** Lines are extracted independently: text up to a newline contributes its own
      matches and the rest of the text its own. */
  lemma {:induction false} ExtractAppend(t1: string, t2: string)
    requires |t1| == 0 || t1[|t1| - 1] == '\n'
    ensures Extract(t1 + t2) == Extract(t1) + Extract(t2)
    decreases |t1|
  {
    if |t1| > 0 {
      MatchHeadAppend(t1, t2);
      var m := MatchHead(t1);
      var n := if m.Some? then m.value.1 else 1;
      var head := if m.Some? then [m.value.0] else [];
      ExtractStep(t1);
      ExtractStep(t1 + t2);
      DropAppend(t1, t2, n);
      var rest := t1[n..];
      DropKeepsNewlineEnd(t1, n);
      ExtractAppend(rest, t2);
      var a, b := Extract(rest), Extract(t2);
      assert Extract(t1 + t2) == head + (a + b);
      assert Extract(t1) == head + a;
      assert head + (a + b) == (head + a) + b;
    } else {
      assert t1 + t2 == t2;
    }
  }

  lemma DropKeepsNewlineEnd(t: string, n: nat)
    requires n <= |t| && |t| > 0 && t[|t| - 1] == '\n'
    ensures |t[n..]| == 0 || t[n..][|t[n..]| - 1] == '\n'
  {
  }

  /** One step of the scan: the entry matched at the head, if any, and where scanning resumes. */
  lemma ExtractStep(t: string)
    requires |t| > 0
    ensures var m := MatchHead(t);
            var n := if m.Some? then m.value.1 else 1;
            1 <= n <= |t| && Extract(t) == (if m.Some? then [m.value.0] else []) + Extract(t[n..])
  {
  }

  lemma DropAppend(t1: string, t2: string, n: nat)
    requires n <= |t1|
    ensures (t1 + t2)[n..] == t1[n..] + t2
  {
  }

  /** A single line gives at most one entry. */
  lemma {:induction false} ExtractOneLine(line: string)
    requires NoNewline(line)
    ensures |Extract(line + "\n")| <= 1
    decreases |line|
  {
    var t := line + "\n";
    match MatchHead(t) {
      case Some((e, n)) =>
        assert t[n..] == [];
      case None =>
        if |line| > 0 {
          assert t[1..] == line[1..] + "\n";
          ExtractOneLine(line[1..]);
        } else {
          assert t[1..] == [];
        }
    }
  }

  /** Extraction finds nothing exactly when no position starts a match. */
  lemma {:induction false} ExtractEmpty(t: string)
    ensures Extract(t) == [] <==> forall i :: 0 <= i < |t| ==> MatchHead(t[i..]).None?
    decreases |t|
  {
    if |t| > 0 {
      ExtractEmpty(t[1..]);
      assert t[0..] == t;
      forall i | 1 <= i < |t|
        ensures t[i..] == t[1..][i - 1..]
      {
      }
    }
  }
}
