/** The per-item stages of translation_downloader.py, composed one item after
    another instead of through the program's queues and worker tasks: a row of
    the language-tools table becomes a language pack link, the pack's install
    page gives a download link, the download is a zip archive, and the archive's
    browser.properties gives the container labels. Fetching and HTML parsing
    are parameters of the model. */
module Stages {
  import opened Wrappers
  import opened Extractor
  import Reorder

  /** What the CSS selectors of lines 89-90 find in one table row: the `href` of
      the first language-pack link, and the text of the language name. */
  datatype Row = Row(link: Option<string>, name: Option<string>)

  /** A downloaded language pack: the names under `browser/chrome/` in listing
      order, and the decoded text of each member. */
  datatype Archive = Archive(chromeChildren: seq<string>, members: map<string, string>)

  /** One result of the pipeline: language name, locale code and the extracted labels. */
  datatype Record = Record(name: string, code: string, entries: seq<Entry>)

  datatype StageError =
    | NoLanguageName                          // a row with a link but no name: `[0]` on an empty selection
    | NoInstallLink(name: string)             // the install page has no download button
    | DownloadFailed(name: string)            // an HTTP error (the session raises for status)
    | NoLocale(name: string)                  // nothing under browser/chrome/: `[0]` on an empty listing
    | NoMember(name: string, path: string)    // the archive lacks the browser.properties member

  const AmoBase: string := "https://addons.mozilla.org/"

  /** get_lang_pack_links for one row: a row without a language-pack link yields
      nothing; otherwise the language name and the absolute add-on page URL. */
  function RowToPack(row: Row): (r: Result<Option<(string, string)>, StageError>)
    ensures r.Success? && r.value.None? <==> row.link.None?
    ensures r.Failure? <==> row.link.Some? && row.name.None?
    ensures r.Success? && r.value.Some? ==>
              row.name == Some(r.value.value.0) && |AmoBase| <= |r.value.value.1|
              && r.value.value.1[..|AmoBase|] == AmoBase && r.value.value.1[|AmoBase|..] == row.link.value
  {
    if row.link.None? then Success(None)
    else if row.name.None? then Failure(NoLanguageName)
    else
      var url := AmoBase + row.link.value;
      assert url[..|AmoBase|] == AmoBase && url[|AmoBase|..] == row.link.value;
      Success(Some((row.name.value, url)))
  }

  const PathPrefix: string := "browser/chrome/"
  const PathSuffix: string := "/locale/browser/browser.properties"

  /** Line 140: the archive member that holds the container labels. */
  function MemberPath(code: string): string {
    PathPrefix + code + PathSuffix
  }

  /** The locale code a member path names, if it has the template's shape. */
  function CodeOfPath(p: string): (r: Option<string>)
    ensures r.Some? ==> |PathPrefix| + |PathSuffix| <= |p| && r.value == p[|PathPrefix|..|p| - |PathSuffix|]
  {
    if |p| >= |PathPrefix| + |PathSuffix| && p[..|PathPrefix|] == PathPrefix && p[|p| - |PathSuffix|..] == PathSuffix
    then Some(p[|PathPrefix|..|p| - |PathSuffix|])
    else None
  }

  /** Stripping the template's prefix and suffix recovers the code. */
  lemma CodeOfMemberPath(code: string)
    ensures CodeOfPath(MemberPath(code)) == Some(code)
  {
    var p := MemberPath(code);
    assert p[..|PathPrefix|] == PathPrefix;
    assert p[|p| - |PathSuffix|..] == PathSuffix;
    assert p[|PathPrefix|..|p| - |PathSuffix|] == code;
  }

  /** A path with the template's shape is the member path of the code it names. */
  lemma MemberPathOfCode(p: string)
    requires CodeOfPath(p).Some?
    ensures MemberPath(CodeOfPath(p).value) == p
  {
    var c := CodeOfPath(p).value;
    assert p == p[..|PathPrefix|] + c + p[|p| - |PathSuffix|..];
  }

  /** Line 138: the locale code is the first child of `browser/chrome/`. */
  function LocaleCode(a: Archive): (r: Option<string>)
    ensures r.None? <==> |a.chromeChildren| == 0
    ensures r.Some? ==> r.value == a.chromeChildren[0] && r.value in a.chromeChildren
  {
    if |a.chromeChildren| == 0 then None else Some(a.chromeChildren[0])
  }

  /** get_translation for one archive (lines 135-160). */
  function GetTranslation(name: string, a: Archive): (r: Result<Record, StageError>)
    ensures r.Failure? <==> |a.chromeChildren| == 0 || MemberPath(a.chromeChildren[0]) !in a.members
    ensures r.Success? ==> r.value.name == name && r.value.code == a.chromeChildren[0]
                           && r.value.entries == Extract(a.members[MemberPath(r.value.code)])
  {
    var code :- (match LocaleCode(a) case Some(c) => Success(c) case None => Failure(NoLocale(name)));
    var path := MemberPath(code);
    if path !in a.members then Failure(NoMember(name, path))
    else Success(Record(name, code, Extract(a.members[path])))
  }

  predicate HasLink(row: Row) {
    row.link.Some?
  }

  /** The rows that carry a language-pack link, in row order. */
  function Linked(rows: seq<Row>): seq<Row> {
    Reorder.Keep(rows, HasLink, true)
  }

  /** All rows through get_lang_pack_links: the i-th pack is the language name
      and the absolute add-on page URL of the i-th linked row. */
  function PackLinks(rows: seq<Row>): (r: Result<seq<(string, string)>, StageError>)
    ensures r.Failure? <==> exists i :: 0 <= i < |rows| && rows[i].link.Some? && rows[i].name.None?
    ensures r.Success? ==> |r.value| == |Linked(rows)| <= |rows|
    ensures r.Success? ==> forall i :: 0 <= i < |r.value| ==>
              var row := Linked(rows)[i];
              row.link.Some? && row.name.Some? && r.value[i] == (row.name.value, AmoBase + row.link.value)
  {
    if |rows| == 0 then Success([])
    else
      var first :- RowToPack(rows[0]);
      var rest :- PackLinks(rows[1..]);
      assert forall i :: 1 <= i < |rows| ==> rows[i] == rows[1..][i - 1];
      LinkedCons(rows);
      Success(if first.Some? then [first.value] + rest else rest)
  }

  /** The linked rows of a list are those of its first row followed by those of the rest. */
  lemma LinkedCons(rows: seq<Row>)
    requires |rows| > 0
    ensures Linked(rows) == (if rows[0].link.Some? then [rows[0]] else []) + Linked(rows[1..])
    ensures |Linked(rows)| <= |rows|
  {
    Reorder.KeepCons(rows[0], rows[1..], HasLink, true);
    assert [rows[0]] + rows[1..] == rows;
    if |rows| > 1 {
      LinkedCons(rows[1..]);
    }
  }

  /** A pack through the install-page, download and extraction stages. The page
      and the download are parameters: `installLink` is what the install page's
      download button links to, `download` the archive at a URL. */
  function ProcessPack(pack: (string, string), installLink: string -> Option<string>, download: string -> Option<Archive>): (r: Result<Record, StageError>)
    ensures r.Failure? <==> installLink(pack.1).None? || download(installLink(pack.1).value).None?
                            || GetTranslation(pack.0, download(installLink(pack.1).value).value).Failure?
    ensures r.Success? ==> r.value.name == pack.0
    ensures r.Success? ==> var a := download(installLink(pack.1).value).value;
                           r.value.code == a.chromeChildren[0]
                           && r.value.entries == Extract(a.members[MemberPath(r.value.code)])
  {
    var (name, url) := pack;
    var link :- (match installLink(url) case Some(l) => Success(l) case None => Failure(NoInstallLink(name)));
    var archive :- (match download(link) case Some(a) => Success(a) case None => Failure(DownloadFailed(name)));
    GetTranslation(name, archive)
  }

  function ProcessAll(packs: seq<(string, string)>, installLink: string -> Option<string>, download: string -> Option<Archive>): (r: Result<seq<Record>, StageError>)
    ensures r.Success? ==> |r.value| == |packs| && forall i :: 0 <= i < |packs| ==> r.value[i].name == packs[i].0
    ensures r.Failure? <==> exists i :: 0 <= i < |packs| && ProcessPack(packs[i], installLink, download).Failure?
    ensures r.Success? ==> forall i :: 0 <= i < |packs| ==> r.value[i] == ProcessPack(packs[i], installLink, download).value
  {
    if |packs| == 0 then Success([])
    else
      var first :- ProcessPack(packs[0], installLink, download);
      var rest :- ProcessAll(packs[1..], installLink, download);
      assert forall i :: 1 <= i < |packs| ==> packs[i] == packs[1..][i - 1];
      Success([first] + rest)
  }

  /** The pipeline run item by item: one record per row with a link, in row
      order. It fails when some linked row has no name or some pack fails. */
  function Run(rows: seq<Row>, installLink: string -> Option<string>, download: string -> Option<Archive>): (r: Result<seq<Record>, StageError>)
    ensures r.Failure? <==> PackLinks(rows).Failure?
                            || exists i :: 0 <= i < |PackLinks(rows).value| && ProcessPack(PackLinks(rows).value[i], installLink, download).Failure?
    ensures r.Success? ==> |r.value| == |Linked(rows)| <= |rows|
    ensures r.Success? ==> forall i :: 0 <= i < |r.value| ==>
              var row := Linked(rows)[i];
              row.link.Some? && row.name.Some? && r.value[i] == ProcessPack((row.name.value, AmoBase + row.link.value), installLink, download).value
  {
    var packs :- PackLinks(rows);
    ProcessAll(packs, installLink, download)
  }
}
