/** The editor's state and the handlers of the main window that change it
    (mac_easy_manager.py): the ready and ignored lists, the last id handed out,
    the colour and icon orders and the sorting choices. Every handler that the
    program follows with `self.sort()` re-sorts here too. */
module Editor {
  import opened Wrappers
  import opened Identities
  import Reorder
  import Loading
  import SortKeys
  import Edits

  datatype State = State(
    file: ContainersFile,       // the loaded file, written back with new identities
    ready: seq<Identity>,
    ignored: seq<Identity>,
    lastId: int,
    colors: seq<string>,        // current_order["color"]
    icons: seq<string>,         // current_order["icon"]
    prim: Option<nat>,          // Primary radio button, `None` when deselected
    sec: Option<nat>,           // Secondary radio button
    boxes: seq<bool>)           // the Reverse box of each key position
  {
    predicate Valid() {
      |boxes| == 3 && (prim.Some? ==> prim.value < 3) && (sec.Some? ==> sec.value < 3)
    }
  }

  /** get_containers on a loaded file, and the last id taken from it. */
  function Load(file: ContainersFile, labels: Loading.Labels, lang: string, ignoreOn: bool, matches: string -> bool,
                colors: seq<string>, icons: seq<string>, prim: Option<nat>, sec: Option<nat>, boxes: seq<bool>): (r: Result<State, Loading.LoadError>)
    ensures r.Success? ==> r.value.lastId == file.lastUserContextId && r.value.file == file
    ensures r.Success? ==> |r.value.ready| + |r.value.ignored| == |file.identities|
  {
    var split :- Loading.GetContainers(file.identities, labels, lang, ignoreOn, matches);
    Success(State(file, split.ready, split.ignored, file.lastUserContextId, colors, icons, prim, sec, boxes))
  }

  /** sort (lines 714-761): nothing happens without a Primary choice; an unset
      Secondary or a failing key leaves the list as it was. */
  function Sort(st: State, lower: string -> string): (r: State)
    requires st.Valid()
    ensures r == st.(ready := r.ready)
    ensures multiset(r.ready) == multiset(st.ready)
    ensures st.prim.None? ==> r == st
  {
    if st.prim.None? || st.sec.None? then st
    else
      var settings := SortKeys.Settings(st.prim.value, st.sec.value, st.boxes, st.colors, st.icons);
      match SortKeys.SortReady(st.ready, settings, lower)
      case Some(sorted) => st.(ready := sorted)
      case None => st
  }

  /** handle_sorting_options: a Primary button is pressed. */
  function ChoosePrimary(st: State, p: nat, lower: string -> string): (r: State)
    requires st.Valid() && p < 3
    ensures r.Valid() && r.prim == Some(p) && r.sec.Some? && r.sec.value != p
    ensures multiset(r.ready) == multiset(st.ready)
  {
    Sort(st.(prim := Some(p), sec := Some(SortKeys.HandleSortingOptions(p, st.sec))), lower)
  }

  /** With Primary and Secondary chosen, every container has a name and every
      colour and icon is in its order, the list comes out in the order of the
      three keys, each in the direction of its position's Reverse box. */
  lemma ChoosePrimaryOrders(st: State, p: nat, lower: string -> string)
    requires st.Valid() && p < 3
    requires forall i :: 0 <= i < |st.ready| ==>
               st.ready[i].name.Some? && st.ready[i].color in st.colors && st.ready[i].icon in st.icons
    ensures var r := ChoosePrimary(st, p, lower);
            SortKeys.OrderedByBoxes(r.ready, SortKeys.Settings(p, r.sec.value, st.boxes, st.colors, st.icons), lower)
  {
    var s := SortKeys.HandleSortingOptions(p, st.sec);
    var settings := SortKeys.Settings(p, s, st.boxes, st.colors, st.icons);
    KeysExist(st.ready, settings, lower);
    var sorted := SortKeys.SortReady(st.ready, settings, lower).value;
    var r := ChoosePrimary(st, p, lower);
    assert r == st.(prim := Some(p), sec := Some(s), ready := sorted);
    SortKeys.SortReadyOrdered(st.ready, settings, lower);
  }

  /** A container with a name, and a colour and icon in the orders, has a full sort key. */
  lemma KeysExist(ready: seq<Identity>, settings: SortKeys.Settings, lower: string -> string)
    requires settings.Valid()
    requires forall i :: 0 <= i < |ready| ==>
               ready[i].name.Some? && ready[i].color in settings.colors && ready[i].icon in settings.icons
    ensures SortKeys.SortReady(ready, settings, lower).Some?
  {
    forall i | 0 <= i < |ready|
      ensures SortKeys.RawKey(ready[i], settings, lower).Some?
    {
      var x := ready[i];
      assert SortKeys.OrderIndex(settings.colors, x.color).Some?;
      assert SortKeys.OrderIndex(settings.icons, x.icon).Some?;
    }
  }

  /** cont_move_up (enabled only when the first container is not selected):
      the move also clears both sorting choices. */
  function ContMoveUp(st: State, selection: set<int>): (r: State)
    requires |st.ready| == 0 || !Selected(st.ready[0], selection)
    ensures r == st.(ready := r.ready, prim := None, sec := None)
    ensures multiset(r.ready) == multiset(st.ready) && |r.ready| == |st.ready|
    ensures forall i :: 1 <= i < |st.ready| && Selected(st.ready[i], selection) ==> r.ready[i - 1] == st.ready[i]
  {
    Reorder.MoveUpPermutes(st.ready, Edits.Sel(selection));
    Reorder.MoveUpShiftsSelected(st.ready, Edits.Sel(selection));
    st.(ready := Reorder.MoveUp(st.ready, Edits.Sel(selection)), prim := None, sec := None)
  }

  /** cont_move_down (enabled only when the last container is not selected). */
  function ContMoveDown(st: State, selection: set<int>): (r: State)
    requires |st.ready| == 0 || !Selected(st.ready[|st.ready| - 1], selection)
    ensures r == st.(ready := r.ready, prim := None, sec := None)
    ensures multiset(r.ready) == multiset(st.ready) && |r.ready| == |st.ready|
    ensures forall i :: 0 <= i < |st.ready| - 1 && Selected(st.ready[i], selection) ==> r.ready[i + 1] == st.ready[i]
  {
    Reorder.MoveDownPermutes(st.ready, Edits.Sel(selection));
    Reorder.MoveDownShiftsSelected(st.ready, Edits.Sel(selection));
    st.(ready := Reorder.MoveDown(st.ready, Edits.Sel(selection)), prim := None, sec := None)
  }

  function InSet(selection: set<string>): string -> bool {
    x => x in selection
  }

  /** color_move_up: the selected colours move one place earlier, then the list re-sorts. */
  function ColorMoveUp(st: State, selection: set<string>, lower: string -> string): (r: State)
    requires st.Valid() && (|st.colors| == 0 || st.colors[0] !in selection)
    ensures r.colors == Reorder.MoveUp(st.colors, InSet(selection))
    ensures r == st.(colors := r.colors, ready := r.ready)
    ensures multiset(r.colors) == multiset(st.colors) && multiset(r.ready) == multiset(st.ready)
  {
    Reorder.MoveUpPermutes(st.colors, InSet(selection));
    Sort(st.(colors := Reorder.MoveUp(st.colors, InSet(selection))), lower)
  }

  /** color_move_down: the selected colours move one place later, then the list re-sorts. */
  function ColorMoveDown(st: State, selection: set<string>, lower: string -> string): (r: State)
    requires st.Valid() && (|st.colors| == 0 || st.colors[|st.colors| - 1] !in selection)
    ensures r.colors == Reorder.MoveDown(st.colors, InSet(selection))
    ensures r == st.(colors := r.colors, ready := r.ready)
    ensures multiset(r.colors) == multiset(st.colors) && multiset(r.ready) == multiset(st.ready)
  {
    Reorder.MoveDownPermutes(st.colors, InSet(selection));
    Sort(st.(colors := Reorder.MoveDown(st.colors, InSet(selection))), lower)
  }

  /** icon_move_up: the selected icons move one place earlier, then the list re-sorts. */
  function IconMoveUp(st: State, selection: set<string>, lower: string -> string): (r: State)
    requires st.Valid() && (|st.icons| == 0 || st.icons[0] !in selection)
    ensures r.icons == Reorder.MoveUp(st.icons, InSet(selection))
    ensures r == st.(icons := r.icons, ready := r.ready)
    ensures multiset(r.icons) == multiset(st.icons) && multiset(r.ready) == multiset(st.ready)
  {
    Reorder.MoveUpPermutes(st.icons, InSet(selection));
    Sort(st.(icons := Reorder.MoveUp(st.icons, InSet(selection))), lower)
  }

  /** icon_move_down: the selected icons move one place later, then the list re-sorts. */
  function IconMoveDown(st: State, selection: set<string>, lower: string -> string): (r: State)
    requires st.Valid() && (|st.icons| == 0 || st.icons[|st.icons| - 1] !in selection)
    ensures r.icons == Reorder.MoveDown(st.icons, InSet(selection))
    ensures r == st.(icons := r.icons, ready := r.ready)
    ensures multiset(r.icons) == multiset(st.icons) && multiset(r.ready) == multiset(st.ready)
  {
    Reorder.MoveDownPermutes(st.icons, InSet(selection));
    Sort(st.(icons := Reorder.MoveDown(st.icons, InSet(selection))), lower)
  }

  /** change_name followed by the re-sort; a failing rename stops before the sort. */
  function Rename(st: State, selection: set<int>, name: string, lower: string -> string): (r: Result<State, Edits.EditError>)
    requires st.Valid()
    ensures r.Failure? <==> Edits.ChangeName(st.ready, selection, name).Failure?
    ensures r.Success? ==> r.value == st.(ready := r.value.ready)
    ensures r.Success? ==> multiset(r.value.ready) == multiset(Edits.ChangeName(st.ready, selection, name).value)
  {
    var renamed :- Edits.ChangeName(st.ready, selection, name);
    Success(Sort(st.(ready := renamed), lower))
  }

  /** After a rename, every selected container carries the new name and is no
      longer a default container. */
  lemma RenameNamesSelected(st: State, selection: set<int>, name: string, lower: string -> string)
    requires st.Valid() && Rename(st, selection, name, lower).Success?
    ensures forall x :: x in Rename(st, selection, name, lower).value.ready && Selected(x, selection) ==>
              x.name == Some(name) && x.accessKey.None?
  {
    var renamed := Edits.ChangeName(st.ready, selection, name).value;
    var r := Rename(st, selection, name, lower).value;
    forall x | x in r.ready && Selected(x, selection)
      ensures x.name == Some(name) && x.accessKey.None?
    {
      assert x in multiset(r.ready);
      assert x in renamed;
      var i :| 0 <= i < |renamed| && renamed[i] == x;
      assert renamed[i].id == st.ready[i].id;
    }
  }

  /** change_color followed by the re-sort. */
  function Recolor(st: State, selection: set<int>, color: string, lower: string -> string): (r: State)
    requires st.Valid()
    ensures r == st.(ready := r.ready)
    ensures multiset(r.ready) == multiset(Edits.ChangeColor(st.ready, selection, color))
  {
    Sort(st.(ready := Edits.ChangeColor(st.ready, selection, color)), lower)
  }

  /** change_icon followed by the re-sort. */
  function Reicon(st: State, selection: set<int>, icon: string, lower: string -> string): (r: State)
    requires st.Valid()
    ensures r == st.(ready := r.ready)
    ensures multiset(r.ready) == multiset(Edits.ChangeIcon(st.ready, selection, icon))
  {
    Sort(st.(ready := Edits.ChangeIcon(st.ready, selection, icon)), lower)
  }

  /** delete_cont: no re-sort. The contract says which containers remain; that
      they keep their order is `Edits.DeleteCont`'s equality with `Reorder.Keep`. */
  function Delete(st: State, selection: set<int>): (r: State)
    ensures r == st.(ready := r.ready)
    ensures forall x :: x in r.ready ==> x in st.ready && !Selected(x, selection)
    ensures forall x :: x in st.ready && !Selected(x, selection) ==> x in r.ready
  {
    var kept := Reorder.Keep(st.ready, Edits.Sel(selection), false);
    KeepMembers(st.ready, selection);
    st.(ready := kept)
  }

  lemma {:induction false} KeepMembers(s: seq<Identity>, selection: set<int>)
    ensures var kept := Reorder.Keep(s, Edits.Sel(selection), false);
            (forall x :: x in kept ==> x in s && !Selected(x, selection))
            && (forall x :: x in s && !Selected(x, selection) ==> x in kept)
  {
    if |s| > 0 {
      KeepMembers(s[1..], selection);
      assert s == [s[0]] + s[1..];
    }
  }

  /** add_cont_save followed by the re-sort. */
  function Add(st: State, color: string, icon: string, name: string, lower: string -> string): (r: State)
    requires st.Valid()
    ensures r == st.(ready := r.ready, lastId := r.lastId)
    ensures r.lastId == st.lastId + 1
    ensures multiset(r.ready) == multiset(st.ready) + multiset{Identity(st.lastId + 1, true, Some(name), color, icon, None, None)}
  {
    var (id, added) := Edits.AddCont(st.ready, st.lastId, color, icon, name);
    assert added == st.ready + [Identity(id, true, Some(name), color, icon, None, None)];
    Sort(st.(ready := added, lastId := id), lower)
  }

  /** The file save writes. */
  function SaveFile(st: State): (r: ContainersFile)
    ensures r.version == st.file.version && r.lastUserContextId == st.lastId
    ensures |r.identities| == |st.ready| + |st.ignored|
    ensures forall i :: 0 <= i < |st.ready| ==> r.identities[i] == Edits.SaveForm(st.ready[i])
    ensures r.identities[|st.ready|..] == st.ignored
  {
    Edits.Save(st.file, st.ready, st.ignored, st.lastId)
  }

  /** The editor keeps `lastId` at least every ready container's id, which is what
      makes the id of an added container new. */
  predicate IdsBounded(st: State) {
    forall x :: x in st.ready ==> x.id <= st.lastId
  }

  /** The bound covers the ready list only: ignored identities (such as Firefox's
      internal ones with very large ids) may exceed `lastId`, so the added id is
      new among the ready containers. */
  lemma AddKeepsIdsBounded(st: State, color: string, icon: string, name: string, lower: string -> string)
    requires st.Valid() && IdsBounded(st)
    ensures var r := Add(st, color, icon, name, lower);
            IdsBounded(r) && forall x :: x in st.ready ==> x.id != r.lastId
  {
    var r := Add(st, color, icon, name, lower);
    forall x | x in r.ready
      ensures x.id <= r.lastId
    {
      assert x in multiset(r.ready);
    }
  }

  lemma SortKeepsIdsBounded(st: State, lower: string -> string)
    requires st.Valid() && IdsBounded(st)
    ensures IdsBounded(Sort(st, lower))
  {
    var r := Sort(st, lower);
    forall x | x in r.ready
      ensures x.id <= r.lastId
    {
      assert x in multiset(r.ready);
    }
  }

  /** A default container reloads under the same name when its name is the
      label of its accessKey's category in the current language. */
  predicate NameResolves(x: Identity, labels: Loading.Labels, lang: string) {
    x.accessKey.Some? ==>
      var c := Loading.AccessKeyCategory(x.accessKey.value);
      c.Some? && lang in labels && c.value in labels[lang] && x.name == Some(labels[lang][c.value])
  }

  /** A ready container that loads back as ready: public, named, not matched by
      the ignore pattern, and carrying the name loading gives it. */
  predicate ReloadsAsReady(x: Identity, labels: Loading.Labels, lang: string, ignoreOn: bool, matches: string -> bool) {
    x.public && x.name.Some? && !(ignoreOn && matches(x.name.value)) && NameResolves(x, labels, lang)
  }

  /** An ignored identity that loads back as ignored: non-public, or public with
      ignoring on, a name the pattern matches, and the name loading gives it. */
  predicate ReloadsAsIgnored(x: Identity, labels: Loading.Labels, lang: string, ignoreOn: bool, matches: string -> bool) {
    !x.public || (ignoreOn && x.name.Some? && matches(x.name.value) && NameResolves(x, labels, lang))
  }

  lemma SavedFormReloads(x: Identity, labels: Loading.Labels, lang: string, ignoreOn: bool, matches: string -> bool)
    requires ReloadsAsReady(x, labels, lang, ignoreOn, matches)
    ensures Loading.Classify(Edits.SaveForm(x), labels, lang, ignoreOn, matches) == Success((x, false))
  {
  }

  /** An ignored identity is written unchanged and classified as itself and ignored. */
  lemma IgnoredFormReloads(x: Identity, labels: Loading.Labels, lang: string, ignoreOn: bool, matches: string -> bool)
    requires ReloadsAsIgnored(x, labels, lang, ignoreOn, matches)
    ensures Loading.Classify(x, labels, lang, ignoreOn, matches) == Success((x, true))
  {
  }

  lemma {:induction false} IgnoredReload(ign: seq<Identity>, labels: Loading.Labels, lang: string, ignoreOn: bool, matches: string -> bool)
    requires forall i :: 0 <= i < |ign| ==> ReloadsAsIgnored(ign[i], labels, lang, ignoreOn, matches)
    ensures Loading.GetContainers(ign, labels, lang, ignoreOn, matches) == Success(Loading.Split([], ign))
    decreases |ign|
  {
    if |ign| > 0 {
      IgnoredReload(ign[1..], labels, lang, ignoreOn, matches);
      IgnoredFormReloads(ign[0], labels, lang, ignoreOn, matches);
      IgnoredCons(ign, ign[0], Loading.Split([], ign[1..]), labels, lang, ignoreOn, matches);
      assert ign == [ign[0]] + ign[1..];
    }
  }

  /** A first identity that loads as ignored goes in front of the rest's ignored list. */
  lemma IgnoredCons(raw: seq<Identity>, y: Identity, rest: Loading.Split, labels: Loading.Labels, lang: string,
                    ignoreOn: bool, matches: string -> bool)
    requires |raw| > 0 && Loading.Classify(raw[0], labels, lang, ignoreOn, matches) == Success((y, true))
    requires Loading.GetContainers(raw[1..], labels, lang, ignoreOn, matches) == Success(rest)
    ensures Loading.GetContainers(raw, labels, lang, ignoreOn, matches) == Success(Loading.Split(rest.ready, [y] + rest.ignored))
  {
  }

  /** Loading what save wrote gives the editor's lists back, when the ready
      containers reload as ready and the ignored ones as ignored, each under
      the name it carries. */
  lemma {:induction false} SaveLoadRoundTrip(ready: seq<Identity>, ignored: seq<Identity>, labels: Loading.Labels, lang: string,
                                             ignoreOn: bool, matches: string -> bool)
    requires forall i :: 0 <= i < |ready| ==> ReloadsAsReady(ready[i], labels, lang, ignoreOn, matches)
    requires forall i :: 0 <= i < |ignored| ==> ReloadsAsIgnored(ignored[i], labels, lang, ignoreOn, matches)
    ensures Loading.GetContainers(Edits.SaveForms(ready) + ignored, labels, lang, ignoreOn, matches)
            == Success(Loading.Split(ready, ignored))
    decreases |ready|
  {
    var out := Edits.SaveForms(ready) + ignored;
    if |ready| == 0 {
      assert out == ignored;
      IgnoredReload(ignored, labels, lang, ignoreOn, matches);
    } else {
      SaveLoadRoundTrip(ready[1..], ignored, labels, lang, ignoreOn, matches);
      var tail := Edits.SaveForms(ready[1..]) + ignored;
      assert out == [Edits.SaveForm(ready[0])] + tail;
      SavedReadyCons(ready[0], tail, Loading.Split(ready[1..], ignored), labels, lang, ignoreOn, matches);
      assert ready == [ready[0]] + ready[1..];
    }
  }

  /** Saving a ready container in front of a list that loads puts it in front of the ready list. */
  lemma SavedReadyCons(x: Identity, tail: seq<Identity>, rest: Loading.Split, labels: Loading.Labels, lang: string,
                       ignoreOn: bool, matches: string -> bool)
    requires ReloadsAsReady(x, labels, lang, ignoreOn, matches)
    requires Loading.GetContainers(tail, labels, lang, ignoreOn, matches) == Success(rest)
    ensures Loading.GetContainers([Edits.SaveForm(x)] + tail, labels, lang, ignoreOn, matches)
            == Success(Loading.Split([x] + rest.ready, rest.ignored))
  {
    SavedFormReloads(x, labels, lang, ignoreOn, matches);
    assert ([Edits.SaveForm(x)] + tail)[1..] == tail;
    ReadyCons([Edits.SaveForm(x)] + tail, x, rest, labels, lang, ignoreOn, matches);
  }

  /** A first identity that loads as ready goes in front of the rest's ready list. */
  lemma ReadyCons(raw: seq<Identity>, y: Identity, rest: Loading.Split, labels: Loading.Labels, lang: string,
                  ignoreOn: bool, matches: string -> bool)
    requires |raw| > 0 && Loading.Classify(raw[0], labels, lang, ignoreOn, matches) == Success((y, false))
    requires Loading.GetContainers(raw[1..], labels, lang, ignoreOn, matches) == Success(rest)
    ensures Loading.GetContainers(raw, labels, lang, ignoreOn, matches) == Success(Loading.Split([y] + rest.ready, rest.ignored))
  {
  }
}
