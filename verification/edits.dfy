/** The edit buttons of the main window (mac_easy_manager.py:1465-1507) and the
    Add popup (1636-1659): each works on the ready list and the set of selected
    container ids. Re-sorting afterwards belongs to the editor state. */
module Edits {
  import opened Wrappers
  import opened Identities
  import Reorder

  /** The predicate the move and delete operations use for "selected". */
  function Sel(selection: set<int>): Identity -> bool {
    x => Selected(x, selection)
  }

  datatype EditError = MissingL10n(id: int)  // `del container["l10nID"]` on a default container without one

  /** change_name on one container: a default container stops being one. */
  function RenameOne(x: Identity, selection: set<int>, name: string): Result<Identity, EditError>
  {
    if !Selected(x, selection) then Success(x)
    else if x.accessKey.Some? then
      if x.l10nID.None? then Failure(MissingL10n(x.id))
      else Success(x.(name := Some(name), accessKey := None, l10nID := None))
    else Success(x.(name := Some(name)))
  }

  /** change_name: every selected container gets the entered name and loses its
      accessKey and l10nID; the others are untouched. */
  function ChangeName(s: seq<Identity>, selection: set<int>, name: string): (r: Result<seq<Identity>, EditError>)
    ensures r.Failure? <==> exists i :: 0 <= i < |s| && Selected(s[i], selection) && s[i].accessKey.Some? && s[i].l10nID.None?
    ensures r.Success? ==> |r.value| == |s|
    ensures r.Success? ==> forall i :: 0 <= i < |s| && !Selected(s[i], selection) ==> r.value[i] == s[i]
    ensures r.Success? ==> forall i :: 0 <= i < |s| && Selected(s[i], selection) ==>
              var y := r.value[i];
              y.name == Some(name) && y.accessKey.None?
              && (s[i].accessKey.Some? ==> y.l10nID.None?)
              && (s[i].accessKey.None? ==> y.l10nID == s[i].l10nID)
              && y == s[i].(name := y.name, accessKey := y.accessKey, l10nID := y.l10nID)
  {
    if |s| == 0 then Success([])
    else
      var x :- RenameOne(s[0], selection, name);
      var rest :- ChangeName(s[1..], selection, name);
      assert forall i :: 1 <= i < |s| ==> s[i] == s[1..][i - 1];
      Success([x] + rest)
  }

  /** Changes the selected containers with `f` and leaves the others alone. */
  function UpdateSelected(s: seq<Identity>, selection: set<int>, f: Identity -> Identity): (r: seq<Identity>)
    ensures |r| == |s|
    ensures forall i :: 0 <= i < |s| ==> r[i] == if Selected(s[i], selection) then f(s[i]) else s[i]
  {
    if |s| == 0 then [] else [if Selected(s[0], selection) then f(s[0]) else s[0]] + UpdateSelected(s[1..], selection, f)
  }

  /** change_color: the selected containers take the colour, nothing else changes. */
  function ChangeColor(s: seq<Identity>, selection: set<int>, color: string): (r: seq<Identity>)
    ensures |r| == |s| && Ids(r) == Ids(s)
    ensures forall i :: 0 <= i < |s| ==>
              r[i] == s[i].(color := r[i].color)
              && r[i].color == if Selected(s[i], selection) then color else s[i].color
  {
    UpdateSelected(s, selection, (x: Identity) => x.(color := color))
  }

  /** change_icon: the selected containers take the icon, nothing else changes. */
  function ChangeIcon(s: seq<Identity>, selection: set<int>, icon: string): (r: seq<Identity>)
    ensures |r| == |s| && Ids(r) == Ids(s)
    ensures forall i :: 0 <= i < |s| ==>
              r[i] == s[i].(icon := r[i].icon)
              && r[i].icon == if Selected(s[i], selection) then icon else s[i].icon
  {
    UpdateSelected(s, selection, (x: Identity) => x.(icon := icon))
  }

  /** Pressing the same colour twice changes nothing the second time. */
  lemma ChangeColorIdempotent(s: seq<Identity>, selection: set<int>, color: string)
    ensures ChangeColor(ChangeColor(s, selection, color), selection, color) == ChangeColor(s, selection, color)
  {
    var r := ChangeColor(s, selection, color);
    var rr := ChangeColor(r, selection, color);
    forall i | 0 <= i < |s|
      ensures rr[i] == r[i]
    {
      assert r[i].id == s[i].id;
    }
  }

  /** Python's `list.remove`: drops the first element equal to `x`. */
  function RemoveFirst(s: seq<Identity>, x: Identity): (r: seq<Identity>)
    requires x in s
    ensures |r| == |s| - 1 && multiset(r) == multiset(s) - multiset{x}
    ensures exists i :: 0 <= i < |s| && s[i] == x && (forall j :: 0 <= j < i ==> s[j] != x) && r == s[..i] + s[i + 1..]
  {
    var i := Reorder.IndexOf(s, x);
    assert s == s[..i] + [x] + s[i + 1..];
    s[..i] + s[i + 1..]
  }

  /** delete_cont: walk a copy of the list and remove each selected container
      from the live list. Exactly the unselected containers remain, in order. */
  method DeleteCont(s: seq<Identity>, selection: set<int>) returns (r: seq<Identity>)
    ensures r == Reorder.Keep(s, Sel(selection), false)
  {
    var sel := Sel(selection);
    var temp := s;
    r := s;
    var k := 0;
    while k < |temp|
      invariant 0 <= k <= |s|
      invariant r == Reorder.Keep(s[..k], sel, false) + s[k..]
    {
      var x := temp[k];
      DeleteStep(s, k, selection, r);
      if Selected(x, selection) {
        r := RemoveFirst(r, x);
      }
      k := k + 1;
    }
    assert s[..k] == s;
  }

  /** One iteration of delete_cont's loop: removing the first copy of a selected
      container from the live list takes out exactly the container at the walk's position. */
  lemma DeleteStep(s: seq<Identity>, k: nat, selection: set<int>, r: seq<Identity>)
    requires k < |s|
    requires r == Reorder.Keep(s[..k], Sel(selection), false) + s[k..]
    ensures Selected(s[k], selection) ==>
              s[k] in r && RemoveFirst(r, s[k]) == Reorder.Keep(s[..k + 1], Sel(selection), false) + s[k + 1..]
    ensures !Selected(s[k], selection) ==> r == Reorder.Keep(s[..k + 1], Sel(selection), false) + s[k + 1..]
  {
    var sel, x := Sel(selection), s[k];
    var kept := Reorder.Keep(s[..k], sel, false);
    assert s[..k + 1] == s[..k] + [x];
    assert s[k..] == [x] + s[k + 1..];
    Reorder.KeepAppend(s[..k], [x], sel, false);
    Reorder.KeepCons(x, [], sel, false);
    assert Reorder.Keep(s[..k + 1], sel, false) == kept + Reorder.KeepOne(x, sel, false);
    assert r == kept + [x] + s[k + 1..];
    if Selected(x, selection) {
      Reorder.KeepSelectedness(s[..k], sel, false);
      assert forall i :: 0 <= i < |kept| ==> !Selected(kept[i], selection);
      RemoveAfterUnselected(kept, x, s[k + 1..], selection);
      assert Reorder.KeepOne(x, sel, false) == [];
      assert Reorder.Keep(s[..k + 1], sel, false) == kept;
    } else {
      assert Reorder.KeepOne(x, sel, false) == [x];
    }
  }

  /** Removing a selected container that follows only unselected ones takes out that copy. */
  lemma RemoveAfterUnselected(kept: seq<Identity>, x: Identity, rest: seq<Identity>, selection: set<int>)
    requires forall i :: 0 <= i < |kept| ==> !Selected(kept[i], selection)
    requires Selected(x, selection)
    ensures x in kept + [x] + rest && RemoveFirst(kept + [x] + rest, x) == kept + rest
  {
    var r := kept + [x] + rest;
    assert r[|kept|] == x;
    assert r[..|kept|] == kept;
    assert r[|kept| + 1..] == rest;
  }

  /** add_check: the Add button is enabled exactly when a colour and an icon
      have been picked and the name entry is not empty. */
  function AddEnabled(color: Option<string>, icon: Option<string>, name: string): (r: bool)
    ensures r ==> name != [] && color.Some? && icon.Some?
    ensures color.Some? && color.value != [] && icon.Some? && icon.value != [] && name != [] ==> r
    ensures color == Some([]) || icon == Some([]) ==> !r
  {
    Truthy(color) && Truthy(icon) && name != []
  }

  /** Python truthiness of an optional string. */
  predicate Truthy(o: Option<string>) {
    o.Some? && o.value != []
  }

  /** add_cont_save, before the re-sort: the next id and the list with the new
      public container appended. */
  function AddCont(s: seq<Identity>, lastId: int, color: string, icon: string, name: string): (r: (int, seq<Identity>))
    ensures r.0 == lastId + 1
    ensures |r.1| == |s| + 1 && r.1[..|s|] == s
    ensures var y := r.1[|s|]; y.id == r.0 && y.public && y.name == Some(name) && y.color == color && y.icon == icon
    ensures r.1[|s|].accessKey.None? && r.1[|s|].l10nID.None?
  {
    var id := lastId + 1;
    (id, s + [Identity(id, true, Some(name), color, icon, None, None)])
  }

  /** While `lastUserContextId` bounds every id, the added container's id is new
      and the bound still holds afterwards. */
  lemma AddContFreshId(s: seq<Identity>, lastId: int, color: string, icon: string, name: string)
    requires forall i :: 0 <= i < |s| ==> s[i].id <= lastId
    ensures var (id, t) := AddCont(s, lastId, color, icon, name);
            (forall i :: 0 <= i < |s| ==> s[i].id != id)
            && (forall i :: 0 <= i < |t| ==> t[i].id <= id)
  {
    var (id, t) := AddCont(s, lastId, color, icon, name);
    forall i | 0 <= i < |t|
      ensures t[i].id <= id
    {
      if i < |s| {
        assert t[i] == t[..|s|][i];
      }
    }
  }

  /** The form a ready container is written in: a default container's name comes
      from the translation table, so it is not stored. */
  function SaveForm(x: Identity): (r: Identity)
    ensures r.name.None? <==> x.name.None? || x.accessKey.Some?
    ensures r == x.(name := r.name)
  {
    if x.accessKey.Some? then x.(name := None) else x
  }

  function SaveForms(s: seq<Identity>): (r: seq<Identity>)
    ensures |r| == |s| && forall i :: 0 <= i < |s| ==> r[i] == SaveForm(s[i])
  {
    if |s| == 0 then [] else [SaveForm(s[0])] + SaveForms(s[1..])
  }

  /** save (lines 1671-1687): the identities are the ready containers in save
      form followed by the ignored ones; `lastUserContextId` is the editor's last
      id and the rest of the file is copied. */
  function Save(file: ContainersFile, ready: seq<Identity>, ignored: seq<Identity>, lastId: int): (r: ContainersFile)
    ensures r.version == file.version && r.lastUserContextId == lastId
    ensures |r.identities| == |ready| + |ignored|
    ensures r.identities[|ready|..] == ignored
    ensures forall i :: 0 <= i < |ready| ==> r.identities[i] == SaveForm(ready[i])
  {
    var out := SaveForms(ready) + ignored;
    assert out[|ready|..] == ignored;
    file.(identities := out, lastUserContextId := lastId)
  }
}
