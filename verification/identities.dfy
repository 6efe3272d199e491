/** The records of a Firefox profile's containers.json as the editor handles
    them (mac_easy_manager.py): one identity per container, and the file that
    holds the identities together with the last id handed out. */
module Identities {
  import opened Wrappers

  /** One entry of the `identities` array. A default container carries an
      `accessKey` (such as "userContextWork.accesskey") and an `l10nID` instead of
      a stored name; every other key the file may hold is carried unchanged and
      not modelled. */
  datatype Identity = Identity(
    id: int,
    public: bool,
    name: Option<string>,
    color: string,
    icon: string,
    accessKey: Option<string>,
    l10nID: Option<string>)

  /** The whole of containers.json: `version`, `lastUserContextId` and `identities`. */
  datatype ContainersFile = ContainersFile(version: int, lastUserContextId: int, identities: seq<Identity>)

  /** A container is selected in the tree when its id is among the selected item ids. */
  predicate Selected(x: Identity, selection: set<int>) {
    x.id in selection
  }

  /** The ids of a list of identities, in order. */
  function Ids(s: seq<Identity>): (r: seq<int>)
    ensures |r| == |s|
    ensures forall i :: 0 <= i < |s| ==> r[i] == s[i].id
  {
    if |s| == 0 then [] else [s[0].id] + Ids(s[1..])
  }
}
