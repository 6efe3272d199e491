# Mac Easy Manager: container editor and translation downloader, in Dafny

This project models two parts of the program in Dafny.

**The container editor** (`mac_easy_manager.py`) loads a Firefox profile's
`containers.json` and splits its identities into two lists:

- the *ready* list, which the user edits;
- the *ignored* list: non-public identities, plus names that match the ignore pattern.

A default container has no stored name. It gets its name from a translation
table, looked up by the category that its `accessKey` names. The user can do
the following, and the result is written back:

- move containers, colours and icons up and down;
- sort by name, colour order and icon order, each key in its own direction;
- rename, recolour, re-icon, delete and add containers.

**The translation downloader** (`translation_downloader.py`) builds those tables:

1. Each row of the language-tools page becomes a language-pack link.
2. Each pack's archive gives a locale code and the `userContext<Category>.label` lines.
3. The records are sorted by language name and folded into `by_code` and `by_name`.

The modules follow the program:

- `Identities`: the records of containers.json.
- `Loading`: `get_containers`, including the `accessKey` regex search and the translated name.
- `Reorder`: the up and down moves, generic over what is moved, and the enable logic of the move buttons.
- `SortKeys`: the sorting options and the sort-key construction. `StableSort` models Python's stable `list.sort`, and `Ordering` models Python's comparison of strings, numbers and key lists.
- `Edits`: rename, recolour, re-icon, delete, add and save on the lists.
- `Editor`: the editor state and its handlers, each followed by the re-sort that the program performs.
- `Extractor`: the `re.findall` of the label lines.
- `Stages`: the per-item pipeline stages.
- `Aggregator`: the final sort and the two dicts.

Each operation is paired with a reference definition or an inverse. The main pairs are these:

- **Moves.** The index-by-index swap loops agree with a recursive "carry" definition. From that definition it follows that a move is a permutation, shifts every selected item by one place and keeps the relative order of both groups.
- **Sorting.** The program builds the key from negated numbers and one global `reverse` flag. It is proved to order containers exactly as "each key position in the direction of its own Reverse box".
- **Save and load.** Saving and reloading gives back the same ready and ignored lists.
- **Label extraction.** Extraction inverts rendering of label lines, and it distributes over whole lines.
- **Aggregation.** The two dicts are characterised value by value: the last record of a name wins in `by_name`, and the greatest name of a code wins in `by_code`. The aggregation is independent of the order in which the workers deliver their results.

## Model

| member | source | states |
|---|---|---|
| Loading.LastEnd | mac_easy_manager/mac_easy_manager.py:912 | the greedy `(.*)?` group: the result is a match end, and no later end up to the bound matches; `None` only when no end does |
| Loading.SearchFrom | mac_easy_manager/mac_easy_manager.py:912 | `re.search` semantics: the leftmost start that has a match, with its greedy end; `None` iff no start from `p` matches |
| Loading.AccessKeyCategory | mac_easy_manager/mac_easy_manager.py:912 | `None` exactly when the search finds no match (where `.group(1)` fails); otherwise group 1 of the match `re.search` returns: the leftmost start, extended to its greedy (longest) end |
| Loading.AccessKeyCategoryRoundTrip | mac_easy_manager/mac_easy_manager.py:907-912 | for an accessKey of the form "userContext" + c + ".accesskey", where c has no newline, the search names c back |
| Loading.Resolve | mac_easy_manager/mac_easy_manager.py:906-914 | only the name can change; a public default container gets `labels[lang][category]`; it fails exactly for a public container with an accessKey whose search finds no match, whose language has no table or whose category has no label |
| Loading.IgnoreTest | mac_easy_manager/mac_easy_manager.py:916-924 | non-public is ignored; public is ignored iff ignoring is on and the name matches; a nameless public identity with ignoring on is the only failure |
| Loading.GetContainers | mac_easy_manager/mac_easy_manager.py:904-924 | the load succeeds iff every identity is classified without error, and the two lists together are as long as the file's list |
| Loading.GetContainersPartition | mac_easy_manager/mac_easy_manager.py:904-924 | ready is exactly the resolved identities that are not ignored, ignored is exactly the rest, both in file order |
| Loading.GetContainersPublic | mac_easy_manager/mac_easy_manager.py:905-924 | every ready identity is public; with ignoring off, the ignored list holds only non-public identities |
| Reorder.MoveUpPermutes | mac_easy_manager/mac_easy_manager.py:1218-1220 | moving up is a permutation of the list |
| Reorder.MoveUpShiftsSelected | mac_easy_manager/mac_easy_manager.py:1218-1220 | when the first item is not selected, every selected item ends one place earlier |
| Reorder.MoveUpKeepsOrder | mac_easy_manager/mac_easy_manager.py:1218-1220 | selected items keep their relative order, and so do unselected ones |
| Reorder.MoveUpInPlace | mac_easy_manager/mac_easy_manager.py:1218-1220 | the swap loop over the live list (`ind` and `ind-1`) computes the carry definition `MoveUp` |
| Reorder.MoveDownPermutes | mac_easy_manager/mac_easy_manager.py:1236-1239 | moving down is a permutation of the list |
| Reorder.MoveDownShiftsSelected | mac_easy_manager/mac_easy_manager.py:1236-1239 | when the last item is not selected, every selected item ends one place later |
| Reorder.MoveDownKeepsOrder | mac_easy_manager/mac_easy_manager.py:1236-1239 | selected items keep their relative order, and so do unselected ones |
| Reorder.MoveDownInPlace | mac_easy_manager/mac_easy_manager.py:1236-1239 | the reversed-copy loop that finds each item with `list.index` and swaps it with the next computes `MoveDown`, for distinct items and an unselected last item |
| Reorder.IndexOf | mac_easy_manager/mac_easy_manager.py:1238 | `list.index`: a position holding the item, with no earlier position holding it |
| Reorder.SelectedPositions | mac_easy_manager/mac_easy_manager.py:1089 | exactly the tree indices of the selected items |
| Reorder.MinMaxAttained | mac_easy_manager/mac_easy_manager.py:1161-1167 | `min` and `max` of the indices are attained and bound every index |
| Reorder.MoveButtons | mac_easy_manager/mac_easy_manager.py:1087-1170 | no button change without a selection; Up is enabled iff the first item is unselected, Down iff the last item is unselected |
| SortKeys.HandleSortingOptions | mac_easy_manager/mac_easy_manager.py:696-712 | the Secondary choice is always a key other than Primary; a valid distinct choice is kept, and an unset or equal one becomes (Primary + 1) % 3 |
| SortKeys.Third | mac_easy_manager/mac_easy_manager.py:733 | the third key is the smallest key that neither button chose |
| SortKeys.KeyOrderIsPermutation | mac_easy_manager/mac_easy_manager.py:731-735 | for distinct Primary and Secondary keys, the three key options are exactly {0, 1, 2} |
| SortKeys.OrderIndex | mac_easy_manager/mac_easy_manager.py:724-725 | `list.index` in the current order: the first position of the value; `None` iff absent (the ValueError) |
| SortKeys.RawComponent | mac_easy_manager/mac_easy_manager.py:722-726 | key 0 gives the lower-cased name, `None` iff there is no name; keys 1 and 2 give the position of the colour or icon in its order, `None` iff it is not in the order |
| SortKeys.SortReady | mac_easy_manager/mac_easy_manager.py:746-758 | the sort fails iff some container's key cannot be computed; otherwise it permutes the list |
| SortKeys.NegateOrder | mac_easy_manager/mac_easy_manager.py:746-755 | comparing keys with negated numeric positions is comparing the raw keys with those positions in descending direction |
| SortKeys.SortKeyOrder | mac_easy_manager/mac_easy_manager.py:740-758 | with `reverse` taken from the name position's box and the other positions negated when their box differs, "x sorts before y" iff x's raw key is less than y's with every position in the direction of its own Reverse box |
| SortKeys.SortReadyOrdered | mac_easy_manager/mac_easy_manager.py:714-758 | the sorted list is ordered by the three keys, each in its own box's direction |
| SortKeys.SortReadyStable | mac_easy_manager/mac_easy_manager.py:758 | containers with equal keys keep their order |
| StableSort.SortBySorted | mac_easy_manager/mac_easy_manager.py:758 | the model of `list.sort` yields a sorted list, ascending or descending |
| StableSort.SortByStable | utils/translation_downloader.py:23 | the model of `list.sort` is stable: elements with one key keep their relative order |
| Edits.ChangeName | mac_easy_manager/mac_easy_manager.py:1465-1477 | fails iff a selected default container has no l10nID; otherwise only selected containers change, each gets the new name, loses its accessKey and (if it was a default) its l10nID; a selected non-default keeps its l10nID |
| Edits.ChangeColor | mac_easy_manager/mac_easy_manager.py:1479-1485 | the selected containers get the colour, and nothing else changes |
| Edits.ChangeIcon | mac_easy_manager/mac_easy_manager.py:1487-1493 | the selected containers get the icon, and nothing else changes |
| Edits.ChangeColorIdempotent | mac_easy_manager/mac_easy_manager.py:1479-1485 | applying the same colour change twice is the same as once |
| Edits.RemoveFirst | mac_easy_manager/mac_easy_manager.py:1504 | `list.remove`: one element shorter, the multiset loses one copy of the item, and the copy removed is the first one |
| Edits.DeleteCont | mac_easy_manager/mac_easy_manager.py:1496-1505 | removing each selected container of a copy from the live list leaves exactly the unselected containers in order |
| Edits.AddEnabled | mac_easy_manager/mac_easy_manager.py:1636-1645 | Add is enabled only with a name, a colour and an icon, always when all three are non-empty, and never when the colour or the icon is the empty string (which Python treats as false) |
| Edits.AddCont | mac_easy_manager/mac_easy_manager.py:1647-1657 | the id counter advances by one; the old list is kept as a prefix and the new public container with that id, name, colour and icon is appended |
| Edits.AddContFreshId | mac_easy_manager/mac_easy_manager.py:1647-1651 | when every id is at most the last id, the new id is fresh and again bounds every id |
| Edits.SaveForm | mac_easy_manager/mac_easy_manager.py:1674-1677 | only the name changes; it is dropped exactly for default containers (or was absent) |
| Edits.Save | mac_easy_manager/mac_easy_manager.py:1671-1687 | the written identities are the ready list in save form followed by the ignored list unchanged; lastUserContextId is the last id; the version is kept |
| Editor.Load | mac_easy_manager/mac_easy_manager.py:893-924 | a successful load keeps the file, takes its last id and loses no identity |
| Editor.Sort | mac_easy_manager/mac_easy_manager.py:714-761 | only the order of the ready list can change; without a Primary choice nothing changes |
| Editor.ChoosePrimary | mac_easy_manager/mac_easy_manager.py:696-712 | Primary is set, Secondary differs from it, and the list is permuted |
| Editor.ChoosePrimaryOrders | mac_easy_manager/mac_easy_manager.py:696-758 | when every container has a name and a known colour and icon, choosing Primary leaves the list ordered by the three keys in their boxes' directions |
| Editor.KeysExist | mac_easy_manager/mac_easy_manager.py:722-726 | named containers with known colours and icons never make the sort fail |
| Editor.ContMoveUp | mac_easy_manager/mac_easy_manager.py:1214-1230 | the selected containers move up one place as a permutation, and both sorting choices are cleared; nothing else changes |
| Editor.ContMoveDown | mac_easy_manager/mac_easy_manager.py:1231-1247 | the selected containers move down one place as a permutation, and both sorting choices are cleared; nothing else changes |
| Editor.ColorMoveUp | mac_easy_manager/mac_easy_manager.py:1251-1261 | the colour order moves the selected colours up; the containers are re-sorted as a permutation |
| Editor.ColorMoveDown | mac_easy_manager/mac_easy_manager.py:1262-1274 | the colour order moves the selected colours down; the containers are re-sorted as a permutation |
| Editor.IconMoveUp | mac_easy_manager/mac_easy_manager.py:1276-1286 | the icon order moves the selected icons up; the containers are re-sorted as a permutation |
| Editor.IconMoveDown | mac_easy_manager/mac_easy_manager.py:1287-1305 | the icon order moves the selected icons down; the containers are re-sorted as a permutation |
| Editor.Rename | mac_easy_manager/mac_easy_manager.py:1465-1478 | fails exactly when the list edit fails; otherwise the ready list is a permutation of the renamed list and nothing else changes |
| Editor.RenameNamesSelected | mac_easy_manager/mac_easy_manager.py:1465-1478 | after a rename every selected container carries the new name and no accessKey |
| Editor.Recolor | mac_easy_manager/mac_easy_manager.py:1479-1486 | the ready list is a permutation of the recoloured list; nothing else changes |
| Editor.Reicon | mac_easy_manager/mac_easy_manager.py:1487-1494 | the ready list is a permutation of the re-iconed list; nothing else changes |
| Editor.Delete | mac_easy_manager/mac_easy_manager.py:1496-1507 | the ready list keeps exactly the unselected containers; nothing else changes |
| Editor.Add | mac_easy_manager/mac_easy_manager.py:1647-1658 | the last id advances by one and the ready list gains exactly the new container |
| Editor.SaveFile | mac_easy_manager/mac_easy_manager.py:1671-1687 | the saved file keeps the version and records the last id; its identities are the ready containers in save form, in order, followed by the ignored ones unchanged |
| Editor.AddKeepsIdsBounded | mac_easy_manager/mac_easy_manager.py:1647-1651 | "every ready id is at most the last id" survives adding, and the added id is new among the ready containers (ignored identities are not bounded) |
| Editor.SortKeepsIdsBounded | mac_easy_manager/mac_easy_manager.py:714-758 | sorting keeps every id at most the last id |
| Editor.SavedFormReloads | mac_easy_manager/mac_easy_manager.py:1674-1677 | a ready container in save form is classified on reload as the same container, not ignored |
| Editor.IgnoredFormReloads | mac_easy_manager/mac_easy_manager.py:906-924 | an identity that is non-public, or public with ignoring on, a matching name and its resolved label, is classified on reload as itself and ignored |
| Editor.IgnoredReload | mac_easy_manager/mac_easy_manager.py:904-924 | such identities reload into the ignored list unchanged and in order |
| Editor.SaveLoadRoundTrip | mac_easy_manager/mac_easy_manager.py:1671-1687 | loading the saved identities gives back the same ready and ignored lists, for ready containers that reload as ready and ignored identities that reload as ignored (non-public, or matched by the ignore pattern), each carrying the name loading gives it |
| Extractor.Header | utils/translation_downloader.py:145-150 | the fixed text before a label contains no newline |
| Extractor.HeadersDiffer | utils/translation_downloader.py:146-147 | at most one category's header starts a text, so the alternation is never ambiguous |
| Extractor.NextNewline | utils/translation_downloader.py:151-152 | the first newline at or after a position, or `None` when there is none |
| Extractor.HeaderAt | utils/translation_downloader.py:146-150 | the category whose header starts the text, or `None` when no header does |
| Extractor.MatchHead | utils/translation_downloader.py:143-156 | a match at the start consists of a header, a label without a newline (the lazy `(.*?)`) and the newline; it consumes exactly these |
| Extractor.Extract | utils/translation_downloader.py:143-156 | `re.findall`: no extracted label contains a newline |
| Extractor.MatchHeadOfLine | utils/translation_downloader.py:144-153 | a label line matches at its start, with its category and label |
| Extractor.ExtractRender | utils/translation_downloader.py:143-156 | extracting from rendered label lines gives back the entries in order |
| Extractor.ExtractNoNewline | utils/translation_downloader.py:151-152 | text without a newline yields no entry: an unterminated last line is never matched |
| Extractor.ExtractAppend | utils/translation_downloader.py:143-156 | extraction distributes over a split after a newline: matches never cross lines |
| Extractor.ExtractOneLine | utils/translation_downloader.py:143-156 | one line yields at most one entry |
| Extractor.ExtractEmpty | utils/translation_downloader.py:143-156 | nothing is extracted iff no position starts a match |
| Stages.RowToPack | utils/translation_downloader.py:89-95 | a row without a link yields nothing; a linked row without a name fails; otherwise the name and the URL made of the site prefix followed by the href |
| Stages.PackLinks | utils/translation_downloader.py:85-97 | it fails iff some linked row lacks a name; otherwise pack i is the name of the i-th row with a link and the AMO base URL followed by that link, in page order |
| Stages.CodeOfPath | utils/translation_downloader.py:136-140 | a path of the template's shape names the code between prefix and suffix |
| Stages.CodeOfMemberPath | utils/translation_downloader.py:140 | building the member path of a code and reading the code back is the identity |
| Stages.MemberPathOfCode | utils/translation_downloader.py:140 | every path of the template's shape is the member path of the code it names |
| Stages.LocaleCode | utils/translation_downloader.py:137-138 | the first child of `browser/chrome/`; `None` iff the listing is empty |
| Stages.GetTranslation | utils/translation_downloader.py:131-160 | fails iff there is no locale or no browser.properties member; otherwise the record has the pack name, the first child's code and the labels extracted from that member |
| Stages.ProcessPack | utils/translation_downloader.py:99-160 | it fails iff the pack page has no install link, the download fails, or the pack's translations cannot be read; otherwise the record carries the pack's name, the first chrome child as code, and the entries extracted from that code's messages file |
| Stages.ProcessAll | utils/translation_downloader.py:35-72 | fails iff some pack fails; otherwise one record per pack, the record of that pack |
| Stages.Run | utils/translation_downloader.py:35-72 | it fails iff building the packs fails or some pack fails; otherwise record i is what processing the i-th linked row's pack yields, one per linked row |
| Aggregator.FoldKeys | utils/translation_downloader.py:24-27 | a dict built by assignment in a loop has exactly the keys assigned |
| Aggregator.FoldLast | utils/translation_downloader.py:24-27 | its value under a key is the last assignment to that key |
| Aggregator.LabelMapLast | utils/translation_downloader.py:27 | in a label table the last line for a category wins |
| Aggregator.AggregateKeys | utils/translation_downloader.py:19-27 | `by_code` has exactly the records' codes as keys and `by_name` exactly their names |
| Aggregator.ByNameValue | utils/translation_downloader.py:24-27 | the table under a name is that of the last record with the name |
| Aggregator.AggregateByName | utils/translation_downloader.py:23-27 | because the sort is stable, `by_name[n]` is the table of the last record named n in the order the records arrived |
| Aggregator.ByCodeValue | utils/translation_downloader.py:24-26 | in a list sorted by name, the name under a code is the greatest name among records with that code |
| Aggregator.NamedRecord | utils/translation_downloader.py:23-27 | every name in `by_name` is that of some record, and its table is that record's label table |
| Aggregator.AggregateByCode | utils/translation_downloader.py:23-26 | `by_code[c]` is the name of a record with code c, and no record with code c has a greater name |
| Aggregator.AggregateOrderIndependent | utils/translation_downloader.py:17-27 | when each name identifies one record, neither dict depends on the order in which the workers delivered the records |
| Aggregator.ByCodeAgree | utils/translation_downloader.py:23-26 | `by_code` does not depend on the arrival order of the records at all, since the sort leaves the greatest name last under each code |

## Left out

- Tk widgets, images, messages and the current-container display of `cont_handle_select` (mac_easy_manager.py:1091-1157) are user interface only. Of that handler, only the move-button logic is modelled.
- File I/O is not modelled: JSON reading and writing, profile discovery and backups. `Editor.State.file` stands for the parsed file.
- Editor.Load: the ignore pattern is a parameter `matches` (the compiled regex's `fullmatch`, lines 896-899). Regular-expression matching of user patterns and the `re.I` flag are not modelled.
- SortKeys.RawComponent: `str.lower` is the parameter `lower`. Unicode case mapping is not modelled.
- Edits.ChangeName: when the `del container["l10nID"]` raises, the model leaves the whole list unchanged. The program has already renamed the earlier selected containers by then, and that partial edit is not modelled.
- Editor.Sort: when the sort would raise (a missing name, or a colour or icon not in the order), the list is left unchanged. Python's `list.sort` computes every key before moving anything, and the exception ends the handler.
- Reorder.MoveUpInPlace: requires the first item to be unselected. The program would swap with index -1, but its Up button is disabled in that case (lines 1161-1162). The same holds for the Down moves and the last item.
- Reorder.MoveDownInPlace: requires distinct items, as container ids, colour names and icon names are. With duplicates, `list.index` finds the first copy.
- Identities.Identity: keys other than those named (such as `telemetryId`) are carried unchanged by the program and are not modelled.
- The downloader's concurrency is not modelled: the asyncio queues, worker tasks, the HTTP session, BeautifulSoup and zip decoding. The stages run one item after another. Fetching and parsing are the parameters `installLink` and `download`, and rows arrive already reduced to what the selectors find. `Aggregator.AggregateOrderIndependent` shows that the arrival order does not matter when names identify records.
- Stages.Run: an exception in a worker ends that task without `task_done`, so `queue.join()` never returns and the program hangs rather than aborting. The model reports the first error as a `Failure` instead of modelling non-termination.
- Extractor.Extract: labels are matched up to the first `\n`. A `\r` before it stays in the label, as in the program. The UTF-8 decoding of the member is not modelled.
- Loading.AccessKeyCategory: group 1 is always a string, never `None`. The `?` is greedy and `(.*)` can match the empty string, so the group always takes part in a match.
