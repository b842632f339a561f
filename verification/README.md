# Permission comparator and menu parser — a Dafny model

This project models the core of a small permissions-management tool in
Dafny 4.11 and proves properties of that model.

The tool compares the rows of a PERMISSION table (EXT_ID, CLASS, NAME,
ACTION) between two sets of domains. It shows one grid row per permission
name, tagged with a four-way status and with "update" / "delete" cells. It
writes the user's choice back to the table. It ships in three variants:

- `ComparePermissions.py`: the original Italian variant.
- `ComparePermissions_cloud.py`: the Italian cloud variant, which adds a
  Delete column offered by status, a status filter and the bulk save of
  edited target actions.
- `ComparePermissionsDocker.py`: the English container variant, which adds a
  snapshot cache keyed by the sorted domain list, a Delete column offered by
  target domain, and a name filter.

A second tool, `MenuParser.py`, reads a `|`-separated menu export. It works
out for each line the functionality its target calls, either directly or
through the `<functionality>` nodes of the page's XML definition.

Modules, one per concern:

| file | module | what it holds |
|---|---|---|
| `wrappers.dfy` | `Wrappers` | `Option`, `Result`, an order-keeping `Filter` |
| `text.dfy` | `Text` | Python's `strip`, `split`, `split(pat)[-1]`, `split(c, 1)`, `in`, ASCII `lower` |
| `string_order.dfy` | `StringOrder` | lexicographic order and insertion sort (`sorted`) |
| `store.dfy` | `Store` | the table, the snapshot query, upsert, delete, the write gateway |
| `snapshot_cache.dfy` | `SnapshotCache` | the Docker variant's `permission_cache` |
| `comparison.dfy` | `Comparison` | the outer join on NAME, the status, the Action/Delete cells |
| `change_detection.dfy` | `ChangeDetection` | the seven-key diff that finds edited target actions |
| `session.dfy` | `Session` | callback inputs and outputs shared by the variants |
| `original_app.dfy` | `OriginalApp` | the original variant's callback |
| `cloud_app.dfy` | `CloudApp` | the cloud variant's callback |
| `docker_app.dfy` | `DockerApp` | the Docker variant's callback |
| `menu_parser.dfy` | `MenuParser` | `search_functionality_recursively`, `find_functionality`, `process_input_file` |

Modelling choices:

- A NULL EXT_ID or CLASS, and a NaN that an outer merge leaves for a missing
  side, are `None`. NAME and ACTION are plain strings (see "## Left out").
  - `EXT_ID = NULL` matches nothing, so an upsert into a NULL domain always inserts.
  - NaN keys match each other in a pandas merge, as `None == None`.
  - Python's `a or b` treats `None` and `""` as false (`Session.OrElse`).
- An action cell renders a missing value, and a stored value that is
  literally `"nan"`, as the sentinel `"-"`.
- The database is `Db(rows, online)`. Opening a connection fails exactly when
  `online` is false. Every query and write is a pure function of `rows`.
- Each Dash callback is split into one function per trigger: compare, apply
  filter, table event and cell click. Each function takes the callback's
  inputs and returns what it sends back:
  - the grid data;
  - the stored baseline (`old-data`);
  - the kind of notification.
  It also returns the new store (and, for the Docker variant, the new cache).
  `NoUpdate` stands for `dash.no_update`.
- The XML side of the menu parser is a parameter. For a (pageset, page) pair
  it gives, per XML directory in order, the `<page>` elements of that name
  in the directory's `.page` file, or an error that escapes the search. The
  search over those elements, and how an escaping error skips the line, are
  modelled and proved.

## Model

| member | source | states |
|---|---|---|
| Store.Select | ComparePermissions_cloud.py:33-44 | the snapshot holds exactly the projections of the rows whose EXT_ID is one of the listed domains; NULL domains are never selected |
| Store.SelectSameDomains | ComparePermissionsDocker.py:56-62 | the `IN (...)` query depends only on which domains are listed, not on their order or repetition |
| Store.Fetch | ComparePermissions_cloud.py:33-44 | no connection is a connection error, an empty list is a query error (`IN ()`), and otherwise the snapshot is every row of the listed domains |
| Store.Upsert | ComparePermissionsDocker.py:72-95 | updates every row keyed (EXT_ID, NAME) exactly when one exists, leaving the other columns and rows intact; otherwise appends one row with the variant's CLASS; afterwards the key is present with the new action |
| Store.UpsertIdempotent | ComparePermissions_cloud.py:53-68 | a second identical upsert on a real domain reports an update and changes nothing |
| Store.UpsertNullDomainAppends | ComparePermissions.py:42-57 | with a NULL domain the existence check never matches, so every repeat inserts another row |
| Store.Delete | ComparePermissionsDocker.py:97-107 | removes exactly the rows matching EXT_ID, NAME and ACTION, keeping every other row with its multiplicity; no match leaves the table unchanged |
| Store.DeleteIdempotent | ComparePermissions_cloud.py:70-75 | deleting twice is deleting once |
| Store.Perform | ComparePermissionsDocker.py:72-107 | a write fails with a connection error before touching the table when no connection can be opened; otherwise it applies the write and returns the updated/inserted/deleted message |
| Store.PerformAll | ComparePermissionsDocker.py:347-361 | a batch over one connection applies the writes in order, or fails untouched when no connection can be opened |
| Store.ApplyAll | ComparePermissionsDocker.py:347-361 | an empty batch leaves the table as it is, a one-write batch is that write, and each write adds at most one row |
| Store.ApplyAllLastUpsertHolds | ComparePermissionsDocker.py:347-361 | after a batch whose last write upserts into a real domain, the key is present and every row carrying it holds that action |
| Store.ApplyAllAppend | ComparePermissionsDocker.py:349-361 | a batch split in two is its first part applied, then its second |
| Store.ApplyAllKeepsOthers | ComparePermissions_cloud.py:318-327 | a row whose (EXT_ID, NAME) no write of the batch names survives the batch |
| SnapshotCache.KeyOf | ComparePermissionsDocker.py:48-49 | the cache key is the domain list sorted, keeping duplicates |
| SnapshotCache.SameKeyIffPermutation | ComparePermissionsDocker.py:48-53 | two domain lists share an entry exactly when one rearranges the other, so `[a, a]` and `[a]` do not |
| SnapshotCache.Get | ComparePermissionsDocker.py:42-70 | a hit answers from the cache without a query; a miss queries, and only a successful query is stored under the key |
| SnapshotCache.GetIsTransparent | ComparePermissionsDocker.py:42-70 | on a cache whose entries equal the current query results, a lookup answers what the uncached query would, and leaves the cache so |
| SnapshotCache.SecondLookupHits | ComparePermissionsDocker.py:52-53 | after a successful lookup, a second lookup with the same domains in any order is a hit returning the same snapshot |
| SnapshotCache.Cleared | ComparePermissionsDocker.py:94 | after a write the cache has no entry for any domain list and agrees with any table |
| Comparison.Render | ComparePermissionsDocker.py:126-135 | a missing action and the stored text "nan" show "-"; any other stored action shows as itself |
| Comparison.Classify | ComparePermissionsDocker.py:137-145 | Common iff the two action cells are equal; otherwise Only in Right iff the left is "-", Only in Left iff only the right is "-", Different iff neither is |
| Comparison.Matching | ComparePermissionsDocker.py:118-125 | the right records a left record merges with are exactly those of its name, none iff the right side lacks the name |
| Comparison.PairWith | ComparePermissionsDocker.py:118-125 | a left record meets every right record of its name, one merged line each, in right order |
| Comparison.LeftRowsMembers | ComparePermissions.py:134-141 | the lines carrying a left record are every same-name pair, plus each left record whose name the right lacks, alone |
| Comparison.RightOnlyMembers | ComparePermissions.py:134-141 | the lines with only a right record are exactly the right records whose name the left lacks |
| Comparison.Join | ComparePermissionsDocker.py:118-125 | every merged line has a left or a right record, and when it has both they share the NAME |
| Comparison.JoinMembers | ComparePermissionsDocker.py:118-125 | the outer merge on NAME: a pair appears iff the names agree, a record stands alone iff the other side has no record of its name, nothing else appears |
| Comparison.JoinLineSides | ComparePermissions_cloud.py:87-94 | each side of a merged line is a record of its own snapshot, and two sides share the name |
| Comparison.BuildRow | ComparePermissionsDocker.py:126-162 | a grid row shows both domains and actions ("-" for an absent side), the status of its two action cells, "Update" exactly for left-only and different, and the variant's Delete cell |
| Comparison.Compare | ComparePermissionsDocker.py:109-164 | one grid row per merged line, in the model's merge order |
| Comparison.CompareDomains | ComparePermissions_cloud.py:82-122 | no connection is a connection error, an empty domain list a query error, otherwise the comparison of the two snapshots |
| Comparison.CompareCoversNames | ComparePermissionsDocker.py:118-125 | the grid names exactly the permissions present on either side |
| Comparison.StatusReflectsPresence | ComparePermissions_cloud.py:96-108 | when no stored action is "-" or "nan", left-only means no right record, right-only means no left record, and common/different mean both with equal/unequal actions |
| Comparison.SelfCompareAllCommon | ComparePermissions.py:146-154 | a snapshot with unique names compared with itself gives one common row per record, in order |
| Comparison.SelfCompareWithDuplicateNames | ComparePermissions.py:130-154 | with a repeated name the merge is a cartesian product: two records of one name with different actions, compared with themselves, give four rows, one of them different |
| ChangeDetection.Partners | ComparePermissionsDocker.py:338-344 | the edits pairing one baseline row are the grid rows with its seven key cells and another target action |
| ChangeDetection.Detect | ComparePermissionsDocker.py:338-344 | an edit is a grid row and a previous target action such that some baseline row with the same seven key cells held that action and the grid row holds another |
| ChangeDetection.SelfDiffEmpty | ComparePermissions_cloud.py:313-315 | when the key cells identify rows, an unedited grid has no edits |
| ChangeDetection.DuplicateKeysReportEdits | ComparePermissions_cloud.py:313-315 | any two rows agreeing on every key cell but not on the target action already report each other as edits in an unedited grid |
| ChangeDetection.EditedKeysAreNotSaved | ComparePermissionsDocker.py:338-344 | a row whose key cells match no baseline row never produces an edit |
| Session.OrElse | ComparePermissions_cloud.py:321 | `a or b`: the first operand when it is truthy, otherwise the second, even when both are falsy (`"" or None` is `None`) |
| Session.DeleteDecision | ComparePermissions_cloud.py:416-446 | a grid without a Delete column raises, "-" is no action, anything else deletes the row's right-hand record |
| Session.DeleteTargetsRightRecord | ComparePermissionsDocker.py:156-162 | on a grid with a Delete column, an offered delete names a right-hand record that exists, by its domain, name and action |
| OriginalApp.FlagsOfRows | ComparePermissions.py:146-160 | every row carries one of the four Italian status words, "Aggiorna" exactly when neither common nor right-only, and no Delete cell |
| OriginalApp.ComparePermissions | ComparePermissions.py:128-163 | any failure (no connection, an empty domain list) gives the empty table; otherwise the comparison |
| OriginalApp.OnCompare | ComparePermissions.py:173-182 | an empty selection asks for domains; otherwise the grid is always the comparison (empty on any failure), reported as no data when empty and as completed otherwise; over a live connection it is the comparison of the two selections |
| OriginalApp.ActionDestination | ComparePermissions.py:199-212 | a left-only row writes into the first selected target, failing when there is none; any other row into `EXT_ID_right or EXT_ID_left` |
| OriginalApp.OnCellClick | ComparePermissions.py:184-218 | the click guards in order; the table changes only by an upsert from an Action cell not showing "-"; over a live connection such a click does write it (and reports done), unless a left-only row has no target, which reports that failure and writes nothing; the refreshed grid is the comparison of the updated table |
| OriginalApp.InsertsCarryNoClass | ComparePermissions.py:54-55 | a click never writes a CLASS: every row afterwards has a NULL CLASS or one the table already held |
| CloudApp.FlagsByStatus | ComparePermissions_cloud.py:110-120 | "Aggiorna" is offered exactly for left-only and different rows, "Elimina" exactly for common and right-only rows |
| CloudApp.StatusFilter | ComparePermissions_cloud.py:366-367 | an empty filter keeps every row; otherwise exactly the rows whose status is chosen |
| CloudApp.StatusFilterKeepsOrder | ComparePermissions_cloud.py:366-367 | the filter decides row by row and keeps the grid's order: filtering two blocks is filtering each and joining the results |
| CloudApp.FilterNarrows | ComparePermissions_cloud.py:388-397 | filtering the filtered baseline keeps only rows both filters accept |
| CloudApp.BulkDestination | ComparePermissions_cloud.py:321 | an edit is written into `EXT_ID_right or EXT_ID_left` |
| CloudApp.BulkCalls | ComparePermissions_cloud.py:319-327 | one upsert per edit, in order, carrying the edited target action |
| CloudApp.ClickDecision | ComparePermissions_cloud.py:412-474 | Delete follows the shared rule; Action upserts the source action, into the first target for a left-only row and `EXT_ID_right or EXT_ID_left` otherwise, unless the cell shows "-" |
| CloudApp.OnCompare | ComparePermissions_cloud.py:350-376 | no connection raises; over a live connection a complete selection always ends completed or with no data; an empty comparison is reported before the status filter; a shown grid is the filtered comparison and becomes the baseline |
| CloudApp.OnApplyFilter | ComparePermissions_cloud.py:381-400 | an empty baseline reports no data; otherwise the grid is the status-filtered baseline, in its order and with its repeats, and replaces the baseline |
| CloudApp.WriteAndRefresh | ComparePermissions_cloud.py:416-491 | a failed connection changes nothing; otherwise the write is applied, and with a complete selection the write is reported done and the grid becomes the status-filtered comparison of the updated table |
| CloudApp.BulkSave | ComparePermissions_cloud.py:317-345 | every edit is written over one connection; the refreshed grid is the unfiltered comparison; any failure leaves grid and baseline as they were |
| CloudApp.OnClick | ComparePermissions_cloud.py:405-491 | the guards on the four inputs; the table changes only by the write the clicked cell asks for, and over a live connection a cell that asks for a write gets it, reported done |
| CloudApp.OnTableEvent | ComparePermissions_cloud.py:301-345 | an edited grid with detected edits is saved in bulk; with none the event is handled as a click |
| CloudApp.UneditedGridWritesNothing | ComparePermissions_cloud.py:313-317 | saving an unedited grid with unique keys and no active cell does nothing |
| CloudApp.BulkSaveIgnoresStatusFilter | ComparePermissions_cloud.py:330 | after a bulk save the grid holds every row of the comparison, whatever status filter was chosen |
| DockerApp.FlagsOfRows | ComparePermissionsDocker.py:149-162 | "Update" is offered exactly for left-only and different rows; "Delete" exactly when the row's target domain is usable, whatever its status |
| DockerApp.ComparePermissions | ComparePermissionsDocker.py:109-116 | a connection is needed even when both snapshots are cached; on a coherent cache the cached comparison equals the uncached one and the cache stays coherent |
| DockerApp.NameFilter | ComparePermissionsDocker.py:394-395 | an empty filter keeps every row; otherwise exactly the rows whose name contains the filter, ignoring case |
| DockerApp.NameFilterKeepsOrder | ComparePermissionsDocker.py:394-395 | the filter decides row by row and keeps the grid's order: filtering two blocks is filtering each and joining the results |
| DockerApp.EmptyFilterMatchesAll | ComparePermissionsDocker.py:394-395 | the empty filter matches every name, so skipping it changes nothing |
| DockerApp.BulkDestination | ComparePermissionsDocker.py:350-354 | an edit is written into the row's target domain when usable, into the selected target otherwise |
| DockerApp.BulkCalls | ComparePermissionsDocker.py:348-361 | one upsert per edit, in order, carrying the edited target action |
| DockerApp.ClickDecision | ComparePermissionsDocker.py:426-490 | Delete follows the shared rule; Action upserts the source action into the selected target unless the cell shows "-" |
| DockerApp.Refresh | ComparePermissionsDocker.py:362-367 | on a coherent cache the refresh succeeds exactly when the uncached comparison does, and gives its name-filtered rows |
| DockerApp.WriteAndRefresh | ComparePermissionsDocker.py:441-512 | a failed connection changes nothing; otherwise the write is applied and the cache emptied, and with a complete selection the write is reported done with the grid the filtered comparison of the updated table |
| DockerApp.BulkSave | ComparePermissionsDocker.py:346-379 | every edit is written over one connection and the cache emptied; over a live connection with source domains the save succeeds, and the saved grid is the name-filtered comparison of the updated table and becomes the baseline; failures leave grid and baseline as the browser has them |
| DockerApp.OnCompare | ComparePermissionsDocker.py:382-416 | an empty selection asks for domains; on a coherent cache and a live connection a complete selection ends completed or with no data; a shown grid is the name-filtered comparison, non-empty, and becomes the baseline; the table is never written |
| DockerApp.OnClick | ComparePermissionsDocker.py:419-512 | the guards on the four inputs; the table changes only by the write the clicked cell asks for |
| DockerApp.OnTableEvent | ComparePermissionsDocker.py:329-379 | an edited grid with detected edits is saved in bulk; with none the event is handled as a click; the cache stays coherent |
| DockerApp.DashCellIsNoOp | ComparePermissionsDocker.py:431-482 | a click on a "-" Action or Delete cell writes nothing and sends the grid back unchanged |
| DockerApp.ClickRouting | ComparePermissionsDocker.py:441-490 | an offered Delete deletes the row's right-hand record; an offered Update upserts the source action into the first selected target |
| DockerApp.UneditedGridWritesNothing | ComparePermissionsDocker.py:338-346 | saving an unedited grid with unique keys and no active cell does nothing |
| DockerApp.BulkWritesFollowEdits | ComparePermissionsDocker.py:348-361 | every bulk write lands in a named domain with the edited action and the row's name |
| DockerApp.BulkSaveKeepsOthers | ComparePermissionsDocker.py:346-361 | a bulk save leaves every row whose key no edit names in the table |
| MenuParser.FirstName | MenuParser.py:36-39 | the name of the first `<functionality name=...>` of a sequence of elements, none iff there is none |
| MenuParser.SearchFunctionality | MenuParser.py:34-39 | the recursive search returns the name of the first `<functionality name=...>` of the subtree in document order, the node itself included, and nothing when there is none |
| MenuParser.FirstInPages | MenuParser.py:57-61 | over the `<page>` elements of one file, the name of the first page whose search finds a non-empty name; none iff every search finds nothing or "" |
| MenuParser.FindFunctionality | MenuParser.py:41-64 | over the directories in order: the first non-empty name wins; an escaping error ends the search iff every directory before it was readable and gave nothing; nothing is found iff every directory was readable and gave nothing |
| MenuParser.TargetFunctionality | MenuParser.py:104-116 | "functionality:" wins, then "page:" (a missing "." or an escaping lookup error skips the line, a lookup that finds nothing gives ""), then "action:"/"help:" give "", else the trimmed target |
| MenuParser.FunctionalityMarkerDecides | MenuParser.py:105-106 | a target containing "functionality:" always yields a functionality, and the XML lookup never affects it, even when the target also names a page |
| MenuParser.NamedTarget | MenuParser.py:105-106 | "functionality:" followed by a name that does not repeat the marker gives the name back, trimmed |
| MenuParser.PageTargetLooksUp | MenuParser.py:107-116 | "page:" followed by pageset "." page is looked up under exactly that pair; the line is skipped iff the lookup raises, a found name is the functionality and nothing found gives "" |
| MenuParser.LineFields | MenuParser.py:85-98 | a blank line or one under three fields is skipped; otherwise its fields padded to four |
| MenuParser.LineRow | MenuParser.py:100-124 | a row holds the four trimmed fields and the functionality, exactly when the line is not skipped |
| MenuParser.CollectRowsMembers | MenuParser.py:84-124 | every row comes from a line that yields it, and every line that yields a row is represented |
| MenuParser.CollectRowsAppend | MenuParser.py:84-124 | lines are handled independently: the rows of two blocks are the rows of the first then the second |
| MenuParser.SkippedLineAddsNothing | MenuParser.py:85-94 | removing a line that yields no row does not change the output |
| MenuParser.RowsAreTrimmed | MenuParser.py:118-124 | none of the four text fields of an output row (path, symbol, label, target) starts or ends with whitespace; the functionality is taken as found |
| MenuParser.Header | MenuParser.py:76-80 | the header fields padded to four; the fifth renamed "Functionality" when there are exactly five |
| MenuParser.FiveFieldHeader | MenuParser.py:76-80 | a five-field header keeps its first four names and calls the fifth "Functionality" |
| MenuParser.ProcessInput | MenuParser.py:67-129 | an empty file fails; no valid row fails; a valid row with a header under five fields fails; otherwise the rows in input order under the first five header names |

## Left out

- The Dash layout, the styling and the callback plumbing are not modelled: the
  triggers, `ctx.triggered_id`, the toast and alert wording, and the
  `notifications_enabled` switch. The Docker variant turns a single target
  string into a one-element list; this model always takes a list.
- `fetch_permission_domains`, `get_domains_options` and `populate_domains`
  fill the dropdowns only and are not modelled.
- JDBC, connection set-up and the environment configuration are not modelled.
  A connection either opens or not (`Db.online`). A write that fails half-way
  through a bulk save is not modelled either.
- The row order of a pandas outer merge is not modelled: pandas sorts the
  merged lines on NAME, while `Comparison.Join` lists the left-keyed lines
  first, in left order, and the right-only lines after them. The membership
  statements carry over to the real grid. The statements that name positions
  hold for the model's order only: `Comparison.Compare` (grid row i is built
  from merged line i), `Comparison.StatusReflectsPresence`,
  `Comparison.SelfCompareAllCommon` ("in order") and
  `Comparison.SelfCompareWithDuplicateNames` (the second row). The
  `_merge` indicator column is not modelled.
- Store.Permission: NAME and ACTION are taken to be never NULL. In the
  source, `astype(str)` shows a NULL ACTION as the text `"None"`, not as
  `"-"`, since only `"nan"` is replaced. A NULL NAME would be merged like a
  NaN key. Neither case is modelled.
- NaN is modelled as `None`. A stored EXT_ID that is NaN, and is therefore
  truthy in Python, is not distinguished from a NULL one.
- DockerApp.NameFilter: `str.contains` reads the filter as a regular
  expression. The model matches it literally and lower-cases ASCII letters
  only.
- How pandas' row-wise `apply` treats a frame with no rows is not modelled.
  When both snapshots are empty, the model's grid is simply empty.
- The Docker cache is process-wide and shared between requests. Concurrent
  callbacks are not modelled.
- MenuParser: the file dialog, reading the file as ISO-8859-1, `ET.parse`,
  the existence check on `.page` files, the debug log and the Excel export
  are I/O and are not modelled. The lookup parameter gives, per XML
  directory, either the `<page>` elements of the right name, or an error that
  escapes `find_functionality`. No elements stands for a missing file or one
  that is not well-formed. An escaping error stands for an unreadable file,
  or a page name such as one holding `'` that makes the path query of
  MenuParser.py:57 invalid. Which page names break that query is left to the
  lookup; the path query language is not modelled.
  A header with repeated names collapses the row dictionary's keys in the
  source; `MenuParser.Table` keeps all five names.
- findFuncs.py is not part of this model.
