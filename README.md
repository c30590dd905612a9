# reddit_sync reconciliation core, in Dafny

reddit_sync copies one Reddit account's subscriptions and multireddits
(custom feeds) onto another account. This project models its reconciliation
core and proves properties of that model. The core has three parts.

- **The diff engine** (`compute_diff`) compares source and target subreddit
  lists and multireddit lists and produces a `SyncDiff`.
  - Subreddits are compared case-insensitively. Each list is first turned
    into a Python dict keyed by the lower-cased name. A key keeps the
    position of its first occurrence and holds the last spelling seen.
  - Added subreddits carry the source spelling. Removed subreddits carry
    the target spelling.
  - Each multireddit, identified by its lower-cased name, lands in at most
    one of three lists: to add (source only), to remove (target only), or
    to update (both sides, with different lower-cased member sets). A name
    on both sides with equal member sets lands in none, and of several
    multireddits with the same lower-cased name only the last is listed.
- **The sync executor** (`SyncService`) applies a `SyncDiff` through the
  target account's writer. It works phase by phase:
  1. unsubscribe, only when cleaning;
  2. subscribe;
  3. create multireddits;
  4. for each updated multireddit, add members and then remove members.

  In dry-run mode it calls nothing on the writer. A failed call does not
  stop the run.
- **The data model** covers `Multireddit`, `MultiUpdate`, `AccountData` and
  `SyncDiff`, with their `to_dict`/`from_dict` JSON forms and `has_changes`.

The Dafny modules:

| file | module | contents |
|---|---|---|
| casefold.dfy | `CaseFold` | `str.lower()` on names |
| ordered_dicts.dfy | `OrderedDicts` | the dict comprehension `{key(x): x for x in xs}` with Python's insertion order |
| models.dfy | `Models` | the dataclasses, a JSON value datatype, the dict forms and their round trips |
| diff.dfy | `DiffEngine` | `Diff`, the specification of `compute_diff` as a value. `ComputeDiff` is the method, with its two multireddit loops in `ScanSource` and `ScanTarget`, proved equal to it |
| diff_properties.dfy | `DiffProperties` | what the diff lists contain, how they relate, convergence, and worked examples |
| sync.dfy | `Sync` | the writer as a class with a ghost call trace, and `SyncService` as a class whose loops are proved to issue exactly `PlannedOps` |
| sync_properties.dfy | `SyncProperties` | phase order, per-kind calls, call counts, when no call is made, and an end-to-end run |

The writer's methods return an arbitrary `bool`, because success is the
remote's answer. Each call appends an `Op` to the writer's ghost `trace`.
`SyncService.Execute` is proved to leave the trace as
`old(trace) + (if dryRun then [] else PlannedOps(diff, syncSubs, syncMultis, clean))`.
This holds whatever any call returned. The lemmas in `SyncProperties`
then state what `PlannedOps` contains.

## Model

| member | source | states |
|---|---|---|
| CaseFold.LowerChar | reddit_sync/diff.py:24 | upper-case ASCII letters map to the matching lower-case letter, offset 32; every other character is unchanged |
| CaseFold.Lower | reddit_sync/diff.py:24-25 | `s.lower()` keeps the length and lower-cases each character in place |
| CaseFold.LowerIsLower | reddit_sync/diff.py:24-25 | the result of lower-casing has no upper-case letter, and lower-casing twice equals lower-casing once |
| CaseFold.LowerOfLower | reddit_sync/diff.py:24-25 | a name with no upper-case letter is its own lower-cased key |
| OrderedDicts.LastIndex | reddit_sync/diff.py:24-25 | gives the index of the last item with key `k`, with no later item having that key, or -1 when no item has it |
| OrderedDicts.Put | reddit_sync/diff.py:24-25 | dict assignment: the value is replaced, a new key goes to the end, an existing key keeps its position, and keys stay distinct |
| OrderedDicts.FromSeq | reddit_sync/diff.py:24-25 | the comprehension dict has distinct keys, a key is listed exactly when it has a value, and there are no more keys than items |
| OrderedDicts.FromSeqKeys | reddit_sync/diff.py:31-32 | the dict's keys are exactly the keys of the items |
| OrderedDicts.FromSeqLast | reddit_sync/diff.py:31-32 | the value under each key is the last item with that key |
| DiffEngine.LastMulti | reddit_sync/diff.py:31-32 | the multireddit a name maps to is the last one in the list with that lower-cased name |
| DiffEngine.Without | reddit_sync/diff.py:45-46 | set difference as a list: `k` is in the result iff it is in `ks` and not excluded; distinct input gives distinct output |
| DiffEngine.Members | reddit_sync/diff.py:43-44 | the lower-cased members of a multireddit, each listed once, are exactly its lower-cased member set |
| DiffEngine.UpdateFor | reddit_sync/diff.py:42-54 | an update is produced iff the lower-cased member sets differ; it carries the source spelling of the name and a non-empty `add` or `remove` |
| DiffEngine.UpdateMembers | reddit_sync/diff.py:43-53 | `add` is exactly source members minus target members, `remove` is exactly target minus source (lower-cased), each without repeats |
| DiffEngine.SelectLength | reddit_sync/diff.py:27-28 | the filtered comprehension `Select` has at most one item per key it filters; `SelectSpec` states which items |
| DiffEngine.UpdatesLength | reddit_sync/diff.py:38-54 | the update loop's specification `Updates` gives at most one update per key |
| DiffEngine.UpdatesEdit | reddit_sync/diff.py:47-54 | every update `Updates` gives has a non-empty `add` or `remove` |
| DiffEngine.MissingSubs | reddit_sync/diff.py:24-28 | one side's subreddits missing from the other: at most one per subreddit of that side (their names and spellings are in `MissingSubsNames` and `MissingSubsSpellings`) |
| DiffEngine.MissingMultis | reddit_sync/diff.py:31-58 | one side's multireddits whose name the other lacks: at most one per multireddit of that side (which ones: `MissingMultisItems`, `MissingMultisNames`) |
| DiffEngine.MultiUpdates | reddit_sync/diff.py:38-54 | at most one update per source multireddit, each with a non-empty `add` or `remove` (which ones: `MultiUpdatesSpec`) |
| DiffEngine.Diff | reddit_sync/diff.py:6-66 | `compute_diff` as a value: no list is longer than the input it is drawn from, and every update edits something; the lemmas of `DiffProperties` give the contents |
| DiffEngine.ComputeDiff | reddit_sync/diff.py:6-66 | the method returns exactly the specification value `Diff` |
| DiffEngine.ScanSource | reddit_sync/diff.py:38-54 | the loop over the source names yields, in key order, the source-only multireddits and the updates of the shared names |
| DiffEngine.ScanTarget | reddit_sync/diff.py:56-58 | the loop over the target names yields, in key order, the target-only multireddits |
| DiffProperties.FromSeqKeyed | reddit_sync/diff.py:24-25 | every dict value is stored under its own key and is the last item of the list with that key |
| DiffProperties.SelectSpec | reddit_sync/diff.py:27-28 | the filtered list comprehension holds exactly the values of the keys outside the excluded set, and no key twice when the keys are distinct |
| DiffProperties.MissingSubsSpellings | reddit_sync/diff.py:24-27 | every listed subreddit is a spelling from its own side, namely the last spelling of its lower-cased name, and no lower-cased name repeats |
| DiffProperties.MissingSubsNames | reddit_sync/diff.py:27-28 | the lower-cased names listed are exactly those only this side has |
| DiffProperties.SubsDiffSpec | reddit_sync/diff.py:24-28 | `subs_to_add` lower-cases to source minus target and `subs_to_remove` to target minus source; the two are disjoint; the spellings come from source and target respectively |
| DiffProperties.AntiSymmetry | reddit_sync/diff.py:27-58 | swapping the accounts swaps `subs_to_add` with `subs_to_remove` and `multis_to_add` with `multis_to_remove`, element for element |
| DiffProperties.CaseFoldExample | reddit_sync/diff.py:24-28 | `["AskReddit"]` against `["askreddit"]` adds nothing and removes nothing |
| DiffProperties.SubsExample | reddit_sync/diff.py:24-28 | source a, b, c against target b, d adds `["a", "c"]` and removes `["d"]` |
| DiffProperties.MissingMultisItems | reddit_sync/diff.py:31-58 | each multireddit added or removed is the last one of its side with that lower-cased name, and no name repeats |
| DiffProperties.MissingMultisNames | reddit_sync/diff.py:38-58 | the names added (or removed) are exactly those only the source (or only the target) has |
| DiffProperties.UpdatesSpec | reddit_sync/diff.py:38-54 | the loop's updates are exactly those for keys on both sides whose member sets differ, each carrying the source name, with no repeated name when the keys are distinct |
| DiffProperties.UpdatesSound | reddit_sync/diff.py:38-54 | every update comes from a listed key present on both sides, is the update for that key, and carries the source multireddit's name |
| DiffProperties.UpdatesComplete | reddit_sync/diff.py:38-54 | every listed key present on both sides whose member sets differ has its update in the list |
| DiffProperties.UpdatesDistinct | reddit_sync/diff.py:38-54 | over distinct keys, no lower-cased name is updated twice |
| DiffProperties.MultiUpdatesSpec | reddit_sync/diff.py:38-54 | every update is for a name both sides have and equals the update between the two last multireddits of that name; a shared name is updated iff its member sets differ; no name is updated twice |
| DiffProperties.MultiBuckets | reddit_sync/diff.py:31-58 | add holds exactly the source-only names, remove exactly the target-only names, update only shared names, and the three lists are pairwise disjoint by name |
| DiffProperties.UpdateContents | reddit_sync/diff.py:43-53 | every emitted update has the source spelling of the name, a non-empty `add` or `remove`, and exactly the member-set differences |
| DiffProperties.NoChangesIffConverged | reddit_sync/diff.py:24-58 | the diff has no changes iff both sides agree under case-folding: same subreddits, same multireddit names and same members |
| DiffProperties.ConvergedHasNoChanges | reddit_sync/diff.py:24-58 | two accounts that agree under case-folding give a diff with no changes |
| DiffProperties.NoChangesConverged | reddit_sync/diff.py:24-58 | a diff with no changes comes only from accounts that agree under case-folding |
| DiffProperties.NoneMissingSameSubs | reddit_sync/diff.py:24-28 | when neither side misses a subreddit of the other, both have the same lower-cased subreddit names |
| DiffProperties.NoneMissingSameNames | reddit_sync/diff.py:31-58 | when neither side misses a multireddit of the other, both have the same lower-cased multireddit names |
| DiffProperties.NoUpdatesSameMembers | reddit_sync/diff.py:38-54 | when there are no updates, every shared multireddit has the same lower-cased members on both sides |
| DiffProperties.SelfDiffHasNoChanges | reddit_sync/diff.py:27-58 | diffing an account against itself gives a diff with no changes |
| DiffProperties.EmptyInputs | reddit_sync/diff.py:24-66 | four empty lists give a diff whose five lists are empty |
| DiffProperties.NewsExample | reddit_sync/diff.py:38-54 | "news" with worldnews and politics against "news" with worldnews gives exactly one update, adding politics |
| Models.SyncDiff.HasChanges | reddit_sync/models.py:82-90 | true iff at least one of the five lists is non-empty |
| Models.Strings | reddit_sync/models.py:13-15 | a list of names as a JSON array holding the names in order, which reads back unchanged |
| Models.AsStrings | reddit_sync/models.py:20 | reading a list of names succeeds iff the value is an array of strings, and then gives those strings in order |
| Models.MultiToDict | reddit_sync/models.py:13-15 | the dict has exactly the keys "name" and "subreddits", which read back as the fields |
| Models.MultiFromDict | reddit_sync/models.py:17-20 | loading succeeds iff "name" is a string and "subreddits" is absent or a list of strings; it fails with MissingKey("name") iff "name" is missing; a loaded multireddit carries the dict's values, with the empty list for a missing "subreddits" |
| Models.MultiDefaultSubreddits | reddit_sync/models.py:20 | a dict with a string "name" and no "subreddits" loads with no members, whatever other keys it has |
| Models.MultiRoundTrip | reddit_sync/models.py:13-20 | `from_dict(to_dict(m)) == m` |
| Models.MultisToJson | reddit_sync/models.py:49 | item `i` is the `to_dict` of multireddit `i` |
| Models.MultisFromJson | reddit_sync/models.py:58 | loading succeeds iff every item is an object that loads; then multireddit `i` is the one loaded from item `i`; any failure is one of the per-item errors |
| Models.MultisRoundTrip | reddit_sync/models.py:13-59 | a list of multireddits reads back unchanged |
| Models.UpdateToDict | reddit_sync/models.py:31-33 | exactly the keys "name", "add" and "remove", carrying the fields unchanged |
| Models.UpdatesToJson | reddit_sync/models.py:80 | the list holds each update's own `to_dict`, in order |
| Models.AccountToDict | reddit_sync/models.py:44-50 | exactly the keys "source_account", "subreddits" and "multireddits", holding the username, the subreddit names (reading back unchanged) and item by item each multireddit's `to_dict` |
| Models.AccountFromDict | reddit_sync/models.py:52-59 | loading succeeds iff each of the three keys is absent or well-formed (a string, a list of strings, a list of loadable multireddits); a present key's value is carried into the result, an absent one gives "unknown" or the empty list; a failure is a wrong shape or a multireddit's own error |
| Models.AccountDefaults | reddit_sync/models.py:55-58 | loading the empty dict gives `AccountData("unknown", [], [])` |
| Models.AccountIgnoresExtraKeys | reddit_sync/models.py:52-59 | keys other than the three known ones do not affect loading |
| Models.AccountRoundTrip | reddit_sync/models.py:44-59 | `from_dict(to_dict(a)) == a`, also after an "exported_at" key is added |
| Models.MissingNameFailsLoad | reddit_sync/models.py:17-58 | an export whose multireddit has no "name" fails to load with MissingKey("name") |
| Models.DiffToDict | reddit_sync/models.py:72-80 | exactly the five keys of the diff |
| Models.DiffToDictSubs | reddit_sync/models.py:75-76 | the two subreddit entries read back as the names, unchanged |
| Models.DiffToDictReadBack | reddit_sync/models.py:77-78 | the two multireddit entries load back through `from_dict` as the lists they render |
| Models.DiffToDictEntries | reddit_sync/models.py:77-79 | item `i` of each multireddit or update entry is the `to_dict` of item `i` of that list |
| Sync.RedditWriter.constructor | reddit_sync/reddit/protocols.py:20-23 | the writer has its account's username and has made no call yet |
| Sync.RedditWriter.SubscribeToSubreddit | reddit_sync/reddit/protocols.py:25-27 | records exactly one subscribe call |
| Sync.RedditWriter.UnsubscribeFromSubreddit | reddit_sync/reddit/protocols.py:29-31 | records exactly one unsubscribe call |
| Sync.RedditWriter.CreateMultireddit | reddit_sync/reddit/protocols.py:33-35 | records exactly one create call with the name and members |
| Sync.RedditWriter.DeleteMultireddit | reddit_sync/reddit/protocols.py:37-39 | records exactly one delete call |
| Sync.RedditWriter.AddSubToMulti | reddit_sync/reddit/protocols.py:41-43 | records exactly one add-member call |
| Sync.RedditWriter.RemoveSubFromMulti | reddit_sync/reddit/protocols.py:45-47 | records exactly one remove-member call |
| Sync.UnsubscribeOps | reddit_sync/sync.py:54-55 | one unsubscribe call per subreddit |
| Sync.SubscribeOps | reddit_sync/sync.py:70-71 | one subscribe call per subreddit |
| Sync.CreateOps | reddit_sync/sync.py:77-82 | one create call per new multireddit |
| Sync.AddOps | reddit_sync/sync.py:94-95 | one add-member call per member to add |
| Sync.RemoveOps | reddit_sync/sync.py:97-98 | one remove-member call per member to remove |
| Sync.UpdateOps | reddit_sync/sync.py:85-99 | the update phase makes one call per member to add or remove, summed over the updates (`EditCount`) |
| Sync.SubredditOps | reddit_sync/sync.py:35-73 | the subreddit phase makes one call per subreddit to add plus, when cleaning, one per subreddit to remove |
| Sync.MultiredditOps | reddit_sync/sync.py:75-99 | the multireddit phase makes one call per multireddit to create plus one per membership edit |
| Sync.PlannedOps | reddit_sync/sync.py:14-99 | the number of calls of a live run, nothing skipped: the subreddit phase's when syncing subreddits plus the multireddit phase's when syncing multireddits |
| Sync.CreateOpsStep | reddit_sync/sync.py:77-82 | one more multireddit adds exactly its create call at the end |
| Sync.UpdateOpsStep | reddit_sync/sync.py:85-99 | one more update appends its additions, then its removals |
| Sync.SyncService.constructor | reddit_sync/sync.py:10-12 | the service holds the target writer and the dry-run flag |
| Sync.SyncService.Execute | reddit_sync/sync.py:14-33 | dry run: the writer's trace is unchanged; live: it grows by exactly `PlannedOps`, whatever each call returned |
| Sync.SyncService.SyncSubreddits | reddit_sync/sync.py:35-41 | unsubscriptions only when cleaning, then subscriptions, none in dry run |
| Sync.SyncService.UnsubscribeFromSubs | reddit_sync/sync.py:43-57 | dry run: no call; live: one unsubscribe per subreddit, in order |
| Sync.SyncService.SubscribeToSubs | reddit_sync/sync.py:59-73 | dry run: no call; live: one subscribe per subreddit, in order |
| Sync.SyncService.SyncMultireddits | reddit_sync/sync.py:75-99 | dry run: no call; live: all creations, then all updates |
| Sync.SyncService.CreateMultis | reddit_sync/sync.py:77-83 | one create call per new multireddit, in order; none in dry run |
| Sync.SyncService.UpdateMultis | reddit_sync/sync.py:85-99 | each update's calls, update by update; none in dry run |
| Sync.SyncService.ApplyUpdate | reddit_sync/sync.py:93-99 | all the additions of one update, in order, then all its removals |
| SyncProperties.UnsubscribeOpsAt | reddit_sync/sync.py:54-55 | call `i` unsubscribes from subreddit `i` |
| SyncProperties.SubscribeOpsAt | reddit_sync/sync.py:70-71 | call `i` subscribes to subreddit `i` |
| SyncProperties.CreateOpsAt | reddit_sync/sync.py:77-82 | call `i` creates multireddit `i` with its name and members |
| SyncProperties.AddOpsAt | reddit_sync/sync.py:94-95 | call `i` adds member `i` to the named multireddit |
| SyncProperties.RemoveOpsAt | reddit_sync/sync.py:97-98 | call `i` removes member `i` from the named multireddit |
| SyncProperties.NoEditsNoUpdates | reddit_sync/diff.py:47 | when every update edits something, there are no edits iff there are no updates |
| SyncProperties.UpdateOpsAppend | reddit_sync/sync.py:85 | the update calls of two lists of updates are those of the first, then those of the second |
| SyncProperties.UpdateBlock | reddit_sync/sync.py:85-99 | update `k`'s calls form one block, all additions before all removals, between the earlier and the later updates' calls |
| SyncProperties.OfPhase | reddit_sync/sync.py:29-33 | the calls kept for one phase are no more than the calls given and all belong to that phase |
| SyncProperties.OfPhaseComplete | reddit_sync/sync.py:29-33 | every call of that phase is kept |
| SyncProperties.OfPhaseAppend | reddit_sync/sync.py:29-33 | the calls of a phase in a concatenation are those of each part in turn |
| SyncProperties.OfPhaseWithin | reddit_sync/sync.py:29-33 | a list of calls of one phase is its own projection on that phase and has none in any other |
| SyncProperties.UpdateOpsWithin | reddit_sync/sync.py:85-99 | every update call is an add-member or remove-member call |
| SyncProperties.KindsWithin | reddit_sync/sync.py:43-99 | each helper issues only its own kind of call |
| SyncProperties.PlannedOrder | reddit_sync/sync.py:29-99 | unsubscriptions, then subscriptions, then creations, then edits; no call deletes a multireddit, so `multis_to_remove` is not acted on |
| SyncProperties.PlannedParts | reddit_sync/sync.py:29-99 | a live run's calls are the unsubscriptions, subscriptions, creations and edits, in that order, each present only when its flags are set |
| SyncProperties.PlannedPhases | reddit_sync/sync.py:29-99 | the unsubscribe calls are exactly `subs_to_remove` when syncing subreddits with cleaning (else none); the subscribe calls are exactly `subs_to_add` when syncing subreddits; creations and edits follow `multis_to_add` and `multis_to_update` when syncing multireddits; there are no delete calls |
| SyncProperties.NoChangesNoCalls | reddit_sync/sync.py:35-99 | a diff without changes makes no call, whatever the flags |
| SyncProperties.SelfSyncNoCalls | reddit_sync/diff.py:24-58 | syncing an account onto an identical one makes no call |
| SyncProperties.FullSyncCallsIff | reddit_sync/sync.py:29-99 | a full cleaning run of a computed diff makes no call iff nothing is to be added, removed, created or updated |
| SyncProperties.PlannedUpdateBlock | reddit_sync/sync.py:75-99 | with multireddits synced, update `k`'s additions-then-removals come after all subreddit calls, all creations and earlier updates, and before later updates |
| SyncProperties.ExampleRun | reddit_sync/sync.py:29-73 | source a, b, c against target b, d with cleaning makes exactly: unsubscribe d, subscribe a, subscribe c |

## Left out

- Network I/O, HTML scraping, sessions, the CLI, credential storage and export files are not part of this model. Only the dict form of an export is modelled.
- The console output (the per-call "OK"/"FAILED" lines, the dry-run text and its 10-item truncation) is not modelled. The writer's boolean results feed only that output, and no call depends on them.
- The writer is the abstract `RedditWriter` protocol. Its outcome is an arbitrary `bool`, and its effect on the remote account is not modelled. Only the calls are recorded, in a ghost trace.
- CaseFold.Lower: lower-cases ASCII letters only. Python's `str.lower()` also folds non-ASCII letters and can change a string's length.
- CaseFold.LowerChar: folds only 'A' to 'Z'. Python's `str.lower()` also folds non-ASCII letters.
- Models.MultiFromDict: a non-string "name", or a "subreddits" that is not an array or holds a non-string item, is rejected with `WrongShape`. Python's `from_dict` stores both values as they are and does not fail.
- Models.AccountFromDict: rejects with `WrongShape` a non-string "source_account", or a "subreddits" that is not an array or holds a non-string item. Python stores both values as they are and does not fail.
- Models.AccountFromDict: rejects with `WrongShape` any "multireddits" that is not an array. Python iterates that value at once. An empty string or an empty object therefore loads as no multireddits. A non-empty string or object fails with a `TypeError` when an item is indexed by "name".
- Models.AccountFromDict: rejects with `WrongShape` a "multireddits" item that is not an object. Python fails there too, with a `TypeError`, so only the kind of error differs.
- The `Json` datatype has strings, arrays and objects only. It has no null, number or boolean, so a file holding, say, `"subreddits": null` (which Python loads as `None`) has no counterpart in the model.
- DiffEngine.UpdateFor: `add` and `remove` list the lower-cased members in order of first appearance. Python builds them with `list(set)`, whose order is unspecified. This is one admissible order, and no property relies on it.
- DiffEngine.ComputeDiff: the two multireddit loops of `compute_diff` are separate methods (`ScanSource`, `ScanTarget`). The lists they build and their order are those of the single Python function.
- Sync.SyncService.SyncMultireddits: the two loops and the per-update loop body are separate methods (`CreateMultis`, `UpdateMultis`, `ApplyUpdate`). The calls they make and their order are those of the single Python method.
- The Python defaults are not modelled: `dry_run=False` of `SyncService.__init__`, and `sync_subs=True`, `sync_multis=True`, `clean=False` of `execute`. Every flag is an explicit parameter here, as every call in the CLI passes them.
- `execute` returns `None` and only prints each call's outcome; the model returns nothing.
- The `RedditReader` protocol is not part of this model. The lists it would return are the inputs of `ComputeDiff`.
