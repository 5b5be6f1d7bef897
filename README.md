# Pod dashboard: message list handling

A model of the message list that the `App` component of the pod dashboard keeps
(src/App.jsx). The list starts with three predefined messages. A poll of the message store
merges the fetched array into it: the predefined messages come first, then the other previous
messages, then the fetched entries whose key (`_id`, or `msgID` when `_id` is empty or absent)
is not yet in the list. Sending appends an optimistic message from "Me" when a node is
selected and the input is not blank. From the list the component derives the node list for
the sidebar, the messages of the selected node and the latest GPS string for the map.

Modules:

- `Wrappers` (wrappers.dfy): `Option` and `Result`.
- `Text` (text.dfy): JavaScript `trim` and the whitespace it removes.
- `Seqs` (seqs.dfy): `filter` and `Array.from(new Set(...))` as functions, with index-based
  statements of which elements they keep and in which order.
- `Reconcile` (reconcile.dfy): the message record, the seed list, the key, and the merge
  that follows a successful fetch, with its properties.
- `Views` (views.dfy): the node list, the per-node filter and the latest-GPS scan.
- `AppState` (app.dfy): the class `App` holding `messages`, `selectedNode` and `msgInput`,
  and the handlers that change them.

A record field holds a string or is absent: `Option<string>`, with JavaScript truthiness
being "present and non-empty". The key test uses `||`, so an empty `_id` falls back to `msgID`.

A second merge of the same array changes nothing when no entry the first merge added carries
one of the predefined client ids "1", "2" or "3" (`MergeIdempotent`). An added entry with
such a client id (one with a server `_id` and `msgID` "1", say) has a fresh key, so the first
merge appends it. The second merge then moves it into the predefined segment, ahead of the
user messages (`MergeReordersLateBootstrap`). Keys stay distinct across a merge when the
previous list and the fetched array each have distinct keys (`MergeKeepsKeysDistinct`).
Entries of the array whose key is already known are dropped, but two entries of the array
with the same unseen key are both appended (`MergeKeepsRemoteDuplicates`). The latest-GPS
scan returns the last non-blank gps string whether or not it parses as coordinates. Only the
map widget (src/components/GoogleMapView.jsx:20-21) checks that.

## Model

| member | source | states |
|---|---|---|
| Text.Trim | src/App.jsx:78 | the trimmed text is no longer than the input and neither starts nor ends with whitespace |
| Text.TrimIsSlice | src/App.jsx:78 | the trimmed text is a slice of the input, and everything cut from either end is whitespace |
| Text.TrimEmptyIffBlank | src/App.jsx:78 | `!msgInput.trim()` holds exactly when the input is made of whitespace only (the empty string included) |
| Seqs.Filter | src/App.jsx:53-59 | `filter` keeps no more elements than it is given, and keeps exactly the elements that pass the test |
| Seqs.FilterSelects | src/App.jsx:53-59 | `filter` returns exactly the order-preserving subsequence of the positions whose element passes the test |
| Seqs.Dedup | src/App.jsx:115-122 | `Array.from(new Set(s))` has no repeats and holds exactly the values of `s` |
| Seqs.DedupKeepsFirstOccurrences | src/App.jsx:115-122 | the deduplicated list is exactly the subsequence of first occurrences, in input order (a `Set` iterates in insertion order) |
| Seqs.DedupKeepsPartsInOrder | src/App.jsx:116-119 | after deduplicating a concatenation, an element of the first part comes before every element that is not in the first part |
| Reconcile.Seed | src/App.jsx:11-37 | the initial list has three messages, all with a predefined client id |
| Reconcile.Key | src/App.jsx:58-59 | the key: `_id` when present and non-empty, otherwise `msgID`; `MergeMatchesOnKey` states its effect on the merge |
| Reconcile.MergeMatchesOnKey | src/App.jsx:58-59 | a remote entry without a truthy `_id` is added exactly when its `msgID` is not a previous key; one with a truthy `_id` is added exactly when that `_id` is not a previous key, whatever its `msgID` |
| Reconcile.KnownKeys | src/App.jsx:58 | the set of previous keys; `MergeKnowsAllKeys` states what it holds after a merge |
| Reconcile.IsBootstrap | src/App.jsx:53-55 | the predefined-id test; `MergeLayout` and `MergeKeepsLeadingBootstrap` state what the merge does with the messages that pass it |
| Reconcile.Unseen | src/App.jsx:59 | a remote entry is among the new ones exactly when its key is not a previous key |
| Reconcile.MergeFetched | src/App.jsx:51-62 | the merged list is as long as the previous list plus the new remote entries: nothing is dropped |
| Reconcile.MergeMembers | src/App.jsx:62 | a message is in the merged list exactly when it is a previous message or a new remote entry |
| Reconcile.MergeKeepsLeadingBootstrap | src/App.jsx:53-55 | predefined messages that lead the previous list still lead the merged list, in the same order |
| Reconcile.MergeKeepsPrevious | src/App.jsx:51-62 | the merged list holds every previous message exactly as often as before, in as many leading places as the previous list had; after them come the unseen remote entries, so the length grows by their number |
| Reconcile.MergeLayout | src/App.jsx:53-62 | the merged list is the predefined previous messages in order, then the other previous messages in order, then the remote entries with unseen keys in remote order, each segment exactly those elements |
| Reconcile.MergeAddsOnlyUnseenKeys | src/App.jsx:58-59 | every added entry comes from the remote array and has a key not among the previous keys, and every remote entry with such a key is added |
| Reconcile.MergeKnowsAllKeys | src/App.jsx:58-62 | after a merge the known keys are the previous keys plus those of the added entries, and they include the key of every remote entry |
| Reconcile.PartitionOfOrdered | src/App.jsx:53-62 | on a list whose predefined messages lead, the two partitions are the two parts |
| Reconcile.MergeAppendsWhenOrdered | src/App.jsx:51-62 | when the predefined messages already lead the list, a merge only appends the unseen remote entries |
| Reconcile.MergeIdempotent | src/App.jsx:58-62 | merging the same array a second time returns the first result unchanged, when no added entry has a predefined client id |
| Reconcile.MergeReordersLateBootstrap | src/App.jsx:53-62 | an added entry with a predefined client id is moved ahead of the user messages by the next merge of the same array, so the merge is then not idempotent |
| Reconcile.RemoteCopyOfSeedIsIgnored | src/App.jsx:58-59 | merging a remote copy keyed "2" and one new entry into the seed list gives the seed list plus the new entry: four messages, the original message 2 kept |
| Reconcile.MergeKeepsKeysDistinct | src/App.jsx:58-62 | when the previous list and the remote array each have distinct keys, so does the merged list |
| Reconcile.MergeKeepsRemoteDuplicates | src/App.jsx:59 | two remote entries with the same unseen key are both appended |
| Views.ForNode | src/App.jsx:126-128 | the per-node test; `NodeMessages` and `NodeMessagesExactly` state which messages pass it |
| Views.NodeMessages | src/App.jsx:125-129 | a message is in the node's conversation exactly when it is sent by the node, or sent by "Me" to the node |
| Views.NodeMessagesExactly | src/App.jsx:125-129 | a node's messages are exactly the order-preserving subsequence of messages sent by the node, or sent by "Me" to the node |
| Views.SentMessageVisible | src/App.jsx:125-129 | a message "Me" appends for a node becomes the last message of that node's conversation and leaves the other nodes' conversations unchanged |
| Views.IsNodeName | src/App.jsx:120 | the `n && n !== "Me"` test; `Names` and `NamesIndices` state which fields pass it |
| Views.Names | src/App.jsx:120 | the kept names are non-empty, never "Me", and include every sender or target that passes `n && n !== "Me"` |
| Views.NamesIndices | src/App.jsx:120 | the kept names are the values of exactly the fields that pass `n && n !== "Me"`, in the order of the fields |
| Views.Senders | src/App.jsx:118 | one entry per message, the message's sender, in list order |
| Views.Targets | src/App.jsx:119 | one entry per message, the message's target, in list order |
| Views.UniqueNodes | src/App.jsx:115-122 | the node list has no repeats, no empty name and no "Me" |
| Views.UniqueNodesCleanAndComplete | src/App.jsx:115-122 | the node list has no repeats, and a name is in it exactly when it is non-empty, not "Me", and some message's sender or target |
| Views.SendersBeforeTargets | src/App.jsx:117-119 | a name that some message sends from precedes every name that no message sends from |
| Views.DedupNamesInFirstOccurrenceOrder | src/App.jsx:115-122 | two names of the node list built from a list of fields are in the order of their first fields |
| Views.SendersInFirstSentOrder | src/App.jsx:115-122 | two senders are listed in the order of their first sent messages, both ways |
| Views.TargetsInFirstTargetedOrder | src/App.jsx:115-122 | two names that no message is sent from are listed in the order of the first messages sent to them, both ways |
| Views.HasGps | src/App.jsx:134 | the gps test of the scan; `HasGpsIffNotBlank` states what it accepts |
| Views.LatestGps | src/App.jsx:132-137 | the result is null exactly when no message has a non-blank gps; otherwise it is the untrimmed gps of the last message that has one |
| Views.HasGpsIffNotBlank | src/App.jsx:134 | `gps && gps.trim()` holds exactly when the gps is present and has a non-whitespace character |
| AppState.App.constructor | src/App.jsx:11-39 | the list starts as the three seed messages, the selected node is "PodA" and the input is empty |
| AppState.App.FetchMessages | src/App.jsx:45-67 | a failed fetch leaves the list unchanged; a fetched array is merged; the list only grows, and the three seed messages stay its first three, in order |
| AppState.App.SendMessage | src/App.jsx:77-93 | with no selected node or a blank input nothing changes; otherwise exactly one message from "Me" to the selected node is appended with the untrimmed text and empty gps, the input is cleared, and the posted body is returned |
| AppState.App.SelectNode | src/App.jsx:177 | clicking a node makes it the selected node |
| AppState.App.TypeMessage | src/App.jsx:231 | typing sets the input |

## Left out

- Network I/O: the GET in `fetchMessages`, `res.json()` and the POST in `sendMessage` are not modelled. `FetchMessages` takes the decoded array, or the error, as a parameter. `SendMessage` returns the body it would post.
- The refetch that `sendMessage` starts after posting (src/App.jsx:108) is a separate `FetchMessages` call by the caller. It runs only when the POST resolves: a rejected POST goes to the catch at src/App.jsx:109-111, which logs the error and skips the refetch.
- Timers: the 5-second polling interval and its cleanup are not modelled.
- Concurrency: overlapping fetches that resolve out of order are not modelled. Each `FetchMessages` call is one atomic update of the current list.
- Clock values: `Date.now().toString()` and `toLocaleString()` are parameters (`clientId`, `stamp`).
- Malformed bodies: the fetched body is taken to be an array of records. A JSON body that is not an array, or an array holding `null`, makes `data.filter` or `m._id` throw inside the updater (src/App.jsx:59). React runs the updater outside the try/catch at src/App.jsx:46-66, so that error is not logged and ignored like a failed fetch: it escapes into rendering. `FetchMessages` has no such case.
- Record fields: each field is a string or absent. Fields of other JSON types are not modelled, and `null` and `undefined` are not told apart. Fields the code never reads, such as `receiver` on stored records, are not modelled.
- The `predefined.includes(m)` identity test is modelled as "not predefined". The two agree on every element of the previous list, because `predefined` is that list filtered by the predefined-id test.
- Rendering, the navbar, the battery view and the status popup are not modelled. src/components/BatteryDashboard.jsx is floating-point arithmetic on simulated battery readings and display formatting. src/components/CheckStatus.jsx polls the pod store every minute, posts a manual check, and falls back to sample data when a request fails (src/components/CheckStatus.jsx:34-64); it does not touch the message list.
- The coordinate check in src/components/GoogleMapView.jsx is not modelled, because it relies on `parseFloat` and `isNaN`.
- MergeIdempotent: proved when no added entry has client id "1", "2" or "3", a sufficient condition, not a necessary one. The merge is not idempotent in general; see MergeReordersLateBootstrap.
- MergeKeepsKeysDistinct: proved when the previous list and the fetched array each have distinct keys, a sufficient condition. Entries of the array with an already known key are dropped, so repeats of a known key do no harm; two entries with the same unseen key are both appended (see MergeKeepsRemoteDuplicates).
