# MeshCore panel coordinator in Dafny

This project models `MeshCorePanelCoordinator`, the coordinator of the
MeshCore panel integration for Home Assistant
(`custom_components/meshcore_panel/__init__.py`). The coordinator keeps three
pieces of state between events:

- the direct-link table `direct_links`: source prefix → destination prefix →
  last-seen time and count;
- the last-message times;
- the set of greeted keys.

It updates that state from `meshcore_raw_event`s. Every five minutes it
exports a heatmap, a nodemap and a direct-links graph, and it resolves node
prefixes to contacts along the way. A daily sweep asks the radio to remove
silent contacts.

The model keeps the source's shape. The coordinator is a `class` whose fields
are those three pieces of state. Its methods change them under `modifies`
clauses, and the loops of the source appear as loops with invariants. Each
method is proved against a pure specification in one of these modules:

| module | what it holds |
|---|---|
| `MeshTypes` | Entity records, link entries, ASCII lower-casing, time constants |
| `LinkStore` | The link table as a value: recording a half-edge, ingesting a relay path, pruning at save time, and the symmetry these keep |
| `Resolver` | `_get_node_info` as a function of the prefix and the host's states |
| `Ranking` | The `node_data` counters (one entry per pubkey) and the descending sort by count |
| `Greeting` | The new-contact greeting: when it happens, which service calls it makes, the greeted set afterwards |
| `Cleanup` | Which contacts the daily sweep removes |
| `Export` | What the three exports compute |
| `Coordinator` | The class itself and its methods |

The host's entity states, the clock (`now`), the threshold settings and the
outcome of each outbound service call are parameters of the methods. A
half-edge is one direction `a -> b` of a link.

In the tables below, `__init__.py` stands for `custom_components/meshcore_panel/__init__.py`.

## Model

The table lists the properties first. Its last rows, from
`LinkStore.PrunedFromStep` on, are loop steps: each states one step of a loop
and unfolds a definition once, and the invariants and inductions are built
from them.

| member | source | states |
|---|---|---|
| LinkStore.RecordLinkEntry | custom_components/meshcore_panel/__init__.py:255-268 | Recording a -> b at t sets that half-edge to last-seen t and count one more than before (from 0 when new or countless); every other half-edge is unchanged and a becomes a source |
| LinkStore.RecordPairEntry | custom_components/meshcore_panel/__init__.py:252-253 | Recording a pair in both directions touches x -> y exactly `PairHits` times (0, 1 or 2) and leaves it unchanged otherwise |
| LinkStore.IngestEntry | custom_components/meshcore_panel/__init__.py:237-253 | After a path is ingested, a half-edge the path does not touch keeps its value (no link between non-adjacent nodes is created); a touched one has last-seen t and its count raised by the number of times it was touched |
| LinkStore.HitsSymmetric | custom_components/meshcore_panel/__init__.py:248-253 | A path touches x -> y as often as y -> x |
| LinkStore.IngestMirror | custom_components/meshcore_panel/__init__.py:248-253 | A half-edge and its mirror image that agree before a path is ingested agree after it |
| LinkStore.IngestKeepsSymmetry | custom_components/meshcore_panel/__init__.py:237-253 | Ingesting any path keeps a symmetric table symmetric |
| LinkStore.IngestTwice | custom_components/meshcore_panel/__init__.py:255-268 | A half-edge absent before is, after the same path is seen twice, absent if untouched, else last seen at the second time and counted twice per touch |
| LinkStore.AdjacentPairCounted | custom_components/meshcore_panel/__init__.py:248-268 | Each adjacent pair of a three-node path, in either direction, is counted 1 after one sighting and 2 after two |
| LinkStore.ThreeNodePathOnce | custom_components/meshcore_panel/__init__.py:237-268 | Path X,Y,Z seen at 1000: X<->Y and Y<->Z exist in both directions with count 1 and last-seen 1000 |
| LinkStore.ThreeNodePathTwice | custom_components/meshcore_panel/__init__.py:237-268 | The same path seen again at 2000: those four half-edges have count 2 and last-seen 2000 |
| LinkStore.ThreeNodeEndsUnlinked | custom_components/meshcore_panel/__init__.py:248-253 | X and Z, not adjacent on the path, are never linked in either direction |
| LinkStore.PrunedEntry | custom_components/meshcore_panel/__init__.py:176-188 | The pruned table holds exactly the half-edges at most 7 days old (a missing last-seen counts as 0), and no source with an empty map |
| LinkStore.PrunedKeepsSymmetry | custom_components/meshcore_panel/__init__.py:179-188 | Pruning keeps a symmetric table symmetric |
| LinkStore.PrunedMessages | custom_components/meshcore_panel/__init__.py:200-203 | A last-message time is kept, unchanged, exactly when it is at most 7 days old |
| Resolver.MatchesEmpty | custom_components/meshcore_panel/__init__.py:543-569 | There are no matches exactly when no record is a contact with a non-empty key starting with the prefix (both lower-cased) and both coordinates |
| Resolver.MatchesSound | custom_components/meshcore_panel/__init__.py:546-566 | Every match is built from some record that qualifies |
| Resolver.MatchesComplete | custom_components/meshcore_panel/__init__.py:546-566 | Every record that qualifies is a match |
| Resolver.MatchesOne | custom_components/meshcore_panel/__init__.py:546-566 | A single record yields its own match when it qualifies and none otherwise |
| Resolver.MatchesAppend | custom_components/meshcore_panel/__init__.py:546-566 | Records are matched one by one in the host's order: the matches of two runs of records are those of the first run followed by those of the second |
| Resolver.Repeaters | custom_components/meshcore_panel/__init__.py:575 | The repeaters are exactly the matches whose node type contains "repeater" |
| Resolver.LatestIndex | custom_components/meshcore_panel/__init__.py:577-581 | The chosen position has the latest advert, and every earlier position a strictly earlier one: the head of a stable descending sort |
| Resolver.ChooseSpec | custom_components/meshcore_panel/__init__.py:568-581 | The choice is none exactly for no matches; it is a match; a unique match is chosen; a repeater is preferred and is the latest repeater; otherwise no match is later |
| Resolver.ResolveSpec | custom_components/meshcore_panel/__init__.py:541-581 | `_get_node_info` returns None exactly when no record qualifies, and otherwise a match chosen as in ChooseSpec |
| Resolver.LatestRepeaterIsFirst | custom_components/meshcore_panel/__init__.py:575-578 | The repeater chosen is the earliest repeater with the latest advert: every repeater before it advertised strictly earlier |
| Resolver.ResolveFirstAmongLatest | custom_components/meshcore_panel/__init__.py:571-581 | Ties on last advert go to the earliest eligible match in the host's order |
| Resolver.ResolveOverRecords | custom_components/meshcore_panel/__init__.py:541-581 | Over the records themselves: the result is some qualifying record's match; when any qualifying record is a repeater the result is a repeater and no qualifying repeater advertised later; otherwise no qualifying record advertised later |
| Resolver.ResolveEarliestRecord | custom_components/meshcore_panel/__init__.py:546-581 | Ties go to the earliest record: the result comes from record j, and every eligible qualifying record before j advertised strictly earlier |
| Ranking.KeyIndex | custom_components/meshcore_panel/__init__.py:402 | The `key not in node_data` lookup: the position of the entry for a pubkey, or -1 exactly when there is none |
| Ranking.TallyExact | custom_components/meshcore_panel/__init__.py:398-409 | The counters after visiting nodes in order hold one entry per pubkey, each counting that pubkey's visits, and an entry for every pubkey visited |
| Ranking.BumpTallies | custom_components/meshcore_panel/__init__.py:402-409 | Counting one more visit keeps the counters exact |
| Ranking.TallyFirstNodes | custom_components/meshcore_panel/__init__.py:398-408 | Each entry keeps the node that first resolved to its pubkey (name and coordinates are set once, on the first visit) |
| Ranking.Insert | custom_components/meshcore_panel/__init__.py:412 | Inserting into a list sorted by descending count keeps it sorted and adds exactly the one entry |
| Ranking.SortByCount | custom_components/meshcore_panel/__init__.py:412 | `sorted(..., key=count, reverse=True)`: a permutation of the counters in descending count order |
| Greeting.GreetKey | custom_components/meshcore_panel/__init__.py:275 | The greeting key is the first 12 characters of the public key (all of it when shorter) |
| Greeting.GreetingCalls | custom_components/meshcore_panel/__init__.py:295-310 | Exactly one or two calls: first the channel message on channel 0, always attempted; second, exactly when the channel message went through, the notification with the contact's name and key |
| Greeting.AfterGreeting | custom_components/meshcore_panel/__init__.py:291-315 | After a greeting the key is in the greeted set exactly when both calls succeeded; no other key changes |
| Greeting.OnNewContact | custom_components/meshcore_panel/__init__.py:270-287 | A greeting is sent exactly when greeting is enabled, the type is not 2, the key is non-empty and not yet greeted; otherwise the greeted set is unchanged |
| Greeting.GreetedOnce | custom_components/meshcore_panel/__init__.py:283-291 | After a successful greeting the same event again sends nothing |
| Greeting.FailedGreetingRetried | custom_components/meshcore_panel/__init__.py:313-315 | After a failed greeting the greeted set is as before, so the same event greets again |
| Greeting.RoomServerGreeted | custom_components/meshcore_panel/__init__.py:279-281 | A type-3 room server is greeted: only type 2 is excluded |
| Greeting.RepeaterNeverGreeted | custom_components/meshcore_panel/__init__.py:280-281 | A type-2 repeater is never greeted and changes nothing |
| Cleanup.StaleKeys | custom_components/meshcore_panel/__init__.py:328-343 | At most one removal per record, never for an empty key |
| Cleanup.StaleKeysAppend | custom_components/meshcore_panel/__init__.py:328-352 | Records are judged one by one: removals for two runs of records are those of each run, in order |
| Cleanup.StaleKeysExact | custom_components/meshcore_panel/__init__.py:328-343 | A key is removed exactly when some contact record with that key had neither an advert nor a message in the last 30 days |
| Export.ThresholdHours | custom_components/meshcore_panel/__init__.py:365-373 | The setting's value when it parses as a number, else the default |
| Export.ResolvedPath | custom_components/meshcore_panel/__init__.py:397-400 | A path resolves to at most one node per prefix |
| Export.ResolvedPathSound | custom_components/meshcore_panel/__init__.py:397-401 | Every node of a resolved path is what one of the path's prefixes resolves to |
| Export.HeatUsesStep | custom_components/meshcore_panel/__init__.py:387-409 | A node's heatmap use count is the sum over hops sensors in the window of its occurrences on their resolved paths |
| Export.Nodemap | custom_components/meshcore_panel/__init__.py:437-457 | At most one entry per record; every entry comes from a contact with an advert in the window and both coordinates |
| Export.NodemapAppend | custom_components/meshcore_panel/__init__.py:437-457 | Records are not merged: the nodemap of two runs of records is the two nodemaps concatenated |
| Export.NodemapOne | custom_components/meshcore_panel/__init__.py:437-457 | A single record yields its own entry when it qualifies and none otherwise; with NodemapAppend this fixes the nodemap exactly |
| Export.NodemapComplete | custom_components/meshcore_panel/__init__.py:437-457 | Every contact record advertised within the window with both coordinates has its entry in the nodemap |
| Export.LinkIndex | custom_components/meshcore_panel/__init__.py:507-512 | The duplicate search finds the first link joining the same unordered pair, and -1 exactly when none does |
| Export.MergeLinksExact | custom_components/meshcore_panel/__init__.py:505-525 | The merged links have one link per unordered pair of pubkeys, one for every contribution, each with the largest count among its pair's contributions (a missing count is 1) |
| Export.MergeLinkKeeps | custom_components/meshcore_panel/__init__.py:507-525 | Merging one more contribution keeps the links exact |
| Export.OppositeHalfEdgesCollapse | custom_components/meshcore_panel/__init__.py:505-525 | Half-edges X->Y (count 3) and Y->X (count 5) collapse into one link with count 5 |
| Export.MergeLinksFirstEnds | custom_components/meshcore_panel/__init__.py:505-525 | Each link's `from` and `to` are the source and target of the first contribution for its pair; later merges only raise the count |
| Export.Sources | custom_components/meshcore_panel/__init__.py:494-503 | The node counted for each contribution is its source |
| Export.EdgesFromMember | custom_components/meshcore_panel/__init__.py:494-503 | A half-edge is listed as coming from pubkey pk exactly when it was contributed by a source that resolved to pk |
| Export.OccSourcesEdges | custom_components/meshcore_panel/__init__.py:494-503 | With no repeated half-edges, the times pk is counted is the number of distinct half-edges out of pk |
| Export.EdgesFromAreSourceEdges | custom_components/meshcore_panel/__init__.py:481-503 | For any visiting order that lists every contributing half-edge once, the half-edges from pubkey pk are exactly the contributing half-edges whose source resolves to pk |
| Export.LinkCountIsOutDegree | custom_components/meshcore_panel/__init__.py:494-503 | A node's exported `link_count` is the number of contributing half-edges whose source resolves to it |
| Coordinator.CountVisit | custom_components/meshcore_panel/__init__.py:400-409 | Counting a visit in `node_data` is one counting step: a new entry starting at 0 is added if needed, then raised by one |
| Coordinator.KeepRecent | custom_components/meshcore_panel/__init__.py:182-185 | The half-edges of one source kept at save time are those at most 7 days old |
| Coordinator.MergeIntoLinks | custom_components/meshcore_panel/__init__.py:505-525 | The loop with `break` computes one merge step: the first link for the pair takes the larger count, or a new link is appended |
| Coordinator.MeshCorePanelCoordinator.constructor | custom_components/meshcore_panel/__init__.py:68-85 | The two switches are set, and the table, times and greeted set start empty |
| Coordinator.MeshCorePanelCoordinator.LoadPersistedData | custom_components/meshcore_panel/__init__.py:132-172 | Each snapshot that could be read replaces its field; an unreadable one leaves the field as it was |
| Coordinator.MeshCorePanelCoordinator.SavePersistedData | custom_components/meshcore_panel/__init__.py:174-203 | The table becomes its pruning and the times their pruning; a symmetric table stays symmetric |
| Coordinator.MeshCorePanelCoordinator.HandleMeshcoreEvent | custom_components/meshcore_panel/__init__.py:227-235 | A path event ingests the path, a new-contact event runs the greeting (missing fields default to "", "Unknown" and 0), anything else changes nothing; the table stays symmetric |
| Coordinator.MeshCorePanelCoordinator.ProcessRxLogData | custom_components/meshcore_panel/__init__.py:237-253 | The table becomes the ingested table; a path of fewer than two nodes changes nothing; symmetry is kept |
| Coordinator.MeshCorePanelCoordinator.RecordDirectLink | custom_components/meshcore_panel/__init__.py:255-268 | The table becomes the table with a -> b recorded at t |
| Coordinator.MeshCorePanelCoordinator.ProcessNewContact | custom_components/meshcore_panel/__init__.py:270-287 | The greeted set and the calls made are those of OnNewContact |
| Coordinator.MeshCorePanelCoordinator.SendGreeting | custom_components/meshcore_panel/__init__.py:289-315 | The key is in the set while the calls run, and afterwards only if both calls succeeded; the calls are the greeting calls |
| Coordinator.MeshCorePanelCoordinator.CleanupOldContacts | custom_components/meshcore_panel/__init__.py:321-352 | One `remove_contact` per stale key, in record order, and no other call |
| Coordinator.MeshCorePanelCoordinator.GetNodeInfo | custom_components/meshcore_panel/__init__.py:541-581 | Returns what the resolver specifies |
| Coordinator.MeshCorePanelCoordinator.ExportHeatmapData | custom_components/meshcore_panel/__init__.py:375-412 | The threshold, and the counters of every resolved path node of the in-window hops sensors, sorted by descending use count |
| Coordinator.MeshCorePanelCoordinator.CountPath | custom_components/meshcore_panel/__init__.py:397-409 | Counting one path adds exactly its resolved nodes to the visited nodes |
| Coordinator.MeshCorePanelCoordinator.ExportNodemapData | custom_components/meshcore_panel/__init__.py:426-457 | The threshold (default 12 hours), and the nodemap of the records |
| Coordinator.MeshCorePanelCoordinator.ExportDirectLinksData | custom_components/meshcore_panel/__init__.py:470-527 | Some order of visiting lists every contributing half-edge once; the links merge them in that order, and the nodes count their sources, sorted by descending link count |
| Coordinator.MeshCorePanelCoordinator.ExportSource | custom_components/meshcore_panel/__init__.py:481-525 | One source's half-edges are added to the export, or none when the source does not resolve |
| Coordinator.MeshCorePanelCoordinator.ExportConnections | custom_components/meshcore_panel/__init__.py:486-525 | Every contributing half-edge out of a resolved source is listed, counted and merged |
| Coordinator.MeshCorePanelCoordinator.ExportData | custom_components/meshcore_panel/__init__.py:358-363 | The three exports run against the table as it stands (the direct links use the heatmap threshold), then the table and times are pruned |
| LinkStore.PrunedFromStep | custom_components/meshcore_panel/__init__.py:181-187 | Pruning one more source adds its kept half-edges under its key, or nothing when none is kept |
| Ranking.TallyStep | custom_components/meshcore_panel/__init__.py:400-409 | One more visit is one more counting step |
| Export.ResolvedPathPrefix | custom_components/meshcore_panel/__init__.py:398-400 | Resolving one more prefix appends its node, or nothing when it does not resolve |
| Export.HeatUsesPrefix | custom_components/meshcore_panel/__init__.py:387-400 | One more hops sensor appends its resolved path when its last message is within the window, and nothing otherwise |
| Export.QualifyingEdgesSplit | custom_components/meshcore_panel/__init__.py:481-486 | The contributing half-edges of one more source are the old ones plus that source's own |
| Export.UnresolvedSourceSilent | custom_components/meshcore_panel/__init__.py:482-484 | A source that does not resolve contributes no half-edge |
| Export.EdgeSkipped | custom_components/meshcore_panel/__init__.py:487-492 | A half-edge outside the window, or whose target does not resolve, contributes nothing |
| Export.EdgeAdded | custom_components/meshcore_panel/__init__.py:486-503 | Listing a contributing half-edge not visited yet keeps the list exact and free of repeats |
| Export.MergeLinksStep | custom_components/meshcore_panel/__init__.py:505-525 | Merging one more contribution is one merge step |
| Export.ExportStep | custom_components/meshcore_panel/__init__.py:486-525 | Visiting one more contributing half-edge keeps the listed edges, the source counters and the links exact |
| Coordinator.PathStep | custom_components/meshcore_panel/__init__.py:398-409 | One more path node extends the visited nodes by what it resolves to |
| Resolver.MatchesIndex | custom_components/meshcore_panel/__init__.py:546-566 | The k-th match comes from some record j, and the records before j give exactly the matches before k |
| Ranking.BumpFirstNodes | custom_components/meshcore_panel/__init__.py:402-408 | Counting one more visit keeps every entry's node the first resolved for its pubkey |
| Export.MergeLinkFirstEnds | custom_components/meshcore_panel/__init__.py:505-525 | Merging one more contribution keeps every link's ends those of the first contribution for its pair |

## Notes on the source

- The comment at `__init__.py:279` says room servers (type 3) are not greeted.
  The code at `__init__.py:280` excludes only type 2. The model follows the
  code, and `Greeting.RoomServerGreeted` states it.
- The greeting key is the public key cut to 12 characters without
  lower-casing. Link keys and resolver keys are lower-cased.
- `last_message_times` is only ever loaded and pruned. No event handler
  updates it, so the message half of the cleanup test only sees loaded times.
- Python's `sort` is stable, also with `reverse=True`. Among matches with
  equal `last_advert`, the resolver therefore returns the earliest one in the
  host's order. `Resolver.LatestIndex` models this, and
  `Resolver.ResolveFirstAmongLatest` states it.

## Left out

- File I/O and JSON are not modelled: no paths, no `json.dump`, no error logging. `LoadPersistedData` receives each snapshot as an optional value.
- Home Assistant plumbing is not modelled: setup, unload, the event bus, interval scheduling and `async_*` wrappers. `cleanupEnabled` only decides whether the daily sweep is scheduled, so the model only stores it.
- `hops_sensors_data`, `hop_nodes_used`, `my_name` and `my_repeater_pubkey` are not modelled. They are loaded or set but not used by the modelled operations; `my_name` only appears in the message text.
- Message and notification texts are not modelled, including the emoji. A service call keeps only the channel, contact name and key.
- The outcome of each service call is a boolean parameter. Exceptions from `remove_contact` are only logged, so the sweep's calls do not depend on them.
- Timestamps are integers, not floats. Each operation reads the clock once, as the parameter `now`; `_export_data` reads it separately in each export, which the model does not capture.
- The nodemap's `age_hours` is not modelled, because it is floating-point arithmetic.
- `float(lat)` is not modelled: coordinates are already reals, and a falsy coordinate (missing, 0 or null) is `None`.
- A missing or falsy `last_advert` or `last_message_time` is 0.
- Entity ids are not modelled as strings. Each record carries the outcome of the tests on its id as two flags.
- A missing `pubkey_prefix` is "". The cleanup looks up "" where the source looks up `None`; both end with no removal.
- `last_advert` that is present but not a number is not modelled. Python's sort would raise on it.
- `Lower` lower-cases ASCII letters only. Node keys are hexadecimal.
- The direct-links export visits the keys of a dictionary, whose iteration order the model does not fix. The visiting order is a ghost output `contribs`, and the contracts hold for whichever order was taken.
- Ranking.SortByCount: proves a sorted permutation of the counters, not that entries with equal counts keep their order. The insertion sort does keep that order, as Python's `sorted` does.
