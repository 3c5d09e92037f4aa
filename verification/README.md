# Verified model of a MeshCom client

MeshCom nodes exchange short text messages and position reports over LoRa. The
client talks to a node over UDP, a serial line or the node's network console,
keeps a chat log and a position store in SQLite, forwards datagrams, and serves
a web interface with a route graph and a map. This project models the parts of
it whose correctness is not visible from one function, and proves what they
promise. `dafny verify dfyconfig.toml` checks everything.

## What is modelled

**Outbox** (`outbox*.dfy`). Sent messages wait for their echo. They are
confirmed by the echo, cancelled by the user, or expired by a timer that may fire
late or after the message is gone. `Outbox` has the three maps of the program;
`OutboxLedger` is the protocol that all callers and timers run through, step by
step. Every method of the class is one step of that protocol (`Valid` ties the
maps to the ledger: `pending` holds what waits, `byKey` is exactly its index in
registration order, the timers are its identifiers), so the theorems over runs of
the ledger are theorems about every interleaving of calls. `Confirm` looks in
the index first and scans afterwards; `NoConfirmIsEmptyScan` and
`ConfirmIsLinearScan` say that the two together are one scan by fields.

**Console decoder** (`object_text.dfy`, `json_text.dfy`, `console_record.dfy`,
`line_stream.dfy`, `decoder.dfy`). Bytes arrive in any chunks; lines over a limit are reported
once and skipped; a supported line carries a JSON object. The scanner for the
end of the object is proved equivalent to a grammar of balanced texts, and every
object of RFC 8259 (sections 4 and 7) is such a text. `Decoder` owns an array, and
its ghost field `fed` is the whole stream so far: each call adds exactly what
the stream, cut at its line feeds, says.

**Route graph** (`routes.dfy`, `node_paths.dfy`, `node_graph.dfy`,
`graph_building.dfy`, `visible_graph.dfy`, `layout.dfy`, `separation.dfy`,
`graph_contents.dfy`, `hop_limit.dfy`, `graph_view.dfy`) and **map paths** (`map_paths.dfy`, `map_segments.dfy`, `map_contents.dfy`). Relay paths are
merged into a directed graph that may have cycles. `Routes` defines the depth-first enumeration
of simple routes once, with its termination measure, and proves it sound,
complete and free of repetitions; the path list of a node and the highlighting on
the map are two imperative searches proved against it. `GraphView.DrawGraph`
goes from positions to a drawing, `GraphView.ShowPaths` on to the paths that the panel lists.

**Compressing response writer** (`compression.dfy`, `compression_outcome.dfy`). Three states; what the
client reads is what the handler wrote, except in one situation that is
characterised exactly (below).

**Position store** (`write_behind.dfy`, `positions.dfy`), **chat log**
(`chat_acks.dfy`, `chat_dedupe.dfy`, `conversation_keys.dfy`, `chat_status.dfy`),
**datagram forwarding** (`forward_queue.dfy`, `forwarder.dfy`) and **reconnect
backoff** (`backoff.dfy`).

Clocks, the printed time stamp of an identifier, random draws, node freshness,
the great-circle distance, content type sniffing, the acknowledgement patterns and
the test for store notices are parameters. Time stamps are integers, coordinates
and distances are real numbers. A mutex-protected method is one atomic step.

## What the proofs show about the code

- The outbox key joins its fields with NUL. Without a NUL in the addresses equal
  keys mean equal fields; with one they need not (`MatchKeyCollides`).
- Negative counters all print as the empty text; printing is injective exactly
  on the others (`PrintedInjectiveIff`).
- A status without a body (204, 304, or below 200) set while bytes are held back
  makes the compressing writer drop those bytes. `Serve`, `LosesBodyMeaning` and
  `LosesBodyExample`: it is the only way in which this writer does not pass a byte on.
  (What an HTTP server does with a body behind such a status is not part of this model.)
- `Update` of the position store returns false for an unchanged record although it
  may have refreshed relays (`UpdateTellsIff` says exactly when, `RefreshSilently` is a
  run that does so); its dirty marks are right nevertheless.
- A position packet whose relay path ends in its own origin records the direct contact
  first and overwrites it with the record of the origin (`UpdateFreshness`; a run that
  does so is `LoseDirectContact`).
- With a hop limit the visible graph may contain deeper nodes, because a node is
  expanded by its own depth and an edge may skip levels downwards. `LimitExactIff`
  says exactly when it does not, and `HopLimit.ShowTwoHops` gives two reports that do it.
- When a forwarding queue is full, the datagram that is dropped need not be an old
  one (`DropMayHitThePrevious`, and from the empty queue `PreviousIsLost`); the newest
  one is never lost, and nothing is lost exactly when every drop finds the queue
  emptied in the meantime (`NothingLostIff`).
- With an own callsign that is not in upper case the file of a direct message and its
  read-state key disagree (`LowerCaseLosesFile`; exactly when: `StatusKeyLeadsToFileIff`).

## Model

| member | source | states |
|---|---|---|
| MessageIds.StringId | internal/outbox/outbox.go:211-224 | for every 64-bit value the 20-byte buffer is large enough and holds the decimal digits; nothing for negative ones |
| MessageIds.CounterReadBack | internal/outbox/outbox.go:45-48 | the counter can be read back from an identifier, whatever the clock and the source were, dashes included |
| MessageIds.PrintedInjectiveIff | internal/outbox/outbox.go:211-224 | two counters print alike if and only if they are equal or both negative |
| EchoMatching.MatchKeyFields | internal/outbox/outbox.go:178-180 | for NUL-free addresses two keys are equal if and only if the normalised sources, the trimmed destinations and the messages are |
| EchoMatching.MatchKeyCollides | internal/outbox/outbox.go:178-180 | with a NUL in a destination two different messages share a key |
| EchoMatching.MessageMatchesMeaning | internal/outbox/outbox.go:182-200 | an echo matches a text if and only if it is that text, or the text with `{`, a number and at most one `}` |
| EchoMatching.SuffixMatchText | internal/outbox/outbox.go:182-200 | a numbered echo matches one text only: its own text before the last `{` |
| Text.UpperLetters | internal/outbox/outbox.go:49 | case mapping raises the letters and leaves their neighbours in the code alone |
| Text.SpaceIff | internal/outbox/outbox.go:48-50 | what trimming cuts off is the ASCII white space |
| OutboxIndex.QueueMembers | internal/outbox/outbox.go:54-56 | a key lists exactly the waiting messages with that key |
| OutboxIndex.QueueHead | internal/outbox/outbox.go:80-88 | the head of a list is the first registered waiting message with that key |
| OutboxIndex.QueueDistinct | internal/outbox/outbox.go:80-88 | no waiting message is listed twice under its key |
| OutboxIndex.QueueWithout | internal/outbox/outbox.go:171-175 | a message that stops waiting leaves its list as removing its identifier once does, the order of the others kept |
| OutboxIndex.RemoveId | internal/outbox/outbox.go:202-209 | removes the first occurrence of the identifier and nothing else |
| OutboxIndex.AfterRegister | internal/outbox/outbox.go:45-61 | a fresh number keeps the protocol invariant and the agreement of the three maps, and its identifier was never used before |
| OutboxIndex.AfterRemoval | internal/outbox/outbox.go:165-176 | taking out a pending message keeps the protocol invariant and the agreement of the three maps |
| OutboxIndex.FirstInQueue | internal/outbox/outbox.go:80-97 | the first listed identifier is always pending, and dropping it from the list is what the index needs |
| OutboxIndex.NoneInQueue | internal/outbox/outbox.go:78-103 | when no listed identifier is pending the key is not in the index at all and no waiting message has it, so deleting the key changes nothing |
| OutboxLedger.StepKeepsInv | internal/outbox/outbox.go:37-176 | every call of every caller and every timer, late or repeated, keeps: numbers count up, one answer per message, issued is waiting plus answered, callbacks owed or done are the failures |
| OutboxLedger.ReachableInv | internal/outbox/outbox.go:37-176 | the invariant holds at every point of every interleaving |
| OutboxLedger.HistoryGrows | internal/outbox/outbox.go:37-176 | issued messages, answers and callbacks are never taken back or changed |
| OutboxLedger.IssuedAreStored | internal/outbox/outbox.go:46-52 | every message of every run is stored in normal form |
| OutboxLedger.OneOutcomePerMessage | internal/outbox/outbox.go:127-176 | at every later point of every run an issued message waits or has exactly one outcome, an outcome never changes, and the failure callback has run exactly once for a failed message whose call is not still owed, and never for another |
| OutboxLedger.OnlyIssuedAreAnswered | internal/outbox/outbox.go:127-163 | nothing is answered or called back that was not issued |
| Outbox.Outbox.Register | internal/outbox/outbox.go:37-64 | one step of the protocol with a fresh identifier; the record has the source in normal form, the trimmed destination, the text and the time that were given; the three maps stay in agreement |
| Outbox.Outbox.TakeQueued | internal/outbox/outbox.go:79-103 | confirms the first registered waiting message with the key, or reports that none has it |
| Outbox.Outbox.OldestEcho | internal/outbox/outbox.go:105-122 | of the waiting messages that the echo matches one with the least creation time, or none if none matches |
| Outbox.Outbox.Confirm | internal/outbox/outbox.go:70-125 | confirms the first registered exact match if there is one, otherwise a longest waiting match; one step of the protocol; otherwise nothing changes and nothing matches |
| Outbox.Outbox.Cancel | internal/outbox/outbox.go:127-141 | succeeds exactly for pending messages, and is one step of the protocol |
| Outbox.Outbox.Expire | internal/outbox/outbox.go:143-163 | one step of the protocol for any identifier at any time; hands out the message for the callback exactly if it was pending and there is a callback |
| Outbox.Outbox.RunCallback | internal/outbox/outbox.go:157-162 | the callback runs outside the lock, once for the message that is owed |
| Outbox.ExactIsFieldEquality | internal/outbox/outbox.go:78-79 | for NUL-free addresses a key match is equality of normalised origin, destination and message |
| Outbox.NoConfirmIsEmptyScan | internal/outbox/outbox.go:70-125 | nothing is confirmed if and only if no waiting message has the origin and the destination of the echo and a matching text |
| Outbox.ConfirmIsLinearScan | internal/outbox/outbox.go:70-125 | what is confirmed is the choice of one scan: an identical text, first registered first; else the text before the last `{`, shared by all candidates, with least creation time |
| Outbox.SendAndHear | internal/outbox/outbox.go:37-125 | with NUL-free addresses: a message that is registered and heard again, from its source in any case over any relays, to its destination, with or without a number, is confirmed itself, unless another waiting message has these addresses and one of the two texts |
| ObjectText.ScanExact | internal/consolecodec/decoder.go:153-188 | the scanner stops behind the first n bytes if and only if they form a balanced text of the grammar |
| ObjectText.BalancedFromBrace | internal/consolecodec/decoder.go:153-188 | a text that starts with a brace is balanced if and only if it is one object of the grammar |
| ObjectText.ParseBody | internal/consolecodec/decoder.go:153-188 | wherever the scanner succeeds there is a parse of what it passed over, strings and escapes included |
| ObjectText.MatchingObjectEnd | internal/consolecodec/decoder.go:153-188 | returns the one balanced prefix, and fails if and only if there is none |
| JsonText.JsonBody | internal/consolecodec/decoder.go:153-188 | every JSON value of RFC 8259, objects with string escapes and any nesting included, is text of the grammar, and every JSON object is one object of it |
| ConsoleRecord.ExtractExtPayload | internal/consolecodec/decoder.go:102-125 | the loop over the markers and the search compute the declarative extraction |
| ConsoleRecord.ExtractExact | internal/consolecodec/decoder.go:102-125 | white space, a marker, brace-free noise, an object and any tail yield exactly that object |
| ConsoleRecord.ExtractExactTimed | internal/consolecodec/decoder.go:102-151 | the same behind a capture time in brackets |
| ConsoleRecord.ExtractJsonObject | internal/consolecodec/decoder.go:102-125 | in particular for every JSON object |
| ConsoleRecord.FirstObjectMeaning | internal/consolecodec/decoder.go:115-124 | in general the payload is the object that starts at the first brace; the two errors mean no brace, and no object at the first brace |
| ConsoleRecord.PayloadIsObject | internal/consolecodec/decoder.go:102-125 | every payload is one object and no longer than its line |
| ConsoleRecord.ExtractIff | internal/consolecodec/decoder.go:102-125 | a line yields a payload if and only if, behind its capture time, it is a marker, text without an opening brace, that payload and anything, and the payload is one object |
| ConsoleRecord.UnsupportedIff | internal/consolecodec/decoder.go:103-113 | a line yields neither payload nor error if and only if neither marker stands at its start, behind space and capture time |
| ConsoleRecord.MissingIff | internal/consolecodec/decoder.go:115-118 | the error of a missing object means a marker and text without an opening brace, and conversely |
| ConsoleRecord.IncompleteIff | internal/consolecodec/decoder.go:119-122 | the error of an incomplete object means a marker, text without an opening brace, and a brace at which no object starts, and conversely |
| ConsoleRecord.CaptureTimeIff | internal/consolecodec/decoder.go:138-151 | a capture time is two digits, colon, two digits, colon, two digits |
| ConsoleRecord.CaptureTimeMeaning | internal/consolecodec/decoder.go:127-136 | a capture time in brackets is cut off with the space around the rest; any other record is left alone |
| LineStream.OneMore | internal/consolecodec/decoder.go:67-85 | a line feed completes the unfinished line and any other byte completes nothing |
| ConsoleDecoder.NextByte | internal/consolecodec/decoder.go:67-100 | what one byte adds to the payloads and errors of a stream, the over-long line included |
| ConsoleDecoder.Decoder.FinishRecord | internal/consolecodec/decoder.go:87-100 | yields what the unfinished line means, in an array of its own |
| ConsoleDecoder.Decoder.ConsumeByte | internal/consolecodec/decoder.go:67-85 | yields exactly what the byte adds to the meaning of the stream |
| ConsoleDecoder.Decoder.Feed | internal/consolecodec/decoder.go:41-47 | yields exactly what the chunk adds to the meaning of the stream, in new arrays no longer than the limit |
| ConsoleDecoder.Decoder.Flush | internal/consolecodec/decoder.go:49-61 | does exactly what feeding one line feed does |
| ConsoleDecoder.Decoder.BufferedBytes | internal/consolecodec/decoder.go:63-65 | never more than the limit, and the length of the unfinished line unless it is being skipped |
| ConsoleDecoder.FeedAll | internal/consolecodec/decoder.go:41-61 | for every split of a stream into chunks the calls together yield the payloads and errors of the whole stream, and all payload arrays, the first ones included, hold them at the end |
| ConsoleDecoder.LineByLine | internal/consolecodec/decoder.go:67-100 | lines are handled independently; an over-long one yields one error and no payload, any other its one payload, or its one error, or nothing |
| ConsoleDecoder.OrdinaryLineIsSilent | internal/consolecodec/decoder.go:85-100 | wherever it stands in a stream, a line within the limit and without a marker changes nothing |
| ConsoleDecoder.FeedOrdinary | internal/consolecodec/decoder.go:40-46 | a stream of such lines yields no payload and no error, however it is cut into chunks |
| Routes.SearchExact | web/src/lib/graph/node-graph.ts:255-300 | the depth-first enumeration contains exactly the simple routes from root to target within the limit |
| Routes.CompletionsOnce | web/src/lib/graph/node-graph.ts:255-300 | it contains each of them once when the graph has no double edges |
| NodePaths.Collector.Visit | web/src/lib/graph/node-graph.ts:260-297 | the recursive search with its copied `visiting` sets appends exactly the enumeration, and terminates on cyclic graphs |
| NodePaths.NodePathSummaries | web/src/lib/graph/node-graph.ts:211-228 | exactly the simple directed paths from root to target, each once, with the sum of the edge distances if and only if all are defined; nothing without a target or for the root |
| NodePaths.SummariesExact | web/src/lib/graph/node-graph.ts:255-300 | a summary is listed if and only if its nodes and edges are a simple path from root to target |
| MapPaths.Highlighter.Visit | web/src/lib/map/map-paths.ts:106-121 | adds exactly the segments of the routes found from here, and restores the shared `visiting` set |
| MapPaths.UsedIsOnShortWalk | web/src/lib/map/map-paths.ts:91-125 | what the bounded search uses is exactly what lies on simple undirected walks of at most five segments |
| MapPaths.EdgeIdsReachingSelected | web/src/lib/map/map-paths.ts:91-125 | a segment is highlighted if and only if it lies on a simple undirected walk of at most five segments from root to the selected node that steps on named nodes only |
| MapSegments.OrderOfTable | web/src/lib/map/map-paths.ts:145-156 | the order lists exactly the stations of the table of active stations, each once |
| MapSegments.OrderByFirstReport | web/src/lib/map/map-paths.ts:145-156 | the stations stand in the order of their first active reports, which later reports do not change |
| MapSegments.ActiveStations | web/src/lib/map/map-paths.ts:145-156 | the last active report of every callsign, in the order of first active reports |
| MapContents.ActiveTableIff | web/src/lib/map/map-paths.ts:145-156 | the active stations are those with a fresh report that says where they are, and the latest such report is kept |
| MapSegments.AddPathSteps | web/src/lib/map/map-paths.ts:38-56 | one relay path adds its station to exactly the segments it steps over |
| MapSegments.WholePathAt | web/src/lib/map/map-paths.ts:39-43 | before compaction the path runs from the own station over the relays, last one first, to the source |
| MapSegments.PathOrder | web/src/lib/map/map-paths.ts:39-43 | compaction keeps the order of first occurrences, and everything if no name repeats |
| MapContents.UsesIff | web/src/lib/map/map-paths.ts:33-46 | a station uses a segment if and only if both ends are active and follow each other on its path, it is not the own station, and it was relayed or heard directly |
| MapSegments.CollectSegments | web/src/lib/map/map-paths.ts:30-57 | every segment has known ends, their distance, and exactly the stations whose relay paths use it |
| MapSegments.BuildActiveMapPathSegments | web/src/lib/map/map-paths.ts:17-71 | the segments shown are exactly the steps between located stations on the relay paths of active stations, each once and with all its users in order, and highlighted if and only if on a short walk to the selected station |
| MapContents.ShownMeans | web/src/lib/map/map-paths.ts:48-56 | a shown segment is as long as the latest active reports of its ends are apart, and lists exactly the stations that use it |
| NodeGraphs.CoversNext | web/src/lib/graph/node-graph.ts:100-128 | upserting the next node and edge of a path covers the longer initial piece: depth, distance and edge |
| NodeGraphs.JustifiedNext | web/src/lib/graph/node-graph.ts:100-128 | every depth, distance and edge in the graph comes from an initial piece of some path |
| NodeGraphs.AddPath | web/src/lib/graph/node-graph.ts:97-128 | adding one path keeps depth the least position, distance the least length, and edges the steps of all paths |
| GraphBuilding.CompactPath | web/src/lib/graph/node-graph.ts:318-327 | the loop with its `seen` set keeps first occurrences and drops empty names |
| GraphBuilding.CompactedKeeps | web/src/lib/graph/node-graph.ts:318-327 | no name twice, none empty, and every other name of the path is kept |
| GraphBuilding.FullPathAt | web/src/lib/graph/node-graph.ts:91-97 | the path before compaction runs from the root over the relays, last relay first, to the source |
| GraphBuilding.RelayPathOrder | web/src/lib/graph/node-graph.ts:97 | compaction keeps the order of first occurrences: a name that is new at a position of the full path comes right behind the different names before it; without repetitions nothing is left out |
| GraphBuilding.LastReportWins | web/src/lib/graph/node-graph.ts:394-401 | a name is in the table if and only if some report has it, and the entry is the report with that name behind which none has it |
| GraphBuilding.PositionMap | web/src/lib/graph/node-graph.ts:394-401 | the loop builds that table for normalised callsigns |
| GraphBuilding.StepShape | web/src/lib/graph/node-graph.ts:78-143 | ends of edges are nodes, no edge is a loop and none enters the root |
| GraphBuilding.ParentAbove | web/src/lib/graph/node-graph.ts:78-143 | every other node is entered from a node of strictly smaller depth |
| GraphBuilding.BuildNodeGraph | web/src/lib/graph/node-graph.ts:78-143 | the graph has exactly the nodes, least depths, least distances and edges of the contributing relay paths, merged freshness, and the shape above; what that means for the reports is in the rows of GraphContents |
| GraphContents.NodesIff | web/src/lib/graph/node-graph.ts:90-106 | a station is in the graph if and only if it is the root, or source or relay of a report from a named station other than the root that counts: with hidden stations always, without them if the latest reports of its source and of all its relays are neither hidden nor, unless wanted, stale |
| GraphContents.NodesAreShown | web/src/lib/graph/node-graph.ts:96-106 | without hidden stations every station but the root has a latest report, which may be shown |
| GraphContents.NodeFreshness | web/src/lib/graph/node-graph.ts:246-253 | a station is as fresh as its latest report, one without a report indirect, the root direct |
| GraphContents.EdgesIff | web/src/lib/graph/node-graph.ts:107-134 | two stations are joined if and only if they follow each other on the path of a report that counts |
| GraphContents.EdgeLength | web/src/lib/graph/node-graph.ts:120-134 | an edge is as long as its ends are apart in their latest reports, if both say where they are, and of unknown length otherwise |
| GraphContents.DistanceIsLeast | web/src/lib/graph/node-graph.ts:108-133 | the distance of a station is that of a way to it, and no way of known length is shorter |
| GraphContents.EvenSteps | web/src/lib/graph/node-graph.ts:121-124 | a way is as long as its steps together |
| GraphContents.UnknownStep | web/src/lib/graph/node-graph.ts:121-124 | a way with a step of unknown length has no known length |
| VisibleGraph.Search | web/src/lib/graph/node-graph.ts:184-200 | the breadth-first search terminates and visits exactly what is reachable over expandable nodes |
| VisibleGraph.VisibleNodeGraph | web/src/lib/graph/node-graph.ts:174-209 | below the depth of the graph exactly the closure of the root under expandable nodes with all their edges, otherwise the graph itself; no edge dangles and the new depth is exact |
| VisibleGraph.ClosureHolds | web/src/lib/graph/node-graph.ts:184-200 | what is reachable lies in every set that contains the root and is closed under expandable nodes |
| VisibleGraph.ReachableIff | web/src/lib/graph/node-graph.ts:184-200 | a node is visible if and only if it is the root, or an edge leads to it from a visible node that lies above the limit or is expanded |
| VisibleGraph.ShallowIsVisible | web/src/lib/graph/node-graph.ts:193-199 | every node within the limit is visible |
| VisibleGraph.LimitExactIff | web/src/lib/graph/node-graph.ts:193-199 | for every set of expanded nodes: nothing deeper than the limit is visible if and only if no edge leads from an expandable node within the limit to below it |
| HopLimit.DeepNodeIsReachable | web/src/lib/graph/node-graph.ts:193-199 | in every graph built from the paths R-A and R-X-Y-A-B, node B at depth four is visible with a limit of two |
| HopLimit.ShowTwoHops | web/src/lib/graph/node-graph.ts:78-209 | two reports whose graph is deeper than two, and the view of it with a limit of two: exactly the nodes in reach, among them the one at depth four |
| Layout.Placer.Place | web/src/lib/graph/node-graph.ts:484-503 | terminates on cyclic graphs, keeps earlier columns, restores `visiting`, and stays between the margin and the last leaf column |
| Layout.DistributeX | web/src/lib/graph/node-graph.ts:479-517 | every node gets a column at 80 or more, nodes without children are at least 148 apart, and a node that lies on no cycle stands at the mean of its children |
| Separation.SpreadLevel | web/src/lib/graph/node-graph.ts:449-463 | after one pass every two nodes of a level, not only neighbours, are apart by what their labels need; none moves left |
| Separation.SeparateOverlappingNodes | web/src/lib/graph/node-graph.ts:433-468 | on every level nodes are apart by their label gap, at least 188, in their old order; no x moves left |
| Separation.GapTriangle | web/src/lib/graph/node-graph.ts:470-477 | label gaps satisfy a triangle inequality and are at least 188 |
| Separation.MinGapIsLeast | web/src/lib/graph/node-graph.ts:470-477 | the gap of two labels is the least that keeps their middles 188 and their edges 42 apart, with 8 for each letter and 20 for each label |
| Separation.BuiltNonNegative | web/src/lib/graph/node-graph.ts:104-124 | in a graph built over non-negative distances no node is at a negative one |
| Separation.LayoutNodeGraph | web/src/lib/graph/node-graph.ts:145-172 | all nodes inside the margins of the computed width and height, labels of a level apart, one hop more 126 and one kilometre more 4 further down, edges drawn between their nodes |
| Separation.DeeperIsLower | web/src/lib/graph/node-graph.ts:418-424 | a deeper node that is not nearer is drawn at least 126 lower |
| Separation.LabelsDoNotTouch | web/src/lib/graph/node-graph.ts:145-172 | on a level of the drawing the labels are 42 apart, and their middles 188 |
| GraphView.DrawGraph | web/src/lib/components/views/GraphView.svelte:41-54 | from any positions to a drawing of their graph: exactly the nodes in reach, all those within the hop limit among them, and exactly the edges that lead on, each once and between its nodes; without a limit everything; all of it inside the margins, levels below each other, no labels overlapping on a level |
| GraphView.DrawnPathIff | web/src/lib/components/views/GraphView.svelte:47-58 | a path over the drawn edges is a simple path of the graph whose stations before the last lie above the hop limit, if there is one, and conversely |
| GraphView.ShowPaths | web/src/lib/components/views/GraphView.svelte:41-58 | from any positions to the path panel: exactly those paths to the chosen station, each once and with its distance |
| CompressedResponse.Writer.WriteHeader | internal/httpapi/compression.go:45-54 | after the header is out nothing changes; a status without a body is forwarded at once |
| CompressedResponse.Writer.Write | internal/httpapi/compression.go:56-82 | every byte is accounted for as held back or on the wire; the decision falls when the threshold is reached and gzip is chosen exactly for eligible responses |
| CompressedResponse.Writer.Decide | internal/httpapi/compression.go:85-132 | gzip if and only if eligible; the header that goes out, a guessed content type included; otherwise the buffer goes out plain |
| CompressedResponse.Writer.Flush | internal/httpapi/compression.go:169-189 | an undecided response is forced out plain; nothing else changes |
| CompressedResponse.Writer.Close | internal/httpapi/compression.go:153-166 | the header has gone out exactly once and the wire decodes to what was written, short of a buffer that a bodyless status left behind |
| CompressedResponse.DecisionIsFirst | internal/httpapi/compression.go:56-82 | the decision falls at the first flush, bodyless status, or write that reaches the threshold |
| CompressedResponse.DecisionIff | internal/httpapi/compression.go:45-82 | spelled out: the first flush, status of 204, 304 or below 200, or write with which the threshold is reached |
| CompressedResponse.HeadersTellTheEncoding | internal/httpapi/compression.go:85-132 | the header announces gzip and drops the length if and only if this writer compresses; otherwise encoding, length and vary go out as the handler set them |
| CompressedResponse.Serve | internal/httpapi/compression.go:45-189 | for every sequence of header changes, writes and flushes: one header, with the status and the fields in force at the decision; the decoded body is everything written short of exactly what a bodyless status lost, and all of it if and only if no such status is set on held-back bytes; gzip if and only if a write takes the decision, no encoding and no range are set, the type is no event stream, and without its parameters it starts like one of the list |
| CompressionOutcome.ServeBody | internal/httpapi/compression.go:303-326 | HTML that reaches the threshold goes out as gzip, a PNG image as it is |
| CompressionOutcome.CaseIsIgnored | internal/httpapi/compression.go:303-313 | neither the case nor the parameters of a type matter |
| CompressionOutcome.LowerLetters | internal/httpapi/compression.go:304 | lowering changes the letters only |
| CompressionOutcome.StatusIsLast | internal/httpapi/compression.go:45-54 | the status that goes out is the last one set up to the decision, and 200 if there is none |
| CompressionOutcome.VaryNamesEncoding | internal/httpapi/compression.go:328-341 | a compressed response names Accept-Encoding among the elements of its Vary field: added behind what the handler set, unless it was there in any case |
| CompressedResponse.HeldBack | internal/httpapi/compression.go:73-78 | fewer bytes than the threshold are ever held back |
| CompressedResponse.LosesBodyMeaning | internal/httpapi/compression.go:45-54 | bytes are lost if and only if a bodyless status comes after a non-empty write, with no flush, no earlier such status and fewer bytes than the threshold before it |
| CompressedResponse.LosesBodyExample | internal/httpapi/compression.go:45-54 | three bytes followed by status 204 are lost |
| WriteBehind.StepKeepsAgreement | internal/positions/store.go:176-212 | memory and table agree on every callsign that is neither dirty nor being written, and what is being written is current unless dirty again: kept by every change and by both halves of a save |
| WriteBehind.ReachableAgrees | internal/positions/store.go:176-202 | the agreement holds at every point of every interleaving of updates with one saver |
| WriteBehind.MarksAreKept | internal/positions/store.go:191-199 | marks disappear only with a successful write, and a failed write restores all of its own |
| WriteBehind.QuietIsSaved | internal/positions/store.go:176-202 | without marks and without a running save the table is the memory |
| WriteBehind.TableIsFromThePast | internal/positions/store.go:182-191 | every row of the table is a record that memory once held |
| WriteBehind.SavedAfterSuccess | internal/positions/store.go:176-202 | after a successful save without a change in between the table is the memory |
| Positions.PositionStore.Update | internal/positions/store.go:74-120 | one change of the store, of the origin and of exactly its known relays; true if and only if the record of the origin changed |
| Positions.PositionStore.TouchFromPacket | internal/positions/store.go:126-153 | one change of the store, of known stations only; true if and only if some station was known |
| Positions.PositionStore.TouchViaChainLocked | internal/positions/store.go:259-275 | every known relay is refreshed, the last one as heard directly, repeated relays included |
| Positions.PositionStore.BeginSave | internal/positions/store.go:176-189 | takes the snapshot of the marked records and clears the marks |
| Positions.PositionStore.FinishSave | internal/positions/store.go:191-201 | a failure restores the marks; after a success without new marks the table is the memory |
| Positions.TouchedMeaning | internal/positions/store.go:259-275 | touching relays one after the other touches every known one once, the last of the chain directly, whatever repeats |
| Positions.PacketsCreateNothing | internal/positions/store.go:126-153 | packets without a position never create a record |
| Positions.PacketFreshness | internal/positions/store.go:122-153 | the known stations on the path of a packet without position were heard, only the last relay (or an unrelayed origin) directly; the readings of the link belong to it alone; nobody else changes |
| Positions.UpdateFreshness | internal/positions/store.go:70-120 | the same for a position packet; on a path that ends in its own origin the direct contact is recorded if and only if the record of the origin is otherwise unchanged |
| Positions.UpdateTellsIff | internal/positions/store.go:74-120 | the result of an update says whether anything was written, if and only if the packet does not both repeat the record of its origin and name a known relay |
| Positions.RefreshSilently | internal/positions/store.go:74-120 | a run in which an update returns false and changes the record of a relay |
| Positions.LoseDirectContact | internal/positions/store.go:74-153 | a station known through a relay sends its position over a path that ends in itself: it was heard directly, and the record says it never was; a text packet on that path records the contact |
| Positions.UpdateCreatesOrigin | internal/positions/store.go:85-119 | a position packet creates no record but that of its origin, with the reported place and path; a new one has its first and last sighting now, and a direct one only without relays |
| Positions.UpdateKeepsFirstSeen | internal/positions/store.go:100-118 | an update keeps when a station was first seen, the place of every other station, and all of a station that is not on the path |
| ChatDedupe.IsDuplicateRecord | internal/chatlog/chatlog.go:510-520 | the search over the rows seen so far |
| ChatDedupe.SameMessageIff | internal/chatlog/chatlog.go:510-520 | one message: the same identifier, the same origin, and at most 300 seconds apart in either direction |
| ChatDedupe.ReadSince | internal/chatlog/chatlog.go:577-626 | the surviving rows from a time on, although only identified survivors are compared with |
| ChatDedupe.SinceMembers | internal/chatlog/chatlog.go:577-626 | read from a time on are exactly the rows received then or later |
| ChatDedupe.KeptHasNoDuplicates | internal/chatlog/chatlog.go:510-532 | no two survivors have the same non-empty message id and origin within five minutes |
| ChatDedupe.DroppedRepeatsSurvivor | internal/chatlog/chatlog.go:612-621 | row by row, by position: it repeats an earlier survivor, which is still there at the end, and adds nothing, or it is the next survivor |
| ChatDedupe.KeptIdempotent | internal/chatlog/chatlog.go:605-621 | removing duplicates again changes nothing |
| ChatDedupe.ReadSinceConsistent | internal/chatlog/chatlog.go:618-620 | reading from a later time is reading from an earlier one and filtering |
| ChatAcks.LatestOpen | internal/chatlog/chatlog.go:558-569 | the latest unacknowledged outbound row of the conversation, sequence and peer within five minutes, the higher id among equally late ones |
| ChatAcks.DirectLog.Append | internal/chatlog/chatlog.go:126-142 | appends one row and acknowledges at most the latest open one |
| ChatAcks.StepKeepsRows | internal/chatlog/chatlog.go:534-575 | an append changes at most one row, only an open one, and only its acknowledgement |
| ChatAcks.StepKeepsInv | internal/chatlog/chatlog.go:534-575 | every acknowledgement fits the row that brought it, and each row brought at most one: kept by every append |
| ChatAcks.ReachableInv | internal/chatlog/chatlog.go:126-142 | the same over every run of appends |
| ChatAcks.AcksAreFinal | internal/chatlog/chatlog.go:563-568 | a booked acknowledgement never changes, nor anything else of a row |
| ChatAcks.SendAndAcknowledge | internal/chatlog/chatlog.go:522-575 | an acknowledgement that comes in after a message is booked on it if and only if it belongs to the same conversation, comes from the station the message went to, and not more than 300 seconds later |
| ConversationKeys.StatusKeyLeadsToFile | internal/chatlog/chatlog.go:222-335 | the file identifier of the read-state key is the conversation of the message, for every message and every own callsign of upper-case letters, digits and dashes |
| ConversationKeys.StatusKeyLeadsToFileForCallsign | internal/callsign/callsign.go:12 | in particular for every valid callsign |
| ConversationKeys.StatusKeyLeadsToFileIff | internal/chatlog/chatlog.go:222-335 | for a callsign in any case: if and only if it is in upper case, or the message is not direct, or it does not involve the operator |
| ConversationKeys.LowerCaseLosesFile | internal/chatlog/chatlog.go:222-335 | with the own callsign in lower case the file identifier of an own message is empty while its read-state key is not |
| ConversationKeys.ConversationIDIsValid | internal/chatlog/chatlog.go:18 | every non-empty conversation identifier matches the pattern of valid identifiers, whatever the message |
| ConversationKeys.RebuiltKeyAgrees | internal/chatstatus/status.go:263-283 | for valid callsigns of which exactly one is the operator's, the key rebuilt from a stored row is the read-state key for that side's full callsign |
| ConversationKeys.ReplySharesConversation | internal/chatlog/chatlog.go:226-249 | a message and its reply belong to the same conversation |
| ConversationKeys.DevicesShareConversation | internal/chatlog/chatlog.go:226-294 | every numbered device of an operator files a message where the operator does |
| ConversationKeys.DevicesReadApart | internal/chatlog/chatlog.go:296-335 | two devices of one operator have the same read-state key for a direct message if and only if they are the same |
| ConversationKeys.TwoStations | internal/chatlog/chatlog.go:222-318 | for two stations of letters both identifiers of their messages, in both directions, are the same text |
| ConversationKeys.ChannelsApart | internal/chatlog/chatlog.go:250-285 | numbered channels are kept apart from each other and from what everybody gets |
| ConversationKeys.FiledWithoutCall | internal/chatlog/chatlog.go:230-262 | without an own callsign a direct message is filed under its destination alone and has no read-state key |
| ConversationKeys.StatusSanitizeMeans | internal/chatstatus/status.go:306-308 | a rebuilt read-state key is in upper case and free of separators, and text without them is otherwise kept |
| ConversationKeys.DMKeyParts | internal/chatlog/chatlog.go:323-335 | a direct identifier is cut back into the two callsigns it was made of |
| ChatStatus.ApplySnapshotRecord | internal/chatstatus/status.go:249-261 | folding in one row makes the summary of one row more, notices left out |
| ChatStatus.SnapshotOf | internal/chatstatus/status.go:164-179 | every conversation with messages or a read mark is shown, with its last message and the number of messages after the mark |
| ChatStatus.ConversationInOrder | internal/chatstatus/status.go:191-247 | as both tables are read in order of time and hold different conversations, so are the messages of every conversation |
| ChatStatus.UnreadInSnapshot | internal/chatstatus/status.go:164-179 | hence the unread messages of a conversation are its last ones, as many as its snapshot counts |
| ChatStatus.LaterMarkReadsMore | internal/chatstatus/status.go:257-259 | a later mark never leaves more unread, and leaves none if and only if no message is later |
| ChatStatus.ReadThenSnapshot | internal/chatstatus/status.go:57-86 | after marking a conversation its snapshot has no unread message up to that time, and the others look as before |
| ChatStatus.RemoveThenSnapshot | internal/chatstatus/status.go:69-86 | after the mark of a conversation is removed it is shown if and only if it has messages, all of them unread, and the others look as before |
| ForwardQueue.DeliversInOrder | internal/udpforward/forwarder.go:43-81 | after every interleaving of one producer and the consumer: the queue is within its capacity, delivered plus queued is an in-order subsequence of what was forwarded, and with the lost ones it is all of it |
| ForwardQueue.NewestIsEnqueued | internal/udpforward/forwarder.go:67-79 | after every Forward its own datagram is the last one delivered or queued, so the second attempt never fails |
| ForwardQueue.RunKeepsInv | internal/udpforward/forwarder.go:43-81 | the queue is always the newest stretch of what was forwarded, without a gap |
| ForwardQueue.NothingLostIff | internal/udpforward/forwarder.go:67-79 | a run loses nothing if and only if every drop finds the queue already emptied by the target |
| ForwardQueue.NothingLostUnlessFull | internal/udpforward/forwarder.go:67-79 | in particular when no first attempt finds a full queue |
| ForwardQueue.DropMayHitThePrevious | internal/udpforward/forwarder.go:71-74 | from every full queue there is a schedule in which the dropped datagram is the one just before the newest |
| ForwardQueue.PreviousIsLost | internal/udpforward/forwarder.go:43-81 | a run from the empty channel that ends so: of 257 datagrams the last but one is lost |
| ForwardQueue.ForwardAlone | internal/udpforward/forwarder.go:67-79 | without interference a Forward leaves the newest 256 datagrams |
| ForwardQueue.ShuffleKeepsOrder | internal/udpforward/forwarder.go:43-81 | an interleaving invents and loses nothing and has its first part in order at increasing places |
| Forwarding.ForwardTo | internal/udpforward/forwarder.go:65-80 | one Forward to one target over arrays, with the target receiving before each channel operation, is a run of the abstract channel; with no receiving in between the newest 256 are left |
| Forwarding.HeldIsAccounted | internal/udpforward/forwarder.go:59-81 | the arrays delivered and those queued hold, in order, what was forwarded short of what was lost |
| Forwarding.Forwarder.Deliver | internal/udpforward/forwarder.go:43-55 | the goroutine of a target takes one datagram between two Forwards |
| Forwarding.Forwarder.Forward | internal/udpforward/forwarder.go:59-81 | every channel makes one complete Forward of the bytes, whatever its target and the others take meanwhile; nothing taken is taken back and no older copy changes |
| Forwarding.Forwarder.Listen | internal/udpbridge/bridge.go:107-124 | although every datagram arrives in the same buffer: for every schedule of the targets, what each has taken and what waits for it holds the bytes as received; a target that stalls is left with the newest |
| Backoff.NextDelay | internal/netconsole/bridge.go:439-444 | twice the delay, or the maximum if that is less, without overflow |
| Backoff.JitterDelay | internal/netconsole/bridge.go:432-437 | between half of the delay, rounded down, and the delay |
| Backoff.JitterReaches | internal/netconsole/bridge.go:436 | every such wait can occur |
| Backoff.NextIsClosedForm | internal/netconsole/bridge.go:177 | one doubling is one more failure in min(initial * 2^n, maximum) |
| Backoff.BaseGrows | internal/netconsole/bridge.go:154-177 | more failures never mean a shorter base delay, and below the maximum at least twice as long a one |
| Backoff.BaseNext | internal/netconsole/bridge.go:439-444 | one more failure doubles the base delay, up to the maximum |
| Backoff.FailedSessionsNeverReset | internal/netconsole/bridge.go:216-255 | sessions that fail to dial, authenticate or enable the output do not reset the delay, however many |
| Backoff.StableIff | internal/netconsole/bridge.go:216-259 | a session is stable if and only if it was established and lasted long enough by its clock readings |
| Backoff.ReadUntilStopped | internal/netconsole/bridge.go:263-281 | each session decodes its own stream: the payloads handed on are those of the bytes it read up to the read that stopped it |
| Backoff.Bridge.RunSession | internal/netconsole/bridge.go:216-283 | dial, authenticate, enable, read: zero duration and no payload unless all but the reading succeed, the elapsed time of the clock otherwise, and the error of the first step that failed |
| Backoff.Bridge.Run | internal/netconsole/bridge.go:145-179 | over every run: each base delay is min(initial * 2^n, maximum) for n failures since the last stable session or the start; directly: the initial one after a session that lasted long enough, otherwise twice the one before, up to the maximum; each wait is within its jitter, and each status counts the failed sessions modulo 2^64 |

## Left out

- Outbox.Outbox.Register: does not cover the wrap-around of the 64-bit counter after 2^63 - 1 registrations; `PrintedInjectiveIff` says what the identifiers would then be.
- Separation.LayoutNodeGraph: requires non-negative distances, as the great-circle distance has; `BuiltNonNegative` proves it of every built graph.
- GraphView.DrawGraph: the nodes that are expanded by hand are fixed to none, as in the view.
- ConversationKeys.StatusKeyLeadsToFile: for own callsigns in upper case, as configuration normalises them; the others are in `StatusKeyLeadsToFileIff`.
- ForwardQueue.DeliversInOrder: one producer per forwarder, as each transport has; failed socket writes and Close are outside.
- Forwarding.Forwarder.Listen: what a target takes is given as numbers of datagrams before each channel operation, which covers every interleaving with that target's own channel; the order of events on different channels is not recorded.
- Backoff.Bridge.RunSession: the outcomes of the network calls and the clock readings are inputs; closing the connection, the watcher of the context and the handing on of payloads to their processors are outside.
- Backoff.Bridge.Run: a failing SendText may set the status of a live session to degraded from another goroutine; the connection time and error time of the status are not kept.
- Positions.PositionStore.BeginSave: one saver at a time, as started; purging of old node rows, which bypasses the store, is outside.
- CompressedResponse.Serve: the sink does not fail, and gzip is any lossless stream; ReadFrom, the gzip pool and Accept-Encoding negotiation are outside.
- ChatAcks.DirectLog.Append: times are compared as numbers, where the table compares their RFC 3339 texts; the patterns that find the sequence number are parameters.
- Display order: the sorted lists of nodes, edges, children, summaries and segments are returned in any order; the choice between equally old matches of the outbox and the order of its map are free as well.
- Identity of edges and segments is the pair of their ends, in place of the joined text `from->to`.
- Case mapping and white space are those of ASCII, and a byte or code unit is one character.
- The decoder's buffer has its full size from the start; how the program's slice grows is not modelled, nor is slice aliasing inside the index of the outbox.
- Floating point rounding, haversine and Maidenhead locators: distances and coordinates are real numbers.
- Nil receivers of the outbox, DTOs, configuration, HTTP handlers, server-sent events, serial ports, SQLite itself and the user interface.
- Saving of the read marks to their table, with its dirty flag cleared before the write.
