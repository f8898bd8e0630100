# uskit live queries in Dafny

A functional model of the live-query engine of uskit (`lib/uskit/query_service.py`)
and of its nested-dictionary merge (`lib/uskit/util.py`).

A client starts a named query. The engine answers with an acknowledgement
carrying a query id and the schema. It then sends the current result set in
pages of `maxcount` rows (`<Q>_SNAPSHOT`), and keeps sending row-level
INSERT / UPDATE / DELETE changes (`<Q>_UPDATE`) as writes to the underlying
tables change the result. The model covers:

- **OrderedMap**: a Python `dict` with insertion order. It is a sequence of
  distinct keys plus a map:
  - overwriting keeps a key's place;
  - `del` drops the key;
  - a new key goes last.
- **Rows**: result rows, the three operations, and what a client does with a
  delivered row (`lib/uskit/static/connectors.js`):
  - INSERT and UPDATE store the row under its id;
  - DELETE removes it.
- **DeltaQueue**: the per-instance queue `queueByRowId`. It covers the
  coalescing table of `__pushQueue`, and the loop of `__sendQueue` that takes
  a page off the front and files it by operation.
- **QueryInstance**: one client's query. It has the SNAPSHOT/UPDATE phase, page
  size, catch-up cursor and queue. The handlers are:
  - `on_query`: the permission check, then ACK and catch-up, or NACK `XPRM`
    and close;
  - `__on_next`: catch-up;
  - `__on_insert`, `__on_update` and `__on_delete`: live changes;
  - `__sendQueue`: the flush.
- **ChangeDetector** (`QueryData`) covers:
  - the schema and the table-to-aliases map;
  - the filter used to snapshot the rows a written record can touch;
  - the per-transaction snapshots;
  - the before/after diff that raises the deltas;
  - the subscriber set.
- **WhereFilter**: that filter as disjuncts and arguments, rendered to the
  where-string, with a proof that its `?` placeholders match its arguments.
- **QueryIds**: query ids `Q<pid>-<n>|<MESSAGE_ID>` and their uniqueness.
- **QuerySession**: the per-connection registry. It mints and registers
  queries, routes `<Q>_NEXT` by id, refuses unknown ids with `XQID`, closes
  everything on disconnect, and fans a change out to subscribed instances.
- **DictMerge**: `dictmerge` on a value tree of leaves and mappings.

External parts are parameters:
- The query executor is a function, from the catch-up cursor and page size
  to rows, or from the where-string and its arguments to rows.
- The permission query is a function from the `allowWhere` text to rows. The
  code runs it with the request as its parameters
  (`query_service.py:135`), so a fresh function is supplied with each request.
- The store's key fields are a function of the table name.
- The process id and the query counter form a `Counter` value that each step
  hands on.

Each handler is one sequential step. It returns the new state and the
messages it sends, in order.

### Behaviour of the code worth knowing

- **`IS_LAST`.**
  - The code sets `IS_LAST` when fewer than `maxcount` rows were taken
    (`query_service.py:247`). It does not test whether the queue is now empty.
  - So a queue of exactly `maxcount` rows gives a full page without `IS_LAST`,
    then an empty page with it.
  - Flushing a queue of `M` rows in pages of `N`, with nothing pushed in
    between, takes `M / N + 1` messages to reach `IS_LAST`
    (`QueryInstance.FlushesToLast`, `QueryInstance.PagesForQuotient`). This
    count is about flushes of a fixed queue only. During catch-up each flush
    follows a fresh executor run, so how many pages a catch-up takes depends
    on what the executor returns, and the model states no count for it.
- **Empty flushes.**
  - The comment at `query_service.py:208` says a message goes out when the
    queue holds data or the reply is a snapshot reply. The guard on the next
    line tests the class constant `STATE_SNAPSHOT`, which is 1 and therefore
    always true.
  - So every flush sends a message, including one for a live change whose
    INSERT-then-DELETE coalescing left the queue empty.
- **Message type.**
  - A flush is typed by the phase before it (`query_service.py:215`).
  - So a live change that arrives while an instance is still paging through
    its snapshot goes out as `<Q>_SNAPSHOT`.
  - When the coalesced queue is shorter than a page, that flush also sets
    `IS_LAST` and moves the instance to the live phase (`:247-249`), even
    though the executor may still hold catch-up rows
    (`QueryInstance.ChangeDuringSnapshot`).
- **Missing pre-commit snapshot.**
  - When the post-commit hook finds no pre-commit snapshot, the lookup
    `self.rowsByTxnId[txnId]` raises `KeyError` (`query_service.py:344`).
  - `ChangeDetector.PostTxn` returns `Raised` with the detector unchanged.
- **Page sizes of zero or less.**
  - With `maxcount <= 0` a flush still takes one row when there is one, and
    never sets `IS_LAST`.
  - The model allows any integer page size and proves this
    (`QueryInstance.NonPositivePageNeverLast`).

## Model

| member | source | states |
|---|---|---|
| OrderedMap.Put | lib/uskit/query_service.py:205 | dict assignment: contents updated; a present key keeps its position, a new key is appended; keys stay distinct |
| OrderedMap.Remove | lib/uskit/query_service.py:197 | `del`: the key leaves both the order and the contents, everything else keeps its relative order, length drops by one |
| OrderedMap.SuffixKeys | lib/uskit/query_service.py:232-240 | with distinct keys, a key is in the suffix after `n` exactly when it is a key not among the first `n` |
| Rows.Apply | lib/uskit/static/connectors.js:10-12 | client side: INSERT/UPDATE store the row under its id, DELETE removes it, other rows untouched |
| Rows.ApplyAllAt | lib/uskit/static/connectors.js:10-12 | among deltas for distinct row ids, each row's final presence and content are decided by its own delta alone |
| Rows.LatestIsLast | lib/uskit/query_service.py:399-401 | when rows are keyed by id, the row kept for an id is the last one the executor yielded with that id |
| DeltaQueue.Push | lib/uskit/query_service.py:188-205 | the full coalescing table: INSERT+DELETE removes the entry; INSERT+other stays INSERT; known row+DELETE is DELETE; else UPDATE; new ids appended; new row always stored; other entries untouched |
| DeltaQueue.PushDeliversSame | lib/uskit/query_service.py:188-205 | coalescing is invisible to the client: delivering the coalesced queue equals delivering the old queue then the new delta (given a queued INSERT is for a row the client lacks) |
| DeltaQueue.DeliveredAt | lib/uskit/query_service.py:188-205 | delivering a queue is per-row: unqueued rows keep the client's value, queued ones end as their queued delta says |
| DeltaQueue.FillGroups | lib/uskit/query_service.py:233-239 | each row filed lands in the list named by its operation, in queue order |
| DeltaQueue.Drain | lib/uskit/query_service.py:232-244 | the take-delete-count loop counts and files exactly the first `DeliverCount` queued entries in order, and leaves the remaining keys in order with their old entries |
| QueryInstance.New | lib/uskit/query_service.py:112-115 | a new instance is in the snapshot phase with page size 500, no cursor and an empty queue |
| QueryInstance.SendQueue | lib/uskit/query_service.py:207-253 | one message per call even with an empty queue; typed by the prior phase; `IS_LAST` iff `1 <= maxcount` and the queue is shorter than `maxcount`; `IS_LAST` empties the queue and moves to UPDATE; the rest of the queue is a suffix with unchanged entries |
| QueryInstance.FlushFilesByOp | lib/uskit/query_service.py:232-239 | the page's INSERT, UPDATE and DELETE lists hold the taken rows of that operation, in queue order |
| QueryInstance.FlushTakesPrefix | lib/uskit/query_service.py:232-244 | with `maxcount >= 1`, a flush takes `min(len, maxcount)` entries from the front and removes exactly their ids |
| QueryInstance.FlushLosesNothing | lib/uskit/query_service.py:232-244 | applying the taken page and then the remaining queue equals applying the whole queue |
| QueryInstance.FlushMessageType | lib/uskit/query_service.py:213-216 | a flush's `MESSAGE_TYPE` is `<Q>_SNAPSHOT` exactly when the instance was in the snapshot phase and `<Q>_UPDATE` exactly when it was live |
| QueryInstance.FlushKeepsLive | lib/uskit/query_service.py:247-251 | once in the UPDATE phase a flush never returns to SNAPSHOT, and its message is `<Q>_UPDATE` |
| QueryInstance.NonPositivePageNeverLast | lib/uskit/query_service.py:241-251 | with `maxcount <= 0` a flush takes at most one row and never sets `IS_LAST` |
| QueryInstance.FlushesToLast | lib/uskit/query_service.py:243-251 | repeated flushes with nothing pushed reach `IS_LAST` after `PagesFor(len, maxcount)` messages |
| QueryInstance.PagesForQuotient | lib/uskit/query_service.py:243-251 | that count is `len / maxcount + 1` |
| QueryInstance.PushInserts | lib/uskit/query_service.py:167-169 | catch-up rows are all queued: old queue order is a prefix, each row id holds its last executor row, other entries untouched |
| QueryInstance.PushInsertsKeys | lib/uskit/query_service.py:167-169 | the queue's keys afterwards are the old keys followed by the rows' ids not queued before, without repeats, in the order the executor first yields them |
| QueryInstance.PushInsertsOps | lib/uskit/query_service.py:195-203 | a catch-up row is queued as INSERT, or as UPDATE over a queued UPDATE/DELETE; never removed |
| QueryInstance.CatchUp | lib/uskit/query_service.py:167-169 | every row returned is queued (present afterwards, carrying the last row returned for its id), the page size is the one asked for, and the cursor becomes the last row returned, or stays when none |
| QueryInstance.CatchUpKeys | lib/uskit/query_service.py:167-169 | catch-up appends the rows' new ids after everything already queued, once each, in executor order |
| QueryInstance.CatchUpEntries | lib/uskit/query_service.py:163-205 | catch-up leaves every queued entry outside the returned ids unchanged, and queues each returned id as INSERT, or as UPDATE over a queued UPDATE or DELETE |
| QueryInstance.OnNext | lib/uskit/query_service.py:163-171 | `MAXCOUNT` overrides the page size only when present; the query runs from the old cursor, which then moves to the last row returned; exactly one page goes out in reply to the request, for this query id, typed by the prior phase; a live instance stays live |
| QueryInstance.FlushSendsOrKeeps | lib/uskit/query_service.py:232-244 | each queued entry is either among the deltas sent or still queued unchanged |
| QueryInstance.CatchUpKeepsEveryRow | lib/uskit/query_service.py:163-171 | every row the executor yields is on the page sent or still queued, carrying the executor's last row for that id |
| QueryInstance.OnDelta | lib/uskit/query_service.py:173-186 | a live change sends exactly one unsolicited page, typed by the prior phase; a live instance stays live |
| QueryInstance.OnDeltaDelivers | lib/uskit/query_service.py:173-205 | the change is coalesced into the queue before the flush: the page holds the front of the coalesced queue, and applying it and then the rest of the queue equals applying the old queue and then the change |
| QueryInstance.ChangeDuringSnapshot | lib/uskit/query_service.py:173-186 | a live change during snapshot paging goes out typed `<Q>_SNAPSHOT`; when the coalesced queue is shorter than a page it carries `IS_LAST`, moves the instance to UPDATE and leaves the catch-up cursor where it was |
| QueryInstance.OnQuery | lib/uskit/query_service.py:126-161 | allowed iff no `allowWhere` or the permission query yields a row; allowed: ACK with id and schema then the catch-up page; refused: exactly one NACK `XPRM` "Query not allowed" and the instance closes; a live instance stays live |
| ChangeDetector.Schema | lib/uskit/query_service.py:290-295 | one schema entry per configured field, in order, with its name, title and type |
| ChangeDetector.AliasByTable | lib/uskit/query_service.py:297-305 | a table has an entry iff some join leg uses it, and it lists exactly that table's aliases in join-spec order |
| ChangeDetector.AliasesOfNonEmpty | lib/uskit/query_service.py:297-305 | a table's alias list is non-empty exactly when some join leg names the table |
| ChangeDetector.NewDetector | lib/uskit/query_service.py:279-305 | a new detector has the schema and alias map above, no snapshots and no subscribers |
| ChangeDetector.Hooks | lib/uskit/query_service.py:307-314 | the six write hooks (three post-commit, three pre-commit) are registered on exactly the tables some join leg names; none when the join is empty |
| ChangeDetector.Subscribe | lib/uskit/query_service.py:117-119 | registering an instance adds it to the subscribers and changes nothing else |
| ChangeDetector.Unsubscribe | lib/uskit/query_service.py:121-124 | closing an instance removes it from the subscribers, keeps all others, changes nothing else |
| ChangeDetector.Collect | lib/uskit/query_service.py:399-401 | keying rows by id holds exactly the ids yielded, each with the last row yielded for it |
| ChangeDetector.RowsByTable | lib/uskit/query_service.py:375-403 | the snapshot holds exactly the rows the executor yields for the filter built from the table's aliases, key fields and record |
| ChangeDetector.PreTxn | lib/uskit/query_service.py:322-333 | the snapshot of the event's table and record, as the executor yields it before the commit, is stored under the transaction id (overwriting); other snapshots, subscribers, aliases and schema unchanged |
| ChangeDetector.Deletions | lib/uskit/query_service.py:351-356 | one DELETE carrying the old row for each old id missing afterwards, and only those |
| ChangeDetector.Changes | lib/uskit/query_service.py:358-368 | one INSERT (new row) per new id and one UPDATE (new row) per id whose row changed, and only those |
| ChangeDetector.Diff | lib/uskit/query_service.py:351-368 | the deltas name distinct ids; exactly the changed ids get one; each is classified DELETE/INSERT/UPDATE with the old or new row as the code does |
| ChangeDetector.DiffDeletesFirst | lib/uskit/query_service.py:351-368 | every deletion in the diff comes before every insert and update |
| ChangeDetector.DiffReplays | lib/uskit/query_service.py:351-368 | applying the diff to the old snapshot yields exactly the new snapshot |
| ChangeDetector.PostTxn | lib/uskit/query_service.py:335-373 | no pre-commit snapshot: `KeyError`, detector unchanged, looked up before the query runs; otherwise the diff from the stored snapshot to the snapshot of the event's table and record after the commit is raised, it replays the old rows into the new ones, and only that transaction's snapshot is removed |
| ChangeDetector.InterleavedTxnsIsolated | lib/uskit/query_service.py:322-373 | hooks interleaved as A-pre, B-pre, B-post, A-post, each run against the store as it then is, give each transaction the diff of its own two snapshots and leave neither snapshot behind |
| WhereFilter.KeyArgs | lib/uskit/query_service.py:392 | one argument per key field: the record's value, or 0 when absent |
| WhereFilter.BuildFilter | lib/uskit/query_service.py:380-397 | two disjuncts per alias, an equality and an IS NULL conjunction over the key fields, and the key arguments once per alias |
| WhereFilter.ArgCount | lib/uskit/query_service.py:389-392 | there are `|aliases| * |keyfields|` arguments |
| WhereFilter.PlaceholdersMatchArgs | lib/uskit/query_service.py:385-399 | the rendered where-string holds as many `?` as there are arguments, when no alias or key field contains `?` |
| QueryIds.NatToString | lib/uskit/query_service.py:38 | decimal digits only, never empty |
| QueryIds.ParseNatToString | lib/uskit/query_service.py:38 | the decimal text of a number reads back as that number |
| QueryIds.Mint | lib/uskit/query_service.py:35-38 | the counter is bumped first and the id is written with the new value and the message id, `0` when absent |
| QueryIds.QueryIdTextInjective | lib/uskit/query_service.py:67-68 | an id determines the process id, counter value and message id it came from |
| QueryIds.MintedIdsDiffer | lib/uskit/query_service.py:35-38 | a newly minted id differs from every id minted before by the same process |
| QuerySession.FreshId | lib/uskit/query_service.py:67-71 | the id minted for a new query is never already registered |
| QuerySession.OnQuery | lib/uskit/query_service.py:65-73 | the id minted for the request is not yet registered; the instance created under it is filed under that id and the session sends exactly that instance's replies (the code files it at :71 before awaiting `on_query` at :73; each step being sequential, the order is not observable) |
| QuerySession.Admit | lib/uskit/query_service.py:69-71 | the new instance is registered under its id and no other entry changes; it stays subscribed exactly when it did not close itself; other subscribers, snapshots and schema unchanged; the counter is the bumped one |
| QuerySession.OnNextAsWritten | lib/uskit/query_service.py:75-88 | unknown or missing id: exactly one NACK `XQID` "Invalid query ID: <id>" without `REPLY_TO_ID`, registry unchanged; known id: `AttributeError` |
| QuerySession.OnNext | lib/uskit/query_service.py:75-88 | intended routing: the id of an open query (registered and still subscribed) gets exactly that instance's catch-up page; any other id gets the `XQID` refusal and nothing changes |
| QuerySession.NextDiscrepancy | lib/uskit/query_service.py:79-80 | the two agree on unknown ids; on a known id the code raises where the intended one answers with one message |
| QuerySession.RefusedQueryIsNotServed | lib/uskit/query_service.py:65-80 | a query refused with `XPRM` stays registered under its id (:71), but a later `<Q>_NEXT` with that id is refused as unknown and changes nothing |
| QuerySession.OnClose | lib/uskit/query_service.py:54-63 | the registry is emptied, none of its instances stays subscribed, other subscribers are kept |
| QuerySession.CloseThenNextIsUnknown | lib/uskit/query_service.py:54-88 | after a close every `<Q>_NEXT` is refused as unknown |
| QuerySession.OnDelta | lib/uskit/query_service.py:173-186 | a change reaches exactly the registered instances still subscribed; unsubscribed ones neither change nor send |
| DictMerge.Merge | lib/uskit/util.py:19-30 | result keys are the union; dict1-only keys keep their value; dict2 wins unless both values are mappings; two mappings are merged recursively |
| DictMerge.MergeEmpty | lib/uskit/util.py:24-30 | merging an empty dict2 returns dict1 |
| DictMerge.MergeIntoEmpty | lib/uskit/util.py:24-30 | merging into an empty dict1 returns dict2 |
| DictMerge.MergeSelf | lib/uskit/util.py:24-30 | merging a mapping into itself changes nothing |
| DictMerge.MergeIdempotent | lib/uskit/util.py:24-30 | merging the same dict2 twice equals merging it once |

## Left out

- Asynchronous scheduling. The `asyncio.gather` fan-outs (`query_service.py:61`, `:370-371`) and concurrent handlers are not modelled. Each handler is one sequential step, and a change reaches each subscribed instance independently.
- The database, the `query(...)` executor, SQL evaluation of the where-string, the database's dispatch of hooked events and `db.keyfields` are not modelled. They become function parameters; the filter is a list of disjuncts plus a render step; the hooks registered are the set `ChangeDetector.Hooks`.
- Transport. `session.send` is the list of messages a step returns. The `SessionClosedError` recovery (`query_service.py:262-267`) is not modelled.
- The event manager (not part of this model). Its subscriptions are the detector's subscriber set.
- `QueryService`, the session's event registration (`query_service.py:14-25`, `:47-52`) and the config-file factory (`:409-413`). These are wiring; the configuration is an already-parsed record.
- The process id and the class-level counter are a `Counter` value passed in and out.
- The `addSchema` option of `__sendQueue` is never passed in this file, so pages never carry `SCHEMA`.
- `kwargs.get("message")`: a request message always holds at least `MESSAGE_TYPE`, so it is never empty. Every reply therefore carries `REPLY_TO_ID`.
- `MAXCOUNT` values that are not integers.
- A page always has its three row lists, possibly empty. The code creates `CONTENT[operation]` only when a row of that operation is taken (`query_service.py:235-236`), so a page without deletions has no `DELETE` key at all.
- A `MESSAGE_ID` that is present but JSON `null` is not distinguished from an absent one. The code mints `…|None` for it (`query_service.py:67-68`); the model mints `…|0`, as for an absent id.
- `CONTENT: null` in a request is not modelled. The code's `.get("CONTENT", {})` returns `None`, and the next `.get` raises `AttributeError` (`query_service.py:77`, `:165`); the model's requests always carry a content object.
- Rows.Apply: the client replay at `connectors.js:10-12` forwards to `tableWidget.insert`, `update` and `delete`, whose code is not part of this model. An UPDATE is assumed to store the row under its id whether or not the client holds that id, as an INSERT does; `DeltaQueue.PushDeliversSame` relies on it, because a DELETE followed by an INSERT is queued as an UPDATE.
- Row equality is the structural equality of row values, which stands for Python's `!=` on row dictionaries.
- `util.nowstring` reads the clock and `util.epochstring` returns a constant timestamp; neither is called by the query engine.
- ChangeDetector.Collect: does not state the key order of the keyed rows (first appearance), because only membership and values feed the diff's result.
- ChangeDetector.Diff: does not state the order of the deltas beyond deletions coming first (`ChangeDetector.DiffDeletesFirst`), because the fan-out is asynchronous and a client applies distinct rows independently.
- DictMerge.Merge: works on values, so the merged dictionary's key order and the fact that `dictmerge` mutates and returns `dict1` itself (sharing `dict2`'s sub-dictionaries) are not stated.
- The server, service decorator, connectors other than the row replay, the demo application and the regression scripts are not part of this model.

## Findings

| source | as written | input that shows it | evidently intended | confidence | as-written member | corrected member |
|---|---|---|---|---|---|---|
| lib/uskit/query_service.py:80 | `self.queryInstances[queryId].__on_next(event)` inside `QuerySession` is name-mangled to `_QuerySession__on_next`, which a `QueryInstance` does not have, so the call raises `AttributeError` | a `<Q>_NEXT` whose `CONTENT.QUERY_ID` is a registered query id (`QuerySession.NextForRegisteredQueryRaises`) | route the request to that instance's catch-up step, which answers with the next page, when the query is still open; refuse the id of a query that closed itself (a refused query stays registered) as unknown | high, not executed | QuerySession.OnNextAsWritten | QuerySession.OnNext |
