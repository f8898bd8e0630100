/**
 One client's live query (`QueryInstance`): its phase, page size, catch-up
 cursor and pending-delta queue, and the messages each handler sends.

 Every handler is one sequential step from an instance to the instance
 afterwards plus the messages it sends, in order. The query executor is a
 function of the catch-up cursor and the page size, and the permission query
 a function of the `allowWhere` text; both return rows.
 */
module QueryInstance {
  import opened Options
  import opened Rows
  import opened OrderedMap
  import opened Config
  import opened DeltaQueue
  import opened Arith

  /** `STATE_SNAPSHOT` (catching up on the result set) and `STATE_UPDATE` (live). */
  datatype Phase = Snapshot | Update

  /** The numeric value of `STATE_SNAPSHOT`. */
  const StateSnapshotCode: int := 0x01

  /** Python's truth value of an integer. */
  predicate Truthy(n: int) {
    n != 0
  }

  datatype Instance = Instance(
    queryId: string,
    state: Phase,
    maxcount: int,
    lastrow: Option<Row>,
    queue: Queue)

  /** A client message as the handlers read it: `MESSAGE_ID`, and `CONTENT.QUERY_ID` / `CONTENT.MAXCOUNT`. */
  datatype Inbound = Inbound(messageId: Option<string>, queryId: Option<string>, maxcount: Option<int>)

  /**
   Whether an outbound message carries `REPLY_TO_ID`: a message pushed by a
   live change has none; a reply carries the request's `MESSAGE_ID`, which
   is `None` when the request had none.
   */
  datatype Reply = Unsolicited | InReplyTo(id: Option<string>)

  datatype Outbound =
    /** `<Q>_ACK` with `QUERY_ID` and `SCHEMA`. */
    | Ack(replyTo: Reply, queryId: string, schema: seq<SchemaField>)
    /** `<Q>_NACK` with `ERROR.CODE` and `ERROR.TEXT`. */
    | Nack(replyTo: Reply, code: string, text: string)
    /** `<Q>_SNAPSHOT` or `<Q>_UPDATE` with `QUERY_ID`, the three row lists and `IS_LAST`. */
    | Batch(kind: Phase, replyTo: Reply, queryId: string, page: Page, isLast: bool)

  /** `MESSAGE_TYPE` of an outbound message for query `queryName`. */
  function MessageType(queryName: string, m: Outbound): string {
    match m
    case Ack(_, _, _) => queryName + "_ACK"
    case Nack(_, _, _) => queryName + "_NACK"
    case Batch(Snapshot, _, _, _, _) => queryName + "_SNAPSHOT"
    case Batch(Update, _, _, _, _) => queryName + "_UPDATE"
  }

  /** The outcome of one handler: the instance afterwards, what it sent, and whether it closed itself. */
  datatype Step = Step(inst: Instance, sent: seq<Outbound>, closed: bool)

  /** The instance's consistency condition: a well-keyed queue. */
  ghost predicate Good(inst: Instance) {
    WellKeyed(inst.queue)
  }

  /** `QueryInstance.__init__`: snapshot phase, pages of 500, no cursor, nothing queued. */
  function New(queryId: string): (r: Instance)
    ensures Good(r)
    ensures r.queryId == queryId && r.state == Snapshot && r.maxcount == 500
    ensures r.lastrow == None && r.queue.keys == [] && r.queue.vals == map[]
  {
    Instance(queryId, Snapshot, 500, None, Empty())
  }

  function EmptyPage(): Page {
    Page([], [], [])
  }

  /** The deltas a flush of `q` takes, front to back. */
  function Taken(q: Queue, maxcount: int): (r: seq<Delta>)
    requires WellKeyed(q)
    ensures |r| == DeliverCount(|q.keys|, maxcount) <= |q.keys|
  {
    Entries(q.keys, q.vals)[..DeliverCount(|q.keys|, maxcount)]
  }

  /**
   `__sendQueue`: the guard tests the constant `STATE_SNAPSHOT`, so one
   message goes out on every call, even with nothing queued. It is typed by
   the phase before the call, files the taken rows by operation, and sets
   `IS_LAST` when fewer than `maxcount` rows were taken, which also moves the
   instance to the live phase.
   */
  function SendQueue(inst: Instance, reply: Reply): (r: Step)
    requires Good(inst)
    ensures Good(r.inst) && !r.closed
    ensures |r.sent| == 1 && r.sent[0].Batch?
    ensures r.sent[0].kind == inst.state && r.sent[0].replyTo == reply && r.sent[0].queryId == inst.queryId
    ensures r.sent[0].isLast <==> 1 <= inst.maxcount && |inst.queue.keys| < inst.maxcount
    ensures r.sent[0].isLast ==> r.inst.queue.keys == []
    ensures r.inst.state == (if r.sent[0].isLast then Update else inst.state)
    ensures r.inst.queue.keys == inst.queue.keys[|Taken(inst.queue, inst.maxcount)|..]
    ensures forall k :: k in r.inst.queue.vals ==> r.inst.queue.vals[k] == inst.queue.vals[k]
    ensures r.sent[0].page == Fill(EmptyPage(), Taken(inst.queue, inst.maxcount))
    ensures r.inst.queryId == inst.queryId && r.inst.maxcount == inst.maxcount && r.inst.lastrow == inst.lastrow
  {
    if |inst.queue.keys| > 0 || Truthy(StateSnapshotCode) then
      var drained := Drain(inst.queue, inst.maxcount, 0, EmptyPage());
      DrainFacts(inst.queue, inst.maxcount);
      var isLast := drained.count < inst.maxcount;
      var state := if isLast then Update else inst.state;
      Step(inst.(state := state, queue := drained.rest),
           [Batch(inst.state, reply, inst.queryId, drained.page, isLast)], false)
    else
      Step(inst, [], false)
  }

  /** The loop of a flush, started on an empty page with a zero count, in terms of the rows it takes. */
  lemma DrainFacts(q: Queue, maxcount: int)
    requires WellKeyed(q)
    ensures var d := Drain(q, maxcount, 0, EmptyPage());
      && WellKeyed(d.rest)
      && d.rest.keys == q.keys[|Taken(q, maxcount)|..]
      && (forall k :: k in d.rest.vals ==> d.rest.vals[k] == q.vals[k])
      && d.page == Fill(EmptyPage(), Taken(q, maxcount))
      && (d.count < maxcount <==> 1 <= maxcount && |q.keys| < maxcount)
      && (d.count < maxcount ==> d.rest.keys == [])
  {
    IsLastExactly(|q.keys|, maxcount);
  }

  /** Each taken row lands in the list named by its queued operation, in queue order. */
  lemma FlushFilesByOp(inst: Instance, reply: Reply)
    requires Good(inst)
    ensures var page := SendQueue(inst, reply).sent[0].page;
      && page.inserts == RowsOf(Taken(inst.queue, inst.maxcount), INSERT)
      && page.updates == RowsOf(Taken(inst.queue, inst.maxcount), UPDATE)
      && page.deletes == RowsOf(Taken(inst.queue, inst.maxcount), DELETE)
  {
    FillGroups(EmptyPage(), Taken(inst.queue, inst.maxcount));
  }

  /** Fewer rows than `maxcount` are taken exactly when the whole queue fits in a positive `maxcount`. */
  lemma IsLastExactly(queued: nat, maxcount: int)
    ensures DeliverCount(queued, maxcount) < maxcount <==> 1 <= maxcount && queued < maxcount
    ensures DeliverCount(queued, maxcount) < maxcount ==> DeliverCount(queued, maxcount) == queued
  {
  }

  /**
   With a positive page size a flush takes the first `min(|queue|, maxcount)`
   entries, removes exactly their identifiers from the queue and leaves
   every other entry as it was.
   */
  lemma FlushTakesPrefix(inst: Instance, reply: Reply)
    requires Good(inst)
    requires inst.maxcount >= 1
    ensures var n := |Taken(inst.queue, inst.maxcount)|;
      && n == (if |inst.queue.keys| < inst.maxcount then |inst.queue.keys| else inst.maxcount)
      && n <= inst.maxcount
      && forall i :: 0 <= i < n ==> Taken(inst.queue, inst.maxcount)[i] == inst.queue.vals[inst.queue.keys[i]]
    ensures var q := inst.queue; var r := SendQueue(inst, reply).inst.queue;
      forall k :: k in r.vals <==> k in q.vals && k !in q.keys[..|Taken(q, inst.maxcount)|]
  {
    var q := inst.queue;
    var r := SendQueue(inst, reply).inst.queue;
    var n := |Taken(q, inst.maxcount)|;
    SuffixKeys(q.keys, n);
    assert forall k :: k in r.vals <==> k in r.keys;
  }

  /**
   Nothing is lost by paging: applying the taken deltas and then whatever
   is left in the queue leaves the client where applying the whole queue
   at once would.
   */
  lemma FlushLosesNothing(v: View, inst: Instance, reply: Reply)
    requires Good(inst)
    ensures var rest := SendQueue(inst, reply).inst.queue;
      Delivered(v, inst.queue) == Delivered(ApplyAll(v, Taken(inst.queue, inst.maxcount)), rest)
  {
    var q := inst.queue;
    var rest := SendQueue(inst, reply).inst.queue;
    var es := Entries(q.keys, q.vals);
    var n := |Taken(q, inst.maxcount)|;
    EntriesSuffix(q, rest, n);
    ApplyAllSplit(v, es, n);
  }

  /**
   A flush is typed by the phase the instance was in: `<Q>_SNAPSHOT` until it
   goes live, `<Q>_UPDATE` afterwards, and never anything else.
   */
  lemma FlushMessageType(queryName: string, inst: Instance, reply: Reply)
    requires Good(inst)
    ensures var t := MessageType(queryName, SendQueue(inst, reply).sent[0]);
      && (t == queryName + "_SNAPSHOT" <==> inst.state == Snapshot)
      && (t == queryName + "_UPDATE" <==> inst.state == Update)
  {
    assert |queryName + "_SNAPSHOT"| != |queryName + "_UPDATE"|;
  }

  /** Once live, an instance stays live: no flush moves it back to the snapshot phase. */
  lemma FlushKeepsLive(inst: Instance, reply: Reply)
    requires Good(inst)
    requires inst.state == Update
    ensures SendQueue(inst, reply).inst.state == Update
    ensures SendQueue(inst, reply).sent[0].kind == Update
  {
  }

  /** With a page size of zero or less no flush ever reports `IS_LAST`, however short the queue. */
  lemma NonPositivePageNeverLast(inst: Instance, reply: Reply)
    requires Good(inst)
    requires inst.maxcount <= 0
    ensures !SendQueue(inst, reply).sent[0].isLast
    ensures SendQueue(inst, reply).inst.state == inst.state
    ensures |Taken(inst.queue, inst.maxcount)| == (if |inst.queue.keys| == 0 then 0 else 1)
  {
  }

  /**
   The number of messages needed for `m` rows in pages of `n`: a full page
   leaves `m - n` rows to go, and a short page (possibly empty) is the last.
   */
  function PagesFor(m: nat, n: nat): (r: nat)
    requires n >= 1
    ensures r >= 1
    decreases m
  {
    if m < n then 1 else 1 + PagesFor(m - n, n)
  }

  /**
   Flushing a queue of `M` entries with page size `N >= 1` and nothing
   pushed in between takes `PagesFor(M, N)` messages up to and including
   the one with `IS_LAST`.
   */
  function FlushesToLast(inst: Instance): (r: nat)
    requires Good(inst)
    requires inst.maxcount >= 1
    ensures r == PagesFor(|inst.queue.keys|, inst.maxcount)
    decreases |inst.queue.keys|
  {
    var s := SendQueue(inst, Unsolicited);
    if s.sent[0].isLast then 1
    else
      FullPage(inst, Unsolicited);
      1 + FlushesToLast(s.inst)
  }

  /** A flush without `IS_LAST` under a positive page size takes a full page. */
  lemma FullPage(inst: Instance, reply: Reply)
    requires Good(inst)
    requires inst.maxcount >= 1
    requires !SendQueue(inst, reply).sent[0].isLast
    ensures |inst.queue.keys| >= inst.maxcount
    ensures |SendQueue(inst, reply).inst.queue.keys| == |inst.queue.keys| - inst.maxcount
    ensures SendQueue(inst, reply).inst.maxcount == inst.maxcount
    ensures PagesFor(|inst.queue.keys|, inst.maxcount) ==
      1 + PagesFor(|SendQueue(inst, reply).inst.queue.keys|, inst.maxcount)
  {
  }

  /**
   `PagesFor(M, N)` is `M / N + 1`, not the `ceil(M / N)` one might expect:
   a queue of exactly `N` rows gives a full page without `IS_LAST` and then
   an empty page with it.
   */
  lemma {:induction false} PagesForQuotient(m: nat, n: nat)
    requires n >= 1
    ensures PagesFor(m, n) == m / n + 1
    decreases m
  {
    if m >= n {
      PagesForQuotient(m - n, n);
      DivUnique(m, n, (m - n) / n + 1, (m - n) % n);
    } else {
      DivUnique(m, n, 0, m);
    }
  }

  lemma DivUnique(m: nat, n: nat, k: nat, d: nat)
    requires n >= 1 && d < n && m == k * n + d
    ensures m / n == k
  {
    var q := m / n;
    var rem := m % n;
    assert m == q * n + rem;
    if q < k {
      MulMono(q + 1, k, n);
      MulStep(q, n);
    } else if q > k {
      MulMono(k + 1, q, n);
      MulStep(k, n);
    }
  }

  /** Push one INSERT per executor row, front to back. */
  function PushInserts(q: Queue, rows: seq<Row>): (r: Queue)
    requires WellKeyed(q)
    ensures WellKeyed(r)
    ensures |q.keys| <= |r.keys| && r.keys[..|q.keys|] == q.keys
    ensures forall k :: k in r.vals <==> k in q.vals || k in Ids(rows)
    ensures forall k :: k in Ids(rows) ==> r.vals[k].row == Latest(rows, k).value
    ensures forall k :: k in q.vals && k !in Ids(rows) ==> r.vals[k] == q.vals[k]
    decreases |rows|
  {
    if |rows| == 0 then q
    else
      var q' := Push(q, INSERT, rows[0]);
      var r := PushInserts(q', rows[1..]);
      PushInsertFacts(q, rows[0]);
      PushInsertsStep(q, q', rows, r);
      r
  }

  /**
   The ids not queued before are appended after the old ones, without
   repeats, in the order the executor first yields them.
   */
  lemma {:induction false} PushInsertsKeys(q: Queue, rows: seq<Row>)
    requires WellKeyed(q)
    ensures PushInserts(q, rows).keys == q.keys + NewKeys(q.keys, Ids(rows))
    decreases |rows|
  {
    if |rows| > 0 {
      var q' := Push(q, INSERT, rows[0]);
      PushInsertFacts(q, rows[0]);
      PushInsertsKeys(q', rows[1..]);
      PushInsertsOrder(q.keys, q'.keys, rows, PushInserts(q', rows[1..]).keys);
    }
  }

  /** Queuing an INSERT only ever appends or rewrites in place, and stores the row. */
  lemma PushInsertFacts(q: Queue, row: Row)
    requires WellKeyed(q)
    ensures var q' := Push(q, INSERT, row);
      && |q.keys| <= |q'.keys| && q'.keys[..|q.keys|] == q.keys
      && q'.keys == (if row.rowid in q.keys then q.keys else q.keys + [row.rowid])
      && (forall k :: k in q'.vals <==> k in q.vals || k == row.rowid)
      && row.rowid in q'.vals && q'.vals[row.rowid].row == row
      && (forall k :: k in q.vals && k != row.rowid ==> q'.vals[k] == q.vals[k])
  {
    var q' := Push(q, INSERT, row);
    assert q'.keys[..|q.keys|] == q.keys;
  }

  /**
   One step of `PushInserts`: `q'` is `q` with the first row queued as above,
   and `r` is what the remaining rows make of `q'`.
   */
  lemma PushInsertsStep(q: Queue, q': Queue, rows: seq<Row>, r: Queue)
    requires |rows| > 0
    requires |q.keys| <= |q'.keys| && q'.keys[..|q.keys|] == q.keys
    requires q'.keys == (if rows[0].rowid in q.keys then q.keys else q.keys + [rows[0].rowid])
    requires forall k :: k in q'.vals <==> k in q.vals || k == rows[0].rowid
    requires rows[0].rowid in q'.vals && q'.vals[rows[0].rowid].row == rows[0]
    requires forall k :: k in q.vals && k != rows[0].rowid ==> q'.vals[k] == q.vals[k]
    requires |q'.keys| <= |r.keys| && r.keys[..|q'.keys|] == q'.keys
    requires forall k :: k in r.vals <==> k in q'.vals || k in Ids(rows[1..])
    requires forall k :: k in Ids(rows[1..]) ==> r.vals[k].row == Latest(rows[1..], k).value
    requires forall k :: k in q'.vals && k !in Ids(rows[1..]) ==> r.vals[k] == q'.vals[k]
    ensures |q.keys| <= |r.keys| && r.keys[..|q.keys|] == q.keys
    ensures forall k :: k in r.vals <==> k in q.vals || k in Ids(rows)
    ensures forall k :: k in Ids(rows) ==> r.vals[k].row == Latest(rows, k).value
    ensures forall k :: k in q.vals && k !in Ids(rows) ==> r.vals[k] == q.vals[k]
  {
    PrefixOfPrefix(r.keys, q'.keys, q.keys);
    forall k ensures k in Ids(rows) <==> k == rows[0].rowid || k in Ids(rows[1..]) {
      IdsCons(rows, k);
    }
    forall k | k in Ids(rows) ensures r.vals[k].row == Latest(rows, k).value {
      LatestCons(rows, k);
    }
  }

  /** The key order of one step of `PushInserts`: the first row's id is appended when new, then the rest's new ids. */
  lemma PushInsertsOrder(keys: seq<Key>, keys': seq<Key>, rows: seq<Row>, rkeys: seq<Key>)
    requires |rows| > 0
    requires keys' == (if rows[0].rowid in keys then keys else keys + [rows[0].rowid])
    requires rkeys == keys' + NewKeys(keys', Ids(rows[1..]))
    ensures rkeys == keys + NewKeys(keys, Ids(rows))
  {
    assert Ids(rows)[0] == rows[0].rowid && Ids(rows)[1..] == Ids(rows[1..]);
    NewKeysCons(keys, Ids(rows));
  }

  /** The operation an INSERT for `k` is queued as: UPDATE over a queued UPDATE or DELETE, INSERT otherwise. */
  function InsertOp(q: Queue, k: RowId): Op {
    if k in q.vals && q.vals[k].op != INSERT then UPDATE else INSERT
  }

  /** Queuing an INSERT does not change what a further INSERT for any row is queued as. */
  lemma InsertOpStable(q: Queue, row: Row, k: RowId)
    requires WellKeyed(q)
    ensures InsertOp(Push(q, INSERT, row), k) == InsertOp(q, k)
    ensures k == row.rowid ==> Push(q, INSERT, row).vals[k].op == InsertOp(q, k)
  {
  }

  /**
   Catch-up never deletes: each executor row ends up queued as an INSERT,
   or as an UPDATE when the row was queued as an UPDATE or DELETE before.
   */
  lemma {:induction false} PushInsertsOps(q: Queue, rows: seq<Row>, k: RowId)
    requires WellKeyed(q)
    requires k in Ids(rows)
    ensures PushInserts(q, rows).vals[k].op == InsertOp(q, k)
    decreases |rows|
  {
    var q' := Push(q, INSERT, rows[0]);
    assert Ids(rows) == [rows[0].rowid] + Ids(rows[1..]);
    InsertOpStable(q, rows[0], k);
    if k in Ids(rows[1..]) {
      PushInsertsOps(q', rows[1..], k);
    }
  }

  /** The page size a `<Q>_NEXT` asks for: its `MAXCOUNT` when present, else the instance's current one. */
  function PageSize(inst: Instance, msg: Inbound): int {
    if msg.maxcount.Some? then msg.maxcount.value else inst.maxcount
  }

  /**
   The catch-up step before its flush, given the page size and the rows the
   query returned: every row is queued as an INSERT and the cursor moves to
   the last one.
   */
  function CatchUp(inst: Instance, maxcount: int, rows: seq<Row>): (r: Instance)
    requires Good(inst)
    ensures Good(r)
    ensures r.maxcount == maxcount && r.queryId == inst.queryId && r.state == inst.state
    ensures forall k :: k in r.queue.vals <==> k in inst.queue.vals || k in Ids(rows)
    ensures forall k :: k in Ids(rows) ==> r.queue.vals[k].row == Latest(rows, k).value
    ensures r.lastrow == (if |rows| == 0 then inst.lastrow else Some(rows[|rows| - 1]))
  {
    var lastrow := if |rows| == 0 then inst.lastrow else Some(rows[|rows| - 1]);
    Instance(inst.queryId, inst.state, maxcount, lastrow, PushInserts(inst.queue, rows))
  }

  /** Catch-up queues the rows' new ids after everything already queued, in the executor's order, once each. */
  lemma CatchUpKeys(inst: Instance, maxcount: int, rows: seq<Row>)
    requires Good(inst)
    ensures CatchUp(inst, maxcount, rows).queue.keys == inst.queue.keys + NewKeys(inst.queue.keys, Ids(rows))
  {
    PushInsertsKeys(inst.queue, rows);
  }

  /**
   Catch-up stores only under the returned rows' ids: every other queued
   entry stays as it was, and each returned id is queued as an INSERT, or as
   an UPDATE over a queued UPDATE or DELETE.
   */
  lemma CatchUpEntries(inst: Instance, maxcount: int, rows: seq<Row>)
    requires Good(inst)
    ensures var r := CatchUp(inst, maxcount, rows);
      && (forall k :: k in inst.queue.vals && k !in Ids(rows) ==> r.queue.vals[k] == inst.queue.vals[k])
      && (forall k :: k in Ids(rows) ==> r.queue.vals[k].op == InsertOp(inst.queue, k))
  {
    forall k | k in Ids(rows) ensures PushInserts(inst.queue, rows).vals[k].op == InsertOp(inst.queue, k) {
      PushInsertsOps(inst.queue, rows, k);
    }
  }

  /**
   `__on_next`: run the query from the cursor for one page, catch up, then
   flush in reply to the request.
   */
  function OnNext(inst: Instance, msg: Inbound, execute: (Option<Row>, int) -> seq<Row>): (r: Step)
    requires Good(inst)
    ensures Good(r.inst) && !r.closed
    ensures |r.sent| == 1 && r.sent[0].Batch? && r.sent[0].replyTo == InReplyTo(msg.messageId)
    ensures r.sent[0].kind == inst.state && r.sent[0].queryId == inst.queryId
    ensures inst.state == Update ==> r.inst.state == Update
    ensures r.inst.maxcount == PageSize(inst, msg) && r.inst.queryId == inst.queryId
    ensures var rows := execute(inst.lastrow, PageSize(inst, msg));
      r.inst.lastrow == (if |rows| == 0 then inst.lastrow else Some(rows[|rows| - 1]))
  {
    var maxcount := PageSize(inst, msg);
    SendQueue(CatchUp(inst, maxcount, execute(inst.lastrow, maxcount)), InReplyTo(msg.messageId))
  }

  /**
   Every row the query returns during catch-up is either on the page just
   sent or still queued, and the one kept for it is the query's last row
   with that identifier.
   */
  lemma CatchUpKeepsEveryRow(inst: Instance, msg: Inbound, execute: (Option<Row>, int) -> seq<Row>, k: RowId)
    requires Good(inst)
    requires k in Ids(execute(inst.lastrow, PageSize(inst, msg)))
    ensures var rows := execute(inst.lastrow, PageSize(inst, msg));
      var c := CatchUp(inst, PageSize(inst, msg), rows);
      var r := OnNext(inst, msg, execute);
      || Delta(c.queue.vals[k].op, Latest(rows, k).value) in Taken(c.queue, c.maxcount)
      || (k in r.inst.queue.vals && r.inst.queue.vals[k].row == Latest(rows, k).value)
  {
    var rows := execute(inst.lastrow, PageSize(inst, msg));
    var c := CatchUp(inst, PageSize(inst, msg), rows);
    FlushSendsOrKeeps(c, InReplyTo(msg.messageId), k);
  }

  /** A flush sends each queued entry or leaves it queued as it was. */
  lemma FlushSendsOrKeeps(inst: Instance, reply: Reply, k: RowId)
    requires Good(inst)
    requires k in inst.queue.vals
    ensures var r := SendQueue(inst, reply).inst.queue;
      || inst.queue.vals[k] in Taken(inst.queue, inst.maxcount)
      || (k in r.vals && r.vals[k] == inst.queue.vals[k])
  {
    TakenOrLeft(inst.queue, inst.maxcount, k);
    var r := SendQueue(inst, reply).inst.queue;
    assert k in r.keys ==> k in r.vals;
  }

  /** Every queued entry is among the ones a flush takes, or its key is among those it leaves. */
  lemma TakenOrLeft(q: Queue, maxcount: int, k: RowId)
    requires WellKeyed(q)
    requires k in q.vals
    ensures q.vals[k] in Taken(q, maxcount) || k in q.keys[|Taken(q, maxcount)|..]
  {
    var t := Taken(q, maxcount);
    var n := |t|;
    assert k in q.keys;
    var i :| 0 <= i < |q.keys| && q.keys[i] == k;
    if i < n {
      assert t[i] == Entries(q.keys, q.vals)[i] == q.vals[k];
      assert t[i] in t;
    } else {
      assert q.keys[n..][i - n] == k;
    }
  }

  /** A live change (`__on_insert`, `__on_update`, `__on_delete`): queue it, then flush unsolicited. */
  function OnDelta(inst: Instance, d: Delta): (r: Step)
    requires Good(inst)
    ensures Good(r.inst) && !r.closed
    ensures |r.sent| == 1 && r.sent[0].Batch? && r.sent[0].replyTo == Unsolicited
    ensures r.sent[0].kind == inst.state && r.inst.queryId == inst.queryId
    ensures inst.state == Update ==> r.inst.state == Update
  {
    SendQueue(inst.(queue := Push(inst.queue, d.op, d.row)), Unsolicited)
  }

  /**
   A live change is coalesced into the queue before the flush: the page it
   sends holds the front of the coalesced queue, and a client that applies
   that page and then whatever stays queued ends where applying the old
   queue and then the change would leave it.
   */
  lemma OnDeltaDelivers(v: View, inst: Instance, d: Delta)
    requires Good(inst)
    requires UnseenInsert(v, inst.queue, d.row.rowid)
    ensures var taken := Taken(Push(inst.queue, d.op, d.row), inst.maxcount);
      && OnDelta(inst, d).sent[0].page == Fill(EmptyPage(), taken)
      && Delivered(ApplyAll(v, taken), OnDelta(inst, d).inst.queue) == Apply(Delivered(v, inst.queue), d)
  {
    PushDeliversSame(v, inst.queue, d.op, d.row);
    FlushLosesNothing(v, inst.(queue := Push(inst.queue, d.op, d.row)), Unsolicited);
  }

  /**
   A live change that arrives while an instance is still paging through its
   snapshot goes out typed `<Q>_SNAPSHOT`; when the coalesced queue is
   shorter than a page the flush also sets `IS_LAST` and moves the instance
   to the live phase, whatever catch-up rows the executor still holds.
   */
  lemma ChangeDuringSnapshot(inst: Instance, d: Delta)
    requires Good(inst) && inst.state == Snapshot
    requires 1 <= inst.maxcount && |Push(inst.queue, d.op, d.row).keys| < inst.maxcount
    ensures var r := OnDelta(inst, d);
      && r.sent[0].kind == Snapshot && r.sent[0].isLast
      && r.inst.state == Update && r.inst.lastrow == inst.lastrow
  {
  }

  /**
   `on_query`: without `allowWhere` the query is allowed; with it, allowed
   exactly when the permission query yields a row. An allowed query is
   acknowledged with its id and schema and then caught up; a refused one
   gets an `XPRM` refusal and the instance closes.
   */
  function OnQuery(inst: Instance, msg: Inbound, cfg: QueryCfg, schema: seq<SchemaField>,
                   permission: string -> seq<Row>,
                   execute: (Option<Row>, int) -> seq<Row>): (r: Step)
    requires Good(inst)
    ensures Good(r.inst) && r.inst.queryId == inst.queryId
    ensures inst.state == Update ==> r.inst.state == Update
    ensures var allowed := cfg.allowWhere.None? || |permission(cfg.allowWhere.value)| > 0;
      && (allowed ==> !r.closed && |r.sent| == 2 &&
                      r.sent[0] == Ack(InReplyTo(msg.messageId), inst.queryId, schema) &&
                      r.sent[1..] == OnNext(inst, msg, execute).sent &&
                      r.inst == OnNext(inst, msg, execute).inst)
      && (!allowed ==> r.closed && r.inst == inst &&
                       r.sent == [Nack(InReplyTo(msg.messageId), "XPRM", "Query not allowed")])
  {
    var allowed := cfg.allowWhere.None? || |permission(cfg.allowWhere.value)| > 0;
    if allowed then
      var next := OnNext(inst, msg, execute);
      Step(next.inst, [Ack(InReplyTo(msg.messageId), inst.queryId, schema)] + next.sent, false)
    else
      Step(inst, [Nack(InReplyTo(msg.messageId), "XPRM", "Query not allowed")], true)
  }
}
