/**
 The per-instance queue of pending deltas (`QueryInstance.queueByRowId`):
 at most one (operation, row) pair per row identifier, kept in the order the
 identifiers were first queued. A new delta for a queued identifier is
 coalesced with the queued one; a flush takes a page of entries off the front.
 */
module DeltaQueue {
  import opened Rows
  import opened OrderedMap

  /** Row identifier -> queued delta, in insertion order. */
  type Queue = OMap<Delta>

  /** The queue is a valid ordered map and every entry sits under its own row's identifier. */
  ghost predicate WellKeyed(q: Queue) {
    && Valid(q)
    && forall k :: k in q.vals ==> q.vals[k].row.rowid == k
  }

  /**
   `__pushQueue`: queue `op` for `row`. A row that is not queued is appended
   as given; a queued one is rewritten by the fixed table of the source, one
   branch per (queued, incoming) pair.
   */
  function Push(q: Queue, op: Op, row: Row): (r: Queue)
    requires WellKeyed(q)
    ensures WellKeyed(r)
    // a row not yet queued is stored as given, at the end
    ensures row.rowid !in q.vals ==> r.keys == q.keys + [row.rowid] && r.vals[row.rowid] == Delta(op, row)
    // a queued INSERT followed by a DELETE cancels out: the entry disappears
    ensures row.rowid in q.vals && q.vals[row.rowid].op == INSERT && op == DELETE ==>
      row.rowid !in r.vals && r.keys == Drop(q.keys, row.rowid)
    // otherwise the entry keeps its place and always carries the new row
    ensures row.rowid in q.vals && !(q.vals[row.rowid].op == INSERT && op == DELETE) ==>
      r.keys == q.keys && row.rowid in r.vals && r.vals[row.rowid].row == row
    // ... as an INSERT while the queued one was an INSERT, as a DELETE when a
    // known row is deleted, and as an UPDATE in every other case
    ensures row.rowid in q.vals && q.vals[row.rowid].op == INSERT && op != DELETE ==>
      r.vals[row.rowid].op == INSERT
    ensures row.rowid in q.vals && q.vals[row.rowid].op != INSERT && op == DELETE ==>
      r.vals[row.rowid].op == DELETE
    ensures row.rowid in q.vals && q.vals[row.rowid].op != INSERT && op != DELETE ==>
      r.vals[row.rowid].op == UPDATE
    // nothing else changes
    ensures forall k :: k != row.rowid ==> (k in r.vals <==> k in q.vals)
    ensures forall k :: k != row.rowid && k in q.vals ==> r.vals[k] == q.vals[k]
  {
    var id := row.rowid;
    if id in q.vals then
      match (q.vals[id].op, op)
      case (INSERT, INSERT) => Put(q, id, Delta(INSERT, row))
      case (INSERT, UPDATE) => Put(q, id, Delta(INSERT, row))
      case (INSERT, DELETE) => Remove(q, id)
      case (UPDATE, INSERT) => Put(q, id, Delta(UPDATE, row))
      case (UPDATE, UPDATE) => Put(q, id, Delta(UPDATE, row))
      case (UPDATE, DELETE) => Put(q, id, Delta(DELETE, row))
      case (DELETE, INSERT) => Put(q, id, Delta(UPDATE, row))
      case (DELETE, UPDATE) => Put(q, id, Delta(UPDATE, row))
      case (DELETE, DELETE) => Put(q, id, Delta(DELETE, row))
    else
      Put(q, id, Delta(op, row))
  }

  /** The queued deltas in queue order. */
  function Entries(keys: seq<RowId>, vals: map<RowId, Delta>): (r: seq<Delta>)
    requires forall k :: k in keys ==> k in vals
    ensures |r| == |keys|
    ensures forall i :: 0 <= i < |keys| ==> r[i] == vals[keys[i]]
  {
    if |keys| == 0 then [] else [vals[keys[0]]] + Entries(keys[1..], vals)
  }

  /** What the client shows once every queued delta has reached it, front to back. */
  function Delivered(v: View, q: Queue): View
    requires WellKeyed(q)
  {
    ApplyAll(v, Entries(q.keys, q.vals))
  }

  lemma EntriesDistinct(q: Queue)
    requires WellKeyed(q)
    ensures DistinctRows(Entries(q.keys, q.vals))
    ensures forall i :: 0 <= i < |q.keys| ==> Entries(q.keys, q.vals)[i].row.rowid == q.keys[i]
  {
  }

  /**
   Delivering a whole queue is pointwise: an identifier that is not queued
   keeps the client's row, a queued one ends as its queued delta says.
   */
  lemma DeliveredAt(v: View, q: Queue, k: RowId)
    requires WellKeyed(q)
    ensures k !in q.vals ==> (k in Delivered(v, q) <==> k in v)
    ensures k !in q.vals && k in v ==> Delivered(v, q)[k] == v[k]
    ensures k in q.vals ==> (k in Delivered(v, q) <==> q.vals[k].op != DELETE)
    ensures k in q.vals && q.vals[k].op != DELETE ==> Delivered(v, q)[k] == q.vals[k].row
  {
    var es := Entries(q.keys, q.vals);
    EntriesDistinct(q);
    if k in q.vals {
      var i :| 0 <= i < |q.keys| && q.keys[i] == k;
      ApplyAllAt(v, es, i);
    } else {
      ApplyAllUntouched(v, es, k);
    }
  }

  /** A queued INSERT stands for a row the client does not have yet. */
  ghost predicate UnseenInsert(v: View, q: Queue, id: RowId) {
    id in q.vals && q.vals[id].op == INSERT ==> id !in v
  }

  /**
   Coalescing never changes what the client ends up with: delivering the
   coalesced queue has the same effect as delivering the old queue and then
   the new delta. The one entry the table drops (INSERT then DELETE) stands
   for a row the client has not been sent, which is what `UnseenInsert` says.
   */
  lemma PushDeliversSame(v: View, q: Queue, op: Op, row: Row)
    requires WellKeyed(q)
    requires UnseenInsert(v, q, row.rowid)
    ensures Delivered(v, Push(q, op, row)) == Apply(Delivered(v, q), Delta(op, row))
  {
    var lhs := Delivered(v, Push(q, op, row));
    var rhs := Apply(Delivered(v, q), Delta(op, row));
    forall k ensures (k in lhs <==> k in rhs) && (k in lhs ==> lhs[k] == rhs[k]) {
      PushDeliversSameAt(v, q, op, row, k);
    }
    assert lhs == rhs;
  }

  /** `PushDeliversSame` for one row identifier. */
  lemma PushDeliversSameAt(v: View, q: Queue, op: Op, row: Row, k: RowId)
    requires WellKeyed(q)
    requires UnseenInsert(v, q, row.rowid)
    ensures var lhs := Delivered(v, Push(q, op, row));
      var rhs := Apply(Delivered(v, q), Delta(op, row));
      (k in lhs <==> k in rhs) && (k in lhs ==> lhs[k] == rhs[k])
  {
    var r := Push(q, op, row);
    DeliveredAt(v, q, k);
    DeliveredAt(v, r, k);
    if k == row.rowid && k in q.vals && !(q.vals[k].op == INSERT && op == DELETE) {
      assert r.vals[k].row == row;
    }
  }

  /** Number of rows one flush delivers: the source's loop stops after `maxcount`, but never before the first row. */
  function DeliverCount(queued: nat, maxcount: int): nat {
    if maxcount <= 1 then (if queued == 0 then 0 else 1)
    else if queued < maxcount then queued
    else maxcount
  }

  /** The rows of `ds` whose operation is `op`, in order. */
  function RowsOf(ds: seq<Delta>, op: Op): (r: seq<Row>)
    ensures |r| <= |ds|
    ensures forall row :: row in r <==> Delta(op, row) in ds
  {
    if |ds| == 0 then []
    else if ds[0].op == op then [ds[0].row] + RowsOf(ds[1..], op)
    else RowsOf(ds[1..], op)
  }

  /** The three lists of one outbound page (`CONTENT.INSERT`, `.UPDATE`, `.DELETE`). */
  datatype Page = Page(inserts: seq<Row>, updates: seq<Row>, deletes: seq<Row>) {
    /** File one delivered delta under its operation. */
    function Add(d: Delta): Page {
      match d.op
      case INSERT => this.(inserts := inserts + [d.row])
      case UPDATE => this.(updates := updates + [d.row])
      case DELETE => this.(deletes := deletes + [d.row])
    }
  }

  /** File deltas into a page one at a time, front to back. */
  function Fill(p: Page, ds: seq<Delta>): Page
    decreases |ds|
  {
    if |ds| == 0 then p else Fill(p.Add(ds[0]), ds[1..])
  }

  /** Filing a list of deltas puts each row in the list named by its operation, in order. */
  lemma {:induction false} FillGroups(p: Page, ds: seq<Delta>)
    ensures Fill(p, ds).inserts == p.inserts + RowsOf(ds, INSERT)
    ensures Fill(p, ds).updates == p.updates + RowsOf(ds, UPDATE)
    ensures Fill(p, ds).deletes == p.deletes + RowsOf(ds, DELETE)
    decreases |ds|
  {
    if |ds| > 0 {
      FillGroups(p.Add(ds[0]), ds[1..]);
    }
  }

  datatype Drained = Drained(rest: Queue, page: Page, count: nat)

  /**
   The loop of `__sendQueue`: take the first queued row, file it under its
   operation, delete it from the queue, count it, and stop once the count
   reaches `maxcount` or the queue is empty.
   */
  function Drain(q: Queue, maxcount: int, count: nat, page: Page): (r: Drained)
    requires WellKeyed(q)
    ensures WellKeyed(r.rest)
    ensures r.count == count + DeliverCount(|q.keys|, maxcount - count)
    ensures r.rest.keys == q.keys[DeliverCount(|q.keys|, maxcount - count)..]
    ensures forall k :: k in r.rest.vals ==> r.rest.vals[k] == q.vals[k]
    ensures r.page == Fill(page, Entries(q.keys, q.vals)[..DeliverCount(|q.keys|, maxcount - count)])
    decreases |q.keys|
  {
    if |q.keys| == 0 then
      Drained(q, page, count)
    else
      var q' := Remove(q, q.keys[0]);
      var page' := page.Add(q.vals[q.keys[0]]);
      FrontRemoval(q);
      if count + 1 >= maxcount then
        DrainLast(q, maxcount, count, page);
        Drained(q', page', count + 1)
      else
        var n := DeliverCount(|q.keys|, maxcount - count);
        assert n >= 1 && DeliverCount(|q'.keys|, maxcount - (count + 1)) == n - 1;
        assert q'.keys[n - 1..] == q.keys[n..];
        FillStep(page, Entries(q.keys, q.vals), n);
        Drain(q', maxcount, count + 1, page')
  }

  /** The step that reaches `maxcount` delivers the first entry only. */
  lemma DrainLast(q: Queue, maxcount: int, count: nat, page: Page)
    requires WellKeyed(q)
    requires |q.keys| > 0
    requires count + 1 >= maxcount
    ensures DeliverCount(|q.keys|, maxcount - count) == 1
    ensures page.Add(q.vals[q.keys[0]]) == Fill(page, Entries(q.keys, q.vals)[..1])
  {
    var es := Entries(q.keys, q.vals);
    assert es[..1] == [q.vals[q.keys[0]]];
    assert es[..1][1..] == [];
  }

  /** Filing the first `n` deltas is filing the first one, then the next `n - 1`. */
  lemma FillStep(page: Page, es: seq<Delta>, n: nat)
    requires 1 <= n <= |es|
    ensures Fill(page, es[..n]) == Fill(page.Add(es[0]), es[1..][..n - 1])
  {
    assert es[..n][0] == es[0] && es[..n][1..] == es[1..][..n - 1];
  }

  /** Removing the first key leaves the remaining keys in order, and the remaining deltas. */
  lemma FrontRemoval(q: Queue)
    requires WellKeyed(q)
    requires |q.keys| > 0
    ensures Remove(q, q.keys[0]).keys == q.keys[1..]
    ensures Entries(Remove(q, q.keys[0]).keys, Remove(q, q.keys[0]).vals) == Entries(q.keys, q.vals)[1..]
  {
    DropSplices(q.keys, 0);
    var r := Remove(q, q.keys[0]);
    assert r.keys == q.keys[1..];
    EntriesSuffix(q, r, 1);
  }

  /** A queue holding a suffix of `q`'s keys, with `q`'s entries, lists the matching suffix of `q`'s deltas. */
  lemma EntriesSuffix(q: Queue, r: Queue, n: nat)
    requires forall k :: k in q.keys ==> k in q.vals
    requires n <= |q.keys| && r.keys == q.keys[n..]
    requires forall k :: k in r.keys ==> k in r.vals && r.vals[k] == q.vals[k]
    ensures Entries(r.keys, r.vals) == Entries(q.keys, q.vals)[n..]
  {
    var a := Entries(r.keys, r.vals);
    var b := Entries(q.keys, q.vals)[n..];
    forall i | 0 <= i < |a| ensures a[i] == b[i] {
      assert r.keys[i] == q.keys[n + i];
    }
  }
}
