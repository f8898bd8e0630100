/**
 One client connection's registry of live queries (`QuerySession`): it mints
 an identifier for each query request, registers and subscribes the new
 instance, routes `<Q>_NEXT` requests by identifier, and closes every
 instance when the connection closes.

 The change detector and the identifier counter are shared by every session
 of the process; a session step takes them in and hands them back.
 */
module QuerySession {
  import opened Options
  import opened Rows
  import opened Config
  import opened ChangeDetector
  import opened QueryIds
  import opened QueryInstance

  datatype Session = Session(instances: map<string, Instance>)

  /** A session together with the process-wide state its steps touch. */
  datatype World = World(session: Session, detector: Detector, counter: Counter)

  /**
   Every registered instance is consistent, sits under its own identifier,
   and carries an identifier this process minted at a counter value already
   used, so the next identifier minted is new.
   */
  ghost predicate Good(w: World) {
    forall id :: id in w.session.instances ==>
      && QueryInstance.Good(w.session.instances[id])
      && w.session.instances[id].queryId == id
      && MintedBefore(w.counter, id)
  }

  ghost predicate MintedBefore(c: Counter, id: string) {
    exists n: nat, m: string :: n <= c.qid && id == QueryIdText(c.pid, n, m)
  }

  /** A minted identifier is never one already registered. */
  lemma FreshId(w: World, messageId: Option<string>)
    requires Good(w)
    ensures Mint(w.counter, messageId).id !in w.session.instances
  {
    var id := Mint(w.counter, messageId).id;
    if id in w.session.instances {
      var n: nat, m: string :| n <= w.counter.qid && id == QueryIdText(w.counter.pid, n, m);
      MintedIdsDiffer(w.counter, n, m, messageId);
    }
  }

  datatype Outcome = Outcome(world: World, sent: seq<Outbound>)

  /**
   `__on_query`: mint an identifier, create the instance under it, register
   it, then let it answer. A step is sequential, so the model computes the
   answer first and files the instance with its outcome.
   */
  function OnQuery(w: World, msg: Inbound, cfg: QueryCfg,
                   permission: string -> seq<Row>,
                   execute: (Option<Row>, int) -> seq<Row>): (r: Outcome)
    requires Good(w)
    ensures Good(r.world)
    ensures Mint(w.counter, msg.messageId).id !in w.session.instances
    ensures var step := QueryInstance.OnQuery(New(Mint(w.counter, msg.messageId).id), msg, cfg,
                                              w.detector.schema, permission, execute);
      r.world == Admit(w, msg.messageId, step) && r.sent == step.sent
  {
    FreshId(w, msg.messageId);
    var step := QueryInstance.OnQuery(New(Mint(w.counter, msg.messageId).id), msg, cfg,
                                      w.detector.schema, permission, execute);
    Outcome(Admit(w, msg.messageId, step), step.sent)
  }

  /**
   Registering the instance a query request created under the next minted
   identifier: it is subscribed, and unsubscribed again when it closed
   itself (a refused query), but stays registered either way.
   */
  function Admit(w: World, messageId: Option<string>, step: Step): (r: World)
    requires Good(w)
    requires QueryInstance.Good(step.inst) && step.inst.queryId == Mint(w.counter, messageId).id
    ensures Good(r)
    ensures var id := Mint(w.counter, messageId).id;
      && id !in w.session.instances
      && r.session.instances.Keys == w.session.instances.Keys + {id}
      && (forall k :: k in w.session.instances ==> r.session.instances[k] == w.session.instances[k])
      && r.session.instances[id] == step.inst
      && r.counter == Mint(w.counter, messageId).counter
      && (id in r.detector.subscribers <==> !step.closed)
      && (forall s :: s != id ==> (s in r.detector.subscribers <==> s in w.detector.subscribers))
      && r.detector.rowsByTxnId == w.detector.rowsByTxnId && r.detector.schema == w.detector.schema
  {
    var minted := Mint(w.counter, messageId);
    var id := minted.id;
    FreshId(w, messageId);
    var d := Subscribe(w.detector, id);
    var d' := if step.closed then Unsubscribe(d, id) else d;
    var w' := World(Session(w.session.instances[id := step.inst]), d', minted.counter);
    KeepsGood(w, w', id, step.inst);
    w'
  }

  lemma KeepsGood(w: World, w': World, id: string, inst: Instance)
    requires Good(w)
    requires QueryInstance.Good(inst) && inst.queryId == id
    requires w'.session.instances == w.session.instances[id := inst]
    requires w'.counter.pid == w.counter.pid && w'.counter.qid >= w.counter.qid
    requires MintedBefore(w'.counter, id)
    ensures Good(w')
  {
    forall k | k in w.session.instances ensures MintedBefore(w'.counter, k) {
      var n: nat, m: string :| n <= w.counter.qid && k == QueryIdText(w.counter.pid, n, m);
    }
  }

  /** Python's `str` of an optional identifier. */
  function Show(id: Option<string>): string {
    if id.Some? then id.value else "None"
  }

  /** The refusal for an identifier this session does not know; it carries no `REPLY_TO_ID`. */
  function UnknownId(id: Option<string>): Outbound {
    Nack(Unsolicited, "XQID", "Invalid query ID: " + Show(id))
  }

  /** What `__on_next` at the session level does as written: it may raise. */
  datatype NextOutcome =
    | Replied(world: World, sent: seq<Outbound>)
    | AttributeError(world: World)

  /**
   `__on_next` as written. For an unknown identifier it sends the `XQID`
   refusal and changes nothing. For a known one it calls
   `self.queryInstances[queryId].__on_next`, which Python mangles to
   `_QuerySession__on_next` inside `QuerySession`; the instance has no such
   attribute, so the call raises `AttributeError` before anything happens.
   */
  function OnNextAsWritten(w: World, msg: Inbound): (r: NextOutcome)
    ensures (msg.queryId.Some? && msg.queryId.value in w.session.instances) <==> r.AttributeError?
    ensures r.world == w
    ensures r.Replied? ==> r.sent == [Nack(Unsolicited, "XQID", "Invalid query ID: " + Show(msg.queryId))]
  {
    if msg.queryId.Some? && msg.queryId.value in w.session.instances then AttributeError(w)
    else Replied(w, [UnknownId(msg.queryId)])
  }

  /**
   A query the session can serve: registered, and still subscribed, so it
   has not closed itself. A refused query stays registered but is not open.
   */
  predicate Open(w: World, id: Option<string>) {
    id.Some? && id.value in w.session.instances && id.value in w.detector.subscribers
  }

  /**
   `__on_next` as evidently intended: the identifier of an open query is
   routed to that instance's catch-up step; any other identifier, including
   that of a query refused with `XPRM`, gets the `XQID` refusal.
   */
  function OnNext(w: World, msg: Inbound, execute: (Option<Row>, int) -> seq<Row>): (r: Outcome)
    requires Good(w)
    ensures Good(r.world)
    ensures r.world.detector == w.detector && r.world.counter == w.counter
    ensures r.world.session.instances.Keys == w.session.instances.Keys
    ensures !Open(w, msg.queryId) ==> r.world == w && r.sent == [UnknownId(msg.queryId)]
    ensures Open(w, msg.queryId) ==>
      var id := msg.queryId.value;
      var step := QueryInstance.OnNext(w.session.instances[id], msg, execute);
      && r.world.session.instances == w.session.instances[id := step.inst]
      && r.sent == step.sent
      && |r.sent| == 1 && r.sent[0].Batch? && r.sent[0].queryId == id
      && r.sent[0].replyTo == InReplyTo(msg.messageId)
  {
    if Open(w, msg.queryId) then
      var id := msg.queryId.value;
      var step := QueryInstance.OnNext(w.session.instances[id], msg, execute);
      var w' := w.(session := Session(w.session.instances[id := step.inst]));
      KeepsGood(w, w', id, step.inst);
      Outcome(w', step.sent)
    else
      Outcome(w, [UnknownId(msg.queryId)])
  }

  /**
   The two agree on unknown identifiers; on a known one the code as written
   raises where the intended behaviour answers with one message: a page for
   an open query, the `XQID` refusal for one that closed itself.
   */
  lemma NextDiscrepancy(w: World, msg: Inbound, execute: (Option<Row>, int) -> seq<Row>)
    requires Good(w)
    ensures msg.queryId.None? || msg.queryId.value !in w.session.instances ==>
      OnNextAsWritten(w, msg) == Replied(OnNext(w, msg, execute).world, OnNext(w, msg, execute).sent)
    ensures msg.queryId.Some? && msg.queryId.value in w.session.instances ==>
      OnNextAsWritten(w, msg).AttributeError? && |OnNext(w, msg, execute).sent| == 1
  {
  }

  /**
   A query refused with `XPRM` stays registered under its identifier, but no
   later `<Q>_NEXT` carrying that identifier is served: it is refused as
   unknown and nothing changes.
   */
  lemma RefusedQueryIsNotServed(w: World, msg: Inbound, cfg: QueryCfg,
                                permission: string -> seq<Row>,
                                execute: (Option<Row>, int) -> seq<Row>,
                                next: Inbound, executeNext: (Option<Row>, int) -> seq<Row>)
    requires Good(w)
    requires cfg.allowWhere.Some? && |permission(cfg.allowWhere.value)| == 0
    requires next.queryId == Some(Mint(w.counter, msg.messageId).id)
    ensures var q := OnQuery(w, msg, cfg, permission, execute);
      && next.queryId.value in q.world.session.instances
      && OnNext(q.world, next, executeNext) == Outcome(q.world, [UnknownId(next.queryId)])
  {
    var step := QueryInstance.OnQuery(New(Mint(w.counter, msg.messageId).id), msg, cfg,
                                      w.detector.schema, permission, execute);
    assert step.closed;
    var q := OnQuery(w, msg, cfg, permission, execute);
    assert !Open(q.world, next.queryId);
  }

  /** A concrete request that shows the difference: the `_NEXT` for a query the session just registered. */
  lemma NextForRegisteredQueryRaises()
    ensures var inst := New("Q7-1|0");
      var w := World(Session(map["Q7-1|0" := inst]), Detector([], map[], map[], {"Q7-1|0"}), Counter(7, 1));
      var msg := Inbound(Some("2"), Some("Q7-1|0"), None);
      OnNextAsWritten(w, msg).AttributeError?
  {
  }

  /**
   `__on_close`: every registered instance closes, which unsubscribes it,
   and the registry is emptied. Subscribers of other sessions stay.
   */
  function OnClose(w: World): (r: World)
    ensures r.session.instances == map[]
    ensures forall id :: id in w.session.instances ==> id !in r.detector.subscribers
    ensures forall s :: s !in w.session.instances ==> (s in r.detector.subscribers <==> s in w.detector.subscribers)
    ensures r.detector.rowsByTxnId == w.detector.rowsByTxnId && r.counter == w.counter
  {
    var d := w.detector.(subscribers := w.detector.subscribers - w.session.instances.Keys);
    World(Session(map[]), d, w.counter)
  }

  /** After a close the session is trivially consistent and holds nothing to route to. */
  lemma CloseThenNextIsUnknown(w: World, msg: Inbound, execute: (Option<Row>, int) -> seq<Row>)
    ensures Good(OnClose(w))
    ensures OnNext(OnClose(w), msg, execute).sent == [UnknownId(msg.queryId)]
  {
  }

  /**
   A change raised by the detector reaches every registered instance that is
   still subscribed: each queues it and flushes unsolicited; an unsubscribed
   one neither changes nor sends.
   */
  function OnDelta(w: World, d: Delta): (r: (World, map<string, seq<Outbound>>))
    requires Good(w)
    ensures Good(r.0)
    ensures r.0.detector == w.detector && r.0.counter == w.counter
    ensures r.0.session.instances.Keys == w.session.instances.Keys == r.1.Keys
    ensures forall id :: id in w.session.instances && id !in w.detector.subscribers ==>
      r.0.session.instances[id] == w.session.instances[id] && r.1[id] == []
    ensures forall id :: id in w.session.instances && id in w.detector.subscribers ==>
      && r.0.session.instances[id] == QueryInstance.OnDelta(w.session.instances[id], d).inst
      && r.1[id] == QueryInstance.OnDelta(w.session.instances[id], d).sent
  {
    var reg := w.session.instances;
    var subs := w.detector.subscribers;
    var reg' := map id | id in reg :: if id in subs then QueryInstance.OnDelta(reg[id], d).inst else reg[id];
    var sent := map id | id in reg :: if id in subs then QueryInstance.OnDelta(reg[id], d).sent else [];
    var w' := w.(session := Session(reg'));
    assert Good(w') by {
      forall id | id in reg' ensures QueryInstance.Good(reg'[id]) && reg'[id].queryId == id && MintedBefore(w.counter, id) {
      }
    }
    (w', sent)
  }
}
