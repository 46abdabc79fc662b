/** The inbox half of the event pipeline: consume_financial_event in FX/financial_boundary/eventing.py and the
    provider identities that feed it from FX/financial_boundary/webhooks.py. */
module Inbox {
  import opened Values

  type EventId = string

  type Worker = nat

  datatype Envelope = Envelope(id: EventId, eventType: string, tenant: string, payload: Json)

  /** A row of financial_inbox, keyed by event id. */
  datatype Row = Row(eventType: string, tenant: string, payloadHash: string)

  type Hash = Json -> string

  function RowOf(hash: Hash, e: Envelope): Row {
    Row(e.eventType, e.tenant, hash(e.payload))
  }

  /** How the handler ends; its own IntegrityError is caught by the same clause as a duplicate key. */
  datatype Handler = Succeeds | RaisesIntegrityError | RaisesOther

  /** FirstEffect and ExactDuplicate are the returned True and False; the next three are raised. Crashed and
      CrashedAfterCommit are calls that never answered, the latter with their effect committed. */
  datatype Reply =
    | FirstEffect | ExactDuplicate
    | ReplayConflict | IntegrityRaised | HandlerRaised
    | Crashed | CrashedAfterCommit

  // ---------------------------------------------------------------------------------------------
  // One call on its own
  // ---------------------------------------------------------------------------------------------

  /** The `except IntegrityError` clause. */
  function LookupReply(hash: Hash, inbox: map<EventId, Row>, e: Envelope): Reply {
    if e.id !in inbox then IntegrityRaised
    else if inbox[e.id] != RowOf(hash, e) then ReplayConflict
    else ExactDuplicate
  }

  function ConsumeReply(hash: Hash, inbox: map<EventId, Row>, e: Envelope, handler: Handler): Reply {
    if e.id in inbox then LookupReply(hash, inbox, e)
    else
      match handler
      case Succeeds => FirstEffect
      case RaisesIntegrityError => IntegrityRaised
      case RaisesOther => HandlerRaised
  }

  class EventInbox {
    var inbox: map<EventId, Row>
    var effects: seq<Envelope>

    constructor ()
      ensures inbox == map[] && effects == []
    {
      inbox, effects := map[], [];
    }

    /** The row and the handler's effect are written together or not at all. */
    method ConsumeFinancialEvent(hash: Hash, e: Envelope, handler: Handler) returns (reply: Reply)
      modifies this
      ensures reply == ConsumeReply(hash, old(inbox), e, handler)
      ensures inbox == if reply == FirstEffect then old(inbox)[e.id := RowOf(hash, e)] else old(inbox)
      ensures effects == if reply == FirstEffect then old(effects) + [e] else old(effects)
    {
      var rolledBack, effectsBefore := inbox, effects;
      var integrityError := e.id in inbox;
      if !integrityError {
        inbox := inbox[e.id := Row(e.eventType, e.tenant, hash(e.payload))];
        effects := effects + [e];
        if handler == Succeeds {
          return FirstEffect;
        }
        inbox, effects := rolledBack, effectsBefore;
        if handler == RaisesOther {
          return HandlerRaised;
        }
      }
      if e.id !in inbox {
        return IntegrityRaised;
      }
      var existing := inbox[e.id];
      if existing.eventType != e.eventType || existing.tenant != e.tenant || existing.payloadHash != hash(e.payload) {
        return ReplayConflict;
      }
      return ExactDuplicate;
    }
  }

  // ---------------------------------------------------------------------------------------------
  // Concurrent workers: insert, handler, commit, return and lookup are separate steps
  // ---------------------------------------------------------------------------------------------

  datatype Phase =
    | Calling(envelope: Envelope)
    | Inserted(envelope: Envelope)
    | Handled(envelope: Envelope)
    | Committed(envelope: Envelope)
    | Refused(envelope: Envelope)

  /** `inserting` maps each event id with an uncommitted row to the transaction that wrote it, and `effects`
      holds the committed handler effects in commit order. */
  datatype Db = Db(
    inbox: map<EventId, Row>,
    inserting: map<EventId, Worker>,
    effects: seq<Envelope>,
    workers: map<Worker, Phase>,
    replies: seq<(Envelope, Reply)>)

  datatype Action =
    | Call(worker: Worker, envelope: Envelope)
    | Insert(worker: Worker)
    | Handle(worker: Worker, handler: Handler)
    | Commit(worker: Worker)
    | Return(worker: Worker)
    | Lookup(worker: Worker)
    | Crash(worker: Worker)

  const EMPTY := Db(map[], map[], [], map[], [])

  /** The call ends: its uncommitted row goes and its reply is recorded. */
  function Ended(db: Db, w: Worker, reply: Reply): Db
    requires w in db.workers
  {
    var e := db.workers[w].envelope;
    db.(workers := db.workers - {w},
        inserting := if db.workers[w].Inserted? || db.workers[w].Handled? then db.inserting - {e.id} else db.inserting,
        replies := db.replies + [(e, reply)])
  }

  // Each step; one that is not enabled, such as an insert blocked by another transaction's uncommitted row
  // of the same key, changes nothing.

  function CallStep(db: Db, w: Worker, e: Envelope): Db {
    if w in db.workers then db else db.(workers := db.workers[w := Calling(e)])
  }

  function InsertStep(db: Db, w: Worker): Db {
    if w !in db.workers || !db.workers[w].Calling? then db
    else
      var e := db.workers[w].envelope;
      if e.id in db.inbox then db.(workers := db.workers[w := Refused(e)])
      else if e.id in db.inserting then db
      else db.(inserting := db.inserting[e.id := w], workers := db.workers[w := Inserted(e)])
  }

  function HandleStep(db: Db, w: Worker, handler: Handler): Db {
    if w !in db.workers || !db.workers[w].Inserted? then db
    else
      var e := db.workers[w].envelope;
      match handler
      case Succeeds => db.(workers := db.workers[w := Handled(e)])
      case RaisesIntegrityError =>
        db.(inserting := db.inserting - {e.id}, workers := db.workers[w := Refused(e)])
      case RaisesOther => Ended(db, w, HandlerRaised)
  }

  function CommitStep(hash: Hash, db: Db, w: Worker): Db {
    if w !in db.workers || !db.workers[w].Handled? then db
    else
      var e := db.workers[w].envelope;
      db.(inbox := db.inbox[e.id := RowOf(hash, e)], effects := db.effects + [e],
          inserting := db.inserting - {e.id}, workers := db.workers[w := Committed(e)])
  }

  function ReturnStep(db: Db, w: Worker): Db {
    if w !in db.workers || !db.workers[w].Committed? then db else Ended(db, w, FirstEffect)
  }

  function LookupStep(hash: Hash, db: Db, w: Worker): Db {
    if w !in db.workers || !db.workers[w].Refused? then db
    else Ended(db, w, LookupReply(hash, db.inbox, db.workers[w].envelope))
  }

  function CrashStep(db: Db, w: Worker): Db {
    if w !in db.workers then db
    else Ended(db, w, if db.workers[w].Committed? then CrashedAfterCommit else Crashed)
  }

  function Next(hash: Hash, db: Db, action: Action): Db {
    match action
    case Call(w, e) => CallStep(db, w, e)
    case Insert(w) => InsertStep(db, w)
    case Handle(w, handler) => HandleStep(db, w, handler)
    case Commit(w) => CommitStep(hash, db, w)
    case Return(w) => ReturnStep(db, w)
    case Lookup(w) => LookupStep(hash, db, w)
    case Crash(w) => CrashStep(db, w)
  }

  function Run(hash: Hash, actions: seq<Action>, n: nat): Db
    requires n <= |actions|
  {
    if n == 0 then EMPTY else Next(hash, Run(hash, actions, n - 1), actions[n - 1])
  }

  // ---------------------------------------------------------------------------------------------
  // Exactly one effect per recorded event
  // ---------------------------------------------------------------------------------------------

  function EffectsOf(effects: seq<Envelope>, id: EventId): nat {
    if effects == [] then 0
    else EffectsOf(effects[..|effects| - 1], id) + if effects[|effects| - 1].id == id then 1 else 0
  }

  /** How many calls for an event id ended with a reply. */
  function RepliesOf(replies: seq<(Envelope, Reply)>, id: EventId, reply: Reply): nat {
    if replies == [] then 0
    else
      var last := replies[|replies| - 1];
      RepliesOf(replies[..|replies| - 1], id, reply) + if last.0.id == id && last.1 == reply then 1 else 0
  }

  /** A transaction with an uncommitted row is the only one with that key, and the key is not committed. */
  ghost predicate WorkersOk(db: Db) {
    forall w | w in db.workers && (db.workers[w].Inserted? || db.workers[w].Handled?) ::
      var id := db.workers[w].envelope.id;
      id in db.inserting && db.inserting[id] == w && id !in db.inbox
  }

  /** The committed effects of an event id number 1 exactly when its row exists, and the row is that of the effect. */
  ghost predicate EffectsOk(hash: Hash, db: Db) {
    && (forall i | 0 <= i < |db.effects| :: Recorded(hash, db.inbox, db.effects[i]))
    && (forall id :: EffectsOf(db.effects, id) == if id in db.inbox then 1 else 0)
  }

  ghost predicate Recorded(hash: Hash, inbox: map<EventId, Row>, e: Envelope) {
    e.id in inbox && inbox[e.id] == RowOf(hash, e)
  }

  /** The worker has committed the event and not yet returned. */
  ghost predicate Returning(db: Db, w: Worker, id: EventId) {
    w in db.workers && db.workers[w].Committed? && db.workers[w].envelope.id == id
  }

  ghost predicate IsReturning(db: Db, id: EventId) {
    exists w :: Returning(db, w, id)
  }

  /** The calls that committed an event: those that returned True, those that crashed before they could, and one
      that has yet to return. */
  ghost function Committers(db: Db, id: EventId): nat {
    RepliesOf(db.replies, id, FirstEffect) + RepliesOf(db.replies, id, CrashedAfterCommit) +
    if IsReturning(db, id) then 1 else 0
  }

  /** Every committed effect is accounted for by exactly one call, which holds the event it committed. */
  ghost predicate CallsOk(db: Db) {
    && (forall id :: Committers(db, id) == EffectsOf(db.effects, id))
    && (forall w, v, id | Returning(db, w, id) && Returning(db, v, id) :: w == v)
    && (forall w | w in db.workers && db.workers[w].Committed? :: db.workers[w].envelope in db.effects)
  }

  /** What a recorded False or conflict says about the committed inbox. */
  ghost predicate ReplyTrue(hash: Hash, db: Db, e: Envelope, reply: Reply) {
    && (reply == ExactDuplicate ==> e.id in db.inbox && db.inbox[e.id] == RowOf(hash, e))
    && (reply == ReplayConflict ==> e.id in db.inbox && db.inbox[e.id] != RowOf(hash, e))
  }

  ghost predicate RepliesOk(hash: Hash, db: Db) {
    forall i | 0 <= i < |db.replies| :: ReplyTrue(hash, db, db.replies[i].0, db.replies[i].1)
  }

  ghost predicate Safe(hash: Hash, db: Db) {
    WorkersOk(db) && EffectsOk(hash, db) && CallsOk(db) && RepliesOk(hash, db)
  }

  /** Only a commit writes the inbox or an effect; any other step ends at most one call. */
  lemma NonCommitOnlyReplies(hash: Hash, db: Db, action: Action)
    requires !action.Commit?
    ensures var next := Next(hash, db, action);
            && next.inbox == db.inbox && next.effects == db.effects
            && (next.replies == db.replies ||
                exists e, reply :: next.replies == db.replies + [(e, reply)] &&
                                   (action.Lookup? ==> reply == LookupReply(hash, db.inbox, e)) &&
                                   (!action.Lookup? ==> reply != ExactDuplicate && reply != ReplayConflict))
  {
  }

  lemma NonCommitKeepsWorkers(hash: Hash, db: Db, action: Action)
    requires WorkersOk(db) && !action.Commit?
    ensures WorkersOk(Next(hash, db, action))
  {
  }

  /** A step that neither commits nor ends a committed call leaves every committed call as it was. */
  lemma OtherKeepsReturning(hash: Hash, db: Db, action: Action, w: Worker, id: EventId)
    requires !action.Commit?
    requires !(action.Return? || action.Crash?) || action.worker !in db.workers || !db.workers[action.worker].Committed?
    ensures Returning(Next(hash, db, action), w, id) <==> Returning(db, w, id)
    ensures Returning(db, w, id) ==> Next(hash, db, action).workers[w] == db.workers[w]
  {
  }

  lemma OtherKeepsCalls(hash: Hash, db: Db, action: Action)
    requires CallsOk(db) && !action.Commit?
    requires !(action.Return? || action.Crash?) || action.worker !in db.workers || !db.workers[action.worker].Committed?
    ensures CallsOk(Next(hash, db, action))
  {
    var next := Next(hash, db, action);
    forall w, id
      ensures Returning(next, w, id) <==> Returning(db, w, id)
      ensures Returning(db, w, id) ==> next.workers[w] == db.workers[w]
    {
      OtherKeepsReturning(hash, db, action, w, id);
    }
    forall w | w in next.workers && next.workers[w].Committed? ensures next.workers[w].envelope in next.effects {
      assert Returning(db, w, next.workers[w].envelope.id);
    }
    forall id ensures Committers(next, id) == Committers(db, id) {
      OtherKeepsCount(hash, db, action, id);
      assert IsReturning(next, id) <==> IsReturning(db, id);
    }
  }

  lemma OtherKeepsCount(hash: Hash, db: Db, action: Action, id: EventId)
    requires !action.Commit?
    requires !(action.Return? || action.Crash?) || action.worker !in db.workers || !db.workers[action.worker].Committed?
    ensures forall reply | reply == FirstEffect || reply == CrashedAfterCommit ::
              RepliesOf(Next(hash, db, action).replies, id, reply) == RepliesOf(db.replies, id, reply)
  {
    var next := Next(hash, db, action);
    if next.replies != db.replies {
      var (e, reply) := next.replies[|db.replies|];
      assert next.replies == db.replies + [(e, reply)];
    }
  }

  /** The return, or the crash, of a call that has committed. */
  lemma EndKeepsCalls(db: Db, w: Worker, reply: Reply)
    requires CallsOk(db) && w in db.workers && db.workers[w].Committed?
    requires reply == FirstEffect || reply == CrashedAfterCommit
    ensures CallsOk(Ended(db, w, reply))
  {
    var next, e := Ended(db, w, reply), db.workers[w].envelope;
    assert Returning(db, w, e.id);
    forall v, id ensures Returning(next, v, id) <==> Returning(db, v, id) && v != w {
    }
    forall id ensures Committers(next, id) == Committers(db, id) {
      assert IsReturning(next, id) <==> IsReturning(db, id) && id != e.id;
    }
  }

  lemma CommitKeepsCalls(hash: Hash, db: Db, w: Worker)
    requires Safe(hash, db) && w in db.workers && db.workers[w].Handled?
    ensures CallsOk(CommitStep(hash, db, w))
  {
    var next, e := CommitStep(hash, db, w), db.workers[w].envelope;
    assert EffectsOf(db.effects, e.id) == 0 && !IsReturning(db, e.id);
    forall v, id ensures Returning(next, v, id) <==> Returning(db, v, id) || (v == w && id == e.id) {
    }
    forall id ensures Committers(next, id) == EffectsOf(next.effects, id) {
      assert Returning(next, w, e.id);
      assert IsReturning(next, id) <==> IsReturning(db, id) || id == e.id;
    }
  }

  lemma NonCommitKeepsSafe(hash: Hash, db: Db, action: Action)
    requires Safe(hash, db) && !action.Commit?
    ensures Safe(hash, Next(hash, db, action))
  {
    var next := Next(hash, db, action);
    NonCommitKeepsWorkers(hash, db, action);
    assert next.inbox == db.inbox && next.effects == db.effects;
    if (action.Return? || action.Crash?) && action.worker in db.workers && db.workers[action.worker].Committed? {
      EndKeepsCalls(db, action.worker, if action.Return? then FirstEffect else CrashedAfterCommit);
    } else {
      OtherKeepsCalls(hash, db, action);
    }
    NonCommitKeepsReplies(hash, db, action);
  }

  lemma NonCommitKeepsReplies(hash: Hash, db: Db, action: Action)
    requires RepliesOk(hash, db) && !action.Commit?
    ensures RepliesOk(hash, Next(hash, db, action))
  {
    var next := Next(hash, db, action);
    NonCommitOnlyReplies(hash, db, action);
    if next.replies != db.replies {
      var e, reply :| next.replies == db.replies + [(e, reply)] &&
                      (action.Lookup? ==> reply == LookupReply(hash, db.inbox, e)) &&
                      (!action.Lookup? ==> reply != ExactDuplicate && reply != ReplayConflict);
      assert ReplyTrue(hash, next, e, reply);
      assert forall i | 0 <= i < |db.replies| :: ReplyTrue(hash, db, db.replies[i].0, db.replies[i].1);
    }
  }

  lemma CommitKeepsEffects(hash: Hash, db: Db, w: Worker)
    requires EffectsOk(hash, db) && w in db.workers && db.workers[w].Handled? && db.workers[w].envelope.id !in db.inbox
    ensures EffectsOk(hash, CommitStep(hash, db, w))
  {
    var next, e := CommitStep(hash, db, w), db.workers[w].envelope;
    forall i | 0 <= i < |next.effects| ensures Recorded(hash, next.inbox, next.effects[i]) {
      assert i < |db.effects| ==> Recorded(hash, db.inbox, db.effects[i]);
    }
    forall id ensures EffectsOf(next.effects, id) == if id in next.inbox then 1 else 0 {
    }
  }

  lemma CommitKeepsReplies(hash: Hash, db: Db, w: Worker)
    requires RepliesOk(hash, db) && w in db.workers && db.workers[w].Handled? && db.workers[w].envelope.id !in db.inbox
    ensures RepliesOk(hash, CommitStep(hash, db, w))
  {
    var next := CommitStep(hash, db, w);
    forall i | 0 <= i < |next.replies| ensures ReplyTrue(hash, next, next.replies[i].0, next.replies[i].1) {
      assert ReplyTrue(hash, db, db.replies[i].0, db.replies[i].1);
    }
  }

  lemma CommitKeepsSafe(hash: Hash, db: Db, w: Worker)
    requires Safe(hash, db)
    ensures Safe(hash, CommitStep(hash, db, w))
  {
    if w in db.workers && db.workers[w].Handled? {
      CommitKeepsEffects(hash, db, w);
      CommitKeepsCalls(hash, db, w);
      CommitKeepsReplies(hash, db, w);
    }
  }

  lemma StepKeepsSafe(hash: Hash, db: Db, action: Action)
    requires Safe(hash, db)
    ensures Safe(hash, Next(hash, db, action))
  {
    if action.Commit? {
      CommitKeepsSafe(hash, db, action.worker);
    } else {
      NonCommitKeepsSafe(hash, db, action);
    }
  }

  /** On every interleaving of workers, crashes and redeliveries: the committed effects of an event id number 1
      exactly when its inbox row exists and 0 otherwise; each is accounted for by one call, which returned True, has
      yet to, or crashed between its commit and its return; and a call that returned False, or a conflict, was told
      the truth about the committed row. */
  lemma {:induction false} ExactlyOneEffectPerRow(hash: Hash, actions: seq<Action>, n: nat)
    requires n <= |actions|
    ensures Safe(hash, Run(hash, actions, n))
  {
    if n > 0 {
      ExactlyOneEffectPerRow(hash, actions, n - 1);
      StepKeepsSafe(hash, Run(hash, actions, n - 1), actions[n - 1]);
    }
  }

  /** True is returned at most once for an event id, and never without its effect. It has been returned exactly once
      if and only if the event is committed, no call is about to return it and none crashed in between. */
  lemma TrueAtMostOnce(hash: Hash, actions: seq<Action>, n: nat, id: EventId)
    requires n <= |actions|
    ensures var db := Run(hash, actions, n);
            && RepliesOf(db.replies, id, FirstEffect) <= EffectsOf(db.effects, id) <= 1
            && (RepliesOf(db.replies, id, FirstEffect) == 1 <==>
                id in db.inbox && !IsReturning(db, id) && RepliesOf(db.replies, id, CrashedAfterCommit) == 0)
  {
    ExactlyOneEffectPerRow(hash, actions, n);
    assert Committers(Run(hash, actions, n), id) == EffectsOf(Run(hash, actions, n).effects, id);
  }

  /** A worker can crash between its commit and its return, in any state in which it is about to commit: the effect
      and the row are there, nobody was ever told True, and a redelivery is told False. */
  lemma CrashLosesTheReturn(hash: Hash, db: Db, w: Worker)
    requires Safe(hash, db) && w in db.workers && db.workers[w].Handled?
    ensures var e := db.workers[w].envelope;
            var after := CrashStep(CommitStep(hash, db, w), w);
            && EffectsOf(after.effects, e.id) == 1 && e.id in after.inbox
            && RepliesOf(after.replies, e.id, FirstEffect) == 0
            && LookupReply(hash, after.inbox, e) == ExactDuplicate
  {
    var e := db.workers[w].envelope;
    assert Committers(db, e.id) == EffectsOf(db.effects, e.id) == 0;
  }

  /** And three steps lead there. */
  lemma WorkerReachesCommit(hash: Hash, e: Envelope)
    ensures Run(hash, [Call(0, e), Insert(0), Handle(0, Succeeds)], 3).workers == map[0 := Handled(e)]
  {
    var actions := [Call(0, e), Insert(0), Handle(0, Succeeds)];
    assert Run(hash, actions, 0) == EMPTY;
    assert Run(hash, actions, 1).workers == map[0 := Calling(e)];
    assert Run(hash, actions, 2).workers == map[0 := Inserted(e)];
  }

  lemma {:induction false} TwoEffectsCountTwice(effects: seq<Envelope>, i: nat, j: nat)
    requires i < j < |effects| && effects[i].id == effects[j].id
    ensures EffectsOf(effects, effects[i].id) >= 2
  {
    var rest := effects[..|effects| - 1];
    if j < |effects| - 1 {
      TwoEffectsCountTwice(rest, i, j);
    } else {
      OneEffectCounts(rest, i);
    }
  }

  lemma {:induction false} OneEffectCounts(effects: seq<Envelope>, i: nat)
    requires i < |effects|
    ensures EffectsOf(effects, effects[i].id) >= 1
  {
    if i < |effects| - 1 {
      OneEffectCounts(effects[..|effects| - 1], i);
    }
  }

  lemma {:induction false} CountedEffectExists(effects: seq<Envelope>, id: EventId) returns (i: nat)
    requires EffectsOf(effects, id) >= 1
    ensures i < |effects| && effects[i].id == id
  {
    if effects[|effects| - 1].id == id {
      i := |effects| - 1;
    } else {
      i := CountedEffectExists(effects[..|effects| - 1], id);
    }
  }

  /** What a call that runs alone is answered: True exactly for a new event whose handler succeeds, False exactly for a
      recorded event of the same type, tenant and payload hash, and a conflict for any other recorded one. */
  lemma ReplyIff(hash: Hash, inbox: map<EventId, Row>, e: Envelope, handler: Handler)
    ensures var reply := ConsumeReply(hash, inbox, e, handler);
            var known := e.id in inbox;
            var same := known && inbox[e.id].eventType == e.eventType && inbox[e.id].tenant == e.tenant &&
                        inbox[e.id].payloadHash == hash(e.payload);
            && (reply == FirstEffect <==> !known && handler == Succeeds)
            && (reply == ExactDuplicate <==> same)
            && (reply == ReplayConflict <==> known && !same)
            && (reply == IntegrityRaised <==> !known && handler == RaisesIntegrityError)
            && (reply == HandlerRaised <==> !known && handler == RaisesOther)
  {
  }

  /** From any state, a worker that meets no one else takes a new event to its effect, its row and its True. */
  lemma NewEventIsConsumed(hash: Hash, db: Db, w: Worker, e: Envelope)
    requires w !in db.workers && e.id !in db.inbox && e.id !in db.inserting
    ensures var handled := HandleStep(InsertStep(CallStep(db, w, e), w), w, Succeeds);
            var after := ReturnStep(CommitStep(hash, handled, w), w);
            && after.inbox == db.inbox[e.id := Row(e.eventType, e.tenant, hash(e.payload))]
            && after.effects == db.effects + [e] && after.replies == db.replies + [(e, FirstEffect)]
            && after.workers == db.workers && after.inserting == db.inserting
  {
    var inserted := InsertStep(CallStep(db, w, e), w);
    assert inserted.inserting == db.inserting[e.id := w] && inserted.workers == db.workers[w := Inserted(e)];
    var handled := HandleStep(inserted, w, Succeeds);
    assert handled.workers == db.workers[w := Handled(e)];
    var committed := CommitStep(hash, handled, w);
    assert committed.workers == db.workers[w := Committed(e)] && committed.inserting == db.inserting;
  }

  /** A handler that fails leaves nothing behind: its exception goes up, and an integrity error is looked up. */
  lemma FailedHandlerLeavesNothing(hash: Hash, db: Db, w: Worker, e: Envelope)
    requires w !in db.workers && e.id !in db.inbox && e.id !in db.inserting
    ensures var inserted := InsertStep(CallStep(db, w, e), w);
            && HandleStep(inserted, w, RaisesOther) == db.(replies := db.replies + [(e, HandlerRaised)])
            && LookupStep(hash, HandleStep(inserted, w, RaisesIntegrityError), w) ==
               db.(replies := db.replies + [(e, IntegrityRaised)])
  {
    var inserted := InsertStep(CallStep(db, w, e), w);
    assert inserted.workers == db.workers[w := Inserted(e)] && inserted.inserting == db.inserting[e.id := w];
    assert inserted.workers - {w} == db.workers && inserted.inserting - {e.id} == db.inserting;
    assert HandleStep(inserted, w, RaisesIntegrityError).workers == db.workers[w := Refused(e)];
  }

  /** A recorded event is refused by the key and looked up. */
  lemma RecordedEventIsLookedUp(hash: Hash, db: Db, w: Worker, e: Envelope)
    requires w !in db.workers && e.id in db.inbox
    ensures LookupStep(hash, InsertStep(CallStep(db, w, e), w), w) ==
            db.(replies := db.replies + [(e, LookupReply(hash, db.inbox, e))])
  {
    var refused := InsertStep(CallStep(db, w, e), w);
    assert refused.workers == db.workers[w := Refused(e)] && refused.workers - {w} == db.workers;
  }

  /** With a collision-free hash, False is returned only for an event whose whole envelope was committed. */
  lemma FalseMeansSameEventCommitted(hash: Hash, actions: seq<Action>, n: nat, k: nat) returns (i: nat)
    requires n <= |actions| && k < |Run(hash, actions, n).replies|
    requires Run(hash, actions, n).replies[k].1 == ExactDuplicate
    requires forall p, q :: hash(p) == hash(q) ==> p == q
    ensures i < |Run(hash, actions, n).effects|
    ensures Run(hash, actions, n).effects[i] == Run(hash, actions, n).replies[k].0
  {
    ExactlyOneEffectPerRow(hash, actions, n);
    var db := Run(hash, actions, n);
    var e := db.replies[k].0;
    assert ReplyTrue(hash, db, e, db.replies[k].1);
    assert EffectsOf(db.effects, e.id) == 1;
    i := CountedEffectExists(db.effects, e.id);
  }

  /** Every interleaved call behaves as if the whole operation ran at one instant: at its commit, if it gets there, and
      at the step that ends it otherwise. `handler` is how the handler ended, or would have. */
  lemma CallsAreAtomic(hash: Hash, db: Db, action: Action)
    requires Safe(hash, db) && Next(hash, db, action) != db
    ensures var next := Next(hash, db, action);
            if action.Commit? then
              var e := db.workers[action.worker].envelope;
              && ConsumeReply(hash, db.inbox, e, Succeeds) == FirstEffect
              && next.inbox == db.inbox[e.id := RowOf(hash, e)] && next.effects == db.effects + [e]
              && next.replies == db.replies && next.workers[action.worker] == Committed(e)
            else
              && next.inbox == db.inbox && next.effects == db.effects
              && (next.replies != db.replies && !action.Crash? ==>
                    var e := db.workers[action.worker].envelope;
                    && next.replies == db.replies + [(e, AnswerOf(hash, db, action))]
                    && (action.Return? ==> e in db.effects))
  {
  }

  /** What a call that ends here is answered: what it committed, or what the whole operation gives at this instant. */
  function AnswerOf(hash: Hash, db: Db, action: Action): Reply
    requires action.worker in db.workers
  {
    match action
    case Return(_) => FirstEffect
    case Handle(w, handler) => ConsumeReply(hash, db.inbox, db.workers[w].envelope, handler)
    case _ => ConsumeReply(hash, db.inbox, db.workers[action.worker].envelope, RaisesIntegrityError)
  }

  // ---------------------------------------------------------------------------------------------
  // Provider webhooks
  // ---------------------------------------------------------------------------------------------

  predicate ProviderChar(c: char) {
    'a' <= c <= 'z' || '0' <= c <= '9' || c == '_' || c == '-'
  }

  predicate ProviderOk(provider: string) {
    2 <= |provider| <= 32 && forall i | 0 <= i < |provider| :: ProviderChar(provider[i])
  }

  const PROVIDER_PREFIX := "beyvra-provider:"

  /** The text that the event UUID is derived from. */
  function Identity(provider: string, eventId: string): string {
    PROVIDER_PREFIX + provider + ":" + eventId
  }

  lemma {:induction false} FirstColonIsUnique(p: string, e: string, q: string, f: string)
    requires ':' !in p && ':' !in q && p + ":" + e == q + ":" + f
    ensures p == q && e == f
  {
    var left, right := p + ":" + e, q + ":" + f;
    assert left[|p|] == ':' && right[|q|] == ':';
    assert |p| == |q|;
    assert p == left[..|p|] && q == right[..|q|];
    assert e == left[|p| + 1..] && f == right[|q| + 1..];
  }

  /** The text of an identity, and the lengths of a provider id. */
  lemma IdentityText(provider: string, eventId: string)
    ensures Identity(provider, eventId) == "beyvra-provider:" + provider + ":" + eventId
    ensures ProviderOk(provider) ==> 2 <= |provider| <= 32
    ensures ProviderOk("a_") && ProviderOk("9-") && ProviderOk("0z") && !ProviderOk("a") && !ProviderOk("aB")
    ensures ProviderOk(seq(32, i => 'z')) && !ProviderOk(seq(33, i => 'z'))
  {
    assert "aB"[1] == 'B';
  }

  /** Distinct (provider, event id) pairs have distinct identity texts: a provider id holds no colon. */
  lemma IdentityIsInjective(p: string, e: string, q: string, f: string)
    requires ProviderOk(p) && ProviderOk(q) && Identity(p, e) == Identity(q, f)
    ensures p == q && e == f
  {
    var n := |PROVIDER_PREFIX|;
    assert p + ":" + e == Identity(p, e)[n..] && q + ":" + f == Identity(q, f)[n..];
    FirstColonIsUnique(p, e, q, f);
  }

  /** The provider rule is what makes that true: with a colon in the provider id two pairs share a text. */
  lemma ColonInProviderCollides()
    ensures !ProviderOk("aa:bb")
    ensures Identity("aa", "bb:event1") == Identity("aa:bb", "event1")
  {
    assert "aa:bb"[2] == ':';
  }

  /** A verified delivery: which provider and event it names, and the envelope built for it. */
  datatype Delivery = Delivery(provider: string, eventId: string)

  ghost predicate FromWebhook(uuid: string -> EventId, d: Delivery, e: Envelope) {
    ProviderOk(d.provider) && e.id == uuid(Identity(d.provider, d.eventId))
  }

  /** When every call consumes a verified webhook and the UUID derivation is collision free, two committed
      effects never come from the same provider event, and a False reply is only ever given for a provider
      event that has itself been committed. */
  lemma WebhookEffectsAreDistinct(
    hash: Hash, uuid: string -> EventId, actions: seq<Action>, n: nat, source: Envelope -> Delivery)
    requires n <= |actions|
    requires forall x, y :: uuid(x) == uuid(y) ==> x == y
    requires forall i | 0 <= i < |actions| && actions[i].Call? ::
               FromWebhook(uuid, source(actions[i].envelope), actions[i].envelope)
    ensures var db := Run(hash, actions, n);
            && (forall i, j | 0 <= i < j < |db.effects| :: source(db.effects[i]) != source(db.effects[j]))
            && (forall k | 0 <= k < |db.replies| && db.replies[k].1 == ExactDuplicate ::
                  exists i :: 0 <= i < |db.effects| && source(db.effects[i]) == source(db.replies[k].0))
  {
    ExactlyOneEffectPerRow(hash, actions, n);
    EnvelopesFromWebhooks(hash, uuid, actions, n, source);
    var db := Run(hash, actions, n);
    forall i, j | 0 <= i < j < |db.effects| ensures source(db.effects[i]) != source(db.effects[j]) {
      if db.effects[i].id == db.effects[j].id {
        TwoEffectsCountTwice(db.effects, i, j);
      }
    }
    forall k | 0 <= k < |db.replies| && db.replies[k].1 == ExactDuplicate
      ensures exists i :: 0 <= i < |db.effects| && source(db.effects[i]) == source(db.replies[k].0)
    {
      var e := db.replies[k].0;
      assert ReplyTrue(hash, db, e, db.replies[k].1);
      assert EffectsOf(db.effects, e.id) == 1;
      var i := CountedEffectExists(db.effects, e.id);
      var d, c := source(db.effects[i]), source(e);
      IdentityIsInjective(d.provider, d.eventId, c.provider, c.eventId);
      assert d == c;
    }
  }

  lemma {:induction false} EnvelopesFromWebhooks(
    hash: Hash, uuid: string -> EventId, actions: seq<Action>, n: nat, source: Envelope -> Delivery)
    requires n <= |actions|
    requires forall i | 0 <= i < |actions| && actions[i].Call? ::
               FromWebhook(uuid, source(actions[i].envelope), actions[i].envelope)
    ensures AllWithin(Run(hash, actions, n), iset e | FromWebhook(uuid, source(e), e))
  {
    if n > 0 {
      EnvelopesFromWebhooks(hash, uuid, actions, n - 1, source);
      assert actions[n - 1].Call? ==>
          FromWebhook(uuid, source(actions[n - 1].envelope), actions[n - 1].envelope);
      StepKeepsWithin(hash, Run(hash, actions, n - 1), actions[n - 1], iset e | FromWebhook(uuid, source(e), e));
    }
  }

  /** Every envelope in the tables is one of these. */
  ghost predicate AllWithin(db: Db, envelopes: iset<Envelope>) {
    && (forall w | w in db.workers :: db.workers[w].envelope in envelopes)
    && (forall i | 0 <= i < |db.effects| :: db.effects[i] in envelopes)
    && (forall i | 0 <= i < |db.replies| :: db.replies[i].0 in envelopes)
  }

  lemma StepKeepsWithin(hash: Hash, db: Db, action: Action, envelopes: iset<Envelope>)
    requires AllWithin(db, envelopes) && (action.Call? ==> action.envelope in envelopes)
    ensures AllWithin(Next(hash, db, action), envelopes)
  {
  }
}
