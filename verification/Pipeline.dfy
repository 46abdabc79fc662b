/** The two halves of the event pipeline of FX/financial_boundary/eventing.py joined: rows of the outbox are claimed,
    released and delivered any number of times, and each delivery is a call of the inbox. The repository holds no
    publisher that carries financial rows from one to the other, so the delivering step is the model's own. */
module Pipeline {
  import opened Values
  import Outbox
  import Inbox

  datatype State = State(queue: Outbox.History, inbox: Inbox.Db)

  /** The envelope that a row of the outbox stores. */
  type Content = Outbox.EventId -> Inbox.Envelope

  /** Events have their own ids. */
  ghost predicate Distinct(content: Content) {
    forall x, y :: content(x).id == content(y).id ==> x == y
  }

  /** A step of the outbox, the delivery of a row to a worker, or a step of a worker in the inbox. */
  datatype Op =
    | Queue(op: Outbox.Op)
    | Deliver(worker: Inbox.Worker, id: Outbox.EventId)
    | Work(action: Inbox.Action)

  const EMPTY := State(Outbox.History(map[], []), Inbox.EMPTY)

  function Next(hash: Inbox.Hash, content: Content, s: State, op: Op): State {
    match op
    case Queue(o) => s.(queue := Outbox.Next(s.queue, o))
    case Deliver(w, id) => s.(inbox := Inbox.Next(hash, s.inbox, Inbox.Call(w, content(id))))
    case Work(action) => s.(inbox := Inbox.Next(hash, s.inbox, action))
  }

  function Run(hash: Inbox.Hash, content: Content, ops: seq<Op>, n: nat): State
    requires n <= |ops|
  {
    if n == 0 then EMPTY else Next(hash, content, Run(hash, content, ops, n - 1), ops[n - 1])
  }

  /** Only rows that were claimed at some time are delivered, however late, often or concurrently. */
  ghost predicate Claimed(s: State, id: Outbox.EventId) {
    id in s.queue.rows && s.queue.rows[id].attempts >= 1
  }

  ghost predicate Possible(s: State, op: Op) {
    match op
    case Queue(o) => Outbox.Possible(s.queue.rows, o)
    case Deliver(_, id) => Claimed(s, id)
    case Work(action) => !action.Call?
  }

  ghost predicate Feasible(hash: Inbox.Hash, content: Content, ops: seq<Op>) {
    forall i {:trigger Possible(Run(hash, content, ops, i), ops[i])} | 0 <= i < |ops| ::
      Possible(Run(hash, content, ops, i), ops[i])
  }

  /** A delivery of the row was answered True or False. */
  ghost predicate Acknowledged(content: Content, s: State, id: Outbox.EventId) {
    exists k :: 0 <= k < |s.inbox.replies| && s.inbox.replies[k].0 == content(id) &&
                (s.inbox.replies[k].1 == Inbox.FirstEffect || s.inbox.replies[k].1 == Inbox.ExactDuplicate)
  }

  /** A publisher marks a row only after such an answer. */
  ghost predicate MarksAcknowledged(hash: Inbox.Hash, content: Content, ops: seq<Op>) {
    forall i {:trigger MarkAcknowledged(content, Run(hash, content, ops, i), ops[i])} | 0 <= i < |ops| ::
      MarkAcknowledged(content, Run(hash, content, ops, i), ops[i])
  }

  ghost predicate MarkAcknowledged(content: Content, s: State, op: Op) {
    op.Queue? && op.op.Mark? ==> Acknowledged(content, s, op.op.id)
  }

  /** A mark that takes effect, because its row is IN_FLIGHT, is of an event that the inbox has recorded. */
  ghost predicate MarkConfirmed(content: Content, s: State, op: Op) {
    op.Queue? && op.op.Mark? && op.op.id in s.queue.rows && s.queue.rows[op.op.id].status == Outbox.IN_FLIGHT ==>
      content(op.op.id).id in s.inbox.inbox
  }

  ghost predicate MarksConfirmed(hash: Inbox.Hash, content: Content, ops: seq<Op>) {
    forall i {:trigger MarkConfirmed(content, Run(hash, content, ops, i), ops[i])} | 0 <= i < |ops| ::
      MarkConfirmed(content, Run(hash, content, ops, i), ops[i])
  }

  ghost predicate IsPublished(s: State, id: Outbox.EventId) {
    id in s.queue.rows && s.queue.rows[id].status == Outbox.PUBLISHED
  }

  /** Each published row has had its effect exactly once. */
  ghost predicate PublishedOnce(content: Content, s: State) {
    forall id | IsPublished(s, id) :: EffectsOf(content, s, id) == 1
  }

  ghost predicate AlwaysPublishedOnce(hash: Inbox.Hash, content: Content, ops: seq<Op>) {
    forall n {:trigger PublishedOnce(content, Run(hash, content, ops, n))} | 0 <= n <= |ops| ::
      PublishedOnce(content, Run(hash, content, ops, n))
  }

  ghost function EffectsOf(content: Content, s: State, id: Outbox.EventId): nat {
    Inbox.EffectsOf(s.inbox.effects, content(id).id)
  }

  // ---------------------------------------------------------------------------------------------
  // What every step keeps
  // ---------------------------------------------------------------------------------------------

  /** The envelopes of the rows that were claimed. */
  ghost function Delivered(content: Content, s: State): iset<Inbox.Envelope> {
    iset id | Claimed(s, id) :: content(id)
  }

  ghost predicate Sound(hash: Inbox.Hash, content: Content, s: State) {
    Inbox.Safe(hash, s.inbox) && Inbox.AllWithin(s.inbox, Delivered(content, s))
  }

  lemma ClaimedStaysClaimed(s: State, op: Outbox.Op, id: Outbox.EventId)
    requires Claimed(s, id)
    ensures Claimed(s.(queue := Outbox.Next(s.queue, op)), id)
  {
  }

  lemma StepKeepsSound(hash: Inbox.Hash, content: Content, s: State, op: Op)
    requires Sound(hash, content, s) && Possible(s, op)
    ensures Sound(hash, content, Next(hash, content, s, op))
  {
    match op {
      case Queue(o) =>
        forall id | Claimed(s, id) ensures Claimed(Next(hash, content, s, op), id) {
          ClaimedStaysClaimed(s, o, id);
        }
      case Deliver(w, id) =>
        Inbox.StepKeepsSafe(hash, s.inbox, Inbox.Call(w, content(id)));
        Inbox.StepKeepsWithin(hash, s.inbox, Inbox.Call(w, content(id)), Delivered(content, s));
        assert Delivered(content, Next(hash, content, s, op)) == Delivered(content, s);
      case Work(action) =>
        Inbox.StepKeepsSafe(hash, s.inbox, action);
        Inbox.StepKeepsWithin(hash, s.inbox, action, Delivered(content, s));
        assert Delivered(content, Next(hash, content, s, op)) == Delivered(content, s);
    }
  }

  lemma {:induction false} RunIsSound(hash: Inbox.Hash, content: Content, ops: seq<Op>, n: nat)
    requires n <= |ops| && Feasible(hash, content, ops)
    ensures Sound(hash, content, Run(hash, content, ops, n))
  {
    if n > 0 {
      RunIsSound(hash, content, ops, n - 1);
      assert Possible(Run(hash, content, ops, n - 1), ops[n - 1]);
      StepKeepsSound(hash, content, Run(hash, content, ops, n - 1), ops[n - 1]);
    }
  }

  // ---------------------------------------------------------------------------------------------
  // End to end
  // ---------------------------------------------------------------------------------------------

  /** However often a row is claimed, released and delivered, its effect is committed at most once; it is committed only
      for a row that was claimed, and then with that row's whole envelope. */
  lemma EffectAtMostOnce(hash: Inbox.Hash, content: Content, ops: seq<Op>, n: nat, id: Outbox.EventId)
    requires n <= |ops| && Feasible(hash, content, ops) && Distinct(content)
    ensures var s := Run(hash, content, ops, n);
            && EffectsOf(content, s, id) <= 1
            && (EffectsOf(content, s, id) == 1 ==> Claimed(s, id) && content(id) in s.inbox.effects)
  {
    RunIsSound(hash, content, ops, n);
    var s := Run(hash, content, ops, n);
    if EffectsOf(content, s, id) >= 1 {
      var i := Inbox.CountedEffectExists(s.inbox.effects, content(id).id);
      assert s.inbox.effects[i] in Delivered(content, s);
      assert s.inbox.effects[i] == content(id);
    }
  }

  lemma AcknowledgedHasOneEffect(hash: Inbox.Hash, content: Content, s: State, id: Outbox.EventId)
    requires Inbox.Safe(hash, s.inbox) && Acknowledged(content, s, id)
    ensures EffectsOf(content, s, id) == 1
  {
    var k :| 0 <= k < |s.inbox.replies| && s.inbox.replies[k].0 == content(id) &&
             (s.inbox.replies[k].1 == Inbox.FirstEffect || s.inbox.replies[k].1 == Inbox.ExactDuplicate);
    assert Inbox.ReplyTrue(hash, s.inbox, s.inbox.replies[k].0, s.inbox.replies[k].1);
    if s.inbox.replies[k].1 == Inbox.FirstEffect {
      TrueReplyIsCounted(s.inbox.replies, k);
      assert Inbox.Committers(s.inbox, content(id).id) == EffectsOf(content, s, id);
    }
  }

  lemma {:induction false} TrueReplyIsCounted(replies: seq<(Inbox.Envelope, Inbox.Reply)>, k: nat)
    requires k < |replies| && replies[k].1 == Inbox.FirstEffect
    ensures Inbox.RepliesOf(replies, replies[k].0.id, Inbox.FirstEffect) >= 1
  {
    if k < |replies| - 1 {
      TrueReplyIsCounted(replies[..|replies| - 1], k);
    }
  }

  /** A row becomes published only by a mark that finds it IN_FLIGHT, and what the inbox has recorded it keeps. */
  lemma StepPublishes(hash: Inbox.Hash, content: Content, s: State, op: Op, id: Outbox.EventId)
    requires IsPublished(Next(hash, content, s, op), id)
    ensures IsPublished(s, id) ||
            (op.Queue? && op.op.Mark? && op.op.id == id && id in s.queue.rows &&
             s.queue.rows[id].status == Outbox.IN_FLIGHT)
    ensures s.inbox.inbox.Keys <= Next(hash, content, s, op).inbox.inbox.Keys
  {
  }

  lemma {:induction false} PublishedIsRecorded(
    hash: Inbox.Hash, content: Content, ops: seq<Op>, n: nat, id: Outbox.EventId)
    requires n <= |ops| && MarksConfirmed(hash, content, ops) && IsPublished(Run(hash, content, ops, n), id)
    ensures content(id).id in Run(hash, content, ops, n).inbox.inbox
  {
    var s := Run(hash, content, ops, n - 1);
    StepPublishes(hash, content, s, ops[n - 1], id);
    assert MarkConfirmed(content, s, ops[n - 1]);
    if IsPublished(s, id) {
      PublishedIsRecorded(hash, content, ops, n - 1, id);
    }
  }

  /** On every run, with crashes, expired leases and redeliveries: at every moment each published row has had its effect
      exactly once if and only if every mark that takes effect is of an event that the inbox has recorded by then. */
  lemma PublishedOnceIffMarksConfirmed(hash: Inbox.Hash, content: Content, ops: seq<Op>)
    requires Feasible(hash, content, ops)
    ensures AlwaysPublishedOnce(hash, content, ops) <==> MarksConfirmed(hash, content, ops)
  {
    if MarksConfirmed(hash, content, ops) {
      forall n | 0 <= n <= |ops| ensures PublishedOnce(content, Run(hash, content, ops, n)) {
        RunIsSound(hash, content, ops, n);
        forall id | IsPublished(Run(hash, content, ops, n), id)
          ensures EffectsOf(content, Run(hash, content, ops, n), id) == 1
        {
          PublishedIsRecorded(hash, content, ops, n, id);
        }
      }
    }
    if AlwaysPublishedOnce(hash, content, ops) {
      forall i | 0 <= i < |ops| ensures MarkConfirmed(content, Run(hash, content, ops, i), ops[i]) {
        assert PublishedOnce(content, Run(hash, content, ops, i + 1));
        RunIsSound(hash, content, ops, i + 1);
        MarkPublishes(hash, content, Run(hash, content, ops, i), ops[i]);
      }
    }
  }

  lemma MarkPublishes(hash: Inbox.Hash, content: Content, s: State, op: Op)
    requires var next := Next(hash, content, s, op); PublishedOnce(content, next) && Inbox.EffectsOk(hash, next.inbox)
    ensures MarkConfirmed(content, s, op)
  {
    if op.Queue? && op.op.Mark? && op.op.id in s.queue.rows && s.queue.rows[op.op.id].status == Outbox.IN_FLIGHT {
      assert IsPublished(Next(hash, content, s, op), op.op.id);
    }
  }

  /** A publisher that marks a row only after a delivery of it returned meets that condition. */
  lemma AcknowledgedMarksAreConfirmed(hash: Inbox.Hash, content: Content, ops: seq<Op>)
    requires Feasible(hash, content, ops) && MarksAcknowledged(hash, content, ops)
    ensures MarksConfirmed(hash, content, ops)
  {
    forall i | 0 <= i < |ops| ensures MarkConfirmed(content, Run(hash, content, ops, i), ops[i]) {
      assert MarkAcknowledged(content, Run(hash, content, ops, i), ops[i]);
      if ops[i].Queue? && ops[i].op.Mark? {
        RunIsSound(hash, content, ops, i);
        AcknowledgedHasOneEffect(hash, content, Run(hash, content, ops, i), ops[i].op.id);
      }
    }
  }

  /** So every row that such publishers publish has had its effect exactly once. */
  lemma PublishedExactlyOnce(hash: Inbox.Hash, content: Content, ops: seq<Op>, n: nat, id: Outbox.EventId)
    requires n <= |ops| && Feasible(hash, content, ops) && MarksAcknowledged(hash, content, ops)
    requires IsPublished(Run(hash, content, ops, n), id)
    ensures EffectsOf(content, Run(hash, content, ops, n), id) == 1
  {
    AcknowledgedMarksAreConfirmed(hash, content, ops);
    PublishedOnceIffMarksConfirmed(hash, content, ops);
    assert PublishedOnce(content, Run(hash, content, ops, n));
  }

  /** In every run, with or without that discipline, a row has had its effect exactly once if a delivery of it returned
      True or False. */
  lemma AcknowledgedExactlyOnce(hash: Inbox.Hash, content: Content, ops: seq<Op>, n: nat, id: Outbox.EventId)
    requires n <= |ops| && Feasible(hash, content, ops) && Acknowledged(content, Run(hash, content, ops, n), id)
    ensures EffectsOf(content, Run(hash, content, ops, n), id) == 1
  {
    RunIsSound(hash, content, ops, n);
    AcknowledgedHasOneEffect(hash, content, Run(hash, content, ops, n), id);
  }

  /** The discipline is the publisher's: marking asks only for IN_FLIGHT, so a row can be published with no effect. */
  lemma MarkedWithoutDelivery(hash: Inbox.Hash, content: Content)
    ensures var ops :=
              [Queue(Outbox.Enqueue(7, 0, 0)), Queue(Outbox.Claim(0, 1, 1, {}, [7])), Queue(Outbox.Mark(7, 0))];
            var s := Run(hash, content, ops, 3);
            && Feasible(hash, content, ops)
            && 7 in s.queue.rows && s.queue.rows[7].status == Outbox.PUBLISHED && EffectsOf(content, s, 7) == 0
  {
    var ops := [Queue(Outbox.Enqueue(7, 0, 0)), Queue(Outbox.Claim(0, 1, 1, {}, [7])), Queue(Outbox.Mark(7, 0))];
    var one := Run(hash, content, ops, 1);
    assert Run(hash, content, ops, 0) == EMPTY;
    assert one.queue.rows == map[7 := Outbox.Row(Outbox.PENDING, 0, 0, None, None, 0)];
    Outbox.SoleRowIsClaimed(one.queue.rows, 7, 0, 1);
    var two := Run(hash, content, ops, 2);
    assert two.queue.rows == map[7 := Outbox.Row(Outbox.IN_FLIGHT, 1, 0, Some(Outbox.SECOND), None, 0)];
    assert Run(hash, content, ops, 3).queue.rows[7].status == Outbox.PUBLISHED;
    assert Run(hash, content, ops, 3).inbox == Inbox.EMPTY;
    assert Possible(EMPTY, ops[0]) && Possible(one, ops[1]) && Possible(two, ops[2]);
  }
}
