/** The delivery budget of outgoing webhooks: FX/notifications/tasks.py and the manual retry of
    FX/notifications/views.py. */
module WebhookBudget {
  import opened Values

  const CEILING: nat := 32767

  datatype Status = P | S | F | D

  /** The stored error text. */
  datatype ErrorNote = NO_ERROR | ATTEMPTS_EXCEEDED | SUBSCRIPTION_INACTIVE | Text(text: string)

  /** The columns of a webhook delivery row that the steps read or write. */
  datatype Row = Row(
    status: Status,
    attempts: nat,
    attemptLimit: nat,
    responseCode: Option<int>,
    lastError: ErrorNote,
    deliveredAt: Option<int>)

  const NEW_ROW := Row(P, 0, 5, None, NO_ERROR, None)

  /** How the post ends. OtherError is any exception that is not a RequestException: it leaves the
      transaction, which is rolled back. */
  datatype Post = Answered(code: int) | RequestError(text: string) | OtherError

  function Min(x: nat, y: nat): nat { if x <= y then x else y }

  function Clipped(text: string): ErrorNote { Text(if |text| <= 500 then text else text[..500]) }

  predicate Exhausted(row: Row) {
    row.attempts >= Min(row.attemptLimit, CEILING)
  }

  /** The text that goes into last_error for an answer that is not a success. */
  type ErrorText = int -> string

  function AfterPost(row: Row, post: Post, now: int, errorText: ErrorText): Row {
    var sent := row.(attempts := Min(row.attempts + 1, CEILING));
    match post
    case OtherError => row
    case Answered(code) =>
      if 200 <= code < 300 then
        sent.(status := S, responseCode := Some(code), lastError := NO_ERROR, deliveredAt := Some(now))
      else
        sent.(status := if Exhausted(sent) then D else F, responseCode := Some(code),
              lastError := Clipped(errorText(code)))
    case RequestError(text) =>
      sent.(status := if Exhausted(sent) then D else F, lastError := Clipped(text))
  }

  function Delivered(row: Row, active: bool, post: Post, now: int, errorText: ErrorText): Row {
    if row.status == S || row.status == D then row
    else if Exhausted(row) then row.(status := D, lastError := ATTEMPTS_EXCEEDED)
    else if !active then row.(status := D, lastError := SUBSCRIPTION_INACTIVE)
    else AfterPost(row, post, now, errorText)
  }

  /** True when this delivery posts and the attempt is committed. */
  predicate Sends(row: Row, active: bool, post: Post) {
    row.status != S && row.status != D && !Exhausted(row) && active && !post.OtherError?
  }

  /** The version that a retry must quote. */
  datatype Version = Version(status: Status, attempts: nat)

  predicate RetryAccepted(row: Row, expected: Version) {
    (row.status == F || row.status == D) && expected == Version(row.status, row.attempts) && row.attempts < CEILING
  }

  function Retried(row: Row, expected: Version): Row {
    if RetryAccepted(row, expected)
    then row.(attemptLimit := Min(row.attempts + 5, CEILING), status := P, lastError := NO_ERROR)
    else row
  }

  datatype RetryReply = ACCEPTED | NOT_FOUND | VERSION_CONFLICT | LIMIT_EXHAUSTED

  class WebhookDelivery {
    var row: Row

    constructor ()
      ensures row == NEW_ROW
    {
      row := NEW_ROW;
    }

    /** The locked delivery; the result says whether a RequestException is handed back for a task retry. */
    method Deliver(active: bool, post: Post, now: int, errorText: ErrorText) returns (failure: bool)
      modifies this
      ensures row == Delivered(old(row), active, post, now, errorText)
      ensures failure <==> Sends(old(row), active, post) && row.status != S
    {
      var saved := row;
      if row.status == S || row.status == D {
        return false;
      }
      if row.attempts >= Min(row.attemptLimit, CEILING) {
        row := row.(status := D, lastError := ATTEMPTS_EXCEEDED);
        return false;
      }
      if !active {
        row := row.(status := D, lastError := SUBSCRIPTION_INACTIVE);
        return false;
      }
      row := row.(attempts := Min(row.attempts + 1, CEILING));
      if post.OtherError? {
        row := saved;
        return false;
      }
      var error: string;
      if post.Answered? {
        row := row.(responseCode := Some(post.code));
        if 200 <= post.code < 300 {
          row := row.(status := S, deliveredAt := Some(now), lastError := NO_ERROR);
          return false;
        }
        error := errorText(post.code);
      } else {
        error := post.text;
      }
      var dead := row.attempts >= Min(row.attemptLimit, CEILING);
      row := row.(status := if dead then D else F, lastError := Clipped(error));
      return true;
    }

    method Retry(expected: Version) returns (reply: RetryReply)
      modifies this
      ensures row == Retried(old(row), expected)
      ensures reply == ACCEPTED <==> RetryAccepted(old(row), expected)
      ensures reply == NOT_FOUND <==> old(row).status == P || old(row).status == S
    {
      if row.status != F && row.status != D {
        return NOT_FOUND;
      }
      if expected != Version(row.status, row.attempts) {
        return VERSION_CONFLICT;
      }
      if row.attempts >= CEILING {
        return LIMIT_EXHAUSTED;
      }
      row := row.(attemptLimit := Min(row.attempts + 5, CEILING));
      row := row.(status := P, lastError := NO_ERROR);
      return ACCEPTED;
    }
  }

  // ---------------------------------------------------------------------------------------------
  // Runs of duplicate deliveries and manual retries
  // ---------------------------------------------------------------------------------------------

  datatype Op =
    | Deliver(active: bool, post: Post, now: int)
    | Retry(expected: Version)

  /** The row, with the number of committed sends and of accepted retries. */
  datatype History = History(row: Row, sends: nat, retries: nat)

  function Next(h: History, op: Op, errorText: ErrorText): History {
    match op
    case Deliver(active, post, now) =>
      h.(row := Delivered(h.row, active, post, now, errorText),
         sends := h.sends + if Sends(h.row, active, post) then 1 else 0)
    case Retry(expected) =>
      h.(row := Retried(h.row, expected), retries := h.retries + if RetryAccepted(h.row, expected) then 1 else 0)
  }

  function Run(ops: seq<Op>, errorText: ErrorText, n: nat): History
    requires n <= |ops|
  {
    if n == 0 then History(NEW_ROW, 0, 0) else Next(Run(ops, errorText, n - 1), ops[n - 1], errorText)
  }

  ghost predicate WithinBudget(h: History) {
    && h.row.attempts <= h.row.attemptLimit <= h.row.attempts + 5
    && h.row.attemptLimit <= CEILING
    && (h.row.status == P || h.row.status == F ==> h.row.attempts < h.row.attemptLimit)
    && (h.row.status == S <==> h.row.deliveredAt.Some?)
    && h.sends == h.row.attempts
    && h.row.attemptLimit <= 5 * (1 + h.retries)
  }

  lemma StepStaysWithinBudget(h: History, op: Op, errorText: ErrorText)
    requires WithinBudget(h)
    ensures WithinBudget(Next(h, op, errorText))
    ensures h.row.status == S ==> Next(h, op, errorText).row == h.row
    ensures h.row.attemptLimit <= Next(h, op, errorText).row.attemptLimit
    ensures h.row.attempts <= Next(h, op, errorText).row.attempts
  {
  }

  /** Every run keeps at most five attempts in hand, under the 16-bit ceiling; a row that may still be sent has
      one left, so the check before sending never dead-letters; and the committed sends are the attempts, at
      most five for the delivery and five more for each accepted retry. */
  lemma {:induction false} RunStaysWithinBudget(ops: seq<Op>, errorText: ErrorText, n: nat)
    requires n <= |ops|
    ensures WithinBudget(Run(ops, errorText, n))
    ensures Run(ops, errorText, n).sends <= 5 * (1 + Run(ops, errorText, n).retries)
  {
    if n > 0 {
      RunStaysWithinBudget(ops, errorText, n - 1);
      StepStaysWithinBudget(Run(ops, errorText, n - 1), ops[n - 1], errorText);
    }
  }

  /** Along every run: success is final, the limit and the attempts never fall. */
  lemma {:induction false} SuccessIsFinal(ops: seq<Op>, errorText: ErrorText, m: nat, n: nat)
    requires m <= n <= |ops|
    ensures Run(ops, errorText, m).row.status == S ==> Run(ops, errorText, n).row == Run(ops, errorText, m).row
    ensures Run(ops, errorText, m).row.attemptLimit <= Run(ops, errorText, n).row.attemptLimit
    ensures Run(ops, errorText, m).row.attempts <= Run(ops, errorText, n).row.attempts
    decreases n
  {
    if m < n {
      SuccessIsFinal(ops, errorText, m, n - 1);
      RunStaysWithinBudget(ops, errorText, n - 1);
      StepStaysWithinBudget(Run(ops, errorText, n - 1), ops[n - 1], errorText);
    }
  }

  /** The row after k failed posts to an active subscription, from a row with attempts in hand. */
  ghost predicate FailedTimes(before: Row, after: Row, k: nat) {
    && after.attemptLimit == before.attemptLimit
    && (if before.attempts + k < before.attemptLimit
        then after.attempts == before.attempts + k && (k > 0 ==> after.status == F)
        else after.attempts == before.attemptLimit && after.status == D)
  }

  /** A request exception, or an answer outside 200 to 299. */
  predicate Fails(post: Post) {
    match post
    case Answered(code) => !(200 <= code < 300)
    case RequestError(_) => true
    case OtherError => false
  }

  predicate FailedDelivery(op: Op) {
    op.Deliver? && op.active && Fails(op.post)
  }

  ghost predicate Failing(before: Row, h: History, k: nat) {
    FailedTimes(before, h.row, k) && WithinBudget(h) && h.row.status != S && (k == 0 ==> h.row.status != D)
  }

  lemma FailOnce(before: Row, h: History, op: Op, errorText: ErrorText, k: nat)
    requires Failing(before, h, k) && FailedDelivery(op)
    ensures Failing(before, Next(h, op, errorText), k + 1)
  {
  }

  /** A receiver that keeps failing, by exception or by an answer outside 200 to 299, is dead-lettered after exactly the
      attempts in hand, never before. */
  lemma {:induction false} DeadLettersWhenBudgetIsSpent(ops: seq<Op>, errorText: ErrorText, m: nat, n: nat)
    requires m <= n <= |ops|
    requires Run(ops, errorText, m).row.status == P || Run(ops, errorText, m).row.status == F
    requires forall i | m <= i < n :: FailedDelivery(ops[i])
    ensures Failing(Run(ops, errorText, m).row, Run(ops, errorText, n), n - m)
    decreases n
  {
    if m < n {
      DeadLettersWhenBudgetIsSpent(ops, errorText, m, n - 1);
      FailOnce(Run(ops, errorText, m).row, Run(ops, errorText, n - 1), ops[n - 1], errorText, n - 1 - m);
    } else {
      RunStaysWithinBudget(ops, errorText, m);
    }
  }

  // ---------------------------------------------------------------------------------------------
  // What each delivery and each retry comes to
  // ---------------------------------------------------------------------------------------------

  /** The attempts that a row has in hand. */
  function InHand(row: Row): int {
    row.attemptLimit - row.attempts
  }

  /** A row that has succeeded or is dead is left alone; one without an attempt in hand, or of an inactive subscription,
      is dead at once. Otherwise an answer from 200 to 299 succeeds and takes the error away, and any other answer or a
      request exception uses up an attempt and leaves the row failed, or dead with the last one. Any other exception
      leaves no trace. */
  lemma DeliveryComesTo(row: Row, active: bool, post: Post, now: int, errorText: ErrorText)
    ensures var after := Delivered(row, active, post, now, errorText);
            if row.status == S || row.status == D then after == row
            else if row.attempts >= row.attemptLimit || row.attempts >= 32767 then
              after == Row(D, row.attempts, row.attemptLimit, row.responseCode, ATTEMPTS_EXCEEDED, row.deliveredAt)
            else if !active then
              after == Row(D, row.attempts, row.attemptLimit, row.responseCode, SUBSCRIPTION_INACTIVE, row.deliveredAt)
            else if post.OtherError? then after == row
            else if post.Answered? && 200 <= post.code <= 299 then
              after == Row(S, row.attempts + 1, row.attemptLimit, Some(post.code), NO_ERROR, Some(now))
            else
              var last := row.attempts + 1 >= row.attemptLimit || row.attempts + 1 >= 32767;
              var error := if post.Answered? then errorText(post.code) else post.text;
              after == Row(if last then D else F, row.attempts + 1, row.attemptLimit,
                           if post.Answered? then Some(post.code) else row.responseCode,
                           Text(if |error| <= 500 then error else error[..500]), row.deliveredAt)
  {
  }

  /** A retry is accepted if and only if the row has failed or is dead, the caller has seen its present status and
      attempts, and the ceiling is not reached; the row is then pending with five attempts in hand, or as many as the
      ceiling leaves. */
  lemma RetryComesTo(row: Row, expected: Version)
    ensures var accepted := (row.status == F || row.status == D) && expected.status == row.status &&
                            expected.attempts == row.attempts && row.attempts < 32767;
            && (RetryAccepted(row, expected) <==> accepted)
            && (!accepted ==> Retried(row, expected) == row)
            && (accepted ==>
                  var after := Retried(row, expected);
                  && after == row.(status := P, lastError := NO_ERROR, attemptLimit := after.attemptLimit)
                  && InHand(after) == if row.attempts <= 32762 then 5 else 32767 - row.attempts)
  {
  }

  /** A run counts exactly the committed sends and the accepted retries. */
  lemma StepCounts(h: History, op: Op, errorText: ErrorText)
    ensures var next := Next(h, op, errorText);
            match op
            case Deliver(active, post, now) =>
              && next.row == Delivered(h.row, active, post, now, errorText) && next.retries == h.retries
              && next.sends - h.sends == next.row.attempts - h.row.attempts
            case Retry(expected) =>
              && next.row == Retried(h.row, expected) && next.sends == h.sends
              && next.retries == h.retries + if RetryAccepted(h.row, expected) then 1 else 0
  {
  }

  /** A delivery starts pending with five attempts. */
  lemma StartsWithFive(ops: seq<Op>, errorText: ErrorText)
    ensures Run(ops, errorText, 0) == History(Row(P, 0, 5, None, NO_ERROR, None), 0, 0)
  {
  }
}
