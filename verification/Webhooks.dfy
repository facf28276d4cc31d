/**
 Webhook deliveries of server/integrations.ts: the first attempt when an event is emitted, and
 the retries of the scheduler, whose passes do not overlap. Times are in milliseconds.
 */
module Webhooks {
  import opened Wrappers
  import opened Bits

  const MAX_ATTEMPTS: nat := 5
  const MINUTE: int := 60 * 1000

  datatype Status = Pending | Delivered | Failed

  datatype Delivery = Delivery(status: Status, attemptCount: nat, nextAttemptAt: Option<int>)

  /** A request that was sent: when, when its outcome was known, and whether it was a success. */
  datatype Post = Post(sentAt: int, answeredAt: int, ok: bool)

  /** A delivery with everything that was ever sent for it. */
  datatype Row = Row(delivery: Delivery, posts: seq<Post>)

  /** What the surroundings decide for one attempt; no answer at all is a failure. */
  datatype Reply = Reply(active: bool, post: Post)

  function DelayMinutes(attemptCount: nat): int {
    var backoff := 5 * Pow2(if attemptCount >= 1 then attemptCount - 1 else 0);
    if backoff < 60 then backoff else 60
  }

  function NextAttemptAt(attemptCount: nat, now: int): Option<int> {
    if attemptCount >= MAX_ATTEMPTS then None else Some(now + DelayMinutes(attemptCount) * MINUTE)
  }

  /** deliverIntegrationWebhook */
  function Attempt(row: Row, attemptCount: nat, post: Post): Row {
    Row(Delivery(if post.ok then Delivered else Failed, attemptCount,
                 if post.ok then None else NextAttemptAt(attemptCount, post.answeredAt)),
        row.posts + [post])
  }

  predicate Due(d: Delivery, now: int) {
    d.status == Failed && d.nextAttemptAt.Some? && d.nextAttemptAt.value <= now
  }

  /** What a pass does with one due delivery. */
  function Retry(row: Row, reply: Reply): Row {
    if row.delivery.attemptCount >= MAX_ATTEMPTS || !reply.active then row.(delivery := row.delivery.(nextAttemptAt := None))
    else Attempt(row, row.delivery.attemptCount + 1, reply.post)
  }

  // ----- what holds of every delivery -----

  /** Failed attempt k is followed, if at all, by attempt k + 1 at least 5 * 2^(k - 1) minutes later. */
  predicate Spaced(posts: seq<Post>) {
    forall k {:trigger posts[k]} | 0 < k < |posts| :: !posts[k - 1].ok && posts[k].sentAt >= posts[k - 1].answeredAt + 5 * Pow2(k - 1) * MINUTE
  }

  predicate Consistent(row: Row) {
    var d, posts := row.delivery, row.posts;
    && 1 <= |posts| == d.attemptCount <= MAX_ATTEMPTS
    && Spaced(posts)
    && d.status == (if posts[|posts| - 1].ok then Delivered else Failed)
    && (d.nextAttemptAt.Some? ==>
          && !posts[|posts| - 1].ok && d.attemptCount < 5
          && d.nextAttemptAt.value == posts[|posts| - 1].answeredAt + 5 * Pow2(d.attemptCount - 1) * 60000)
  }

  /** How many attempts can still come. */
  function Remaining(row: Row): nat {
    if row.delivery.nextAttemptAt.None? || row.delivery.attemptCount >= MAX_ATTEMPTS then 0 else MAX_ATTEMPTS - row.delivery.attemptCount
  }

  lemma BackoffBelowTheCap(k: nat)
    requires 1 <= k < MAX_ATTEMPTS
    ensures DelayMinutes(k) == 5 * Pow2(k - 1)
  {
    assert Pow2(0) == 1 && Pow2(1) == 2 && Pow2(2) == 4 && Pow2(3) == 8;
  }

  /** Five, ten, twenty and forty minutes after failed attempts one to four; never after the fifth. */
  lemma DueTimes(now: int)
    ensures NextAttemptAt(1, now) == Some(now + 5 * 60000) && NextAttemptAt(2, now) == Some(now + 10 * 60000)
    ensures NextAttemptAt(3, now) == Some(now + 20 * 60000) && NextAttemptAt(4, now) == Some(now + 40 * 60000)
    ensures forall k: nat | k >= 5 :: NextAttemptAt(k, now) == None
  {
    assert Pow2(0) == 1 && Pow2(1) == 2 && Pow2(2) == 4 && Pow2(3) == 8;
  }

  /** A failed attempt is due again from exactly then on; a success, or a fifth failure, never. */
  lemma DueExactly(row: Row, k: nat, post: Post, now: int)
    requires 1 <= k <= 5
    ensures var minutes := [5, 10, 20, 40];
            Due(Attempt(row, k, post).delivery, now) <==> !post.ok && k < 5 && now >= post.answeredAt + minutes[k - 1] * 60000
  {
    DueTimes(post.answeredAt);
  }

  /** A retry sends something exactly if the webhook is active and fewer than five attempts were made; otherwise it gives up. */
  lemma RetrySendsIff(row: Row, reply: Reply)
    ensures var r := Retry(row, reply);
            if reply.active && row.delivery.attemptCount < 5 then
              && r.posts == row.posts + [reply.post] && r.delivery.attemptCount == row.delivery.attemptCount + 1
              && r.delivery.status == (if reply.post.ok then Delivered else Failed)
            else
              r.posts == row.posts && r.delivery == row.delivery.(nextAttemptAt := None)
  {
  }

  lemma EmitConsistent(post: Post)
    ensures Consistent(Attempt(Row(Delivery(Pending, 0, None), []), 1, post))
  {
    BackoffBelowTheCap(1);
  }

  lemma RetryConsistent(row: Row, reply: Reply, now: int)
    requires Consistent(row) && Due(row.delivery, now) && now <= reply.post.sentAt
    ensures Consistent(Retry(row, reply))
    ensures Remaining(Retry(row, reply)) < Remaining(row)
  {
    var k := row.delivery.attemptCount;
    BackoffBelowTheCap(k);
    if k + 1 < MAX_ATTEMPTS { BackoffBelowTheCap(k + 1); }
    hide Pow2, DelayMinutes;
  }

  // ----- passes over all deliveries -----

  /** The rows a pass read: each due, none twice, in whatever order the database gave them. */
  predicate Selection(rows: seq<Row>, picked: seq<nat>, limit: nat, now: int) {
    && |picked| <= limit
    && (forall a | 0 <= a < |picked| :: picked[a] < |rows| && Due(rows[picked[a]].delivery, now))
    && forall a, b | 0 <= a < b < |picked| :: picked[a] != picked[b]
  }

  predicate After(replies: seq<Reply>, now: int) { forall a | 0 <= a < |replies| :: now <= replies[a].post.sentAt }

  /** The rows after the first n picked ones were retried. */
  function Pass(rows: seq<Row>, picked: seq<nat>, replies: seq<Reply>, n: nat): (r: seq<Row>)
    requires n <= |picked| == |replies| && forall a | 0 <= a < |picked| :: picked[a] < |rows|
    ensures |r| == |rows|
  {
    if n == 0 then rows
    else
      var before := Pass(rows, picked, replies, n - 1);
      before[picked[n - 1] := Retry(before[picked[n - 1]], replies[n - 1])]
  }

  /** A pass retries each picked row once and leaves the others alone. */
  lemma {:induction false} PassRetriesEachOnce(rows: seq<Row>, picked: seq<nat>, replies: seq<Reply>, limit: nat, now: int, n: nat)
    requires Selection(rows, picked, limit, now) && n <= |picked| == |replies|
    ensures forall a | 0 <= a < n :: Pass(rows, picked, replies, n)[picked[a]] == Retry(rows[picked[a]], replies[a])
    ensures forall i | 0 <= i < |rows| && (forall a | 0 <= a < n :: picked[a] != i) :: Pass(rows, picked, replies, n)[i] == rows[i]
  {
    if n > 0 { PassRetriesEachOnce(rows, picked, replies, limit, now, n - 1); }
  }

  predicate AllConsistent(rows: seq<Row>) { forall i | 0 <= i < |rows| :: Consistent(rows[i]) }

  lemma {:induction false} PassKeepsConsistent(rows: seq<Row>, picked: seq<nat>, replies: seq<Reply>, limit: nat, now: int)
    requires AllConsistent(rows) && Selection(rows, picked, limit, now) && |picked| == |replies| && After(replies, now)
    ensures var r := Pass(rows, picked, replies, |picked|);
            && AllConsistent(r)
            && (forall i | 0 <= i < |rows| :: Remaining(r[i]) <= Remaining(rows[i]))
            && (forall a | 0 <= a < |picked| :: Remaining(r[picked[a]]) < Remaining(rows[picked[a]]))
            && (forall i | 0 <= i < |rows| && rows[i].delivery.status == Delivered :: r[i] == rows[i])
  {
    var r := Pass(rows, picked, replies, |picked|);
    PassRetriesEachOnce(rows, picked, replies, limit, now, |picked|);
    forall a | 0 <= a < |picked|
      ensures Consistent(r[picked[a]]) && Remaining(r[picked[a]]) < Remaining(rows[picked[a]])
    {
      RetryConsistent(rows[picked[a]], replies[a], now);
    }
    forall i | 0 <= i < |rows|
      ensures Consistent(r[i]) && Remaining(r[i]) <= Remaining(rows[i])
      ensures rows[i].delivery.status == Delivered ==> r[i] == rows[i]
    {
      if a :| 0 <= a < |picked| && picked[a] == i {
        assert Consistent(r[picked[a]]) && Remaining(r[picked[a]]) < Remaining(rows[picked[a]]);
      }
    }
  }

  function TotalRemaining(rows: seq<Row>): nat {
    if rows == [] then 0 else TotalRemaining(rows[..|rows| - 1]) + Remaining(rows[|rows| - 1])
  }

  lemma {:induction false} TotalDecreases(before: seq<Row>, after: seq<Row>, i: nat)
    requires |before| == |after| && i < |before| && Remaining(after[i]) < Remaining(before[i])
    requires forall j | 0 <= j < |before| :: Remaining(after[j]) <= Remaining(before[j])
    ensures TotalRemaining(after) < TotalRemaining(before)
  {
    var n := |before| - 1;
    if i < n {
      TotalDecreases(before[..n], after[..n], i);
    } else {
      TotalDoesNotGrow(before[..n], after[..n]);
    }
  }

  lemma {:induction false} TotalDoesNotGrow(before: seq<Row>, after: seq<Row>)
    requires |before| == |after| && forall j | 0 <= j < |before| :: Remaining(after[j]) <= Remaining(before[j])
    ensures TotalRemaining(after) <= TotalRemaining(before)
  {
    if before != [] { TotalDoesNotGrow(before[..|before| - 1], after[..|after| - 1]); }
  }

  /** Between two events, only so many passes can find something to do. */
  lemma PassUsesUpAttempts(rows: seq<Row>, picked: seq<nat>, replies: seq<Reply>, limit: nat, now: int)
    requires AllConsistent(rows) && Selection(rows, picked, limit, now) && |picked| == |replies| && After(replies, now) && picked != []
    ensures TotalRemaining(Pass(rows, picked, replies, |picked|)) < TotalRemaining(rows)
  {
    PassKeepsConsistent(rows, picked, replies, limit, now);
    TotalDecreases(rows, Pass(rows, picked, replies, |picked|), picked[0]);
  }

  // ----- whole runs -----

  datatype Event =
    | Emit(post: Post)
    | Retries(now: int, limit: nat, picked: seq<nat>, replies: seq<Reply>)

  predicate Possible(rows: seq<Row>, e: Event) {
    e.Retries? ==> Selection(rows, e.picked, e.limit, e.now) && |e.picked| == |e.replies| && After(e.replies, e.now)
  }

  function Next(rows: seq<Row>, e: Event): (r: seq<Row>)
    requires Possible(rows, e)
    ensures |r| >= |rows|
  {
    match e
    case Emit(post) => rows + [Attempt(Row(Delivery(Pending, 0, None), []), 1, post)]
    case Retries(now, limit, picked, replies) => Pass(rows, picked, replies, |picked|)
  }

  predicate PossibleRun(rows: seq<Row>, events: seq<Event>)
    decreases |events|
  {
    events != [] ==> Possible(rows, events[0]) && PossibleRun(Next(rows, events[0]), events[1..])
  }

  function Run(rows: seq<Row>, events: seq<Event>): (r: seq<Row>)
    requires PossibleRun(rows, events)
    ensures |r| >= |rows|
    decreases |events|
  {
    if events == [] then rows else Run(Next(rows, events[0]), events[1..])
  }

  lemma NextKeepsConsistent(rows: seq<Row>, e: Event)
    requires AllConsistent(rows) && Possible(rows, e)
    ensures AllConsistent(Next(rows, e))
    ensures forall i | 0 <= i < |rows| && rows[i].delivery.status == Delivered :: Next(rows, e)[i] == rows[i]
  {
    match e
    case Emit(post) => EmitConsistent(post);
    case Retries(now, limit, picked, replies) => PassKeepsConsistent(rows, picked, replies, limit, now);
  }

  /**
   Over any run: each delivery makes at most five attempts, spaced by the back-off, none after a
   success; and once delivered it never changes.
   */
  lemma {:induction false} RetriesAreBounded(rows: seq<Row>, events: seq<Event>)
    requires AllConsistent(rows) && PossibleRun(rows, events)
    ensures AllConsistent(Run(rows, events))
    ensures forall i | 0 <= i < |rows| && rows[i].delivery.status == Delivered :: Run(rows, events)[i] == rows[i]
    decreases |events|
  {
    if events != [] {
      NextKeepsConsistent(rows, events[0]);
      RetriesAreBounded(Next(rows, events[0]), events[1..]);
    }
  }

  // ----- the table -----

  /** How many of the first n picked deliveries are delivered. */
  function CountDelivered(rows: seq<Row>, picked: seq<nat>, n: nat): nat
    requires n <= |picked| && forall a | 0 <= a < |picked| :: picked[a] < |rows|
  {
    if n == 0 then 0
    else CountDelivered(rows, picked, n - 1) + if rows[picked[n - 1]].delivery.status == Delivered then 1 else 0
  }

  lemma {:induction false} CountUnaffected(before: seq<Row>, after: seq<Row>, picked: seq<nat>, n: nat)
    requires n <= |picked| && |before| == |after| && forall a | 0 <= a < |picked| :: picked[a] < |before|
    requires forall a | 0 <= a < n :: before[picked[a]] == after[picked[a]]
    ensures CountDelivered(before, picked, n) == CountDelivered(after, picked, n)
  {
    if n > 0 { CountUnaffected(before, after, picked, n - 1); }
  }

  class DeliveryTable {
    var rows: seq<Row>

    constructor ()
      ensures rows == []
    {
      rows := [];
    }

    method Deliver(id: nat, attemptCount: nat, post: Post)
      requires id < |rows|
      modifies this
      ensures rows == old(rows)[id := Attempt(old(rows)[id], attemptCount, post)]
    {
      var d := rows[id].delivery;
      if post.ok {
        d := d.(status := Delivered, attemptCount := attemptCount, nextAttemptAt := None);
      } else {
        d := d.(status := Failed, attemptCount := attemptCount, nextAttemptAt := NextAttemptAt(attemptCount, post.answeredAt));
      }
      rows := rows[id := Row(d, rows[id].posts + [post])];
    }

    method EmitEvent(post: Post)
      modifies this
      ensures rows == Next(old(rows), Emit(post))
    {
      rows := rows + [Row(Delivery(Pending, 0, None), [])];
      Deliver(|rows| - 1, 1, post);
    }

    /** What a pass does with one of its rows. */
    method RetryDelivery(id: nat, reply: Reply) returns (ok: bool)
      requires id < |rows| && rows[id].delivery.status == Failed
      modifies this
      ensures rows == old(rows)[id := Retry(old(rows)[id], reply)]
      ensures ok <==> rows[id].delivery.status == Delivered
    {
      var delivery := rows[id].delivery;
      if delivery.attemptCount >= MAX_ATTEMPTS || !reply.active {
        rows := rows[id := rows[id].(delivery := delivery.(nextAttemptAt := None))];
        return false;
      }
      Deliver(id, delivery.attemptCount + 1, reply.post);
      return rows[id].delivery.status == Delivered;
    }

    /** One pass; picked are the rows that the query for due deliveries returned. */
    method ProcessRetries(now: int, limit: nat, picked: seq<nat>, replies: seq<Reply>) returns (processed: nat, delivered: nat, failed: nat)
      requires Possible(rows, Retries(now, limit, picked, replies))
      modifies this
      ensures rows == Pass(old(rows), picked, replies, |picked|)
      ensures processed == |picked| == delivered + failed
      ensures delivered == CountDelivered(rows, picked, |picked|)
    {
      delivered, failed := 0, 0;
      var a := 0;
      while a < |picked|
        invariant a <= |picked| && rows == Pass(old(rows), picked, replies, a)
        invariant delivered + failed == a && delivered == CountDelivered(rows, picked, a)
      {
        PassRetriesEachOnce(old(rows), picked, replies, limit, now, a);
        ghost var before := rows;
        var ok := RetryDelivery(picked[a], replies[a]);
        CountUnaffected(before, rows, picked, a);
        if ok { delivered := delivered + 1; } else { failed := failed + 1; }
        a := a + 1;
      }
      processed := |picked|;
    }
  }
}
