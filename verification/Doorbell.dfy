/** Posting work to the RDMA engine and waiting for completions. Software keeps indices; the
  * device moves its completion head on its own, forward and never past the producer index
  * it was told. A run of the device is the sequence of values that successive reads of the
  * completion head return; when it is used up the caller is still polling. */
module Doorbell {

  const TIMEOUT_THRESHOLD := 1000

  datatype Poll = Polling | Polled(value: int, used: nat)

  /** The rest of a poll that has made pos reads, the last of them re-reads counted by cnt. */
  function PollFrom(heads: seq<int>, pos: nat, cidb: int, cnt: nat): (r: Poll)
    requires 0 < pos <= |heads| && pos == cnt + 1 <= TIMEOUT_THRESHOLD + 1
    requires forall k :: 0 <= k < pos - 1 ==> heads[k] == cidb
    ensures PollSpec(heads, cidb, r)
    decreases |heads| - pos
  {
    if heads[pos - 1] != cidb then Polled(heads[pos - 1], pos)
    else if pos == |heads| then Polling
    else if cnt + 1 > TIMEOUT_THRESHOLD then Polled(-1, pos + 1)
    else PollFrom(heads, pos + 1, cidb, cnt + 1)
  }

  function PollCq(heads: seq<int>, cidb: int): (r: Poll)
    ensures PollSpec(heads, cidb, r)
  {
    if heads == [] then Polling else PollFrom(heads, 1, cidb, 0)
  }

  /** What polling returns, without the loop: the first of the first 1001 reads that differs
    * from the index polled on; else -1 after one more read, whose value is thrown away. */
  predicate PollSpec(heads: seq<int>, cidb: int, r: Poll) {
    match r
    case Polling => |heads| <= TIMEOUT_THRESHOLD + 1 && forall k :: 0 <= k < |heads| ==> heads[k] == cidb
    case Polled(v, used) =>
      && 0 < used <= |heads|
      && (|| (used <= TIMEOUT_THRESHOLD + 1 && v == heads[used - 1] != cidb)
          || (used == TIMEOUT_THRESHOLD + 2 && v == -1))
      && forall k :: 0 <= k < used - 1 ==> heads[k] == cidb
  }

  /** The device: every read lies between the head it starts from and the producer index,
    * and later reads are no smaller. */
  ghost predicate Device(heads: seq<int>, head: int, sqpi: int) {
    && (forall k :: 0 <= k < |heads| ==> head <= heads[k] <= sqpi)
    && (forall j, k :: 0 <= j < k < |heads| ==> heads[j] <= heads[k])
  }

  datatype Qp = Qp(sqPidb: int, sqCidb: int, cqCidb: int, qdepth: nat)

  datatype Outcome = Waiting | Exited | Returned(qp: Qp, code: int, used: nat)

  // -------- one request at a time --------

  function PostSend(q: Qp, heads: seq<int>): Outcome {
    match PollCq(heads, q.sqCidb)
    case Polling => Waiting
    case Polled(v, used) =>
      Returned(q.(sqPidb := q.sqPidb + 1, cqCidb := v, sqCidb := q.sqCidb + 1), if v < 0 then -1 else 0, used)
  }

  /** All indices agree and nothing is outstanding. */
  predicate InSync(q: Qp, head: int) {
    q.sqPidb == q.sqCidb == q.cqCidb == head && head >= 0
  }

  /** A post that returns success from a queue in sync leaves it in sync, completed. */
  lemma {:induction false} PostSendKeepsSync(q: Qp, head: int, heads: seq<int>)
    requires InSync(q, head) && Device(heads, head, head + 1)
    ensures match PostSend(q, heads)
            case Returned(q', code, used) =>
              (code == 0 ==> 0 < used <= |heads| && InSync(q', head + 1) && heads[used - 1] == head + 1)
            case _ => true
  {
  }

  /** One of the first 1001 reads shows the completion head at v. */
  predicate Reaches(heads: seq<int>, v: int) {
    exists i: nat :: i < |heads| && i < 1001 && heads[i] == v
  }

  /** The first n reads all show the head where it was. */
  predicate Stays(heads: seq<int>, n: nat, head: int) {
    n <= |heads| && forall i :: 0 <= i < n ==> heads[i] == head
  }

  /** How a post from a queue in sync ends, by what the device shows alone: success with all
    * indices one higher if the completion shows up in the first 1001 reads; -1 after 1002 reads
    * if none of the first 1001 has moved; and still polling if reads run out before that. */
  lemma {:induction false} PostSendExactly(q: Qp, head: int, heads: seq<int>)
    requires InSync(q, head) && Device(heads, head, head + 1)
    ensures var o := PostSend(q, heads);
            && (o.Returned? && o.code == 0 <==> Reaches(heads, head + 1))
            && (o.Returned? && o.code == 0 ==> InSync(o.qp, head + 1))
            && (o.Returned? && o.code == -1 <==> |heads| >= 1002 && Stays(heads, 1001, head))
            && (o.Returned? ==> o.code == 0 || o.code == -1)
            && (o.Waiting? <==> |heads| <= 1001 && Stays(heads, |heads|, head))
  {
    hide PollCq;
    var r := PollCq(heads, q.sqCidb);
    assert PollSpec(heads, q.sqCidb, r);
    match r
    case Polling =>
    case Polled(v, used) =>
      if v == -1 {
        assert used == 1002;
        assert forall i :: 0 <= i < 1001 ==> heads[i] == head;
      } else {
        assert heads[used - 1] == head + 1;
      }
  }

  // The posts of a run, each with the reads it makes; every one must return success.
  predicate AllSucceed(q: Qp, runs: seq<seq<int>>)
    decreases |runs|
  {
    runs == [] ||
    (PostSend(q, runs[0]).Returned? && PostSend(q, runs[0]).code == 0 &&
     AllSucceed(PostSend(q, runs[0]).qp, runs[1..]))
  }

  function EndOf(q: Qp, runs: seq<seq<int>>): Qp
    requires AllSucceed(q, runs)
    decreases |runs|
  {
    if runs == [] then q else EndOf(PostSend(q, runs[0]).qp, runs[1..])
  }

  /** One device over a whole run of posts: its head starts at `head`, never moves back, within
    * a post or from one post to the next, and never passes the producer index it has been
    * told, which post k leaves at sqpi + k + 1. */
  ghost predicate DeviceRun(head: int, sqpi: int, runs: seq<seq<int>>) {
    && (forall k, i :: 0 <= k < |runs| && 0 <= i < |runs[k]| ==> head <= runs[k][i] <= sqpi + k + 1)
    && (forall k, i, j :: 0 <= k < |runs| && 0 <= i < j < |runs[k]| ==> runs[k][i] <= runs[k][j])
    && (forall k, l, i, j :: 0 <= k < l < |runs| && 0 <= i < |runs[k]| && 0 <= j < |runs[l]| ==>
          runs[k][i] <= runs[l][j])
  }

  /** A read that has seen head' bounds everything the device shows in later posts. */
  lemma {:induction false} DeviceGoesOn(head: int, sqpi: int, runs: seq<seq<int>>, i: nat, head': int)
    requires runs != [] && DeviceRun(head, sqpi, runs) && i < |runs[0]| && runs[0][i] == head'
    ensures DeviceRun(head', sqpi + 1, runs[1..])
  {
    var rest := runs[1..];
    forall k, j | 0 <= k < |rest| && 0 <= j < |rest[k]|
      ensures head' <= rest[k][j] <= sqpi + 1 + k + 1
    {
      assert rest[k] == runs[k + 1];
    }
    forall k, j, l | 0 <= k < |rest| && 0 <= j < l < |rest[k]|
      ensures rest[k][j] <= rest[k][l]
    {
      assert rest[k] == runs[k + 1];
    }
    forall k, l, j, m | 0 <= k < l < |rest| && 0 <= j < |rest[k]| && 0 <= m < |rest[l]|
      ensures rest[k][j] <= rest[l][m]
    {
      assert rest[k] == runs[k + 1] && rest[l] == runs[l + 1];
    }
  }

  /** Over a whole run of successful posts, every return finds producer index, consumer
    * index, completion index and completion head equal: one more for each post. */
  lemma {:induction false} PostsStayInSync(q: Qp, head: int, runs: seq<seq<int>>)
    requires InSync(q, head) && AllSucceed(q, runs) && DeviceRun(head, q.sqPidb, runs)
    ensures InSync(EndOf(q, runs), head + |runs|)
    ensures runs != [] ==> head + |runs| in runs[|runs| - 1]
    decreases |runs|
  {
    if runs != [] {
      assert Device(runs[0], head, head + 1);
      PostSendKeepsSync(q, head, runs[0]);
      var r := PostSend(q, runs[0]);
      DeviceGoesOn(head, q.sqPidb, runs, r.used - 1, head + 1);
      PostsStayInSync(r.qp, head + 1, runs[1..]);
      assert |runs| > 1 ==> runs[1..][|runs| - 2] == runs[|runs| - 1];
    }
  }

  /** Every post's reads reach its own producer index in time. */
  ghost predicate AllInTime(head: int, runs: seq<seq<int>>) {
    forall k :: 0 <= k < |runs| ==> Reaches(runs[k], head + k + 1)
  }

  /** A device that completes every request in time makes every post of the run succeed, and
    * leaves the queue in sync. */
  lemma {:induction false} PostsInTimeSucceed(q: Qp, head: int, runs: seq<seq<int>>)
    requires InSync(q, head) && DeviceRun(head, q.sqPidb, runs) && AllInTime(head, runs)
    ensures AllSucceed(q, runs) && InSync(EndOf(q, runs), head + |runs|)
    decreases |runs|
  {
    hide PostSend, Reaches;
    if runs != [] {
      assert Device(runs[0], head, head + 1);
      assert Reaches(runs[0], head + 0 + 1);
      PostSendExactly(q, head, runs[0]);
      PostSendKeepsSync(q, head, runs[0]);
      var r := PostSend(q, runs[0]);
      DeviceGoesOn(head, q.sqPidb, runs, r.used - 1, head + 1);
      forall k | 0 <= k < |runs[1..]| ensures Reaches(runs[1..][k], head + 1 + k + 1) {
        assert runs[1..][k] == runs[k + 1] && Reaches(runs[k + 1], head + (k + 1) + 1);
      }
      PostsInTimeSucceed(r.qp, head + 1, runs[1..]);
    }
  }

  /** Success means completion: whatever the device does, if the call returns 0 then the
    * request just posted has completed. */
  ghost predicate SuccessMeansDone(q: Qp, head: int) {
    forall heads: seq<int> ::
      Device(heads, head, q.sqPidb + 1) && PostSend(q, heads).Returned? && PostSend(q, heads).code == 0 ==>
        PostSend(q, heads).qp.cqCidb == q.sqPidb + 1
  }

  /** That holds exactly when the caller starts with nothing outstanding and the consumer
    * index equal to the producer index; after a timeout it does not. */
  lemma {:induction false} SuccessMeansDoneExactly(q: Qp, head: int)
    requires 0 <= head <= q.sqPidb
    ensures SuccessMeansDone(q, head) <==> q.sqCidb == q.sqPidb == head
  {
    if q.sqCidb == q.sqPidb == head {
    } else {
      var early := if q.sqCidb != q.sqPidb then q.sqPidb else head;
      assert Device([early], head, q.sqPidb + 1);
      assert PostSend(q, [early]).qp.cqCidb == early;
    }
  }

  /** The stale state is reachable: one timeout from a fresh queue, and the next post
    * returns success at once with nothing completed. */
  lemma {:induction false} TimeoutThenFalseSuccess()
    ensures var q := Qp(0, 0, 0, 16);
            var stuck := seq(TIMEOUT_THRESHOLD + 2, i => 0);
            && Device(stuck, 0, 1)
            && PostSend(q, stuck) == Returned(Qp(1, 1, -1, 16), -1, TIMEOUT_THRESHOLD + 2)
            && Device([0], 0, 2)
            && PostSend(Qp(1, 1, -1, 16), [0]) == Returned(Qp(2, 2, 0, 16), 0, 1)
  {
    var stuck := seq(TIMEOUT_THRESHOLD + 2, i => 0);
    var r := PollCq(stuck, 0);
    assert PollSpec(stuck, 0, r);
    assert PollSpec([0], 1, PollCq([0], 1));
  }

  // -------- a batch --------

  function BatchLoop(q: Qp, heads: seq<int>, used: nat): Outcome
    decreases |heads|
  {
    if q.cqCidb >= q.sqPidb then Returned(q, if q.cqCidb < 0 then -1 else 0, used)
    else
      match PollCq(heads, q.sqCidb)
      case Polling => Waiting
      case Polled(v, n) => BatchLoop(q.(cqCidb := v, sqCidb := v), heads[n..], used + n)
  }

  lemma {:induction false} BatchLoopUnfolds(q: Qp, heads: seq<int>, used: nat)
    ensures q.cqCidb >= q.sqPidb ==> BatchLoop(q, heads, used) == Returned(q, if q.cqCidb < 0 then -1 else 0, used)
    ensures q.cqCidb < q.sqPidb ==>
              var r := PollCq(heads, q.sqCidb);
              && (r.Polling? ==> BatchLoop(q, heads, used) == Waiting)
              && (r.Polled? ==>
                    && 0 < r.used <= |heads|
                    && BatchLoop(q, heads, used)
                       == BatchLoop(q.(cqCidb := r.value, sqCidb := r.value), heads[r.used..], used + r.used))
  {
  }

  function PostBatch(q: Qp, batch: nat, heads: seq<int>): Outcome {
    var q1 := q.(sqPidb := q.sqPidb + batch);
    if q.qdepth < batch || q1.sqPidb > q.qdepth then Exited else BatchLoop(q1, heads, 0)
  }

  lemma {:induction false} BatchLoopReturns(q: Qp, heads: seq<int>, used: nat, head: int)
    requires Device(heads, head, q.sqPidb) && 0 <= head && q.cqCidb < q.sqPidb
    ensures match BatchLoop(q, heads, used)
            case Returned(q', code, n) =>
              && used < n <= used + |heads| && heads[n - used - 1] == q.sqPidb
              && q' == q.(cqCidb := q.sqPidb, sqCidb := q.sqPidb) && code == 0
            case Waiting => true
            case Exited => false
    decreases |heads|
  {
    hide BatchLoop, PollCq;
    BatchLoopUnfolds(q, heads, used);
    var r := PollCq(heads, q.sqCidb);
    if r.Polled? {
      var v, n := r.value, r.used;
      var q1 := q.(cqCidb := v, sqCidb := v);
      var rest := heads[n..];
      DeviceRest(heads, head, q.sqPidb, n);
      if v < q.sqPidb {
        BatchLoopReturns(q1, rest, used + n, head);
        var o := BatchLoop(q1, rest, used + n);
        if o.Returned? {
          assert rest[o.used - (used + n) - 1] == heads[o.used - used - 1];
        }
      } else {
        assert heads[n - 1] == v == q.sqPidb;
        BatchLoopUnfolds(q1, rest, used + n);
      }
    }
  }

  lemma {:induction false} DeviceRest(heads: seq<int>, head: int, sqpi: int, n: nat)
    requires Device(heads, head, sqpi) && n <= |heads|
    ensures Device(heads[n..], head, sqpi)
  {
  }

  lemma {:induction false} BatchLoopFinishes(q: Qp, heads: seq<int>, used: nat, head: int, i: nat)
    requires Device(heads, head, q.sqPidb) && 0 <= head
    requires i + 1 < |heads| && heads[i] == q.sqPidb && q.sqCidb != q.sqPidb
    ensures BatchLoop(q, heads, used).Returned?
    decreases |heads|
  {
    hide BatchLoop, PollCq;
    BatchLoopUnfolds(q, heads, used);
    if q.cqCidb < q.sqPidb {
      assert heads[i] <= heads[i + 1];
      var r := PollCq(heads, q.sqCidb);
      assert r.Polled?;
      var v, n := r.value, r.used;
      var q1, rest := q.(cqCidb := v, sqCidb := v), heads[n..];
      DeviceRest(heads, head, q.sqPidb, n);
      BatchLoopUnfolds(q1, rest, used + n);
      if v < q.sqPidb {
        if n <= i {
          assert rest[i - n] == heads[i];
          BatchLoopFinishes(q1, rest, used + n, head, i - n);
        } else {
          assert n == i + 1 && v == -1 && rest[0] == q.sqPidb;
          assert PollCq(rest, -1) == Polled(q.sqPidb, 1);
          BatchLoopUnfolds(q1.(cqCidb := q.sqPidb, sqCidb := q.sqPidb), rest[1..], used + n + 1);
        }
      }
    }
  }

  /** A batch returns only when the completion head has reached the new producer index,
    * with all indices equal to it, even if polls inside it time out; and it overflows the
    * queue exactly when the producer index would pass the depth. */
  lemma {:induction false} BatchReturnsOnlyWhenDone(q: Qp, batch: nat, heads: seq<int>, head: int)
    requires batch > 0 && 0 <= head <= q.sqPidb && q.cqCidb <= q.sqPidb
    requires Device(heads, head, q.sqPidb + batch)
    ensures match PostBatch(q, batch, heads)
            case Exited => q.sqPidb + batch > q.qdepth
            case Waiting => q.sqPidb + batch <= q.qdepth
            case Returned(q', code, used) =>
              && q.sqPidb + batch <= q.qdepth && code == 0
              && 0 < used <= |heads| && heads[used - 1] == q.sqPidb + batch
              && InSync(q', q.sqPidb + batch)
  {
    BatchLoopReturns(q.(sqPidb := q.sqPidb + batch), heads, 0, head);
  }

  /** And it does return: once a read shows every request completed, one further read is
    * enough, timeouts or not. */
  lemma {:induction false} BatchReturnsWhenDone(q: Qp, batch: nat, heads: seq<int>, head: int, i: nat)
    requires batch > 0 && 0 <= head <= q.sqPidb && q.sqCidb <= q.sqPidb && q.sqPidb + batch <= q.qdepth
    requires Device(heads, head, q.sqPidb + batch)
    requires i + 1 < |heads| && heads[i] == q.sqPidb + batch
    ensures PostBatch(q, batch, heads).Returned?
  {
    BatchLoopFinishes(q.(sqPidb := q.sqPidb + batch), heads, 0, head, i);
  }
}

/** The queue pair in memory and the polling loops. */
module QueuePair {
  import opened Doorbell

  /** Read the completion head until it moves or the re-reads run out. */
  method PollCqCidb(heads: seq<int>, sqCidb: int) returns (r: Poll)
    ensures r == PollCq(heads, sqCidb)
  {
    if heads == [] { return Polling; }
    var cqCidb, pos, timeoutCnt := heads[0], 1, 0;
    while cqCidb == sqCidb
      invariant 0 < pos <= |heads| && pos == timeoutCnt + 1 <= TIMEOUT_THRESHOLD + 1
      invariant cqCidb == heads[pos - 1]
      invariant forall k :: 0 <= k < pos - 1 ==> heads[k] == sqCidb
      invariant PollCq(heads, sqCidb) == PollFrom(heads, pos, sqCidb, timeoutCnt)
      decreases |heads| - pos
    {
      if pos == |heads| { return Polling; }
      cqCidb, pos, timeoutCnt := heads[pos], pos + 1, timeoutCnt + 1;
      if timeoutCnt > TIMEOUT_THRESHOLD { return Polled(-1, pos); }
    }
    return Polled(cqCidb, pos);
  }

  class RdmaQp {
    var sqPidb: int
    var sqCidb: int
    var cqCidb: int
    const qdepth: nat
    var sqpiRegister: int

    ghost function Snapshot(): Qp
      reads this
    {
      Qp(sqPidb, sqCidb, cqCidb, qdepth)
    }

    constructor (qdepth: nat)
      ensures InSync(Snapshot(), 0) && this.qdepth == qdepth
    {
      sqPidb, sqCidb, cqCidb, this.qdepth, sqpiRegister := 0, 0, 0, qdepth, 0;
    }

    method RdmaPostSend(heads: seq<int>) returns (o: Outcome)
      modifies this
      ensures o == PostSend(old(Snapshot()), heads) && sqpiRegister == old(sqPidb) + 1
      ensures o.Returned? ==> Snapshot() == o.qp
    {
      sqPidb := sqPidb + 1;
      sqpiRegister := sqPidb;
      var r := PollCqCidb(heads, sqCidb);
      if r.Polling? { return Waiting; }
      cqCidb := r.value;
      sqCidb := sqCidb + 1;
      o := Returned(Qp(sqPidb, sqCidb, cqCidb, qdepth), if cqCidb < 0 then -1 else 0, r.used);
    }

    method RdmaPostBatchSend(batch: nat, heads: seq<int>) returns (o: Outcome)
      modifies this
      ensures o == PostBatch(old(Snapshot()), batch, heads)
      ensures o.Returned? ==> Snapshot() == o.qp && sqpiRegister == old(sqPidb) + batch
      ensures o.Exited? ==> sqpiRegister == old(sqpiRegister)
    {
      hide PollCq, PollSpec, BatchLoop;
      sqPidb := sqPidb + batch;
      if qdepth < batch || sqPidb > qdepth { return Exited; }
      sqpiRegister := sqPidb;
      ghost var q := Snapshot();
      var used := 0;
      assert heads[0..] == heads;
      while cqCidb < sqPidb
        invariant used <= |heads|
        invariant sqPidb == q.sqPidb == sqpiRegister == old(sqPidb) + batch
        invariant BatchLoop(q, heads, 0) == BatchLoop(Snapshot(), heads[used..], used)
        decreases |heads| - used
      {
        BatchLoopUnfolds(Snapshot(), heads[used..], used);
        var r := PollCqCidb(heads[used..], sqCidb);
        if r.Polling? { return Waiting; }
        cqCidb := r.value;
        sqCidb := cqCidb;
        assert heads[used..][r.used..] == heads[used + r.used..];
        used := used + r.used;
      }
      BatchLoopUnfolds(Snapshot(), heads[used..], used);
      o := Returned(Qp(sqPidb, sqCidb, cqCidb, qdepth), if cqCidb < 0 then -1 else 0, used);
    }
  }
}
