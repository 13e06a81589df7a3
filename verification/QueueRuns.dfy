/**
 Runs of the queue engine: any sequence of its operations, and what is handed out on the way.
 */
module QueueRuns {
  import opened ByteOrder
  import opened Options
  import opened MessageCodec
  import opened QueueEngine

  datatype Op =
    | Enq(msg: Message, generated: Bytes)
    | Deq(visibility: int)
    | AckOp(id: Bytes)
    | NackOp(id: Bytes, requeue: bool)
    | ExtendOp(id: Bytes, d: int)
    | ExpireOp
    | CloseOp

  /** An operation and the time at which it runs. */
  datatype Timed = Timed(op: Op, now: Int64)

  datatype Handout = Handout(message: Message, at: Int64)

  /** What is handed out was enqueued with that id, and comes with the payload and priority it had; it has not
      outlived its time limit; and the first time it is handed out, which its retry count tells, it is due. */
  ghost predicate HandoutOk(ops: seq<Timed>, h: Handout) {
    exists i :: 0 <= i < |ops| && ops[i].op.Enq? && Delivers(ops[i], h)
  }

  ghost predicate Delivers(t: Timed, h: Handout)
    requires t.op.Enq?
  {
    && h.message.id == (if t.op.msg.id == [] then t.op.generated else t.op.msg.id)
    && h.message.payload == t.op.msg.payload && h.message.priority == t.op.msg.priority
    && (t.op.msg.expireAt <= 0 || h.at < t.op.msg.expireAt)
    && h.message.retryCount > t.op.msg.retryCount
    && (h.message.retryCount == t.op.msg.retryCount + 1 && t.op.msg.visibleAt > 0 ==> t.op.msg.visibleAt <= h.at)
  }

  ghost predicate Enqueued(ops: seq<Timed>, id: Bytes, a: Arrival) {
    exists i :: 0 <= i < |ops| && IsEnq(ops[i], id, a)
  }

  ghost predicate IsEnq(t: Timed, id: Bytes, a: Arrival) {
    t.op.Enq? && t.op.msg == a.msg && t.now == a.at && id == if t.op.msg.id == [] then t.op.generated else t.op.msg.id
  }

  ghost predicate AllEnqueued(ops: seq<Timed>, arrived: map<Bytes, Arrival>) {
    forall id :: id in arrived ==> Enqueued(ops, id, arrived[id])
  }

  ghost predicate AllOk(ops: seq<Timed>, out: seq<Handout>) {
    forall k :: 0 <= k < |out| ==> HandoutOk(ops, out[k])
  }

  /** Any run: every hand-out is right, and no message without a time limit is ever dropped for its age. */
  method Run(q: Engine, ops: seq<Timed>) returns (out: seq<Handout>)
    requires q.Valid() && q.arrived == map[]
    modifies q
    ensures q.Valid() && AllOk(ops, out)
    ensures forall id :: id in q.ended.expired ==> id in q.arrived && q.arrived[id].msg.expireAt > 0
    ensures AllEnqueued(ops, q.arrived)
  {
    hide Engine.Valid, AllOk, AllEnqueued;
    out := [];
    Nothing(ops, q.arrived);
    var i := 0;
    while i < |ops|
      invariant 0 <= i <= |ops| && q.Valid() && AllOk(ops[..i], out) && AllEnqueued(ops[..i], q.arrived)
    {
      out := Step(q, ops, i, out);
      i := i + 1;
    }
    assert ops[..i] == ops;
    ExpiredHadLimit(q);
  }

  lemma {:induction false} Nothing(ops: seq<Timed>, arrived: map<Bytes, Arrival>)
    requires arrived == map[]
    ensures AllOk(ops[..0], []) && AllEnqueued(ops[..0], arrived)
  {
  }

  lemma {:induction false} ExpiredHadLimit(q: Engine)
    requires q.Valid()
    ensures forall id :: id in q.ended.expired ==> id in q.arrived && q.arrived[id].msg.expireAt > 0
  {
    hide Heaps.Ordered, HoldsReady, Mirrors, Books, DeadLetters, AsItCame;
  }

  lemma {:induction false} Longer(ops: seq<Timed>, i: nat, out: seq<Handout>, arrived: map<Bytes, Arrival>)
    requires i < |ops| && AllOk(ops[..i], out) && AllEnqueued(ops[..i], arrived)
    ensures AllOk(ops[..i + 1], out) && AllEnqueued(ops[..i + 1], arrived)
  {
    forall k | 0 <= k < |out| ensures HandoutOk(ops[..i + 1], out[k]) {
      assert HandoutOk(ops[..i], out[k]);
      var j :| 0 <= j < i && ops[..i][j].op.Enq? && Delivers(ops[..i][j], out[k]);
      assert ops[..i + 1][j] == ops[..i][j];
    }
    forall id | id in arrived ensures Enqueued(ops[..i + 1], id, arrived[id]) {
      assert Enqueued(ops[..i], id, arrived[id]);
      var j :| 0 <= j < i && IsEnq(ops[..i][j], id, arrived[id]);
      assert ops[..i + 1][j] == ops[..i][j];
    }
  }

  method Step(q: Engine, ops: seq<Timed>, i: nat, out: seq<Handout>) returns (out': seq<Handout>)
    requires i < |ops| && q.Valid() && AllOk(ops[..i], out) && AllEnqueued(ops[..i], q.arrived)
    modifies q
    ensures q.Valid() && AllOk(ops[..i + 1], out') && AllEnqueued(ops[..i + 1], q.arrived) && out <= out'
  {
    hide Engine.Valid, AllOk, AllEnqueued, AsItCame, InTime;
    out' := out;
    Longer(ops, i, out, q.arrived);
    var now := ops[i].now;
    match ops[i].op {
      case Enq(msg, generated) =>
        var id := if msg.id == [] then generated else msg.id;
        var used := IsLive(q, id);
        if !used {
          var r := q.Enqueue(msg, generated, now);
          if r.Accepted? { OneArrived(ops, i, old(q.arrived), id); }
        }
      case Deq(visibility) =>
        ghost var accounts := q.accounts;
        var r, _ := q.Dequeue(visibility, now);
        if r.Handed? {
          var h := Handout(r.message, now);
          Delivered(ops, i, q.arrived, h, accounts[h.message.id].handed, q.defaultMaxRetries);
          OneMore(ops[..i + 1], out, h);
          out' := out + [h];
        }
      case AckOp(id) => var _ := q.Ack(id);
      case NackOp(id, requeue) => var _ := q.Nack(id, requeue, now);
      case ExtendOp(id, d) => var _ := q.Extend(id, d, now);
      case ExpireOp => q.ExpireLeases(now);
      case CloseOp => q.Close();
    }
  }

  /** Whether an id is in use: a caller that numbers its messages knows. */
  method IsLive(q: Engine, id: Bytes) returns (used: bool)
    requires q.Valid()
    ensures used <==> id in q.live
  {
    hide Arrived, Heaps.Ordered, Books, DeadLetters;
    used := id in q.inFlight;
    var i := 0;
    while i < |q.ready| && !used
      invariant 0 <= i <= |q.ready|
      invariant used ==> id in q.live
      invariant !used ==> id !in q.inFlight && forall k :: 0 <= k < i ==> q.ready[k].id != id
    {
      MemberHolds(q.ready, q.live, q.ready[i]);
      used := q.ready[i].id == id;
      i := i + 1;
    }
    if !used && id in q.live {
      MemberHolds(q.ready, q.live, q.live[id]);
    }
  }

  lemma {:induction false} OneArrived(ops: seq<Timed>, i: nat, arrived: map<Bytes, Arrival>, id: Bytes)
    requires i < |ops| && AllEnqueued(ops[..i + 1], arrived) && ops[i].op.Enq?
    requires id == if ops[i].op.msg.id == [] then ops[i].op.generated else ops[i].op.msg.id
    ensures AllEnqueued(ops[..i + 1], arrived[id := Arrival(ops[i].op.msg, ops[i].now)])
  {
    assert ops[..i + 1][i] == ops[i];
    assert IsEnq(ops[..i + 1][i], id, Arrival(ops[i].op.msg, ops[i].now));
  }

  lemma {:induction false} Delivered(ops: seq<Timed>, i: nat, arrived: map<Bytes, Arrival>, h: Handout, handed: nat,
                                     defaultMaxRetries: int)
    requires i < |ops| && AllEnqueued(ops[..i + 1], arrived) && h.message.id in arrived
    requires AsItCame(h.message, arrived[h.message.id], handed + 1, defaultMaxRetries)
    requires InTime(arrived[h.message.id], handed, h.at)
    ensures HandoutOk(ops[..i + 1], h)
  {
    var a := arrived[h.message.id];
    assert Enqueued(ops[..i + 1], h.message.id, a);
    var j :| 0 <= j < |ops[..i + 1]| && IsEnq(ops[..i + 1][j], h.message.id, a);
    assert Delivers(ops[..i + 1][j], h);
  }

  lemma {:induction false} OneMore(ops: seq<Timed>, out: seq<Handout>, h: Handout)
    requires AllOk(ops, out) && HandoutOk(ops, h)
    ensures AllOk(ops, out + [h])
  {
  }
}
