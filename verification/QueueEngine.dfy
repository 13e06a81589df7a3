/**
 The queue engine: ready heap, leases, retries, dead letters, and the stored copy of every live message.

 Each method is one critical section; the clock is a parameter.  The stored tree is the map it refines,
 and refuses what a B+tree refuses by size.  The dead-letter queue is the list of messages it was handed.
 */
module QueueEngine {
  import opened ByteOrder
  import opened Options
  import opened Heaps
  import opened MessageCodec
  import opened Cells

  /** The stricter message comes first: higher priority, then earlier visibility. */
  predicate Outranks(a: Message, b: Message) {
    if a.priority != b.priority then a.priority > b.priority else a.visibleAt < b.visibleAt
  }

  const HeapKey: Message -> real := (m: Message) => m.visibleAt as real - m.priority as real * 36893488147419103232.0

  lemma {:induction false} HeapKeyOrder(a: Message, b: Message)
    ensures Outranks(a, b) <==> HeapKey(a) < HeapKey(b)
  {
  }

  /** Addition of 64-bit numbers. */
  function Add64(a: Int64, b: int): Int64 {
    var s := (a + b) % 0x1_0000_0000_0000_0000;
    if s >= SIGN64 then s - 0x1_0000_0000_0000_0000 else s
  }

  predicate Storable(m: Message) {
    |m.id| <= MAX_KEY_SIZE && |Encode(m)| <= MAX_VALUE_SIZE
  }

  type Live = map<Bytes, Message>

  predicate IsReady(live: Live, m: Message) {
    m.id in live && live[m.id] == m && m.state == Ready
  }

  /** The heap holds each ready message once and nothing else. */
  ghost predicate HoldsReady(ready: seq<Message>, live: Live) {
    forall m :: multiset(ready)[m] == if IsReady(live, m) then 1 else 0
  }

  ghost predicate HoldsInFlight(inFlight: Live, live: Live) {
    && (forall id :: id in inFlight <==> id in live && live[id].state == Invisible)
    && forall id :: id in inFlight ==> inFlight[id] == live[id]
  }

  ghost predicate Stored(store: map<Bytes, Bytes>, live: Live) {
    && (forall id :: id in store <==> id in live && Storable(live[id]))
    && forall id :: id in store ==> store[id] == Encode(live[id])
  }

  ghost predicate LiveOk(live: Live) {
    forall id :: id in live ==> live[id].id == id && (live[id].state == Ready || live[id].state == Invisible)
  }

  // ---------- Hand-outs ----------

  /** How often a message may be handed out: as often as it has retries left, but at least once. */
  function Budget(m: Message): (n: nat)
    ensures n >= 1
  {
    if m.retryCount < m.maxRetries then m.maxRetries - m.retryCount else 1
  }

  datatype Account = Account(handed: nat, budget: nat)

  /** Hand-outs so far and retries left make up the budget; a ready message has one left. */
  ghost predicate Budgeted(m: Message, a: Account) {
    && a.handed <= a.budget
    && (m.retryCount < m.maxRetries ==> a.handed + (m.maxRetries - m.retryCount) == a.budget)
    && (m.state == Ready ==> a.handed < a.budget)
  }

  ghost predicate AllBudgeted(live: Live, accounts: map<Bytes, Account>) {
    forall id :: id in live ==> id in accounts && Budgeted(live[id], accounts[id])
  }

  // ---------- Steps of the live messages ----------

  lemma {:induction false} PushHolds(ready: seq<Message>, h: seq<Message>, live: Live, m: Message)
    requires HoldsReady(ready, live) && multiset(h) == multiset(ready) + multiset{m} && m.state == Ready
    requires m.id in live ==> live[m.id].state != Ready
    ensures HoldsReady(h, live[m.id := m])
  {
    forall x ensures multiset(h)[x] == if IsReady(live[m.id := m], x) then 1 else 0 {
      assert multiset(ready)[x] == if IsReady(live, x) then 1 else 0;
    }
  }

  lemma {:induction false} PopHolds(ready: seq<Message>, h: seq<Message>, live: Live, m: Message)
    requires HoldsReady(ready, live) && multiset(ready) == multiset(h) + multiset{m}
    ensures IsReady(live, m) && HoldsReady(h, live - {m.id})
  {
    assert multiset(ready)[m] >= 1;
    forall x ensures multiset(h)[x] == if IsReady(live - {m.id}, x) then 1 else 0 {
      assert multiset(ready)[x] == if IsReady(live, x) then 1 else 0;
    }
  }

  /** Changes of messages that are not ready do not touch the heap. */
  lemma {:induction false} OthersHold(ready: seq<Message>, live: Live, live': Live)
    requires HoldsReady(ready, live) && forall m :: IsReady(live, m) <==> IsReady(live', m)
    ensures HoldsReady(ready, live')
  {
  }

  lemma {:induction false} MemberHolds(ready: seq<Message>, live: Live, m: Message)
    requires HoldsReady(ready, live)
    ensures m in ready <==> IsReady(live, m)
  {
    assert m in ready <==> multiset(ready)[m] > 0;
  }

  function PutIn(store: map<Bytes, Bytes>, m: Message): map<Bytes, Bytes> {
    if Storable(m) then store[m.id := Encode(m)] else store
  }

  /** The in-flight table and the store follow the live messages. */
  ghost predicate Mirrors(inFlight: Live, store: map<Bytes, Bytes>, live: Live) {
    HoldsInFlight(inFlight, live) && Stored(store, live) && LiveOk(live)
  }

  /** A message appears or changes. */
  lemma {:induction false} MirrorSet(inFlight: Live, store: map<Bytes, Bytes>, live: Live, m: Message)
    requires Mirrors(inFlight, store, live) && (m.state == Ready || m.state == Invisible)
    requires m.id in live ==> (Storable(live[m.id]) <==> Storable(m))
    ensures Mirrors(if m.state == Invisible then inFlight[m.id := m] else inFlight - {m.id}, PutIn(store, m),
                      live[m.id := m])
  {
    hide Encode;
  }

  /** A message goes. */
  lemma {:induction false} MirrorRemove(inFlight: Live, store: map<Bytes, Bytes>, live: Live, id: Bytes)
    requires Mirrors(inFlight, store, live)
    ensures Mirrors(inFlight - {id}, store - {id}, live - {id})
  {
    hide Encode, Storable;
  }

  /** Messages that differ only in counters, state and times take the same room. */
  lemma {:induction false} SameRoom(a: Message, b: Message)
    requires a.id == b.id && a.queue == b.queue && a.dedupId == b.dedupId && a.payload == b.payload
    ensures Storable(a) <==> Storable(b)
  {
    hide Fixed;
  }

  // ---------- The books ----------

  datatype Ended = Ended(acked: set<Bytes>, expired: set<Bytes>, dead: set<Bytes>)

  /** Every accepted message is live (ready or in flight), acknowledged, expired or dead, and only one of these. */
  ghost predicate Partition(live: Live, ended: Ended, accounts: map<Bytes, Account>) {
    && accounts.Keys == live.Keys + ended.acked + ended.expired + ended.dead
    && live.Keys !! ended.acked && live.Keys !! ended.expired && live.Keys !! ended.dead
    && ended.acked !! ended.expired && ended.acked !! ended.dead && ended.expired !! ended.dead
  }

  ghost predicate WithinBudget(accounts: map<Bytes, Account>) {
    forall id :: id in accounts ==> accounts[id].handed <= accounts[id].budget
  }

  ghost predicate Books(live: Live, ended: Ended, accounts: map<Bytes, Account>) {
    Partition(live, ended, accounts) && AllBudgeted(live, accounts) && WithinBudget(accounts)
  }

  /** The id of a message that has ended may be used again, for a new message. */
  function Reopened(ended: Ended, id: Bytes): Ended {
    Ended(ended.acked - {id}, ended.expired - {id}, ended.dead - {id})
  }

  lemma {:induction false} BooksAccept(live: Live, ended: Ended, accounts: map<Bytes, Account>, m: Message)
    requires Books(live, ended, accounts) && m.id !in live
    ensures Books(live[m.id := m], Reopened(ended, m.id), accounts[m.id := Account(0, Budget(m))])
  {
    hide Partition;
    assert Partition(live[m.id := m], Reopened(ended, m.id),
               accounts[m.id := Account(0, Budget(m))]) by { PartitionAccept(live, ended, accounts, m); }
  }

  lemma {:induction false} PartitionAccept(live: Live, ended: Ended, accounts: map<Bytes, Account>, m: Message)
    requires Partition(live, ended, accounts) && m.id !in live
    ensures Partition(live[m.id := m], Reopened(ended, m.id), accounts[m.id := Account(0, Budget(m))])
  {
  }

  /** A live message changes; a ready one that becomes invisible has been handed out once more. */
  lemma {:induction false} BooksChange(live: Live, ended: Ended, accounts: map<Bytes, Account>, m: Message,
                                       handOut: bool)
    requires Books(live, ended, accounts) && m.id in live
    requires if handOut then
               && live[m.id].state == Ready && m.state == Invisible
               && m.maxRetries == live[m.id].maxRetries && m.retryCount == live[m.id].retryCount + 1
             else
               && m.retryCount == live[m.id].retryCount && m.maxRetries == live[m.id].maxRetries
               && (m.state == Ready ==> live[m.id].state == Ready || m.retryCount < m.maxRetries)
    ensures m.id in accounts
    ensures Books(live[m.id := m], ended,
                if handOut then accounts[m.id := accounts[m.id].(handed := accounts[m.id].handed + 1)] else accounts)
  {
    assert Budgeted(live[m.id], accounts[m.id]);
  }

  datatype Outcome = Acknowledged | TimedOut | Died

  function End(ended: Ended, id: Bytes, o: Outcome): Ended {
    match o
    case Acknowledged => ended.(acked := ended.acked + {id})
    case TimedOut => ended.(expired := ended.expired + {id})
    case Died => ended.(dead := ended.dead + {id})
  }

  lemma {:induction false} BooksEnd(live: Live, ended: Ended, accounts: map<Bytes, Account>, id: Bytes, o: Outcome)
    requires Books(live, ended, accounts) && id in live
    ensures Books(live - {id}, End(ended, id, o), accounts) && id !in ended.dead
  {
  }

  // ---------- How messages came ----------

  /** The message as it was given to Enqueue, and when. */
  datatype Arrival = Arrival(msg: Message, at: Int64)

  /** The message after a number of hand-outs: what it came with, with the defaults for what it did not bring; and
      before the first one it is ready at the time it was to be. */
  ghost predicate AsItCame(m: Message, a: Arrival, handed: nat, defaultMaxRetries: int) {
    && m.payload == a.msg.payload && m.priority == a.msg.priority && m.dedupId == a.msg.dedupId
    && m.expireAt == a.msg.expireAt && m.createdAt == a.at && m.retryCount == a.msg.retryCount + handed
    && m.maxRetries == (if a.msg.maxRetries > 0 then a.msg.maxRetries else defaultMaxRetries)
    && (handed == 0 ==> m.state == Ready && m.visibleAt == if a.msg.visibleAt > 0 then a.msg.visibleAt else a.at)
  }

  /** It may be handed out: not past its time limit, and the first time not before it is to be visible. */
  ghost predicate InTime(a: Arrival, handed: nat, now: Int64) {
    && (a.msg.expireAt <= 0 || now < a.msg.expireAt)
    && (handed == 0 ==> (if a.msg.visibleAt > 0 then a.msg.visibleAt else a.at) <= now)
  }

  ghost predicate Arrived(live: Live, ended: Ended, accounts: map<Bytes, Account>, arrived: map<Bytes, Arrival>,
                          defaultMaxRetries: int) {
    && (forall id :: id in live ==> id in accounts && id in arrived
                                      && AsItCame(live[id], arrived[id], accounts[id].handed, defaultMaxRetries))
    && forall id :: id in ended.expired ==> id in arrived && arrived[id].msg.expireAt > 0
  }

  lemma {:induction false} ArrivesNew(live: Live, ended: Ended, accounts: map<Bytes, Account>,
                                      arrived: map<Bytes, Arrival>, defaultMaxRetries: int, msg: Message,
                                      generated: Bytes, name: Bytes, now: Int64)
    requires Arrived(live, ended, accounts, arrived, defaultMaxRetries)
    ensures var m := Filled(msg, generated, name, defaultMaxRetries, now);
            && Arrived(live[m.id := m], Reopened(ended, m.id), accounts[m.id := Account(0, Budget(m))],
                       arrived[m.id := Arrival(msg, now)], defaultMaxRetries)
            && m.queue == name && AsItCame(m, Arrival(msg, now), 0, defaultMaxRetries)
  {
  }

  lemma {:induction false} ArrivedGone(live: Live, ended: Ended, accounts: map<Bytes, Account>,
                                       arrived: map<Bytes, Arrival>, defaultMaxRetries: int, id: Bytes, o: Outcome)
    requires Arrived(live, ended, accounts, arrived, defaultMaxRetries) && id in live
    requires o == TimedOut ==> live[id].expireAt > 0
    ensures Arrived(live - {id}, End(ended, id, o), accounts, arrived, defaultMaxRetries)
  {
  }

  lemma {:induction false} ArrivedTaken(live: Live, ended: Ended, accounts: map<Bytes, Account>,
                                        arrived: map<Bytes, Arrival>, defaultMaxRetries: int, m: Message, lease: int,
                                        now: Int64)
    requires Arrived(live, ended, accounts, arrived, defaultMaxRetries) && m.id in live && live[m.id] == m
    requires m.id in accounts
    ensures Arrived(live[m.id := Leased(m, lease, now)], ended,
                    accounts[m.id := accounts[m.id].(handed := accounts[m.id].handed + 1)], arrived, defaultMaxRetries)
  {
  }

  lemma {:induction false} ArrivedBack(inFlight: Live, store: map<Bytes, Bytes>, live: Live, ended: Ended,
                                       accounts: map<Bytes, Account>, arrived: map<Bytes, Arrival>,
                                       defaultMaxRetries: int, id: Bytes, m: Message)
    requires Arrived(live, ended, accounts, arrived, defaultMaxRetries)
    requires Mirrors(inFlight, store, live) && id in inFlight
    requires m == inFlight[id].(state := m.state, visibleAt := m.visibleAt)
    ensures Arrived(live[id := m], ended, accounts, arrived, defaultMaxRetries)
  {
    hide Encode, Storable;
  }

  lemma {:induction false} Came(live: Live, ended: Ended, accounts: map<Bytes, Account>, arrived: map<Bytes, Arrival>,
                                defaultMaxRetries: int, id: Bytes, now: Int64)
    requires Arrived(live, ended, accounts, arrived, defaultMaxRetries) && id in live
    ensures id in accounts && id in arrived
            && AsItCame(live[id], arrived[id], accounts[id].handed, defaultMaxRetries)
    ensures IsExpired(live[id], now) <==> 0 < arrived[id].msg.expireAt <= now
  {
  }

  lemma {:induction false} LeasedIs(m: Message, a: Arrival, handed: nat, defaultMaxRetries: int, lease: int, now: Int64)
    requires AsItCame(m, a, handed, defaultMaxRetries) && !IsExpired(m, now) && m.visibleAt <= now
    ensures InTime(a, handed, now)
    ensures var l := Leased(m, lease, now);
            && AsItCame(l, a, handed + 1, defaultMaxRetries) && l.state == Invisible && l.id == m.id
            && (-SIGN64 <= now + lease < SIGN64 ==> l.visibleAt == now + lease)
  {
  }

  /** Of every message that is gone there is the letter. */
  ghost predicate Lettered(was: Live, live: Live, dlq: seq<Message>, name: Bytes, now: Int64) {
    forall id :: id in was && id !in live ==> Buried(was[id], name, now) in dlq
  }

  lemma {:induction false} NoneLettered(live: Live, dlq: seq<Message>, name: Bytes, now: Int64)
    ensures Lettered(live, live, dlq, name, now)
  {
  }

  lemma {:induction false} MoreLettered(was: Live, before: Live, live: Live, dlq0: seq<Message>, dlq: seq<Message>,
                                        name: Bytes, now: Int64, id: Bytes)
    requires Lettered(was, before, dlq0, name, now) && Lettered(before, live, dlq, name, now) && dlq0 <= dlq
    requires id in before && id in was && before[id] == was[id]
    requires forall x :: x in before && x != id ==> x in live
    ensures Lettered(was, live, dlq, name, now)
  {
    hide Buried;
    forall x | x in was && x !in live ensures Buried(was[x], name, now) in dlq {
      if x !in before {
        assert Buried(was[x], name, now) in dlq0;
      }
    }
  }

  /** A dead letter is the message, ready in the dead-letter queue at once and with no duplicates to be found. */
  lemma {:induction false} LetterIs(m: Message, name: Bytes, now: Int64)
    ensures var l := Buried(m, name, now);
            && l.id == m.id && l.payload == m.payload && l.priority == m.priority && l.expireAt == m.expireAt
            && l.retryCount == m.retryCount && l.maxRetries == m.maxRetries
            && l.state == Ready && l.visibleAt == now && l.createdAt == now && l.dedupId == []
            && l.queue == name + [0x2E, 0x64, 0x6C, 0x71]
  {
  }

  /** A message is stored if and only if the B+tree takes its key and its bytes. */
  lemma {:induction false} StorableIff(m: Message)
    ensures Storable(m) <==> LeafItemOk(LeafItem(m.id, Encode(m)))
  {
  }

  lemma {:induction false} AllChecked(live: Live, live': Live, now: Int64)
    requires PartlyExpired(live, live', now, {})
    ensures LeasesExpired(live, live', now)
  {
    hide Checked;
  }

  /** The leases that are left are those that have not run out. */
  lemma {:induction false} LeaseTimes(inFlight: Live, store: map<Bytes, Bytes>, live: Live, inFlight': Live,
                                      store': map<Bytes, Bytes>, live': Live, now: Int64)
    requires Mirrors(inFlight, store, live) && Mirrors(inFlight', store', live') && LeasesExpired(live, live', now)
    ensures forall id :: id in inFlight ==>
              if inFlight[id].visibleAt > now then id in inFlight' && inFlight'[id] == inFlight[id]
              else id !in inFlight'
  {
    hide Stored;
    forall id | id in inFlight
      ensures if inFlight[id].visibleAt > now then id in inFlight'
                && inFlight'[id] == inFlight[id] else id !in inFlight'
    {
      assert Checked(live, live', now, id);
    }
  }

  // ---------- The engine ----------

  datatype EnqueueResult = Accepted(message: Message) | Duplicate | Closed
  datatype LeaseResult = Done | NotFound | DeadLettered

  class Engine {
    const name: Bytes
    const defaultVisibility: int
    const defaultMaxRetries: int
    const dedupWindow: int
    const enableDLQ: bool
    var ready: seq<Message>
    var inFlight: Live
    var store: map<Bytes, Bytes>
    var dlq: seq<Message>
    var dedup: map<Bytes, int>
    var closed: bool
    ghost var live: Live                      // ready and in flight
    ghost var ended: Ended
    ghost var letters: multiset<Bytes>        // of every message handed to the dead-letter queue, its id
    ghost var lost: set<Bytes>                // the dead that it was closed to
    ghost var accounts: map<Bytes, Account>   // of every message ever accepted
    ghost var arrived: map<Bytes, Arrival>    // how it came

    ghost predicate Valid()
      reads this
    {
      && defaultMaxRetries >= 1 && dedupWindow >= 1
      && Ordered(ready, HeapKey) && HoldsReady(ready, live) && Mirrors(inFlight, store, live)
      && Books(live, ended, accounts) && DeadLetters(dlq, enableDLQ, ended.dead, lost, letters)
      && (!closed ==> lost == {}) && Arrived(live, ended, accounts, arrived, defaultMaxRetries)
    }

    constructor (name: Bytes, visibility: int, maxRetries: int, window: int, enableDLQ: bool)
      ensures Valid() && live == map[] && accounts == map[] && arrived == map[] && !closed && dedup == map[]
              && this.name == name
              && this.enableDLQ == enableDLQ
      ensures defaultVisibility == (if visibility <= 0 then 30_000_000_000 else visibility)
              && defaultMaxRetries == (if maxRetries <= 0 then 5 else maxRetries)
      ensures dedupWindow == if window <= 0 then 600_000_000_000 else window
    {
      this.name := name;
      this.defaultVisibility := if visibility <= 0 then 30_000_000_000 else visibility;
      this.defaultMaxRetries := if maxRetries <= 0 then 5 else maxRetries;
      this.dedupWindow := if window <= 0 then 600_000_000_000 else window;
      this.enableDLQ := enableDLQ;
      ready, inFlight, store, dlq, dedup, closed := [], map[], map[], [], map[], false;
      live, ended, accounts, arrived, letters, lost := map[], Ended({}, {}, {}), map[], map[], multiset{}, {};
    }

    /** CheckOrSet: an id is refused while its entry has not run out; the cleanup drops only entries that have. */
    method CheckOrSet(id: Bytes, now: int) returns (isNew: bool)
      requires id != [] && dedupWindow >= 1
      modifies this`dedup
      ensures isNew == !Refused(old(dedup), id, now)
      ensures isNew ==> id in dedup && dedup[id] == now + dedupWindow
      ensures forall x, t :: t >= now && x != id ==> (Refused(dedup, x, t) <==> Refused(old(dedup), x, t))
      ensures !isNew ==> dedup == old(dedup)
      ensures isNew ==> forall t :: Refused(dedup, id, t) <==> t < now + dedupWindow
    {
      if id in dedup && dedup[id] > now {
        return false;
      }
      dedup := dedup[id := now + dedupWindow];
      if |dedup| > 1000 {
        dedup := map x | x in dedup && dedup[x] > now :: dedup[x];
      }
      isNew := true;
    }

    /** tree.Insert and tree.Delete, whose errors the engine ignores. */
    method Put(m: Message)
      modifies this`store
      ensures store == PutIn(old(store), m)
    {
      if |m.id| <= MAX_KEY_SIZE && |Encode(m)| <= MAX_VALUE_SIZE {
        store := store[m.id := Encode(m)];
      }
    }

    /** Accept a message: fill in its defaults, store it and make it ready.  `generated` is the id for a message
        that brings none. */
    method Enqueue(msg: Message, generated: Bytes, now: Int64) returns (r: EnqueueResult)
      requires Valid() && (if msg.id == [] then generated else msg.id) !in live
      modifies this
      ensures Valid() && closed == old(closed) && inFlight == old(inFlight) && dlq == old(dlq)
      ensures r == Duplicate <==> msg.dedupId != [] && Refused(old(dedup), msg.dedupId, now)
      ensures r == Closed <==> r != Duplicate && closed
      ensures r.Accepted? ==> r.message == Filled(msg, generated, name, defaultMaxRetries, now)
      ensures live == if r.Accepted? then old(live)[r.message.id := r.message] else old(live)
      ensures accounts == if r.Accepted? then old(accounts)[r.message.id := Account(0, Budget(r.message))]
                            else old(accounts)
      ensures ended == if r.Accepted? then Reopened(old(ended), r.message.id) else old(ended)
      ensures arrived == if r.Accepted? then old(arrived)[r.message.id := Arrival(msg, now)] else old(arrived)
      ensures r.Accepted? ==>
                && r.message.id == (if msg.id == [] then generated else msg.id) && r.message.queue == name
                && AsItCame(r.message, Arrival(msg, now), 0, defaultMaxRetries)
    {
      hide Arrived, AsItCame, Ordered, HoldsReady, Mirrors, Books, DeadLetters, Filled, Reopened, Budget;
      if msg.dedupId != [] {
        var isNew := CheckOrSet(msg.dedupId, now);
        if !isNew {
          return Duplicate;
        }
      }
      if closed {
        return Closed;
      }
      var m := Accept(msg, generated, now);
      r := Accepted(m);
    }

    /** The part of Enqueue behind its checks. */
    method Accept(msg: Message, generated: Bytes, now: Int64) returns (m: Message)
      requires Valid() && (if msg.id == [] then generated else msg.id) !in live
      modifies this`ready, this`store, this`live, this`ended, this`accounts, this`arrived
      ensures Valid() && m == Filled(msg, generated, name, defaultMaxRetries, now)
      ensures live == old(live)[m.id := m] && accounts == old(accounts)[m.id := Account(0, Budget(m))]
      ensures ended == Reopened(old(ended), m.id) && arrived == old(arrived)[m.id := Arrival(msg, now)]
      ensures m.id == (if msg.id == [] then generated else msg.id) && m.queue == name
      ensures AsItCame(m, Arrival(msg, now), 0, defaultMaxRetries)
    {
      hide Arrived, AsItCame, Ordered, HoldsReady, Mirrors, Books, DeadLetters, PutIn, Filled, Reopened, Budget;
      m := Filled(msg, generated, name, defaultMaxRetries, now);
      Put(m);
      var h := Push(ready, m, HeapKey);
      FilledIs(msg, generated, name, defaultMaxRetries, now);
      ArrivesNew(live, ended, accounts, arrived, defaultMaxRetries, msg, generated, name, now);
      FewerDead(dlq, enableDLQ, ended, lost, letters, m.id);
      NewMessage(ready, h, inFlight, old(store), live, ended, accounts, m);
      ready := h;
      live, ended := live[m.id := m], Reopened(ended, m.id);
      accounts := accounts[m.id := Account(0, Budget(m))];
      arrived := arrived[m.id := Arrival(msg, now)];
    }

    /** One pass of Dequeue: drop expired messages from the top of the heap, then hand out the top if it is
        visible.  No message that is left outranks the one handed out. */
    method Dequeue(visibility: int, now: Int64) returns (r: DequeueResult, ghost dropped: set<Bytes>)
      requires Valid()
      modifies this
      ensures Valid() && closed == old(closed) && dlq == old(dlq) && dedup == old(dedup)
      ensures r == QueueClosed <==> closed
      ensures forall id :: id in dropped ==> id in old(live) && old(live)[id].state == Ready
                                               && IsExpired(old(live)[id], now)
      ensures ended == old(ended).(expired := old(ended).expired + dropped)
      ensures r == Nothing ==> live == old(live) - dropped && accounts == old(accounts) && HeadDelayed(live, now)
      ensures r.Handed? ==> var id := r.message.id;
        && id in old(live) && id !in dropped && id in old(accounts) && NextUp(old(live) - dropped, old(live)[id], now)
        && r.message == Leased(old(live)[id], if visibility <= 0 then defaultVisibility else visibility, now)
        && live == (old(live) - dropped)[id := r.message]
        && accounts == old(accounts)[id := old(accounts)[id].(handed := old(accounts)[id].handed + 1)]
      ensures arrived == old(arrived)
      ensures forall id :: id in dropped ==> id in arrived && 0 < arrived[id].msg.expireAt <= now
      ensures r.Handed? ==> var id, lease := r.message.id, if visibility <= 0 then defaultVisibility else visibility;
        && id in arrived && id in old(accounts) && InTime(arrived[id], old(accounts)[id].handed, now)
        && AsItCame(r.message, arrived[id], old(accounts)[id].handed + 1, defaultMaxRetries)
        && r.message.state == Invisible && (-SIGN64 <= now + lease < SIGN64 ==> r.message.visibleAt == now + lease)
    {
      hide Engine.Valid, AsItCame, IsExpired, Leased, InTime;
      var lease := if visibility <= 0 then defaultVisibility else visibility;
      dropped := {};
      if closed {
        assert live - dropped == live;
        return QueueClosed, dropped;
      }
      assert old(live) - dropped == live;
      while |ready| > 0
        invariant Valid() && closed == old(closed) && dlq == old(dlq) && dedup == old(dedup) && !closed
        invariant forall id :: id in dropped ==> id in old(live) && old(live)[id].state == Ready
                                                   && IsExpired(old(live)[id], now)
        invariant ended == old(ended).(expired := old(ended).expired + dropped) && live == old(live) - dropped
                  && accounts == old(accounts) && arrived == old(arrived)
        invariant forall id :: id in dropped ==> id in arrived && 0 < arrived[id].msg.expireAt <= now
        decreases |ready|
      {
        var msg := ready[0];
        TopIs(now);
        if IsExpired(msg, now) {
          DropTop(now);
          dropped := dropped + {msg.id};
          continue;
        }
        if msg.visibleAt > now {
          assert HeadDelayed(live, now);
          return Nothing, dropped;
        }
        var m := HandOut(lease, now);
        return Handed(m), dropped;
      }
      NothingReady();
      return Nothing, dropped;
    }

    /** The top of the heap is a ready message that none outranks. */
    lemma {:induction false} TopIs(now: Int64)
      requires Valid() && |ready| > 0
      ensures Foremost(live, ready[0]) && ready[0].id in accounts && ready[0].id in arrived
      ensures IsExpired(ready[0], now) <==> 0 < arrived[ready[0].id].msg.expireAt <= now
    {
      hide Arrived, Ordered, HoldsReady, Mirrors, Books, DeadLetters;
      TopNext(ready, live);
      Came(live, ended, accounts, arrived, defaultMaxRetries, ready[0].id, now);
    }

    lemma {:induction false} NothingReady()
      requires Valid() && |ready| == 0
      ensures forall x :: !IsReady(live, x)
    {
      hide Arrived, Ordered, Mirrors, Books, DeadLetters;
      EmptyHeap(ready, live);
    }

    /** The top of the heap has outlived its time. */
    method DropTop(now: Int64)
      requires Valid() && |ready| > 0 && IsExpired(ready[0], now)
      modifies this`ready, this`store, this`live, this`ended
      ensures Valid() && |ready| == old(|ready|) - 1
      ensures var id := old(ready[0].id); live == old(live) - {id} && ended == End(old(ended), id, TimedOut)
    {
      hide Arrived, AsItCame, Ordered, HoldsReady, Mirrors, Books, DeadLetters;
      TopNext(ready, live);
      var msg, h := Pop(ready, HeapKey);
      TopDropped(ready, h, inFlight, store, live, ended, accounts, msg);
      ArrivedGone(live, ended, accounts, arrived, defaultMaxRetries, msg.id, TimedOut);
      ready, store := h, store - {msg.id};
      live, ended := live - {msg.id}, End(ended, msg.id, TimedOut);
    }

    /** The top of the heap goes out on a lease. */
    method HandOut(lease: int, now: Int64) returns (m: Message)
      requires Valid() && |ready| > 0 && !IsExpired(ready[0], now) && ready[0].visibleAt <= now
      modifies this`ready, this`inFlight, this`store, this`live, this`accounts
      ensures Valid() && m == Leased(old(ready[0]), lease, now) && m.id == old(ready[0].id)
      ensures m.id in old(accounts) && live == old(live)[m.id := m]
              && accounts == old(accounts)[m.id := old(accounts)[m.id].(handed := old(accounts)[m.id].handed + 1)]
      ensures m.id in arrived && InTime(arrived[m.id], old(accounts)[m.id].handed, now)
      ensures AsItCame(m, arrived[m.id], old(accounts)[m.id].handed + 1, defaultMaxRetries)
      ensures m.state == Invisible && (-SIGN64 <= now + lease < SIGN64 ==> m.visibleAt == now + lease)
    {
      hide Arrived, AsItCame, Ordered, HoldsReady, Mirrors, Books, DeadLetters, PutIn, InTime, IsExpired, Leased;
      TopNext(ready, live);
      var msg, h := Pop(ready, HeapKey);
      Came(live, ended, accounts, arrived, defaultMaxRetries, msg.id, now);
      m := Leased(msg, lease, now);
      LeasedIs(msg, arrived[msg.id], accounts[msg.id].handed, defaultMaxRetries, lease, now);
      TopTaken(ready, h, inFlight, store, live, ended, accounts, msg, lease, now);
      ArrivedTaken(live, ended, accounts, arrived, defaultMaxRetries, msg, lease, now);
      ready := h;
      inFlight := inFlight[m.id := m];
      Put(m);
      live, accounts := live[m.id := m], accounts[m.id := accounts[m.id].(handed := accounts[m.id].handed + 1)];
    }

    method Ack(id: Bytes) returns (r: LeaseResult)
      requires Valid()
      modifies this
      ensures Valid() && accounts == old(accounts) && arrived == old(arrived) && dlq == old(dlq)
      ensures r == (if id in old(inFlight) then Done else NotFound)
      ensures live == (if r == Done then old(live) - {id} else old(live))
              && ended == (if r == Done then End(old(ended), id, Acknowledged) else old(ended))
    {
      hide Arrived, AsItCame, Ordered, HoldsReady, Mirrors, Books, DeadLetters;
      if id !in inFlight {
        return NotFound;
      }
      LeaseEnds(ready, inFlight, store, live, ended, accounts, id, Acknowledged);
      ArrivedGone(live, ended, accounts, arrived, defaultMaxRetries, id, Acknowledged);
      inFlight, store := inFlight - {id}, store - {id};
      live, ended := live - {id}, End(ended, id, Acknowledged);
      r := Done;
    }

    /** A rejected message is ready again at once, or dead if it is not to be requeued or has no retries left. */
    method Nack(id: Bytes, requeue: bool, now: Int64) returns (r: LeaseResult)
      requires Valid()
      modifies this
      ensures Valid() && accounts == old(accounts) && arrived == old(arrived)
      ensures r == if id !in old(inFlight) then NotFound
                   else if !requeue || old(inFlight)[id].retryCount >= old(inFlight)[id].maxRetries then DeadLettered
                          else Done
      ensures r == NotFound ==> live == old(live) && ended == old(ended) && dlq == old(dlq)
      ensures r == Done ==> id in old(live) && live == old(live)[id := Requeued(old(live)[id], now)]
                              && ended == old(ended) && dlq == old(dlq)
      ensures r == Done ==> id in live && live[id].state == Ready && live[id].visibleAt == now
                              && live[id].retryCount == old(live)[id].retryCount
      ensures r == DeadLettered ==> id in old(live) && live == old(live) - {id} && ended == End(old(ended), id, Died)
      ensures r == DeadLettered ==> dlq == if enableDLQ && !closed then old(dlq) + [Buried(old(live)[id], name, now)]
                                             else old(dlq)
      ensures closed == old(closed)
    {
      hide Arrived, AsItCame, Ordered, HoldsReady, Mirrors, Books, DeadLetters;
      if id !in inFlight {
        return NotFound;
      }
      InFlightIsLive(inFlight, store, live, id);
      if !requeue || inFlight[id].retryCount >= inFlight[id].maxRetries {
        Bury(id, now);
        return DeadLettered;
      }
      Requeue(id, now);
      r := Done;
    }

    method Bury(id: Bytes, now: Int64)
      requires Valid() && id in inFlight && id in live && inFlight[id] == live[id]
      modifies this`inFlight, this`store, this`dlq, this`live, this`ended, this`letters, this`lost
      ensures Valid() && inFlight == old(inFlight) - {id} && live == old(live) - {id}
              && ended == End(old(ended), id, Died)
      ensures dlq == if enableDLQ && !closed then old(dlq) + [Buried(old(live)[id], name, now)] else old(dlq)
      ensures letters == if enableDLQ && !closed then old(letters) + multiset{id} else old(letters)
    {
      hide Arrived, AsItCame, Ordered, HoldsReady, Mirrors, Books, DeadLetters, Buried, End;
      var m := inFlight[id];
      LeaseEnds(ready, inFlight, store, live, ended, accounts, id, Died);
      ArrivedGone(live, ended, accounts, arrived, defaultMaxRetries, id, Died);
      inFlight, store := inFlight - {id}, store - {id};
      OneMoreDead(dlq, enableDLQ, ended, lost, letters, m, name, now);
      if enableDLQ && !closed {
        dlq, letters := dlq + [Buried(m, name, now)], letters + multiset{id};
      } else if closed {
        lost := lost + {id};
      }
      live, ended := live - {id}, End(ended, id, Died);
    }

    method Requeue(id: Bytes, now: Int64)
      requires Valid() && id in inFlight && id in live && inFlight[id] == live[id]
               && inFlight[id].retryCount < inFlight[id].maxRetries
      modifies this`ready, this`inFlight, this`store, this`live
      ensures Valid() && inFlight == old(inFlight) - {id} && live == old(live)[id := Requeued(old(live)[id], now)]
    {
      hide Arrived, AsItCame, Ordered, HoldsReady, Mirrors, Books, DeadLetters, PutIn;
      var m := Requeued(inFlight[id], now);
      var h := Push(ready, m, HeapKey);
      LeaseReturned(ready, h, inFlight, store, live, ended, accounts, id, now);
      ArrivedBack(inFlight, store, live, ended, accounts, arrived, defaultMaxRetries, id, m);
      ready := h;
      inFlight := inFlight - {id};
      Put(m);
      live := live[id := m];
    }

    method Extend(id: Bytes, d: int, now: Int64) returns (r: LeaseResult)
      requires Valid()
      modifies this
      ensures Valid() && accounts == old(accounts) && arrived == old(arrived) && ended == old(ended) && dlq == old(dlq)
              && ready == old(ready)
      ensures r == (if id in old(inFlight) then Done else NotFound)
      ensures r == Done ==> id in old(live) && live == old(live)[id := old(live)[id].(visibleAt := Add64(now, d))]
      ensures r == Done && -SIGN64 <= now + d < SIGN64 ==> id in live && live[id].visibleAt == now + d
      ensures r == NotFound ==> live == old(live)
    {
      hide Arrived, AsItCame, Ordered, HoldsReady, Mirrors, Books, DeadLetters, PutIn;
      if id !in inFlight {
        return NotFound;
      }
      InFlightIsLive(inFlight, store, live, id);
      var m := inFlight[id].(visibleAt := Add64(now, d));
      LeaseExtended(ready, inFlight, store, live, ended, accounts, id, m);
      ArrivedBack(inFlight, store, live, ended, accounts, arrived, defaultMaxRetries, id, m);
      inFlight := inFlight[id := m];
      Put(m);
      live := live[id := m];
      r := Done;
    }

    /** checkInFlightAndDelayed: every lease that has run out is returned or ends in the dead-letter queue. */
    method ExpireLeases(now: Int64)
      requires Valid()
      modifies this
      ensures Valid() && accounts == old(accounts) && arrived == old(arrived) && closed == old(closed)
      ensures closed ==> live == old(live) && ended == old(ended)
      ensures !closed ==> forall id :: id in old(inFlight) ==>
                if old(inFlight)[id].visibleAt > now then id in inFlight && inFlight[id] == old(inFlight)[id]
                else id !in inFlight
      ensures !closed ==> LeasesExpired(old(live), live, now)
      ensures ended == old(ended).(dead := old(ended).dead + (old(live).Keys - live.Keys))
      ensures old(dlq) <= dlq && (enableDLQ && !closed ==> Lettered(old(live), live, dlq, name, now))
    {
      hide Engine.Valid, Checked, Lettered, Mirrors, LeasesExpired;
      NoneLettered(live, dlq, name, now);
      Mirrored();
      assert old(live).Keys - live.Keys == {};
      if closed {
        return;
      }
      var todo := inFlight.Keys;
      NoneExpired(inFlight, store, live, now);
      while todo != {}
        invariant Valid() && accounts == old(accounts) && arrived == old(arrived) && closed == old(closed)
                  && todo <= inFlight.Keys
        invariant PartlyExpired(old(live), live, now, todo)
        invariant ended == old(ended).(dead := old(ended).dead + (old(live).Keys - live.Keys))
        invariant old(dlq) <= dlq && (enableDLQ ==> Lettered(old(live), live, dlq, name, now))
        decreases todo
      {
        var id :| id in todo;
        ghost var before, dlq0 := live, dlq;
        ExpireLease(id, now);
        OneExpired(old(live), before, live, now, todo, id);
        if enableDLQ { MoreLettered(old(live), before, live, dlq0, dlq, name, now, id); }
        todo := todo - {id};
      }
      AllChecked(old(live), live, now);
      Mirrored();
      LeaseTimes(old(inFlight), old(store), old(live), inFlight, store, live, now);
    }

    lemma {:induction false} Mirrored()
      requires Valid()
      ensures Mirrors(inFlight, store, live)
    {
      hide Arrived, Ordered, HoldsReady, Mirrors, Books, DeadLetters;
    }

    method ExpireLease(id: Bytes, now: Int64)
      requires Valid() && id in inFlight
      modifies this`ready, this`inFlight, this`store, this`dlq, this`live, this`ended, this`letters, this`lost
      ensures Valid() && old(inFlight).Keys - {id} <= inFlight.Keys
      ensures id in old(live) && Checked(old(live), live, now, id) && live.Keys <= old(live).Keys
      ensures forall x :: x in old(live) && x != id ==> x in live && live[x] == old(live)[x]
      ensures ended == old(ended).(dead := old(ended).dead + (old(live).Keys - live.Keys))
      ensures old(dlq) <= dlq && (enableDLQ && !closed ==> Lettered(old(live), live, dlq, name, now))
    {
      hide Arrived, AsItCame, Ordered, HoldsReady, Mirrors, Books, DeadLetters;
      InFlightIsLive(inFlight, store, live, id);
      ghost var before := live;
      assert before.Keys - live.Keys == {};
      if inFlight[id].visibleAt <= now {
        if inFlight[id].retryCount >= inFlight[id].maxRetries {
          Bury(id, now);
          assert before.Keys - live.Keys == {id};
        } else {
          Requeue(id, now);
          assert before.Keys - live.Keys == {};
        }
      }
    }

    /** Every accepted message is in exactly one place, and has been handed out no more often than it may be. */
    lemma {:induction false} EveryMessageAccounted(id: Bytes)
      requires Valid() && id in accounts
      ensures One(id in live && live[id].state == Ready) + One(id in inFlight)
              + One(id in ended.acked) + One(id in ended.expired) + One(id in ended.dead) == 1
      ensures accounts[id].handed <= accounts[id].budget
      ensures id in store <==> (id in live && Storable(live[id]))
    {
      InFlightIsLive(inFlight, store, live, id);
    }

    method Close()
      requires Valid()
      modifies this`closed
      ensures closed && Valid()
    {
      hide Arrived, Ordered, HoldsReady, Mirrors, Books, DeadLetters;
      closed := true;
    }

    /** The dead-letter queue closes with the engine, but leases are still given up: what is rejected then is
        neither stored nor a dead letter. */
    method RejectedAfterClose(id: Bytes, now: Int64) returns (r: LeaseResult)
      requires Valid() && id in inFlight
      modifies this
      ensures Valid() && r == DeadLettered && dlq == old(dlq) && id !in live && id !in store && id in ended.dead
    {
      hide Arrived, AsItCame, Ordered, HoldsReady, Books, DeadLetters, Encode;
      Close();
      r := Nack(id, false, now);
    }
  }

  datatype DequeueResult = Handed(message: Message) | Nothing | QueueClosed

  predicate IsExpired(m: Message, now: Int64) {
    0 < m.expireAt <= now
  }

  function Leased(m: Message, lease: int, now: Int64): Message {
    m.(state := Invisible, retryCount := m.retryCount + 1, visibleAt := Add64(now, lease))
  }

  function Requeued(m: Message, now: Int64): Message {
    m.(state := Ready, visibleAt := now)
  }

  /** A message as the dead-letter queue accepts it. */
  function Buried(m: Message, name: Bytes, now: Int64): Message {
    m.(queue := name + [0x2E, 0x64, 0x6C, 0x71], state := Ready, dedupId := [], createdAt := now, visibleAt := now)
  }

  /** m is ready and due, and no ready message outranks it. */
  ghost predicate NextUp(live: Live, m: Message, now: Int64) {
    IsReady(live, m) && m.visibleAt <= now && !IsExpired(m, now) && Foremost(live, m)
  }

  ghost predicate Foremost(live: Live, m: Message) {
    IsReady(live, m) && forall x :: IsReady(live, x) ==> !Outranks(x, m)
  }

  /** Nothing is ready, or a foremost message is not due yet: it holds up all behind it. */
  ghost predicate HeadDelayed(live: Live, now: Int64) {
    (forall x :: !IsReady(live, x)) || exists m :: Foremost(live, m) && m.visibleAt > now && !IsExpired(m, now)
  }

  /** What became of a message when leases were checked. */
  ghost predicate Checked(live: Live, live': Live, now: Int64, id: Bytes)
    requires id in live
  {
    var m := live[id];
    if m.state == Invisible && m.visibleAt <= now then
      if m.retryCount >= m.maxRetries then id !in live' else id in live' && live'[id] == Requeued(m, now)
    else id in live' && live'[id] == m
  }

  ghost predicate LeasesExpired(live: Live, live': Live, now: Int64) {
    live'.Keys <= live.Keys && forall id :: id in live ==> Checked(live, live', now, id)
  }

  ghost predicate PartlyExpired(live: Live, live': Live, now: Int64, todo: set<Bytes>) {
    && live'.Keys <= live.Keys && (forall id :: id in live && id !in todo ==> Checked(live, live', now, id))
    && forall id :: id in todo ==> id in live && id in live' && live'[id] == live[id]
  }

  lemma {:induction false} NoneExpired(inFlight: Live, store: map<Bytes, Bytes>, live: Live, now: Int64)
    requires Mirrors(inFlight, store, live)
    ensures PartlyExpired(live, live, now, inFlight.Keys)
  {
  }

  lemma {:induction false} OneExpired(live: Live, live': Live, live'': Live, now: Int64, todo: set<Bytes>, id: Bytes)
    requires PartlyExpired(live, live', now, todo) && id in todo && id in live' && Checked(live', live'', now, id)
    requires live''.Keys <= live'.Keys && forall x :: x in live' && x != id ==> x in live'' && live''[x] == live'[x]
    ensures PartlyExpired(live, live'', now, todo - {id})
    ensures live.Keys - live''.Keys == (live.Keys - live'.Keys) + (live'.Keys - live''.Keys)
  {
    forall x | x in live && x !in todo - {id} ensures Checked(live, live'', now, x) {
      if x != id { assert Checked(live, live', now, x); }
    }
  }

  ghost function LetterIds(dlq: seq<Message>): multiset<Bytes> {
    if dlq == [] then multiset{} else LetterIds(dlq[..|dlq| - 1]) + multiset{dlq[|dlq| - 1].id}
  }

  /** The dead-letter queue holds one letter for every message handed to it, and of every dead one it was open to
      at least the last. */
  ghost predicate DeadLetters(dlq: seq<Message>, enabled: bool, dead: set<Bytes>, lost: set<Bytes>,
                              letters: multiset<Bytes>) {
    LetterIds(dlq) == letters && if enabled then forall id :: id in dead && id !in lost ==> id in letters else dlq == []
  }

  lemma {:induction false} FewerDead(dlq: seq<Message>, enabled: bool, ended: Ended, lost: set<Bytes>,
                                     letters: multiset<Bytes>, id: Bytes)
    requires DeadLetters(dlq, enabled, ended.dead, lost, letters)
    ensures DeadLetters(dlq, enabled, Reopened(ended, id).dead, lost, letters)
  {
  }

  /** A message as Enqueue leaves it. */
  function Filled(msg: Message, generated: Bytes, name: Bytes, defaultMaxRetries: int, now: Int64): Message {
    msg.(id := if msg.id == [] then generated else msg.id, queue := name, createdAt := now, state := Ready,
         maxRetries := if msg.maxRetries <= 0 then defaultMaxRetries else msg.maxRetries,
         visibleAt := if msg.visibleAt <= 0 then now else msg.visibleAt)
  }

  predicate Refused(dedup: map<Bytes, int>, id: Bytes, now: int) {
    id in dedup && dedup[id] > now
  }

  lemma {:induction false} FilledIs(msg: Message, generated: Bytes, name: Bytes, defaultMaxRetries: int, now: Int64)
    ensures var m := Filled(msg, generated, name, defaultMaxRetries, now);
            m.state == Ready && m.id == if msg.id == [] then generated else msg.id
  {
  }

  /** A newly accepted message is ready, stored and in the books. */
  lemma {:induction false} NewMessage(ready: seq<Message>, h: seq<Message>, inFlight: Live, store: map<Bytes, Bytes>,
                                      live: Live, ended: Ended,
                                      accounts: map<Bytes, Account>, m: Message)
    requires HoldsReady(ready, live) && Mirrors(inFlight, store, live) && Books(live, ended, accounts)
    requires m.state == Ready && m.id !in live && multiset(h) == multiset(ready) + multiset{m}
    ensures HoldsReady(h, live[m.id := m]) && Mirrors(inFlight, PutIn(store, m), live[m.id := m])
    ensures Books(live[m.id := m], Reopened(ended, m.id), accounts[m.id := Account(0, Budget(m))])
  {
    hide PutIn;
    PushHolds(ready, h, live, m);
    MirrorSet(inFlight, store, live, m);
    assert inFlight - {m.id} == inFlight;
    BooksAccept(live, ended, accounts, m);
  }

  // ---------- Steps of the engine ----------

  lemma {:induction false} TopNext(ready: seq<Message>, live: Live)
    requires Ordered(ready, HeapKey) && HoldsReady(ready, live) && ready != []
    ensures Foremost(live, ready[0])
  {
    TopBounds(ready, HeapKey);
    MemberHolds(ready, live, ready[0]);
    forall x | IsReady(live, x) ensures !Outranks(x, ready[0]) {
      MemberHolds(ready, live, x);
      HeapKeyOrder(x, ready[0]);
    }
  }

  lemma {:induction false} EmptyHeap(ready: seq<Message>, live: Live)
    requires HoldsReady(ready, live) && ready == []
    ensures forall x :: !IsReady(live, x)
  {
    forall x ensures !IsReady(live, x) {
      MemberHolds(ready, live, x);
    }
  }

  lemma {:induction false} InFlightIsLive(inFlight: Live, store: map<Bytes, Bytes>, live: Live, id: Bytes)
    requires Mirrors(inFlight, store, live)
    ensures id in inFlight <==> id in live && live[id].state == Invisible
    ensures id in live ==> live[id].id == id
    ensures id in inFlight ==> inFlight[id] == live[id]
  {
  }

  lemma {:induction false} TopDropped(ready: seq<Message>, h: seq<Message>, inFlight: Live, store: map<Bytes, Bytes>,
                                      live: Live, ended: Ended,
                                      accounts: map<Bytes, Account>, m: Message)
    requires HoldsReady(ready, live) && Mirrors(inFlight, store, live) && Books(live, ended, accounts)
    requires multiset(ready) == multiset(h) + multiset{m}
    ensures HoldsReady(h, live - {m.id}) && Mirrors(inFlight, store - {m.id}, live - {m.id})
    ensures Books(live - {m.id}, End(ended, m.id, TimedOut), accounts)
  {
    PopHolds(ready, h, live, m);
    MirrorRemove(inFlight, store, live, m.id);
    assert m.id !in inFlight by { InFlightIsLive(inFlight, store, live, m.id); }
    assert inFlight - {m.id} == inFlight;
    BooksEnd(live, ended, accounts, m.id, TimedOut);
  }

  lemma {:induction false} TopTaken(ready: seq<Message>, h: seq<Message>, inFlight: Live, store: map<Bytes, Bytes>,
                                    live: Live, ended: Ended,
                                    accounts: map<Bytes, Account>, m: Message, lease: int, now: Int64)
    requires HoldsReady(ready, live) && Mirrors(inFlight, store, live) && Books(live, ended, accounts)
    requires multiset(ready) == multiset(h) + multiset{m}
    ensures m.id in live && m.id in accounts
    ensures var m' := Leased(m, lease, now);
            && HoldsReady(h, live[m.id := m']) && Mirrors(inFlight[m.id := m'], PutIn(store, m'), live[m.id := m'])
            && Books(live[m.id := m'], ended, accounts[m.id := accounts[m.id].(handed := accounts[m.id].handed + 1)])
  {
    hide PutIn, Books, Mirrors;
    PopHolds(ready, h, live, m);
    var m' := Leased(m, lease, now);
    OthersHold(h, live - {m.id}, live[m.id := m']);
    SameRoom(m, m');
    MirrorSet(inFlight, store, live, m');
    BooksChange(live, ended, accounts, m', true);
  }

  /** A lease ends for good. */
  lemma {:induction false} LeaseEnds(ready: seq<Message>, inFlight: Live, store: map<Bytes, Bytes>, live: Live,
                                     ended: Ended,
                                     accounts: map<Bytes, Account>, id: Bytes, o: Outcome)
    requires HoldsReady(ready, live) && Mirrors(inFlight, store, live) && Books(live, ended, accounts) && id in inFlight
    ensures HoldsReady(ready, live - {id}) && Mirrors(inFlight - {id}, store - {id}, live - {id})
    ensures Books(live - {id}, End(ended, id, o), accounts) && id !in ended.dead && id in live && live[id].id == id
  {
    InFlightIsLive(inFlight, store, live, id);
    hide Mirrors, Books;
    OthersHold(ready, live, live - {id});
    MirrorRemove(inFlight, store, live, id);
    BooksEnd(live, ended, accounts, id, o);
  }

  lemma {:induction false} LeaseReturned(ready: seq<Message>, h: seq<Message>, inFlight: Live, store: map<Bytes, Bytes>,
                                         live: Live, ended: Ended,
                                         accounts: map<Bytes, Account>, id: Bytes, now: Int64)
    requires HoldsReady(ready, live) && Mirrors(inFlight, store, live) && Books(live, ended, accounts) && id in inFlight
    requires inFlight[id].retryCount < inFlight[id].maxRetries
    requires multiset(h) == multiset(ready) + multiset{Requeued(inFlight[id], now)}
    ensures id in live && inFlight[id] == live[id] && live[id].id == id
    ensures var m := Requeued(live[id], now);
            && HoldsReady(h, live[id := m]) && Mirrors(inFlight - {id}, PutIn(store, m), live[id := m])
                && Books(live[id := m], ended, accounts)
  {
    InFlightIsLive(inFlight, store, live, id);
    hide Mirrors, Books, PutIn;
    var m := Requeued(live[id], now);
    PushHolds(ready, h, live, m);
    SameRoom(live[id], m);
    MirrorSet(inFlight, store, live, m);
    BooksChange(live, ended, accounts, m, false);
  }

  lemma {:induction false} LeaseExtended(ready: seq<Message>, inFlight: Live, store: map<Bytes, Bytes>, live: Live,
                                         ended: Ended,
                                         accounts: map<Bytes, Account>, id: Bytes, m: Message)
    requires HoldsReady(ready, live) && Mirrors(inFlight, store, live) && Books(live, ended, accounts) && id in inFlight
    requires m == inFlight[id].(visibleAt := m.visibleAt)
    ensures m.id == id && HoldsReady(ready, live[id := m]) && Mirrors(inFlight[id := m], PutIn(store, m), live[id := m])
            && Books(live[id := m], ended, accounts)
  {
    InFlightIsLive(inFlight, store, live, id);
    hide Mirrors, Books, PutIn;
    OthersHold(ready, live, live[id := m]);
    SameRoom(live[id], m);
    MirrorSet(inFlight, store, live, m);
    BooksChange(live, ended, accounts, m, false);
  }

  lemma {:induction false} OneMoreDead(dlq: seq<Message>, enabled: bool, ended: Ended, lost: set<Bytes>,
                                       letters: multiset<Bytes>, m: Message, name: Bytes, now: Int64)
    requires DeadLetters(dlq, enabled, ended.dead, lost, letters)
    ensures var dead := End(ended, m.id, Died).dead;
            && (enabled ==> DeadLetters(dlq + [Buried(m, name, now)], enabled, dead, lost, letters + multiset{m.id}))
            && (!enabled ==> DeadLetters(dlq, enabled, dead, lost, letters))
            && DeadLetters(dlq, enabled, dead, lost + {m.id}, letters)
  {
    var l := Buried(m, name, now);
    assert (dlq + [l])[..|dlq|] == dlq;
  }

  /** Why an id in use must not be accepted again: two heap entries would share a slot.  Some set of messages is
      what heap and leases stand for if and only if the id was not live. */
  lemma {:induction false} AcceptableIff(ready: seq<Message>, h: seq<Message>, inFlight: Live, live: Live, m: Message)
    requires HoldsReady(ready, live) && HoldsInFlight(inFlight, live) && LiveOk(live)
    requires m.state == Ready && multiset(h) == multiset(ready) + multiset{m}
    ensures (exists live' :: HoldsReady(h, live') && HoldsInFlight(inFlight, live')) <==> m.id !in live
  {
    if m.id !in live {
      PushHolds(ready, h, live, m);
      assert HoldsInFlight(inFlight, live[m.id := m]);
    } else {
      var x := live[m.id];
      assert x.state == Ready ==> multiset(ready)[x] == 1 && multiset(h)[x] == if x == m then 2 else 1;
      forall live' | HoldsReady(h, live') ensures !HoldsInFlight(inFlight, live') {
        assert multiset(h)[m] >= 1;
      }
    }
  }

  function One(b: bool): int {
    if b then 1 else 0
  }

  // ---------- Order of delivery ----------

  /** A message that may be handed out and a head that holds the queue up exclude each other. */
  lemma {:induction false} DueOrDelayed(live: Live, m: Message, now: Int64)
    requires NextUp(live, m, now)
    ensures !HeadDelayed(live, now)
  {
    forall x | Foremost(live, x) ensures x.visibleAt <= now {
      assert !Outranks(x, m) && !Outranks(m, x);
    }
  }

  /** A delayed message of higher priority keeps a due one waiting. */
  lemma {:induction false} DelayedHeadBlocks(live: Live, head: Message, due: Message, now: Int64)
    requires IsReady(live, head) && IsReady(live, due) && head.priority > due.priority
             && due.visibleAt <= now < head.visibleAt
    requires head.expireAt == 0 && forall x :: IsReady(live, x) ==> x == head || x == due
    ensures HeadDelayed(live, now)
  {
    assert Foremost(live, head);
  }

  // ---------- Restart ----------

  /** A stored message as it comes back: a lease does not survive. */
  function Restored(m: Message, now: Int64): Message {
    if m.state == Invisible then Requeued(m, now) else m
  }

  /** A ready message comes back as it was; a leased one is ready at once, with its retries as they were. */
  lemma {:induction false} RestoredIs(m: Message, now: Int64)
    requires m.state == Ready || m.state == Invisible
    ensures var r := Restored(m, now);
            && r == m.(state := Ready, visibleAt := r.visibleAt)
            && r.visibleAt == if m.state == Ready then m.visibleAt else now
  {
  }

  ghost function RestoredFrom(live: Live, ids: set<Bytes>, now: Int64): Live {
    map id | id in ids && id in live :: Restored(live[id], now)
  }

  lemma {:induction false} NothingRestored(live: Live, now: Int64)
    ensures Ordered<Message>([], HeapKey) && HoldsReady([], RestoredFrom(live, {}, now))
  {
  }

  lemma {:induction false} OneRestored(ready: seq<Message>, h: seq<Message>, live: Live, done: set<Bytes>, id: Bytes,
                                       now: Int64)
    requires LiveOk(live) && id in live && id !in done && HoldsReady(ready, RestoredFrom(live, done, now))
    requires multiset(h) == multiset(ready) + multiset{Restored(live[id], now)}
    ensures HoldsReady(h, RestoredFrom(live, done + {id}, now))
  {
    hide HoldsReady;
    var m := Restored(live[id], now);
    assert RestoredFrom(live, done + {id}, now) == RestoredFrom(live, done, now)[id := m];
    PushHolds(ready, h, RestoredFrom(live, done, now), m);
  }
}
