/** Outstanding copies of a write to the slaves: who still has to acknowledge, when the client may be
    answered, and how many are outstanding per bucket. */
module ReplicaAcks {

  const MAX_DUP_COUNT := 2
  const TAIR_MAX_BUCKET_NUMBER := 1024
  const TAIR_MAX_DUP_MAP_SIZE := 102400
  const MAX_BUCKET_FREE_COUNT := 300

  datatype Code = Success | Busy | IdMixed | Complete | Reack | AckWait | Delay | AckTimeout | Nothing

  datatype Wait = Wait(bucket: nat, slots: seq<int>)

  datatype State = State(wait: map<nat, Wait>, count: seq<int>)

  /** What happens under the write lock. */
  datatype Event =
    | Add(id: nat, bucket: nat, slaves: seq<int>)
    | Ack(bucket: nat, server: int, id: nat)
    | Clear(id: nat)

  function Slot(slaves: seq<int>, i: nat): int {
    if i < |slaves| then slaves[i] else 0
  }

  /** Two places; a missing slave is a zero and slaves beyond the second are not kept. */
  function Slots(slaves: seq<int>): seq<int> {
    [Slot(slaves, 0), Slot(slaves, 1)]
  }

  function Zeroed(slots: seq<int>, server: int): seq<int> {
    seq(|slots|, i requires 0 <= i < |slots| => if slots[i] == server then 0 else slots[i])
  }

  predicate AllZero(slots: seq<int>) {
    forall i :: 0 <= i < |slots| ==> slots[i] == 0
  }

  /** A bucket's count with the clamp at zero. */
  function Bump(count: seq<int>, b: nat, n: int): seq<int>
    requires b < |count|
  {
    count[b := if count[b] + n < 0 then 0 else count[b] + n]
  }

  predicate BucketKnown(e: Event) {
    e.Clear? || e.bucket < TAIR_MAX_BUCKET_NUMBER
  }

  predicate Sane(s: State) {
    && |s.count| == TAIR_MAX_BUCKET_NUMBER
    && forall id :: id in s.wait ==> s.wait[id].bucket < TAIR_MAX_BUCKET_NUMBER
  }

  /** The acknowledgement is the last one its packet was waiting for. */
  predicate Completes(s: State, e: Event) {
    e.Ack? && e.id in s.wait && e.server in s.wait[e.id].slots && AllZero(Zeroed(s.wait[e.id].slots, e.server))
  }

  function Step(s: State, e: Event): State
    requires Sane(s) && BucketKnown(e)
  {
    match e
    case Add(id, b, slaves) =>
      if id in s.wait then s else State(s.wait[id := Wait(b, Slots(slaves))], Bump(s.count, b, 1))
    case Ack(b, server, id) =>
      if Completes(s, e) then State(s.wait - {id}, Bump(s.count, b, -1))
      else if id in s.wait then State(s.wait[id := s.wait[id].(slots := Zeroed(s.wait[id].slots, server))], s.count)
      else s
    case Clear(id) =>
      if id in s.wait then State(s.wait - {id}, Bump(s.count, s.wait[id].bucket, -1)) else s
  }

  // ----- counts -----

  ghost function Outstanding(wait: map<nat, Wait>, b: nat): set<nat> {
    set id | id in wait && wait[id].bucket == b
  }

  /** Every bucket's count is the number of its outstanding packets. */
  ghost predicate Counted(s: State) {
    Sane(s) && forall b :: 0 <= b < TAIR_MAX_BUCKET_NUMBER ==> s.count[b] == |Outstanding(s.wait, b)|
  }

  /** A completing acknowledgement names the bucket its packet was recorded under. */
  predicate Echoes(s: State, e: Event) {
    Completes(s, e) ==> e.bucket == s.wait[e.id].bucket
  }

  lemma OutstandingAdd(wait: map<nat, Wait>, id: nat, w: Wait, b: nat)
    requires id !in wait
    ensures |Outstanding(wait[id := w], b)| == |Outstanding(wait, b)| + if w.bucket == b then 1 else 0
  {
    var s, t := Outstanding(wait, b), Outstanding(wait[id := w], b);
    assert t == if w.bucket == b then s + {id} else s;
  }

  lemma OutstandingDrop(wait: map<nat, Wait>, id: nat, b: nat)
    requires id in wait
    ensures |Outstanding(wait, b)| == |Outstanding(wait - {id}, b)| + if wait[id].bucket == b then 1 else 0
  {
    var s, t := Outstanding(wait, b), Outstanding(wait - {id}, b);
    assert s == if wait[id].bucket == b then t + {id} else t;
  }

  lemma OutstandingSame(wait: map<nat, Wait>, id: nat, slots: seq<int>, b: nat)
    requires id in wait
    ensures Outstanding(wait[id := wait[id].(slots := slots)], b) == Outstanding(wait, b)
  {
  }

  /** Removing a packet and lowering the count of `b`. */
  lemma DropCounts(s: State, id: nat, b: nat)
    requires Counted(s) && id in s.wait && b < TAIR_MAX_BUCKET_NUMBER
    ensures Counted(State(s.wait - {id}, Bump(s.count, b, -1))) <==> b == s.wait[id].bucket
    ensures b == s.wait[id].bucket ==> s.count[b] > 0
  {
    var own := s.wait[id].bucket;
    var next := State(s.wait - {id}, Bump(s.count, b, -1));
    OutstandingDrop(s.wait, id, own);
    forall c | 0 <= c < TAIR_MAX_BUCKET_NUMBER
      ensures next.count[c] == |Outstanding(next.wait, c)|
              <==> (b == own || (c != own && (c != b || s.count[b] == 0)))
    {
      OutstandingDrop(s.wait, id, c);
    }
    if b != own {
      assert next.count[own] != |Outstanding(next.wait, own)|;
    }
  }

  /** Exactly the acknowledgements that echo the bucket keep the counts right. */
  lemma CountsKept(s: State, e: Event)
    requires Counted(s) && BucketKnown(e)
    ensures Counted(Step(s, e)) <==> Echoes(s, e)
  {
    var next := Step(s, e);
    if e.Add? && e.id !in s.wait {
      forall b | 0 <= b < TAIR_MAX_BUCKET_NUMBER ensures next.count[b] == |Outstanding(next.wait, b)| {
        OutstandingAdd(s.wait, e.id, Wait(e.bucket, Slots(e.slaves)), b);
      }
    } else if Completes(s, e) {
      DropCounts(s, e.id, e.bucket);
    } else if e.Clear? && e.id in s.wait {
      DropCounts(s, e.id, s.wait[e.id].bucket);
    } else if e.Ack? && e.id in s.wait {
      forall b | 0 <= b < TAIR_MAX_BUCKET_NUMBER ensures next.count[b] == |Outstanding(next.wait, b)| {
        OutstandingSame(s.wait, e.id, Zeroed(s.wait[e.id].slots, e.server), b);
      }
    }
  }

  /** An acknowledgement that completes its packet but names another bucket leaves both counts wrong. */
  lemma WrongBucketSpoils()
    ensures var s := Step(Empty(), Add(1, 0, [7]));
            && Counted(s) && Completes(s, Ack(5, 7, 1))
            && !Counted(Step(s, Ack(5, 7, 1))) && Step(s, Ack(5, 7, 1)).count[0] == 1
            && Step(s, Ack(5, 7, 1)).wait == map[]
  {
    var s, e := Step(Empty(), Add(1, 0, [7])), Ack(5, 7, 1);
    EmptyIsCounted();
    CountsKept(Empty(), Add(1, 0, [7]));
    assert s.wait[1].slots == [7, 0] && s.wait[1].slots[0] == 7;
    assert Zeroed([7, 0], 7) == [0, 0];
    CountsKept(s, e);
    assert s.wait - {1} == map[];
  }

  lemma EmptyIsCounted()
    ensures Counted(Empty())
  {
  }

  // ----- waiting for a bucket -----

  /** A bucket counts as free, and the wait for its copies ends, below the limit. */
  predicate Free(s: State, b: nat)
    requires b < |s.count|
  {
    s.count[b] < MAX_BUCKET_FREE_COUNT
  }

  /** The wait ends with as many copies outstanding as the limit lets through; with none exactly when the
      count is zero. */
  lemma FreeMeans(s: State, b: nat)
    requires Counted(s) && b < TAIR_MAX_BUCKET_NUMBER
    ensures Free(s, b) <==> |Outstanding(s.wait, b)| < MAX_BUCKET_FREE_COUNT
    ensures Outstanding(s.wait, b) == {} <==> s.count[b] == 0
  {
    if |Outstanding(s.wait, b)| == 0 {
      assert Outstanding(s.wait, b) == {};
    }
  }

  /** One packet is outstanding, and its bucket is free. */
  lemma FreeIsNotDone()
    ensures var s := Step(Empty(), Add(1, 0, [7]));
            RunOk(Empty(), [Add(1, 0, [7])]) && Counted(s) && Free(s, 0) && Outstanding(s.wait, 0) == {1}
  {
    EmptyIsCounted();
    CountsKept(Empty(), Add(1, 0, [7]));
    var s := Step(Empty(), Add(1, 0, [7]));
    assert Outstanding(s.wait, 0) == {1};
    assert [Add(1, 0, [7])][1..] == [];
  }

  // ----- who acknowledged what -----

  /** What an observer of packet `id` notes down: its slaves and who acknowledged since it was last
      added, and how often it was added, handed over for the reply and given up. */
  datatype History = History(slaves: seq<int>, acks: set<int>, added: nat, handed: nat, cleared: nat)

  function Note(s: State, e: Event, id: nat, h: History): History {
    if e.id != id then h
    else
      match e
      case Add(_, _, slaves) => if id in s.wait then h else h.(slaves := slaves, acks := {}, added := h.added + 1)
      case Ack(_, server, _) =>
        h.(acks := h.acks + {server}, handed := if Completes(s, e) then h.handed + 1 else h.handed)
      case Clear(_) => if id in s.wait then h.(cleared := h.cleared + 1) else h
  }

  /** Each slot still names its slave until that slave has acknowledged. */
  ghost predicate SlotsTell(slots: seq<int>, slaves: seq<int>, acks: set<int>) {
    && |slots| == MAX_DUP_COUNT
    && forall i :: 0 <= i < MAX_DUP_COUNT ==>
         slots[i] == if Slot(slaves, i) in acks then 0 else Slot(slaves, i)
  }

  /** Each addition is still waiting, or was handed over or given up, once. */
  ghost predicate Recorded(s: State, id: nat, h: History) {
    && h.added == h.handed + h.cleared + (if id in s.wait then 1 else 0)
    && (id in s.wait ==> SlotsTell(s.wait[id].slots, h.slaves, h.acks))
  }

  lemma ZeroedTells(slots: seq<int>, slaves: seq<int>, acks: set<int>, server: int)
    requires SlotsTell(slots, slaves, acks)
    ensures SlotsTell(Zeroed(slots, server), slaves, acks + {server})
  {
  }

  lemma StepRecords(s: State, e: Event, id: nat, h: History)
    requires Sane(s) && BucketKnown(e) && Recorded(s, id, h)
    ensures Sane(Step(s, e)) && Recorded(Step(s, e), id, Note(s, e, id, h))
  {
    if e.Ack? && e.id == id && id in s.wait {
      ZeroedTells(s.wait[id].slots, h.slaves, h.acks, e.server);
    }
  }

  /** A packet is handed over exactly when the last of the slaves kept for it acknowledges; with at
      most two slaves, these are all. */
  lemma HandedAfterAcks(s: State, e: Event, h: History)
    requires Recorded(s, e.id, h) && e.Ack? && e.id in s.wait && e.server in s.wait[e.id].slots && e.server != 0
    ensures Completes(s, e) <==>
              forall i :: 0 <= i < MAX_DUP_COUNT ==>
                Slot(h.slaves, i) == 0 || Slot(h.slaves, i) in h.acks + {e.server}
    ensures |h.slaves| <= MAX_DUP_COUNT ==>
              (Completes(s, e) <==>
               forall i :: 0 <= i < |h.slaves| ==> h.slaves[i] == 0 || h.slaves[i] in h.acks + {e.server})
  {
    ZeroedTells(s.wait[e.id].slots, h.slaves, h.acks, e.server);
    assert forall i :: 0 <= i < |h.slaves| ==> Slot(h.slaves, i) == h.slaves[i];
  }

  predicate RunOk(s: State, es: seq<Event>)
    decreases |es|
  {
    Sane(s) && (es == [] || (BucketKnown(es[0]) && Echoes(s, es[0]) && RunOk(Step(s, es[0]), es[1..])))
  }

  function Run(s: State, es: seq<Event>): State
    requires RunOk(s, es)
    decreases |es|
  {
    if es == [] then s else Run(Step(s, es[0]), es[1..])
  }

  ghost function Notes(s: State, es: seq<Event>, id: nat, h: History): History
    requires RunOk(s, es)
    decreases |es|
  {
    if es == [] then h else Notes(Step(s, es[0]), es[1..], id, Note(s, es[0], id, h))
  }

  function Empty(): State {
    State(map[], seq(TAIR_MAX_BUCKET_NUMBER, i => 0))
  }

  const NOTHING := History([], {}, 0, 0, 0)

  lemma {:induction false} RunKeeps(s: State, es: seq<Event>, id: nat, h: History)
    requires RunOk(s, es) && Counted(s) && Recorded(s, id, h)
    ensures Counted(Run(s, es)) && Recorded(Run(s, es), id, Notes(s, es, id, h))
    decreases |es|
  {
    if es != [] {
      CountsKept(s, es[0]);
      StepRecords(s, es[0], id, h);
      RunKeeps(Step(s, es[0]), es[1..], id, Note(s, es[0], id, h));
    }
  }

  /** From an empty table, over every run: the counts are the outstanding packets, and each addition
      of an id is waiting, answered once, or given up once. */
  lemma RunIsExact(es: seq<Event>, id: nat)
    requires RunOk(Empty(), es)
    ensures Counted(Run(Empty(), es)) && Recorded(Run(Empty(), es), id, Notes(Empty(), es, id, NOTHING))
    ensures Notes(Empty(), es, id, NOTHING).handed <= Notes(Empty(), es, id, NOTHING).added
  {
    RunKeeps(Empty(), es, id, NOTHING);
  }

  /** Lowering a count never meets the clamp. */
  lemma ClampNeverFires(s: State, e: Event)
    requires Counted(s) && BucketKnown(e) && Echoes(s, e)
    ensures Completes(s, e) ==> s.count[e.bucket] > 0
    ensures e.Clear? && e.id in s.wait ==> s.count[s.wait[e.id].bucket] > 0
  {
    if Completes(s, e) {
      DropCounts(s, e.id, e.bucket);
    } else if e.Clear? && e.id in s.wait {
      DropCounts(s, e.id, s.wait[e.id].bucket);
    }
  }

  /** The client is answered only after all slaves if and only if there are at most two of them:
      with a third one, the first two acknowledgements suffice. */
  lemma ThirdSlaveIsNotAwaited(id: nat, b: nat, slaves: seq<int>)
    requires b < TAIR_MAX_BUCKET_NUMBER && |slaves| >= 3
    requires forall i, j :: 0 <= i < j < |slaves| ==> slaves[i] != slaves[j]
    requires forall i :: 0 <= i < |slaves| ==> slaves[i] != 0
    ensures var s1 := Step(Empty(), Add(id, b, slaves));
            var s2 := Step(s1, Ack(b, slaves[0], id));
            Completes(s2, Ack(b, slaves[1], id)) && slaves[2] !in [slaves[0], slaves[1]]
  {
    var s1 := Step(Empty(), Add(id, b, slaves));
    var s2 := Step(s1, Ack(b, slaves[0], id));
    assert s1.wait[id].slots == [slaves[0], slaves[1]];
    assert Zeroed(s1.wait[id].slots, slaves[0])[1] == slaves[1];
    assert s2.wait[id].slots == [0, slaves[1]];
    assert Zeroed(s2.wait[id].slots, slaves[1]) == [0, 0];
    assert s2.wait[id].slots[1] == slaves[1];
  }

  // ----- the wait manager -----

  /** One packet waiting for its slaves. */
  class WaitNode {
    const bucket: nat
    const slots: array<int>

    constructor (bucket: nat, slaves: seq<int>)
      ensures this.bucket == bucket && fresh(slots) && slots[..] == Slots(slaves)
    {
      this.bucket := bucket;
      var a := new int[MAX_DUP_COUNT];
      var i := 0;
      while i < |slaves| && i < MAX_DUP_COUNT
        invariant 0 <= i <= MAX_DUP_COUNT && i <= |slaves|
        invariant forall j :: 0 <= j < i ==> a[j] == slaves[j]
      {
        a[i] := slaves[i];
        i := i + 1;
      }
      while i < MAX_DUP_COUNT
        invariant i <= MAX_DUP_COUNT && (i < |slaves| ==> i == MAX_DUP_COUNT)
        invariant forall j :: 0 <= j < i ==> a[j] == Slot(slaves, j)
      {
        a[i] := 0;
        i := i + 1;
      }
      slots := a;
    }

    /** An acknowledgement zeroes its server's slots; the packet is complete when none is left. */
    method DoResponse(server: int) returns (code: Code)
      requires slots.Length == MAX_DUP_COUNT
      modifies slots
      ensures slots[..] == Zeroed(old(slots[..]), server)
      ensures code == if server !in old(slots[..]) then Reack else if AllZero(slots[..]) then Complete else AckWait
    {
      var found, acked := false, 0;
      for i := 0 to MAX_DUP_COUNT
        invariant forall j :: 0 <= j < i ==> slots[j] == if old(slots[j]) == server then 0 else old(slots[j])
        invariant forall j :: i <= j < MAX_DUP_COUNT ==> slots[j] == old(slots[j])
        invariant found <==> server in old(slots[..i])
        invariant 0 <= acked <= i && (acked == i <==> forall j :: 0 <= j < i ==> slots[j] == 0)
      {
        if slots[i] == server {
          slots[i] := 0;
          found := true;
        }
        if slots[i] == 0 {
          acked := acked + 1;
        }
      }
      assert old(slots[..MAX_DUP_COUNT]) == old(slots[..]);
      code := if !found then Reack else if acked == MAX_DUP_COUNT then Complete else AckWait;
    }
  }

  class WaitManager {
    var waitMap: map<nat, WaitNode>
    const bucketCount: array<int>
    /** The table as a value. */
    ghost var state: State

    ghost predicate Valid()
      reads this, bucketCount, set id | id in waitMap :: waitMap[id].slots
    {
      && bucketCount.Length == TAIR_MAX_BUCKET_NUMBER && state.count == bucketCount[..]
      && Sane(state) && state.wait.Keys == waitMap.Keys
      && (forall id :: id in waitMap ==> Shown(waitMap[id], state.wait[id]))
      && forall i, j :: i in waitMap && j in waitMap && i != j ==> waitMap[i].slots != waitMap[j].slots
    }

    /** The objects the manager may change. */
    ghost function Repr(): set<object>
      reads this
    {
      {this, bucketCount} + set id | id in waitMap :: waitMap[id].slots
    }

    ghost predicate Shown(node: WaitNode, w: Wait)
      reads node.slots
    {
      node.slots.Length == MAX_DUP_COUNT && node.slots != bucketCount && w == Wait(node.bucket, node.slots[..])
    }

    constructor ()
      ensures Valid() && state == Empty() && fresh(Repr())
    {
      waitMap, state := map[], Empty();
      bucketCount := new int[TAIR_MAX_BUCKET_NUMBER](i => 0);
    }

    method ChangeBucketCount(b: nat, n: int)
      requires bucketCount.Length == TAIR_MAX_BUCKET_NUMBER && b < TAIR_MAX_BUCKET_NUMBER
      modifies bucketCount
      ensures bucketCount[..] == Bump(old(bucketCount[..]), b, n)
    {
      bucketCount[b] := bucketCount[b] + n;
      if bucketCount[b] < 0 {
        bucketCount[b] := 0;
      }
    }

    /** Whether the wait for a bucket's copies may end. */
    method IsBucketFree(b: nat) returns (free: bool)
      requires Valid() && b < TAIR_MAX_BUCKET_NUMBER
      ensures free <==> Free(state, b)
      ensures Counted(state) ==> (free <==> |Outstanding(state.wait, b)| < MAX_BUCKET_FREE_COUNT)
    {
      if Counted(state) {
        FreeMeans(state, b);
      }
      free := bucketCount[b] < MAX_BUCKET_FREE_COUNT;
    }

    method AddWaitNode(id: nat, b: nat, slaves: seq<int>) returns (code: Code)
      requires Valid() && b < TAIR_MAX_BUCKET_NUMBER
      modifies this, bucketCount
      ensures fresh(Repr() - old(Repr()))
      ensures Valid() && state == if code == Success then Step(old(state), Add(id, b, slaves)) else old(state)
      ensures code == if |old(waitMap)| > TAIR_MAX_DUP_MAP_SIZE then Busy
                      else if id in old(waitMap) then IdMixed else Success
    {
      if |waitMap| > TAIR_MAX_DUP_MAP_SIZE {
        return Busy;
      }
      if id in waitMap {
        return IdMixed;
      }
      ChangeBucketCount(b, 1);
      var node := new WaitNode(b, slaves);
      waitMap := waitMap[id := node];
      state := Step(state, Add(id, b, slaves));
      code := Success;
    }

    /** An acknowledgement; the node comes back only when its packet is complete. */
    method DoResponse(b: nat, server: int, id: nat) returns (code: Code, node: WaitNode?)
      requires Valid() && b < TAIR_MAX_BUCKET_NUMBER
      modifies Repr()
      ensures Valid() && state == Step(old(state), Ack(b, server, id)) && Repr() <= old(Repr())
      ensures code == Complete <==> Completes(old(state), Ack(b, server, id))
      ensures if code == Complete then id in old(waitMap) && node == old(waitMap)[id] else node == null
      ensures code == Delay <==> id !in old(waitMap)
    {
      if id !in waitMap {
        return Delay, null;
      }
      code := waitMap[id].DoResponse(server);
      state := Step(state, Ack(b, server, id));
      if code == Complete {
        ChangeBucketCount(b, -1);
        node := waitMap[id];
        waitMap := waitMap - {id};
      } else {
        node := null;
      }
    }

    method ClearWaitNode(id: nat)
      requires Valid()
      modifies this, bucketCount
      ensures Valid() && state == Step(old(state), Clear(id)) && Repr() <= old(Repr())
    {
      if id in waitMap {
        ChangeBucketCount(waitMap[id].bucket, -1);
        state := Step(state, Clear(id));
        waitMap := waitMap - {id};
      }
    }

    /** The packet's time is up: nothing if it was answered meanwhile. */
    method DoTimeout(id: nat) returns (code: Code)
      requires Valid()
      modifies this, bucketCount
      ensures Valid() && state == Step(old(state), Clear(id)) && Repr() <= old(Repr())
      ensures code == if id in old(waitMap) then AckTimeout else Nothing
    {
      if id !in waitMap {
        return Nothing;
      }
      ClearWaitNode(id);
      code := AckTimeout;
    }
  }
}
