/** The spill queue: a ring of nodes in memory, the disk queue for what does not fit, and the merge of
    the two by node id. */
module SpillQueues {
  import opened Options
  import opened SpillBytes
  import opened DiskQueues

  datatype Node = Node(id: int, body: Bytes)

  /** An index into a ring of `size` places, for `i` less than twice its size. */
  function Wrap(i: nat, size: nat): nat {
    if i < size then i else i - size
  }

  lemma ModWraps(i: nat, size: nat)
    requires i < size
    ensures (i + 1) % size == Wrap(i + 1, size)
  {
    if i + 1 < size {
      Small(i + 1, size);
    }
  }

  lemma Small(i: nat, size: nat)
    requires i < size
    ensures i % size == i
  {
  }

  /** How far place `j` is behind the head. */
  function Behind(head: nat, j: nat, size: nat): int {
    if head <= j then j - head else j + size - head
  }

  /** What the place `d` behind the head holds. */
  function Cell(items: seq<Node>, d: int): Option<Node> {
    if 0 <= d < |items| then Some(items[d]) else None
  }

  class MemQueue {
    const slots: array<Option<Node>>
    const maxSize: nat
    var headIndex: nat
    var tailIndex: nat
    ghost var items: seq<Node>

    ghost predicate Valid()
      reads this, slots
    {
      && maxSize > 0 && slots.Length == maxSize + 1 && headIndex < maxSize
      && |items| < maxSize && tailIndex == Wrap(headIndex + |items|, maxSize)
      && forall j :: 0 <= j < maxSize ==> slots[j] == Cell(items, Behind(headIndex, j, maxSize))
    }

    constructor (size: nat)
      ensures Valid() && items == [] && fresh(slots) && maxSize == if size == 0 then 4 * 1024 else size
    {
      var max := if size == 0 then 4 * 1024 else size;
      maxSize := max;
      slots := new Option<Node>[max + 1](_ => None);
      headIndex, tailIndex, items := 0, 0, [];
    }

    method IsEmpty() returns (empty: bool)
      requires Valid()
      ensures empty <==> items == []
    {
      empty := tailIndex == headIndex;
    }

    /** One place always stays free. */
    method IsFull() returns (full: bool)
      requires Valid()
      ensures full <==> |items| == maxSize - 1
    {
      ModWraps(tailIndex, maxSize);
      full := (tailIndex + 1) % maxSize == headIndex;
    }

    /** Stores the node in the place at the tail. Asked for the last free place, it takes that too, and the
        ring then looks empty. */
    method Push(node: Node) returns (ok: bool)
      requires Valid()
      modifies this, slots
      ensures ok && items == old(items) + [node]
      ensures |old(items)| < maxSize - 1 ==> Valid()
      ensures |old(items)| == maxSize - 1 ==> headIndex == tailIndex
    {
      ModWraps(tailIndex, maxSize);
      ok := false;
      if slots[tailIndex] == None {
        slots[tailIndex] := Some(node);
        tailIndex := (tailIndex + 1) % maxSize;
        ok := true;
        items := items + [node];
      }
    }

    method Pop() returns (ok: bool, node: Option<Node>)
      requires Valid()
      modifies this, slots
      ensures Valid() && (ok <==> old(items) != [])
      ensures if ok then node == Some(old(items)[0]) && items == old(items)[1..] else node == None && items == []
    {
      ModWraps(headIndex, maxSize);
      node := slots[headIndex];
      ok := node != None;
      if ok {
        slots[headIndex] := None;
        headIndex := (headIndex + 1) % maxSize;
        items := items[1..];
      }
    }
  }

  // ----- merging -----

  /** The ids of `q` run from `first` on without gaps. */
  predicate Numbered(q: seq<Node>, first: int) {
    forall i :: 0 <= i < |q| ==> q[i].id == first + i
  }

  /** `q` is `a` and `b` shuffled together. */
  predicate Shuffles(q: seq<Node>, a: seq<Node>, b: seq<Node>)
    decreases |q|
  {
    if q == [] then a == [] && b == []
    else
      || (a != [] && a[0] == q[0] && Shuffles(q[1..], a[1..], b))
      || (b != [] && b[0] == q[0] && Shuffles(q[1..], a, b[1..]))
  }

  lemma {:induction false} ShuffleSwaps(q: seq<Node>, a: seq<Node>, b: seq<Node>)
    requires Shuffles(q, a, b)
    ensures Shuffles(q, b, a)
    decreases |q|
  {
    if q != [] {
      if a != [] && a[0] == q[0] && Shuffles(q[1..], a[1..], b) {
        ShuffleSwaps(q[1..], a[1..], b);
      } else {
        ShuffleSwaps(q[1..], a, b[1..]);
      }
    }
  }

  lemma {:induction false} ShufflePush(q: seq<Node>, a: seq<Node>, b: seq<Node>, n: Node)
    requires Shuffles(q, a, b)
    ensures Shuffles(q + [n], a + [n], b)
    decreases |q|
  {
    var more := q + [n];
    if q == [] {
      assert more[1..] == [] && (a + [n])[1..] == [];
    } else {
      assert more[1..] == q[1..] + [n];
      if a != [] && a[0] == q[0] && Shuffles(q[1..], a[1..], b) {
        ShufflePush(q[1..], a[1..], b, n);
        assert (a + [n])[1..] == a[1..] + [n];
      } else {
        ShufflePush(q[1..], a, b[1..], n);
      }
    }
  }

  lemma {:induction false} ShuffleBound(q: seq<Node>, a: seq<Node>, b: seq<Node>, first: int)
    requires Shuffles(q, a, b) && Numbered(q, first)
    ensures a != [] ==> q != [] && a[0].id >= first
    ensures b != [] ==> q != [] && b[0].id >= first
    decreases |q|
  {
    if q != [] {
      if a != [] && a[0] == q[0] && Shuffles(q[1..], a[1..], b) {
        ShuffleBound(q[1..], a[1..], b, first + 1);
      } else {
        ShuffleBound(q[1..], a, b[1..], first + 1);
      }
    }
  }

  /** The nodes numbered from `first` up to `next`, in order, are those of the two parts. */
  ghost predicate Merged(q: seq<Node>, a: seq<Node>, b: seq<Node>, first: int, next: int) {
    |q| == next - first && Numbered(q, first) && Shuffles(q, a, b)
  }

  lemma MergedPush(q: seq<Node>, a: seq<Node>, b: seq<Node>, first: int, next: int, n: Node)
    requires Merged(q, a, b, first, next) && n.id == next
    ensures Merged(q + [n], a + [n], b, first, next + 1)
    ensures Merged(q + [n], a, b + [n], first, next + 1)
  {
    ShufflePush(q, a, b, n);
    ShuffleSwaps(q, a, b);
    ShufflePush(q, b, a, n);
    ShuffleSwaps(q + [n], b + [n], a);
  }

  /** A node with the id that is due, at the front of either part, is the oldest of the whole. */
  lemma MergedPop(q: seq<Node>, a: seq<Node>, b: seq<Node>, first: int, next: int, n: Node, rest: seq<Node>)
    requires Merged(q, a, b, first, next) && n.id == first
    ensures a == [n] + rest ==> q != [] && q[0] == n && Merged(q[1..], rest, b, first + 1, next)
    ensures b == [n] + rest ==> q != [] && q[0] == n && Merged(q[1..], a, rest, first + 1, next)
  {
    ShuffleBound(q, a, b, first);
    if q != [] {
      if a != [] && a[0] == q[0] && Shuffles(q[1..], a[1..], b) {
        ShuffleBound(q[1..], a[1..], b, first + 1);
      } else {
        ShuffleBound(q[1..], a, b[1..], first + 1);
      }
    }
  }

  /** While there is anything, one of the parts has the id that is due in front. */
  lemma MergedDue(q: seq<Node>, a: seq<Node>, b: seq<Node>, first: int, next: int)
    requires Merged(q, a, b, first, next) && q != []
    ensures (a != [] && a[0].id == first) || (b != [] && b[0].id == first)
  {
    assert q[0].id == first;
  }

  // ----- the queue -----

  /** What was serialized comes back. */
  ghost predicate RoundTrips(serialize: Node -> Option<Data>, deserialize: Bytes -> Option<Node>) {
    forall n {:trigger serialize(n)} :: serialize(n).Some? ==> deserialize(serialize(n).value) == Some(n)
  }

  ghost predicate Stored(serialize: Node -> Option<Data>, ds: seq<Data>, ns: seq<Node>) {
    |ds| == |ns| && forall i :: 0 <= i < |ns| ==> serialize(ns[i]) == Some(ds[i])
  }

  function AsSeq(o: Option<Node>): seq<Node> {
    match o
    case None => []
    case Some(n) => [n]
  }

  /** A 64-bit id in a 32-bit int. */
  function Truncate32(n: int): int {
    (n + 0x8000_0000) % 0x1_0000_0000 - 0x8000_0000
  }

  /** The id that is due is compared after being cut to 32 bits. From 2^31 on it matches no node, so
      nothing is found by its id any more; below, it is the id itself. */
  lemma DueIdIsFound(q: seq<Node>, a: seq<Node>, b: seq<Node>, first: int, next: int)
    requires Merged(q, a, b, first, next) && q != [] && first >= 0
    ensures (a != [] && a[0].id == Truncate32(first)) || (b != [] && b[0].id == Truncate32(first))
            <==> first < 0x8000_0000
  {
    ShuffleBound(q, a, b, first);
    if first < 0x8000_0000 {
      assert q[0].id == first == Truncate32(first);
    }
  }

  class LocalQueue {
    const mem: MemQueue
    const disk: DiskQueue
    const serialize: Node -> Option<Data>
    const deserialize: Bytes -> Option<Node>
    var pushNextNodeId: int
    var popNextNodeId: int
    /** Nodes taken out of a part that are not yet due. */
    var mayNextInMem: Option<Node>
    var mayNextInDisk: Option<Node>
    var failedDealSwitch: bool
    /** The whole queue, and the nodes whose records are on disk. */
    ghost var queue: seq<Node>
    ghost var onDisk: seq<Node>

    ghost predicate Parts()
      reads this`onDisk, mem, mem.slots, disk
    {
      && mem.Valid() && disk.Valid() && RoundTrips(serialize, deserialize)
      && Stored(serialize, disk.Contents(), onDisk)
    }

    ghost function MemSeq(): seq<Node>
      reads this`mayNextInMem, mem`items
    {
      AsSeq(mayNextInMem) + mem.items
    }

    ghost function DiskSeq(): seq<Node>
      reads this`mayNextInDisk, this`onDisk
    {
      AsSeq(mayNextInDisk) + onDisk
    }

    ghost predicate Valid()
      reads this, mem, mem.slots, disk
    {
      Parts() && Merged(queue, MemSeq(), DiskSeq(), popNextNodeId, pushNextNodeId)
    }

    constructor (memSize: nat, diskSize: nat, serialize: Node -> Option<Data>, deserialize: Bytes -> Option<Node>,
                 mayCut: bool)
      requires RoundTrips(serialize, deserialize)
      ensures Valid() && queue == [] && pushNextNodeId == popNextNodeId == 0 && disk.torn == 0
      ensures fresh(mem) && fresh(mem.slots) && fresh(disk)
      ensures this.serialize == serialize && this.deserialize == deserialize && disk.mayCut == mayCut
    {
      mem := new MemQueue(memSize);
      disk := new DiskQueue(diskSize, mayCut);
      this.serialize, this.deserialize := serialize, deserialize;
      pushNextNodeId, popNextNodeId, failedDealSwitch := 0, 0, false;
      mayNextInMem, mayNextInDisk, queue, onDisk := None, None, [], [];
    }

    /** To memory while there is room, else to disk. It fails exactly if the memory part is full and the node
        cannot be serialized or a disk write is cut short; then the node is not counted, and one more torn
        record may be left in the tail's segment. */
    method Push(body: Bytes) returns (ok: bool)
      requires Valid()
      modifies this, mem, mem.slots, disk
      ensures Valid() && popNextNodeId == old(popNextNodeId)
      ensures pushNextNodeId == old(pushNextNodeId) + if ok then 1 else 0
      ensures queue == if ok then old(queue) + [Node(old(pushNextNodeId), body)] else old(queue)
      ensures disk.torn <= (if disk.endId == old(disk.endId) then old(disk.torn) else 0) + (if ok then 0 else 1)
      ensures ok <==> !old(MemFull()) || (serialize(Node(old(pushNextNodeId), body)).Some? && disk.cut == old(disk.cut))
      ensures !ok && serialize(Node(old(pushNextNodeId), body)).Some? ==> disk.mayCut
      ensures ok ==> (if old(MemFull()) then onDisk == old(onDisk) + [Node(old(pushNextNodeId), body)]
                      else mem.items == old(mem.items) + [Node(old(pushNextNodeId), body)])
    {
      var node := Node(pushNextNodeId, body);
      MergedPush(queue, MemSeq(), DiskSeq(), popNextNodeId, pushNextNodeId, node);
      var full := mem.IsFull();
      if !full {
        ok := PushToMem(node);
      } else {
        ok := PushToDisk(node);
      }
      if ok {
        pushNextNodeId, queue := pushNextNodeId + 1, queue + [node];
      }
    }

    ghost predicate MemFull()
      reads mem
    {
      |mem.items| >= mem.maxSize - 1
    }

    method PushToMem(node: Node) returns (ok: bool)
      requires Parts() && |mem.items| < mem.maxSize - 1
      modifies mem, mem.slots
      ensures Parts() && ok && MemSeq() == old(MemSeq()) + [node] && mem.items == old(mem.items) + [node]
    {
      ok := mem.Push(node);
    }

    method PushToDisk(node: Node) returns (ok: bool)
      requires Parts()
      modifies disk, this`onDisk
      ensures Parts() && DiskSeq() == if ok then old(DiskSeq()) + [node] else old(DiskSeq())
      ensures ok <==> serialize(node).Some? && disk.cut == old(disk.cut)
      ensures !ok && serialize(node).Some? ==> disk.mayCut
      ensures ok ==> onDisk == old(onDisk) + [node]
      ensures disk.torn <= (if disk.endId == old(disk.endId) then old(disk.torn) else 0) + (if ok then 0 else 1)
    {
      match serialize(node)
      case None => ok := false;
      case Some(data) =>
        ok := disk.WriteRecord(data);
        if ok {
          onDisk := onDisk + [node];
        }
    }

    /** The memory part's oldest node if it is the one due; otherwise it is kept at hand. */
    method FromMem(id: int) returns (node: Option<Node>)
      requires Parts()
      modifies this`mayNextInMem, mem, mem.slots
      ensures Parts()
      ensures node.Some? <==> old(MemSeq()) != [] && old(MemSeq())[0].id == id
      ensures if node.Some? then [node.value] + MemSeq() == old(MemSeq()) else MemSeq() == old(MemSeq())
      ensures node == None && MemSeq() != [] ==> mayNextInMem.Some?
    {
      node := None;
      if mayNextInMem != None {
        if mayNextInMem.value.id == id {
          node, mayNextInMem := mayNextInMem, None;
        }
      } else {
        var empty := mem.IsEmpty();
        if !empty {
          var ok;
          ok, node := mem.Pop();
          if node.value.id != id {
            node, mayNextInMem := None, node;
          }
        }
      }
    }

    /** Nothing is left on disk or at hand from it, but torn writes left a phantom there. */
    ghost predicate Haunted()
      reads this`mayNextInDisk, this`onDisk, disk
    {
      DiskSeq() == [] && disk.Phantom()
    }

    /** What the phantom's bytes stand for. */
    ghost function Ghost(): Option<Node>
      requires disk.Phantom()
      reads disk
    {
      deserialize(RecordAt(disk.files[disk.endId]))
    }

    /** The oldest node on disk; in a haunted queue, the ghost. */
    method PopDisk() returns (node: Option<Node>)
      requires Parts()
      modifies this`onDisk, disk
      ensures disk.torn == old(disk.torn) && disk.endId == old(disk.endId)
      ensures old(onDisk) == [] && old(disk.Phantom()) ==> node == old(Ghost()) && onDisk == []
      ensures !(old(onDisk) == [] && old(disk.Phantom())) ==>
                Parts() && (if node == None then old(onDisk) == onDisk == [] else [node.value] + onDisk == old(onDisk))
    {
      node := None;
      var empty := disk.IsEmpty();
      if !empty {
        var ok, data := disk.ReadRecord();
        if ok {
          assert onDisk != [] ==> serialize(onDisk[0]).Some? && serialize(onDisk[0]).value == data;
          node := deserialize(data);
          onDisk := if onDisk == [] then [] else onDisk[1..];
        }
      }
    }

    /** The disk part's oldest node if it is the one due; otherwise it is kept at hand. */
    method FromDisk(id: int) returns (node: Option<Node>)
      requires Parts()
      modifies this`mayNextInDisk, this`onDisk, disk
      ensures disk.torn == old(disk.torn) && disk.endId == old(disk.endId)
      ensures old(Haunted()) ==>
                (if node == None then mayNextInDisk == old(Ghost()) else node == old(Ghost()) && node.value.id == id)
      ensures !old(Haunted()) ==>
                && Parts()
                && (node.Some? <==> old(DiskSeq()) != [] && old(DiskSeq())[0].id == id)
                && (if node.Some? then [node.value] + DiskSeq() == old(DiskSeq()) else DiskSeq() == old(DiskSeq()))
                && (node == None && DiskSeq() != [] ==> mayNextInDisk.Some?)
    {
      node := None;
      if mayNextInDisk != None {
        if mayNextInDisk.value.id == id {
          node, mayNextInDisk := mayNextInDisk, None;
        }
      } else {
        node := PopDisk();
        if node != None && node.value.id != id {
          node, mayNextInDisk := None, node;
        }
      }
    }

    /** The node that is due, when the memory part does not have it. */
    method DueFromDisk(id: int) returns (node: Option<Node>)
      requires Valid() && id == popNextNodeId && (MemSeq() != [] ==> MemSeq()[0].id != id && mayNextInMem.Some?)
      modifies this`mayNextInDisk, this`onDisk, disk
      ensures disk.torn == old(disk.torn) && disk.endId == old(disk.endId)
      ensures queue != [] ==>
                Parts() && node == Some(queue[0]) && Merged(queue[1..], MemSeq(), DiskSeq(), id + 1, pushNextNodeId)
      ensures queue == [] ==> mayNextInMem == None
      ensures queue == [] && old(disk.Phantom()) ==>
                if node == None then mayNextInDisk == old(Ghost()) else node == old(Ghost())
      ensures queue == [] && !old(disk.Phantom()) ==>
                Parts() && node == mayNextInDisk == None && MemSeq() == DiskSeq() == []
    {
      ghost var b := DiskSeq();
      ShuffleBound(queue, MemSeq(), b, id);
      if queue != [] {
        MergedDue(queue, MemSeq(), b, id, pushNextNodeId);
      }
      node := FromDisk(id);
      if queue != [] {
        MergedPop(queue, MemSeq(), b, id, pushNextNodeId, node.value, DiskSeq());
      }
    }

    /** The node that is due, from whichever part has it; nothing only if there is nothing. */
    method TakeDue(id: int) returns (node: Option<Node>)
      requires Valid() && id == popNextNodeId
      modifies this`mayNextInMem, this`mayNextInDisk, this`onDisk, mem, mem.slots, disk
      ensures disk.torn == old(disk.torn) && disk.endId == old(disk.endId)
      ensures queue != [] ==>
                Parts() && node == Some(queue[0]) && Merged(queue[1..], MemSeq(), DiskSeq(), id + 1, pushNextNodeId)
      ensures queue == [] ==> mayNextInMem == None
      ensures queue == [] && old(disk.Phantom()) ==>
                if node == None then mayNextInDisk == old(Ghost()) else node == old(Ghost())
      ensures queue == [] && !old(disk.Phantom()) ==>
                Parts() && node == mayNextInDisk == None && MemSeq() == DiskSeq() == []
    {
      ghost var a := MemSeq();
      node := FromMem(id);
      if node != None {
        MergedPop(queue, a, DiskSeq(), id, pushNextNodeId, node.value, MemSeq());
      } else {
        node := DueFromDisk(id);
      }
    }

    /** Hands out the node that was due. With none due, a node at hand from the disk is handed out in its
        place and the nodes before it are given up for lost. */
    method Settle(due: Option<Node>) returns (ok: bool, node: Option<Node>)
      requires due == None ==> mayNextInMem == None
      modifies this`mayNextInDisk, this`popNextNodeId, this`failedDealSwitch, this`queue
      ensures ok <==> node.Some?
      ensures due.Some? || old(mayNextInDisk) == None ==> node == due && mayNextInDisk == old(mayNextInDisk)
      ensures due.Some? ==> popNextNodeId == old(popNextNodeId) + 1
      ensures due.Some? ==> queue == if old(queue) == [] then [] else old(queue)[1..]
      ensures due == None ==> queue == old(queue)
      ensures due == None && old(mayNextInDisk) == None ==> popNextNodeId == old(popNextNodeId)
      ensures due == None && old(mayNextInDisk).Some? ==> node == old(mayNextInDisk)
    {
      ok, node := due != None, due;
      if ok {
        popNextNodeId := popNextNodeId + 1;
        queue := if queue == [] then [] else queue[1..];
      } else if mayNextInDisk != None {
        // The next id is computed from a variable that was never set.
        var unset: int := *;
        node, mayNextInDisk, ok := mayNextInDisk, None, true;
        popNextNodeId := unset + 1;
      }
      failedDealSwitch := false;
    }

    /** The oldest node, in the order of the pushes; nothing if there is none, unless torn writes left a
        phantom: then a node is handed out, if the phantom's bytes are one, that was never pushed. Of the
        branches that give nodes up for lost, only the phantom's can be reached. */
    method Pop() returns (ok: bool, node: Option<Node>)
      requires Valid() && 0 <= popNextNodeId < 0x8000_0000
      modifies this, mem, mem.slots, disk
      ensures pushNextNodeId == old(pushNextNodeId)
      ensures disk.torn == old(disk.torn) && disk.endId == old(disk.endId)
      ensures old(queue) != [] ==> Valid() && ok && node == Some(old(queue)[0]) && queue == old(queue)[1..]
      ensures old(queue) == [] && !old(disk.Phantom()) ==> Valid() && !ok && node == None && queue == []
      ensures old(queue) == [] && old(disk.Phantom()) ==> node == old(Ghost()) && (ok <==> node.Some?)
      ensures old(queue) == [] && old(disk.Phantom()) ==> old(disk.torn) >= 2
    {
      var id := Truncate32(popNextNodeId);
      if disk.Phantom() {
        disk.PhantomTakesTwo();
      }
      var due := TakeDue(id);
      ok, node := Settle(due);
    }
  }

  // ----- runs -----

  /** An ideal queue: the nodes it accepted, and how many of them it gave back. */
  datatype Fifo = Fifo(accepted: seq<Node>, popped: nat) {
    /** A push (of a body) that succeeds appends, one that fails has no effect, and a pop takes the oldest. */
    function Next(call: Option<Bytes>, ok: bool): Fifo {
      match call
      case Some(body) => if ok then this.(accepted := accepted + [Node(|accepted|, body)]) else this
      case None => if popped < |accepted| then this.(popped := popped + 1) else this
    }
  }

  ghost function Ideal(script: seq<Option<Bytes>>, oks: seq<bool>): Fifo
    requires |script| == |oks|
  {
    if script == [] then Fifo([], 0)
    else
      var n := |script| - 1;
      Ideal(script[..n], oks[..n]).Next(script[n], oks[n])
  }

  /** The pushes that failed. */
  ghost function Failures(script: seq<Option<Bytes>>, oks: seq<bool>): nat
    requires |script| == |oks|
  {
    if script == [] then 0
    else
      var n := |script| - 1;
      Failures(script[..n], oks[..n]) + if script[n].Some? && !oks[n] then 1 else 0
  }

  lemma OneMore(script: seq<Option<Bytes>>, oks: seq<bool>, ok: bool)
    requires |oks| < |script|
    ensures var n := |oks|;
            && Failures(script[..n + 1], oks + [ok])
               == Failures(script[..n], oks) + (if script[n].Some? && !ok then 1 else 0)
            && Ideal(script[..n + 1], oks + [ok]) == Ideal(script[..n], oks).Next(script[n], ok)
  {
    var n := |oks|;
    var longer, more := script[..n + 1], oks + [ok];
    assert longer[..n] == script[..n] && more[..n] == oks && longer[n] == script[n] && more[n] == ok;
  }

  /** What was accepted so far is what was popped followed by what is queued, and `failed` bounds the torn
      records in the tail's segment. */
  ghost predicate InStep(q: LocalQueue, accepted: seq<Node>, popped: seq<Node>, failed: nat)
    reads q, q.mem, q.mem.slots, q.disk
  {
    && q.Valid() && accepted == popped + q.queue && Numbered(accepted, 0) && q.disk.torn <= failed
    && q.popNextNodeId == |popped| && q.pushNextNodeId == |accepted|
  }

  /** Every node can be written, and every write is taken whole. */
  ghost predicate Sound(q: LocalQueue) {
    !q.disk.mayCut && forall n :: q.serialize(n).Some?
  }

  method DrivePush(q: LocalQueue, body: Bytes, accepted: seq<Node>, ghost popped: seq<Node>, failed: nat)
      returns (ok: bool, more: seq<Node>, failedNow: nat)
    requires InStep(q, accepted, popped, failed)
    modifies q, q.mem, q.mem.slots, q.disk
    ensures InStep(q, more, popped, failedNow) && failedNow <= failed + (if ok then 0 else 1) && (Sound(q) ==> ok)
    ensures more == if ok then accepted + [Node(|accepted|, body)] else accepted
  {
    var segment := q.disk.endId;
    ok := q.Push(body);
    failedNow := if q.disk.endId != segment then 0 else failed;
    more := accepted;
    if ok {
      more := accepted + [Node(|accepted|, body)];
    } else {
      failedNow := failedNow + 1;
    }
  }

  method DrivePop(q: LocalQueue, ghost accepted: seq<Node>, popped: seq<Node>, ghost failed: nat)
      returns (ok: bool, more: seq<Node>)
    requires InStep(q, accepted, popped, failed) && |popped| < 0x8000_0000 && (popped == accepted ==> failed < 2)
    modifies q, q.mem, q.mem.slots, q.disk
    ensures InStep(q, accepted, more, failed)
    ensures ok <==> popped != accepted
    ensures if ok then more == accepted[..|popped| + 1] else more == popped
  {
    var node;
    ok, node := q.Pop();
    more := if ok then popped + [node.value] else popped;
  }

  /** One call, which does what an ideal queue does. */
  method DriveCall(q: LocalQueue, call: Option<Bytes>, accepted: seq<Node>, popped: seq<Node>, failed: nat)
      returns (ok: bool, accepted': seq<Node>, popped': seq<Node>, failed': nat)
    requires InStep(q, accepted, popped, failed) && |popped| < 0x8000_0000
    requires call == None && popped == accepted ==> failed < 2
    modifies q, q.mem, q.mem.slots, q.disk
    ensures InStep(q, accepted', popped', failed') && |popped'| <= |popped| + 1
    ensures Fifo(accepted', |popped'|) == Fifo(accepted, |popped|).Next(call, ok)
    ensures failed' <= failed + (if call.Some? && !ok then 1 else 0)
    ensures Sound(q) && call.Some? ==> ok
  {
    accepted', popped', failed' := accepted, popped, failed;
    match call {
      case Some(body) => ok, accepted', failed' := DrivePush(q, body, accepted, popped, failed);
      case None => ok, popped' := DrivePop(q, accepted, popped, failed);
    }
  }

  /** A client's run: it stops before a pop of an empty queue after two failed pushes into one segment, and
      does anything else. What it pops is what an ideal queue gives. */
  method Drive(q: LocalQueue, script: seq<Option<Bytes>>)
      returns (oks: seq<bool>, popped: seq<Node>, failed: nat)
    requires q.Valid() && q.queue == [] && q.pushNextNodeId == q.popNextNodeId == 0 && q.disk.torn == 0
    requires |script| < 0x8000_0000
    modifies q, q.mem, q.mem.slots, q.disk
    ensures q.Valid() && |oks| <= |script| && failed <= Failures(script[..|oks|], oks)
    ensures Ideal(script[..|oks|], oks) == Fifo(popped + q.queue, |popped|)
    ensures |oks| < |script| ==> script[|oks|] == None && failed >= 2 && q.queue == []
    ensures Sound(q) ==> Failures(script[..|oks|], oks) == 0
  {
    oks, popped, failed := [], [], 0;
    var accepted: seq<Node> := [];
    var stopped := false;
    while |oks| < |script| && !stopped
      invariant |oks| <= |script| && |popped| <= |oks| && InStep(q, accepted, popped, failed)
      invariant Ideal(script[..|oks|], oks) == Fifo(accepted, |popped|) && failed <= Failures(script[..|oks|], oks)
      invariant Sound(q) ==> Failures(script[..|oks|], oks) == 0
      invariant stopped ==> |oks| < |script| && script[|oks|] == None && failed >= 2 && popped == accepted
      decreases |script| - |oks|, !stopped
    {
      if script[|oks|] == None && |popped| == |accepted| && failed >= 2 {
        stopped := true;
      } else {
        var ok;
        ok, accepted, popped, failed := DriveCall(q, script[|oks|], accepted, popped, failed);
        OneMore(script, oks, ok);
        oks := oks + [ok];
      }
    }
  }

  /** From a new queue, every run with fewer than two failed pushes is one of an ideal queue; none fails while
      every node can be written and every write is taken whole. */
  method DriveNew(memSize: nat, diskSize: nat, serialize: Node -> Option<Data>, deserialize: Bytes -> Option<Node>,
                  mayCut: bool, script: seq<Option<Bytes>>)
      returns (oks: seq<bool>, popped: seq<Node>)
    requires RoundTrips(serialize, deserialize) && |script| < 0x8000_0000
    ensures |oks| <= |script| && (Failures(script[..|oks|], oks) < 2 ==> |oks| == |script|)
    ensures !mayCut && (forall n :: serialize(n).Some?) ==> Failures(script[..|oks|], oks) == 0
    ensures var ideal := Ideal(script[..|oks|], oks); ideal.popped <= |ideal.accepted| && popped == ideal.accepted[..ideal.popped]
  {
    var q := new LocalQueue(memSize, diskSize, serialize, deserialize, mayCut);
    var failed;
    oks, popped, failed := Drive(q, script);
  }
}
