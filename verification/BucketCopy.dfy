/** The data server's copy of one bucket to its new servers: a scan under concurrent writes, replay of
    the log written meanwhile, a lock, a last replay, and the report. */
module BucketCopying {
  import opened Counting
  import opened Replay

  const MIGRATE_LOCK_LOG_LEN := 1024 * 1024

  class BucketCopy {
    /** The bucket being moved and the servers it goes to. */
    const bucket: int
    const targets: set<int>
    /** Whether the operator may call the move off. */
    const mayStop: bool

    /** This server's contents of the bucket, and the update log. */
    var source: Store
    var log: seq<Entry>
    /** The contents of the bucket at the other servers. */
    var dests: map<int, Store>

    var currentMigratingBucket: int
    var currentLockedBucket: int
    var stopped: bool

    /** Clients, the network and the operator act between any two steps; `budget` bounds how often
        they still will. It can be any number, so every finite run is covered. */
    var budget: nat

    /** The source when logging began, and the log's length taken just before. */
    ghost var base: Store
    ghost var start: nat

    constructor (bucket: int, targets: set<int>, source: Store, log: seq<Entry>,
                 dests: map<int, Store>, mayStop: bool, budget: nat)
      requires bucket >= 0 && targets <= dests.Keys
      ensures this.bucket == bucket && this.targets == targets && this.source == source && this.mayStop == mayStop
      ensures this.log == log && this.dests == dests && this.budget == budget && Idle() && !stopped
    {
      this.bucket, this.targets, this.source, this.log := bucket, targets, source, log;
      this.dests, this.mayStop, this.budget, stopped := dests, mayStop, budget, false;
      currentMigratingBucket, currentLockedBucket := -1, -1;
    }

    ghost predicate Idle()
      reads this
    {
      bucket >= 0 && targets <= dests.Keys && currentMigratingBucket == currentLockedBucket == -1
    }

    /** The operations on the bucket logged from `start` on. */
    ghost function Logged(): seq<Op>
      requires start <= |log|
      reads this
    {
      OpsOf(log[start..], bucket)
    }

    /** Every change of the source since `base` is in the log. */
    ghost predicate Tracked()
      reads this
    {
      && bucket >= 0 && targets <= dests.Keys && currentMigratingBucket == bucket
      && start <= |log| && source == ApplyAll(base, Logged())
    }

    /** What the passing of time can do. */
    twostate predicate Passed()
      reads this
    {
      && old(log) <= log
      && budget <= old(budget) && |log| + budget <= |old(log)| + old(budget)
      && (old(stopped) ==> stopped) && (stopped ==> old(stopped) || mayStop)
      && currentMigratingBucket == old(currentMigratingBucket)
      && currentLockedBucket == old(currentLockedBucket)
      && (currentLockedBucket == bucket ==> source == old(source))
      && base == old(base) && start == old(start) && dests.Keys == old(dests.Keys)
    }

    /** A client's write: refused while its bucket is locked, logged while its bucket is moving.
        Other buckets' contents are not followed, but their records may land in the log. */
    method ClientWrite(b: int, op: Op, size: nat)
      modifies this`source, this`log
      ensures (b == currentLockedBucket) ==> source == old(source) && log == old(log)
      ensures source == if b == bucket && b != currentLockedBucket then Apply(old(source), op) else old(source)
      ensures log == old(log) || log == old(log) + [Entry(b, op, size)]
      ensures b == bucket && b != currentLockedBucket ==>
                (log != old(log) <==> currentMigratingBucket == bucket)
    {
      if b == currentLockedBucket {
        return;
      }
      if b == bucket {
        source := Apply(source, op);
      }
      var otherBucketLogged := *;
      if b == currentMigratingBucket || (b != bucket && otherBucketLogged) {
        log := log + [Entry(b, op, size)];
      }
    }

    /** One step of the rest of the world. */
    method OneEvent()
      requires budget > 0
      requires bucket >= 0
      modifies this`source, this`log, this`stopped, this`budget
      ensures Passed() && budget < old(budget)
      ensures old(Tracked()) ==> Tracked()
      ensures currentMigratingBucket != bucket ==> OpsOf(log, bucket) == OpsOf(old(log), bucket)
    {
      budget := budget - 1;
      var stop := *;
      if mayStop && stop {
        stopped := true;
        return;
      }
      var b: int, op: Op, size: nat := *, *, *;
      ghost var before := log;
      ClientWrite(b, op, size);
      if log != before {
        var e := Entry(b, op, size);
        OpsPush(before, e, bucket);
        if start <= |before| {
          TrackPush(base, before, start, e, bucket);
        }
      }
    }

    /** Any number of steps of the rest of the world. */
    method Interfere()
      requires bucket >= 0
      modifies this`source, this`log, this`stopped, this`budget
      ensures Passed()
      ensures old(Tracked()) ==> Tracked()
      ensures currentMigratingBucket != bucket ==> OpsOf(log, bucket) == OpsOf(old(log), bucket)
    {
      while budget > 0
        invariant Passed()
        invariant old(Tracked()) ==> Tracked()
        invariant currentMigratingBucket != bucket ==> OpsOf(log, bucket) == OpsOf(old(log), bucket)
      {
        var enough := *;
        if enough {
          break;
        }
        OneEvent();
      }
    }

    /** One request to one server. It may get lost, or stop part way, as long as `budget` lasts.
        `before` is the server's contents when the packet was first sent. */
    method Attempt(s: int, batch: seq<Op>, ghost before: Store) returns (acked: bool)
      requires s in dests && AgreeOff(dests[s], before, batch)
      modifies this`dests, this`budget
      ensures s in dests && dests == old(dests)[s := dests[s]]
      ensures acked ==> dests[s] == ApplyAll(before, batch) && budget == old(budget)
      ensures !acked ==> AgreeOff(dests[s], before, batch) && budget < old(budget)
    {
      var failAt: nat := |batch|;
      var lost := false;
      if budget > 0 {
        failAt, lost := *, *;
      }
      var after, ok := Process(dests[s], batch, failAt);
      dests := dests[s := after];
      acked := ok && !lost;
      Converge(old(dests[s]), before, batch);
      if !acked {
        budget := budget - 1;
        PrefixAgrees(old(dests[s]), before, batch, if failAt < |batch| then failAt else |batch|);
        assert batch[..|batch|] == batch;
      }
    }

    /** Every server still waiting is tried once. */
    method SendRound(waiting: set<int>, batch: seq<Op>, ghost before: map<int, Store>) returns (left: set<int>)
      requires Tracked() && waiting <= targets && targets <= before.Keys
      requires forall s :: s in targets - waiting ==> dests[s] == ApplyAll(before[s], batch)
      requires forall s :: s in waiting ==> AgreeOff(dests[s], before[s], batch)
      modifies this`dests, this`source, this`log, this`stopped, this`budget
      ensures Tracked() && Passed() && left <= waiting
      ensures left == {} || budget < old(budget)
      ensures forall s :: s in targets - left ==> dests[s] == ApplyAll(before[s], batch)
      ensures forall s :: s in left ==> AgreeOff(dests[s], before[s], batch)
    {
      left := waiting;
      var round := waiting;
      while round != {}
        invariant Tracked() && Passed() && round <= left <= waiting
        invariant left <= round || budget < old(budget)
        invariant forall s :: s in targets - left ==> dests[s] == ApplyAll(before[s], batch)
        invariant forall s :: s in left ==> AgreeOff(dests[s], before[s], batch)
      {
        Inhabited(round);
        var s :| s in round;
        round := round - {s};
        Interfere();
        var acked := Attempt(s, batch, before[s]);
        if acked {
          left := left - {s};
        }
      }
    }

    /** A packet is sent again and again to the servers that have not acknowledged it, until all have
        or the move is called off. */
    method SendPacket(batch: seq<Op>) returns (ok: bool)
      requires Tracked()
      modifies this`dests, this`source, this`log, this`stopped, this`budget
      ensures Tracked() && Passed()
      ensures ok ==> forall s :: s in targets ==> dests[s] == ApplyAll(old(dests)[s], batch)
      ensures ok <==> !stopped
    {
      ghost var before := dests;
      var left := SendRound(targets, batch, before);
      while !stopped && left != {}
        invariant Tracked() && Passed() && left <= targets
        invariant forall s :: s in targets - left ==> dests[s] == ApplyAll(before[s], batch)
        invariant forall s :: s in left ==> AgreeOff(dests[s], before[s], batch)
        decreases budget, left
      {
        left := SendRound(left, batch, before);
      }
      ok := !stopped;
    }

    /** Once `pending` has arrived, every server has what the scan has visited so far. */
    ghost predicate Covered(inits: map<int, Store>, todo: set<Key>, pending: seq<Op>)
      requires targets <= dests.Keys && targets <= inits.Keys && start <= |log|
      reads this
    {
      forall s :: s in targets ==> ScanOk(ApplyAll(dests[s], pending), inits[s], base, todo, Logged())
    }

    lemma Visit(inits: map<int, Store>, todo: set<Key>, pending: seq<Op>, key: Key)
      requires Tracked() && targets <= inits.Keys && Covered(inits, todo, pending)
      ensures key in source ==> Covered(inits, todo - {key}, pending + [Put(key, source[key])])
      ensures key in todo && key !in source ==> Covered(inits, todo - {key}, pending)
    {
      forall s | s in targets
        ensures key in source ==>
                  ScanOk(ApplyAll(dests[s], pending + [Put(key, source[key])]), inits[s], base, todo - {key}, Logged())
        ensures key in todo && key !in source ==>
                  ScanOk(ApplyAll(dests[s], pending), inits[s], base, todo - {key}, Logged())
      {
        if key in source {
          ScanEmitsPut(dests[s], pending, inits[s], base, todo, Logged(), key);
        } else if key in todo {
          ScanSkips(ApplyAll(dests[s], pending), inits[s], base, todo, Logged(), key);
        }
      }
    }

    /** The storage's next items: any keys still to be visited, at least one if there is one, and
        any others, each with its value of this moment. */
    method NextItems(todo: set<Key>, ghost inits: map<int, Store>, ghost pending: seq<Op>)
      returns (items: seq<Op>, rest: set<Key>)
      requires Tracked() && targets <= inits.Keys && Covered(inits, todo, pending)
      modifies this`budget
      ensures Tracked() && Passed() && Covered(inits, rest, pending + items)
      ensures rest <= todo && (todo != {} ==> rest != todo)
    {
      items, rest := [], todo;
      assert pending + items == pending;
      var more := true;
      while more && (rest != {} || (budget > 0 && source != map[]))
        invariant Tracked() && Passed() && Covered(inits, rest, pending + items)
        invariant rest <= todo && (more || todo == {} || rest != todo)
        decreases rest, budget
      {
        var key: Key, revisit := *, *;
        if rest == {} || (revisit && budget > 0 && source != map[]) {
          budget := budget - 1;
          key :| key in source;
        } else {
          key :| key in rest;
        }
        Visit(inits, rest, pending + items, key);
        if key in source {
          assert pending + (items + [Put(key, source[key])]) == pending + items + [Put(key, source[key])];
          items := items + [Put(key, source[key])];
        }
        rest := rest - {key};
        if todo == {} || rest != todo {
          more := *;
        }
      }
    }

    /** What is in flight arrives, and the packet being filled takes its place. */
    lemma Arrives(inits: map<int, Store>, todo: set<Key>, packet: seq<Op>, queue: seq<Op>,
                  before: map<int, Store>, logBefore: seq<Entry>)
      requires targets <= dests.Keys && targets <= inits.Keys && targets <= before.Keys
      requires start <= |logBefore| && logBefore <= log
      requires forall s :: s in targets ==>
                 ScanOk(ApplyAll(before[s], packet + queue), inits[s], base, todo, OpsOf(logBefore[start..], bucket))
      requires forall s :: s in targets ==> dests[s] == ApplyAll(before[s], packet)
      ensures Covered(inits, todo, queue)
    {
      forall s | s in targets ensures ScanOk(ApplyAll(dests[s], queue), inits[s], base, todo, Logged()) {
        ApplyAppend(before[s], packet, queue);
        ScanLater(ApplyAll(dests[s], queue), inits[s], base, todo, logBefore, log, start, bucket);
      }
    }

    /** Items go into the packet; a packet with no room left is sent first. */
    method Pack(full: seq<Op>, items: seq<Op>, sent: bool, ghost inits: map<int, Store>, ghost todo: set<Key>)
      returns (packet: seq<Op>, flag: bool)
      requires Tracked() && targets <= inits.Keys
      requires if sent then Covered(inits, todo, full + items) else stopped
      modifies this`dests, this`source, this`log, this`stopped, this`budget
      ensures Tracked() && Passed()
      ensures if flag then Covered(inits, todo, packet) else stopped
      ensures if items == [] then packet == full && flag == sent else packet != []
    {
      packet, flag := full, sent;
      assert items[0..] == items;
      for i := 0 to |items|
        invariant Tracked() && Passed()
        invariant if flag then Covered(inits, todo, packet + items[i..]) else stopped
        invariant if i == 0 then packet == full && flag == sent else packet != []
      {
        var noRoom := *;
        if packet != [] && noRoom {
          ghost var before, logBefore := dests, log;
          var ok := SendPacket(packet);
          if flag && ok {
            Arrives(inits, todo, packet, items[i..], before, logBefore);
          }
          flag, packet := ok, [];
          assert packet + items[i..] == items[i..];
        }
        assert packet + [items[i]] + items[i + 1..] == packet + items[i..];
        packet := packet + [items[i]];
      }
      assert packet + items[|items|..] == packet;
    }

    lemma Waits(inits: map<int, Store>, todo: set<Key>, pending: seq<Op>, logBefore: seq<Entry>)
      requires targets <= dests.Keys && targets <= inits.Keys
      requires start <= |logBefore| && logBefore <= log
      requires forall s :: s in targets ==>
                 ScanOk(ApplyAll(dests[s], pending), inits[s], base, todo, OpsOf(logBefore[start..], bucket))
      ensures Covered(inits, todo, pending)
    {
      forall s | s in targets ensures ScanOk(ApplyAll(dests[s], pending), inits[s], base, todo, Logged()) {
        ScanLater(ApplyAll(dests[s], pending), inits[s], base, todo, logBefore, log, start, bucket);
      }
    }

    /** One call of the storage's scan, and its items into the packet. */
    method ScanNext(full: seq<Op>, todo: set<Key>, ghost inits: map<int, Store>)
      returns (packet: seq<Op>, rest: set<Key>, flag: bool)
      requires Tracked() && targets <= inits.Keys && Covered(inits, todo, full)
      modifies this`dests, this`source, this`log, this`stopped, this`budget
      ensures Tracked() && Passed() && rest <= todo && (todo != {} ==> rest != todo)
      ensures if flag then Covered(inits, rest, packet) else stopped
    {
      ghost var logBefore := log;
      Interfere();
      Waits(inits, todo, full, logBefore);
      var items;
      items, rest := NextItems(todo, inits, full);
      packet, flag := Pack(full, items, true, inits, rest);
    }

    /** The scan of the bucket while clients go on writing: afterwards the servers agree with the
        source as it was when logging began, on every key not logged since. */
    method MigrateDataFile() returns (flag: bool)
      requires Tracked()
      modifies this`dests, this`source, this`log, this`stopped, this`budget
      ensures Tracked() && Passed()
      ensures flag ==> forall s :: s in targets ==> AgreeOff(dests[s], old(dests)[s] + base, Logged())
      ensures !flag ==> stopped
    {
      ghost var inits := dests;
      var todo, packet := source.Keys, [];
      flag := true;
      forall s | s in targets ensures ScanOk(ApplyAll(dests[s], []), inits[s], base, todo, Logged()) {
        ScanStarts(inits[s], base, Logged());
      }
      var haveItem := true;
      while flag && haveItem
        invariant Tracked() && Passed()
        invariant if flag then Covered(inits, todo, packet) else stopped
        invariant todo == {} || haveItem
        decreases todo, budget, haveItem
      {
        packet, todo, flag := ScanNext(packet, todo, inits);
        haveItem := todo != {};
        if budget > 0 {
          haveItem := *;
          haveItem := haveItem || todo != {};
          budget := budget - 1;
        }
      }
      if flag && packet != [] {
        ghost var before, logBefore := dests, log;
        assert packet + [] == packet;
        flag := SendPacket(packet);
        if flag {
          Arrives(inits, todo, packet, [], before, logBefore);
        }
      }
    }

    /** Once the packet has arrived, every server has had `ops` applied to what it had. */
    ghost predicate Shipped(inits: map<int, Store>, packet: seq<Op>, ops: seq<Op>)
      reads this`dests
    {
      && targets <= dests.Keys && targets <= inits.Keys
      && forall s :: s in targets ==> ApplyAll(dests[s], packet) == ApplyAll(inits[s], ops)
    }

    lemma ShippedPush(inits: map<int, Store>, packet: seq<Op>, ops: seq<Op>, op: Op)
      requires Shipped(inits, packet, ops)
      ensures Shipped(inits, packet + [op], ops + [op])
    {
      forall s | s in targets ensures ApplyAll(dests[s], packet + [op]) == ApplyAll(inits[s], ops + [op]) {
        ApplyPush(dests[s], packet, op);
        ApplyPush(inits[s], ops, op);
      }
    }

    /** One more logged operation goes into the packet; a packet with no room left is sent first. */
    method AddRecord(full: seq<Op>, op: Op, ghost inits: map<int, Store>, ghost ops: seq<Op>)
      returns (packet: seq<Op>, flag: bool)
      requires Tracked() && Shipped(inits, full, ops)
      modifies this`dests, this`source, this`log, this`stopped, this`budget
      ensures Tracked() && Passed() && packet != []
      ensures if flag then Shipped(inits, packet, ops + [op]) else stopped
    {
      packet, flag := full, true;
      var noRoom := *;
      if packet != [] && noRoom {
        flag := SendPacket(packet);
        packet := [];
      }
      if flag {
        ShippedPush(inits, packet, ops, op);
      }
      packet := packet + [op];
    }

    /** All records of one window on the bucket, in order; what is left in the packet is still to go. */
    method PackLog(from: nat, end: nat) returns (packet: seq<Op>, flag: bool)
      requires Tracked() && from <= end <= |log|
      modifies this`dests, this`source, this`log, this`stopped, this`budget
      ensures Tracked() && Passed()
      ensures if flag then Shipped(old(dests), packet, OpsOf(old(log)[from..end], bucket)) else stopped
    {
      ghost var L := log;
      packet, flag := [], true;
      var i := from;
      while i < end && flag
        invariant from <= i <= end && Tracked() && Passed()
        invariant if flag then Shipped(old(dests), packet, OpsOf(L[from..i], bucket)) else stopped
        decreases end - i
      {
        packet, flag := NextRecord(packet, from, i, old(dests), L);
        i := i + 1;
      }
    }

    method NextRecord(full: seq<Op>, ghost from: nat, i: nat, ghost inits: map<int, Store>, ghost L: seq<Entry>)
      returns (packet: seq<Op>, flag: bool)
      requires Tracked() && from <= i < |L| && L <= log && Shipped(inits, full, OpsOf(L[from..i], bucket))
      modifies this`dests, this`source, this`log, this`stopped, this`budget
      ensures Tracked() && Passed()
      ensures if flag then Shipped(inits, packet, OpsOf(L[from..i + 1], bucket)) else stopped
    {
      OpsNext(L, from, i, bucket);
      packet, flag := full, true;
      if log[i].bucket == bucket {
        packet, flag := AddRecord(packet, log[i].op, inits, OpsOf(L[from..i], bucket));
      }
    }

    /** The logged operations on the bucket in one window, in order, to every server. */
    method MigrateLog(from: nat, end: nat) returns (flag: bool)
      requires Tracked() && from <= end <= |log|
      modifies this`dests, this`source, this`log, this`stopped, this`budget
      ensures Tracked() && Passed() && (!flag ==> stopped)
      ensures flag ==> forall s :: s in targets ==>
                dests[s] == ApplyAll(old(dests)[s], OpsOf(old(log)[from..end], bucket))
    {
      var packet;
      packet, flag := PackLog(from, end);
      if flag && packet != [] {
        flag := SendPacket(packet);
      }
    }

    /** The servers have replayed the log, up to `upTo`, on what the scan left there. */
    ghost predicate CaughtUp(scanned: map<int, Store>, upTo: nat)
      reads this
    {
      && targets <= dests.Keys && targets <= scanned.Keys && start <= upTo <= |log|
      && forall s :: s in targets ==> dests[s] == ApplyAll(scanned[s], OpsOf(log[start..upTo], bucket))
    }

    /** The next window of the log. */
    method Replay(ghost scanned: map<int, Store>, from: nat, end: nat) returns (flag: bool)
      requires Tracked() && CaughtUp(scanned, from) && from <= end <= |log|
      modifies this`dests, this`source, this`log, this`stopped, this`budget
      ensures Tracked() && Passed() && (if flag then CaughtUp(scanned, end) else stopped)
    {
      flag := MigrateLog(from, end);
      if flag {
        ghost var L := old(log);
        OpsWindow(L, start, from, end, bucket);
        assert log[start..end] == L[start..end];
        forall s | s in targets
          ensures dests[s] == ApplyAll(scanned[s], OpsOf(log[start..end], bucket))
        {
          ApplyAppend(scanned[s], OpsOf(L[start..from], bucket), OpsOf(L[from..end], bucket));
        }
      }
    }

    /** Window after window while the log grows by much in the meantime. */
    method CatchUp(ghost scanned: map<int, Store>, first: nat)
      returns (ok: bool, lastLsn: nat, ghost windows: seq<(nat, nat)>)
      requires Tracked() && CaughtUp(scanned, first) && first == start
      modifies this`dests, this`source, this`log, this`stopped, this`budget
      ensures Tracked() && Passed()
      ensures if ok then CaughtUp(scanned, lastLsn) && Tiles(windows, start, lastLsn) else stopped
      ensures ok ==> Bytes(log[lastLsn..]) < MIGRATE_LOCK_LOG_LEN
    {
      ok, lastLsn, windows := true, first, [];
      var currentLsn := |log|;
      while Bytes(log[lastLsn..currentLsn]) >= MIGRATE_LOCK_LOG_LEN
        invariant Tracked() && Passed() && CaughtUp(scanned, lastLsn) && lastLsn <= currentLsn == |log|
        invariant Tiles(windows, start, lastLsn)
        decreases |log| + budget - lastLsn
      {
        assert lastLsn < currentLsn;
        ok := Replay(scanned, lastLsn, currentLsn);
        if !ok {
          return;
        }
        AddWindow(windows, start, lastLsn, currentLsn);
        windows := windows + [(lastLsn, currentLsn)];
        lastLsn := currentLsn;
        Still(scanned, lastLsn);
        currentLsn := |log|;
      }
      assert log[lastLsn..currentLsn] == log[lastLsn..];
    }

    /** Time passes between two windows. */
    method Still(ghost scanned: map<int, Store>, upTo: nat)
      requires Tracked() && CaughtUp(scanned, upTo)
      modifies this`source, this`log, this`stopped, this`budget
      ensures Tracked() && Passed() && CaughtUp(scanned, upTo)
    {
      Interfere();
      assert log[start..upTo] == old(log)[start..upTo];
    }

    /** After the lock: one more window, then more until the log has nothing new. */
    method Drain(ghost scanned: map<int, Store>, first: nat, ghost before: seq<(nat, nat)>)
      returns (ok: bool, ghost windows: seq<(nat, nat)>)
      requires Tracked() && CaughtUp(scanned, first) && Tiles(before, start, first)
      modifies this`dests, this`source, this`log, this`stopped, this`budget
      ensures Tracked() && Passed()
      ensures if ok then CaughtUp(scanned, |log|) && Tiles(windows, start, |log|) else stopped
    {
      windows := before;
      var lastLsn: nat, currentLsn: nat := first, |log|;
      ok := Replay(scanned, lastLsn, currentLsn);
      if !ok {
        return;
      }
      AddWindow(windows, start, lastLsn, currentLsn);
      windows := windows + [(lastLsn, currentLsn)];
      lastLsn := currentLsn;
      Still(scanned, lastLsn);
      currentLsn := |log|;
      while currentLsn != lastLsn && ok
        invariant Tracked() && Passed() && lastLsn <= currentLsn == |log|
        invariant if ok then CaughtUp(scanned, lastLsn) && Tiles(windows, start, lastLsn) else stopped
        decreases ok, |log| + budget - lastLsn
      {
        ok := Replay(scanned, lastLsn, currentLsn);
        if ok {
          AddWindow(windows, start, lastLsn, currentLsn);
          windows := windows + [(lastLsn, currentLsn)];
          lastLsn := currentLsn;
          Still(scanned, lastLsn);
        }
        currentLsn := |log|;
      }
    }

    /** The outstanding copies to slaves are waited for; true when the move was called off instead. */
    method AwaitReplicas() returns (calledOff: bool)
      requires bucket >= 0
      modifies this`source, this`log, this`stopped, this`budget
      ensures Passed() && (calledOff ==> stopped)
    {
      while budget > 0
        invariant Passed()
      {
        var done := *;
        if done {
          break;
        }
        budget := budget - 1;
        Interfere();
        if stopped {
          return true;
        }
      }
      calledOff := false;
    }

    lemma AllThere(scanned: map<int, Store>, inits: map<int, Store>, logged: seq<Entry>)
      requires CaughtUp(scanned, |log|) && targets <= inits.Keys
      requires start <= |logged| && logged <= log
      requires forall s :: s in targets ==>
                 AgreeOff(scanned[s], inits[s] + base, OpsOf(logged[start..], bucket))
      ensures forall s :: s in targets ==> dests[s] == ApplyAll(inits[s] + base, Logged())
    {
      assert log[start..|log|] == log[start..];
      forall s | s in targets ensures dests[s] == ApplyAll(inits[s] + base, Logged()) {
        AgreeLater(scanned[s], inits[s] + base, logged, log, start, bucket);
        Converge(scanned[s], inits[s] + base, Logged());
      }
    }

    /** The log position is taken, then logging of the bucket begins. */
    method Open() returns (lastLsn: nat)
      requires Idle()
      modifies this`source, this`log, this`stopped, this`budget, this`currentMigratingBucket, this`base, this`start
      ensures Tracked() && lastLsn == start == |old(log)| && old(log) <= log && currentLockedBucket == -1
      ensures stopped ==> old(stopped) || mayStop
    {
      lastLsn := |log|;
      Interfere();
      assert log == old(log) + log[lastLsn..];
      OpsAppend(old(log), log[lastLsn..], bucket);
      assert |OpsOf(log[lastLsn..], bucket)| == 0;
      currentMigratingBucket, base, start := bucket, source, lastLsn;
      Interfere();
    }

    /** Scan, catch up, lock, drain. */
    method Transfer(from: nat) returns (ok: bool, ghost windows: seq<(nat, nat)>)
      requires Tracked() && from == start && currentLockedBucket == -1
      modifies this`dests, this`source, this`log, this`stopped, this`budget, this`currentLockedBucket
      ensures Tracked() && old(log) <= log && dests.Keys == old(dests).Keys
      ensures stopped ==> old(stopped) || mayStop
      ensures if ok then currentLockedBucket == bucket && Tiles(windows, start, |log|) else stopped
      ensures ok ==> forall s :: s in targets ==> dests[s] == ApplyAll(old(dests)[s] + base, Logged())
    {
      windows := [];
      ok := MigrateDataFile();
      if !ok {
        return;
      }
      ghost var scanned, logged := dests, log;
      var lastLsn: nat := from;
      assert log[start..start] == [];
      ok, lastLsn, windows := CatchUp(scanned, lastLsn);
      if !ok {
        return;
      }
      currentLockedBucket := bucket;
      Still(scanned, lastLsn);
      ok, windows := Drain(scanned, lastLsn, windows);
      if ok {
        AllThere(scanned, old(dests), logged);
      }
    }

    /** The whole move of the bucket. It is finished unless the operator calls it off, however many requests
        get lost. When it is reported finished, every server holds what the source
        holds, if it had nothing of the bucket before; and the windows that were replayed follow one
        another from the log position taken before the scan to the end. */
    method MigrateOneBucket() returns (finished: bool, ghost ops: seq<Op>, ghost windows: seq<(nat, nat)>, ghost end: nat)
      requires Idle()
      modifies this
      ensures Idle() && old(log) <= log && dests.Keys == old(dests).Keys && (!finished ==> stopped)
      ensures !mayStop && !old(stopped) ==> finished
      ensures finished ==> |old(log)| <= end <= |log| && Tiles(windows, |old(log)|, end)
      ensures finished ==> ops == OpsOf(log[|old(log)|..end], bucket) && source == ApplyAll(base, ops)
      ensures finished ==> forall s :: s in targets ==> dests[s] == ApplyAll(old(dests)[s] + base, ops)
      ensures finished ==> forall s :: s in targets && old(dests)[s] == map[] ==> dests[s] == source
    {
      finished, ops, end := false, [], 0;
      var lastLsn := Open();
      var ok;
      ok, windows := Transfer(lastLsn);
      if ok {
        ghost var L := log;
        end, ops := |log|, Logged();
        var calledOff := AwaitReplicas();
        finished := !calledOff;
        assert log[start..end] == L[start..];
        assert forall m: Store :: map[] + m == m;
      }
      currentMigratingBucket, currentLockedBucket := -1, -1;
    }
  }
}
