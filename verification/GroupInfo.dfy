/** The config server's record of one group, updated in place. */
module GroupInfos {
  import opened Options
  import opened Placement
  import opened Rows
  import opened Bookkeeping
  import opened TableBuilding
  import opened Accounting
  import opened Migration
  import opened Capacity

  class GroupInfo {
    const copyCount: nat
    const bucketCount: nat
    const dataNeedMove: bool
    const minConfigVersion: nat

    var hashTable: Ids
    var mHashTable: Ids
    var dHashTable: Ids
    var migrateBlockCount: int
    var migrateMachine: map<int, int>
    var reportedServerId: set<int>
    var serverVersion: nat
    ghost var pending: Option<Snapshot>

    ghost function Config(): Group {
      Group(copyCount, bucketCount, dataNeedMove, minConfigVersion)
    }

    ghost function Now(): State
      reads this
    {
      State(hashTable, mHashTable, dHashTable, migrateBlockCount, migrateMachine, reportedServerId, serverVersion, pending)
    }

    ghost predicate Valid()
      reads this
    {
      Inv(Config(), Now())
    }

    /** A new group: empty tables, nothing migrating. */
    constructor Create(copyCount: nat, bucketCount: nat, dataNeedMove: bool, minConfigVersion: nat)
      requires copyCount >= 1 && bucketCount >= 1
      ensures Config() == Group(copyCount, bucketCount, dataNeedMove, minConfigVersion)
      ensures Fresh(Config(), Now()) && Valid()
    {
      this.copyCount, this.bucketCount := copyCount, bucketCount;
      this.dataNeedMove, this.minConfigVersion := dataNeedMove, minConfigVersion;
      var empty := seq(copyCount, l => seq(bucketCount, b => 0));
      hashTable, mHashTable, dHashTable := empty, empty, empty;
      migrateBlockCount, migrateMachine, reportedServerId := -1, map[], {};
      serverVersion, pending := 1, None;
      new;
      FreshHasInv(Config(), Now());
    }

    /** A restarted config server finds its tables and its count on disk and recounts the rest. */
    method Reopen()
      requires Valid()
      modifies this`migrateMachine, this`reportedServerId, this`pending
      ensures Valid() && Now() == Step(Config(), old(Now()), Restart)
    {
      StepKeepsInv(Config(), Now(), Restart);
      reportedServerId, pending, migrateMachine := {}, None, map[];
      if migrateBlockCount > 0 {
        var _ := FillMigrateMachine();
      }
    }

    /** Recounts, from the two tables, what has to migrate and who has to do it. */
    method FillMigrateMachine() returns (count: nat)
      requires Typed(Config(), Now())
      modifies this`migrateMachine
      ensures var flagged := Flagged(mHashTable, dHashTable, bucketCount);
              count == |flagged| && migrateMachine == TallyOf(flagged, mHashTable[0])
    {
      count, migrateMachine := TallyBuckets(mHashTable, dHashTable, bucketCount);
    }

    method IncVersion(step: nat)
      modifies this`serverVersion
      ensures serverVersion == NextVersion(Config(), old(serverVersion), step)
    {
      serverVersion := serverVersion + step;
      if minConfigVersion > serverVersion {
        serverVersion := minConfigVersion;
      }
    }

    /** A master reports bucket `b` done. The tally it is settled in always has its entry. */
    method SetMigratingHashtable(b: nat, server: int)
      requires Valid() && b < bucketCount
      modifies this`mHashTable, this`migrateBlockCount, this`migrateMachine
      ensures Valid() && Now() == Report(Config(), old(Now()), b, server)
    {
      ReportKeepsInv(Config(), Now(), b, server);
      if migrateBlockCount == -1 || mHashTable[0][b] != server {
        return;
      }
      var changed;
      mHashTable, changed := CopyBucket(mHashTable, dHashTable, b);
      if changed {
        migrateBlockCount := migrateBlockCount - 1;
        assert server in migrateMachine;
        migrateMachine := Decrement(migrateMachine, server);
      }
    }

    method DoFinishMigrate(server: int, version: nat, b: nat) returns (ok: bool)
      requires Valid() && b < bucketCount
      modifies this`mHashTable, this`migrateBlockCount, this`migrateMachine
      ensures Valid() && Now() == Step(Config(), old(Now()), Finish(server, version, b))
      ensures ok <==> dataNeedMove && version == serverVersion
    {
      if !dataNeedMove || version != serverVersion {
        return false;
      }
      SetMigratingHashtable(b, server);
      return true;
    }

    /** A heartbeat of the current version brings all buckets a server has finished, once. */
    method DoProxyReport(server: int, version: nat, bs: seq<nat>)
      requires Valid() && forall i :: 0 <= i < |bs| ==> bs[i] < bucketCount
      modifies this`mHashTable, this`migrateBlockCount, this`migrateMachine, this`reportedServerId
      ensures Valid() && Now() == Step(Config(), old(Now()), Heartbeat(server, version, bs))
    {
      if version != serverVersion || migrateBlockCount == -1 || server in reportedServerId {
        return;
      }
      reportedServerId := reportedServerId + {server};
      ghost var start := Now();
      var i := 0;
      while i < |bs|
        invariant 0 <= i <= |bs| && Valid()
        invariant ReportAll(Config(), Now(), bs[i..], server) == ReportAll(Config(), start, bs, server)
      {
        SetMigratingHashtable(bs[i], server);
        assert bs[i..][1..] == bs[i + 1..];
        i := i + 1;
      }
    }

    /** Completes the migration when nothing is outstanding. It also tells the caller not to wait when one
        of the servers it waits for is down. */
    method CheckMigrateComplete(down: set<int>) returns (done: bool)
      requires Valid()
      modifies this`hashTable, this`migrateBlockCount, this`reportedServerId, this`serverVersion
      ensures Valid() && Now() == Step(Config(), old(Now()), Check)
      ensures done <==> !dataNeedMove || old(migrateBlockCount) == -1 || old(migrateMachine) == map[]
                        || exists s :: s in old(migrateMachine) && s in down
      ensures done && dataNeedMove && old(migrateMachine) == map[] ==> hashTable == mHashTable == dHashTable
    {
      StepKeepsInv(Config(), Now(), Check);
      if !dataNeedMove || migrateBlockCount == -1 {
        return true;
      }
      if migrateMachine != map[] {
        return exists s :: s in migrateMachine && s in down;
      }
      EmptyTallyMeansDone(Config(), Now());
      assert mHashTable == dHashTable;
      IncVersion(1);
      hashTable := dHashTable;
      migrateBlockCount := -1;
      reportedServerId := {};
      return true;
    }

    method HardCheckMigrateComplete()
      requires Valid()
      modifies this`migrateMachine
      ensures Valid() && Now() == Step(Config(), old(Now()), Event.HardCheck)
    {
      StepKeepsInv(Config(), Now(), Event.HardCheck);
      if mHashTable == dHashTable {
        migrateMachine := map[];
      }
    }

    method CheckFirstRun() returns (firstRun: bool)
      ensures firstRun <==> AllZero(mHashTable)
    {
      firstRun := AllZero(mHashTable);
    }

    /** What a builder must offer for the second section to succeed or fail cleanly. */
    ghost predicate Ready(builder: TableBuilder, source: Table, quick: Table, firstRun: bool)
      reads this, builder
    {
      && builder.copyCount == copyCount && builder.bucketCount == bucketCount
      && builder.Given(source) && Genuine(source, builder.availableServer) && builder.availableServer != {}
      && builder.RoomsKnown() && (builder.ByRack() ==> copyCount >= 2)
      && pending == Some(Snapshot(source, quick, firstRun, builder.availableServer))
    }

    /** A builder for the live servers, and the progress table in its terms. */
    method LoadBuilder(upNode: set<int>, rack: int -> int, strategy: Strategy, ratio: real)
        returns (b: TableBuilder, source: Table)
      requires Tabled(Config(), mHashTable) && 0 !in upNode && upNode != {}
      ensures fresh(b) && b.copyCount == copyCount && b.bucketCount == bucketCount && b.strategy == strategy
      ensures b.Given(source) && Genuine(source, b.availableServer) && b.availableServer != {} && b.RoomsKnown()
      ensures b.availableServer == set id | id in upNode :: Node(id, rack(id))
      ensures Write(source) == mHashTable && b.masters.count == map[]
      ensures forall i :: 0 <= i < bucketCount ==> (Alive(source, i, b.availableServer) <==> !Lost(mHashTable, i, upNode))
    {
      b := new TableBuilder(bucketCount, copyCount, strategy, ratio);
      b.SetAvailableServer(upNode, rack);
      source := Load(mHashTable, rack);
      WriteLoad(mHashTable, rack);
      LoadGenuine(mHashTable, rack, b.availableServer);
      forall i | 0 <= i < bucketCount ensures Alive(source, i, b.availableServer) <==> !Lost(mHashTable, i, upNode) {
        AliveMeansNotLost(mHashTable, i, upNode, rack);
      }
    }

    /** The first locked section of a rebuild: looks at the live servers and the progress table, and
        prepares the table to serve meanwhile. It gives up when there are too few servers, or when
        data must move and some bucket has lost all its copies. */
    method BeginRebuild(upNode: set<int>, rack: int -> int, strategy: Strategy, ratio: real, minServers: nat)
        returns (builder: TableBuilder?, source: Table, quick: Table, firstRun: bool)
      requires Valid() && pending.None? && 0 !in upNode && minServers >= 1
      requires strategy.RackSafety? ==> copyCount >= 2
      modifies this`pending, this`serverVersion
      ensures Valid()
      ensures builder == null <==>
                (|upNode| < minServers ||
                 (QuickWanted(Config(), AllZero(mHashTable)) && exists b :: 0 <= b < bucketCount && Lost(mHashTable, b, upNode)))
      ensures builder == null ==> Now() == Step(Config(), old(Now()), GiveUp)
      ensures builder != null ==> fresh(builder) && Ready(builder, source, quick, firstRun)
      ensures builder != null ==> Enabled(Config(), old(Now()), Begin(source, quick, builder.availableServer))
      ensures builder != null ==> Now() == Step(Config(), old(Now()), Begin(source, quick, builder.availableServer))
      ensures builder != null ==> builder.availableServer == set id | id in upNode :: Node(id, rack(id))
    {
      firstRun := CheckFirstRun();
      builder, source, quick := null, [], [];
      if |upNode| < minServers {
        IncVersion(1);
        return;
      }
      var b;
      b, source := LoadBuilder(upNode, rack, strategy, ratio);
      quick := source;
      if dataNeedMove && copyCount > 1 && !firstRun {
        var ok;
        ok, quick := b.BuildQuickTable(source);
        if !ok {
          IncVersion(1);
          return;
        }
      }
      StepKeepsInv(Config(), Now(), Begin(source, quick, b.availableServer));
      pending := Some(Snapshot(source, quick, firstRun, b.availableServer));
      builder := b;
    }

    /** The second locked section, with the new table from the builder. */
    method EndRebuild(builder: TableBuilder, source: Table, quick: Table, firstRun: bool)
        returns (ok: bool, ghost e: Event)
      requires Valid() && Ready(builder, source, quick, firstRun)
      modifies this, builder
      ensures Valid() && Enabled(Config(), old(Now()), e) && Now() == Step(Config(), old(Now()), e)
      ensures ok <==> !(old(builder.strategy.RackSafety? && !builder.buildStatNormal) || |old(builder.availableServer)| < copyCount)
      ensures ok <==> e.End?
      ensures !ok ==> e == GiveUp
      ensures old(builder.NothingToDo(source)) ==>
                ok && hashTable == mHashTable == dHashTable == Write(source) && migrateBlockCount == -1
    {
      var dest;
      ok, dest := RunBuilder(builder, source);
      e := if ok then End(dest) else GiveUp;
      if ok {
        Adopt(source, quick, firstRun, dest, builder.availableServer);
      } else {
        Abandon();
      }
    }

    method Abandon()
      requires Valid()
      modifies this`serverVersion, this`pending
      ensures Valid() && Now() == Step(Config(), old(Now()), GiveUp)
    {
      StepKeepsInv(Config(), Now(), GiveUp);
      IncVersion(1);
      pending := None;
    }

    /** The new table is taken over; a table that is as it should be already schedules nothing. */
    method Adopt(source: Table, quick: Table, firstRun: bool, dest: Table, servers: set<Node>)
      requires Valid() && pending == Some(Snapshot(source, quick, firstRun, servers))
      requires Rebuilt(source, dest, copyCount, bucketCount, servers, false)
      modifies this
      ensures Valid() && Enabled(Config(), old(Now()), End(dest)) && Now() == Step(Config(), old(Now()), End(dest))
      ensures dest == source ==> hashTable == mHashTable == dHashTable == Write(source) && migrateBlockCount == -1
    {
      ghost var p := Snapshot(source, quick, firstRun, servers);
      StepKeepsInv(Config(), Now(), End(dest));
      if dest == source {
        NothingScheduled(Config(), Now(), p, dest);
      }
      InstallTables(source, quick, firstRun, dest, servers);
    }

    /** One of the steps that other threads may take while a rebuild is between its sections. */
    method Perform(e: Event)
      requires Valid() && Enabled(Config(), Now(), e)
      requires e.Finish? || e.Heartbeat? || e.Check? || e.HardCheck? || e.Bump?
      modifies this
      ensures Valid() && Now() == Step(Config(), old(Now()), e) && pending == old(pending)
    {
      StepKeepsInv(Config(), Now(), e);
      match e {
        case Finish(server, version, b) => var _ := DoFinishMigrate(server, version, b);
        case Heartbeat(server, version, bs) => DoProxyReport(server, version, bs);
        case Check =>
          var down: set<int> := *;
          var _ := CheckMigrateComplete(down);
        case HardCheck => HardCheckMigrateComplete();
        case Bump(step) => IncVersion(step);
      }
    }

    /** A whole rebuild: the group lock is given back between the two sections, and `between` is
        whatever the other threads do in the meantime. */
    method Rebuild(upNode: set<int>, rack: int -> int, strategy: Strategy, ratio: real, minServers: nat, between: seq<Event>)
        returns (ok: bool, ghost trace: seq<Event>)
      requires Valid() && pending.None? && 0 !in upNode && minServers >= 1
      requires strategy.RackSafety? ==> copyCount >= 2
      requires forall i :: 0 <= i < |between| ==> Interleaves(Config(), between[i])
      modifies this
      ensures Valid() && pending.None? && Run(Config(), old(Now()), trace, Now())
      ensures ok <==> |trace| == |between| + 2 && trace[|between| + 1].End?
    {
      ghost var first := Now();
      var builder, source, quick, firstRun := BeginRebuild(upNode, rack, strategy, ratio, minServers);
      if builder == null {
        ok, trace := false, [GiveUp];
        assert Run(Config(), Now(), [], Now());
        return;
      }
      trace := [Begin(source, quick, builder.availableServer)];
      assert Run(Config(), Now(), [], Now());
      assert trace[1..] == [];
      var i := 0;
      while i < |between|
        invariant 0 <= i <= |between| && Valid() && Ready(builder, source, quick, firstRun)
        invariant |trace| == i + 1 && Run(Config(), first, trace, Now())
      {
        ghost var before := Now();
        Perform(between[i]);
        RunExtend(Config(), first, trace, before, between[i]);
        trace := trace + [between[i]];
        i := i + 1;
      }
      ghost var before := Now();
      ghost var e;
      ok, e := EndRebuild(builder, source, quick, firstRun);
      RunExtend(Config(), first, trace, before, e);
      trace := trace + [e];
    }

    method InstallTables(source: Table, quick: Table, firstRun: bool, dest: Table, servers: set<Node>)
      requires Valid() && pending == Some(Snapshot(source, quick, firstRun, servers))
      requires Rebuilt(source, dest, copyCount, bucketCount, servers, false)
      modifies this
      ensures Now() == Finished(Config(), old(Now()), Snapshot(source, quick, firstRun, servers), dest)
    {
      ghost var p := Snapshot(source, quick, firstRun, servers);
      dHashTable := Write(dest);
      if dataNeedMove && !firstRun {
        mHashTable := if copyCount <= 1 then Patched(Write(source), dHashTable, ServerIds(servers)) else Write(quick);
      } else {
        mHashTable := Write(dest);
      }
      hashTable := mHashTable;
      assert mHashTable == StartTable(Config(), p, dest);
      var count := 0;
      if !firstRun {
        count := FillMigrateMachine();
      }
      migrateBlockCount := if count > 0 then count else -1;
      IncVersion(1);
      pending := None;
    }
  }

  /** The build between the two sections, for a table that data will move to. */
  method RunBuilder(builder: TableBuilder, source: Table) returns (ok: bool, dest: Table)
    requires builder.Given(source) && Genuine(source, builder.availableServer) && builder.availableServer != {}
    requires builder.copyCount >= 1 && builder.RoomsKnown() && (builder.ByRack() ==> builder.copyCount >= 2)
    modifies builder
    ensures builder.availableServer == old(builder.availableServer)
    ensures ok <==> !(old(builder.strategy.RackSafety? && !builder.buildStatNormal)
                      || |builder.availableServer| < builder.copyCount)
    ensures ok ==> Rebuilt(source, dest, builder.copyCount, builder.bucketCount, builder.availableServer, false)
    ensures old(builder.NothingToDo(source)) ==> ok && dest == source
  {
    if builder.NothingToDo(source) {
      var used := PlacedFits(source, 0, builder.availableServer, builder.copyCount);
      SubsetSmaller(used, builder.availableServer);
    }
    var code;
    code, dest := builder.RebuildTable(source, true);
    ok := code.BuildOk?;
    if ok {
      RebuiltPlain(source, dest, builder.copyCount, builder.bucketCount, builder.availableServer, builder.ByRack());
    }
  }

  lemma RebuiltPlain(t: Table, r: Table, copies: nat, buckets: nat, servers: set<Node>, byRack: bool)
    requires Rebuilt(t, r, copies, buckets, servers, byRack)
    ensures Rebuilt(t, r, copies, buckets, servers, false)
  {
  }

  /** No copy of bucket `b` is on a live server. */
  ghost predicate Lost(m: Ids, b: nat, up: set<int>) {
    forall l :: 0 <= l < |m| && b < |m[l]| ==> m[l][b] !in up
  }

  lemma AliveMeansNotLost(m: Ids, b: nat, up: set<int>, rack: int -> int)
    requires forall l :: 0 <= l < |m| ==> b < |m[l]|
    ensures Alive(Load(m, rack), b, set id | id in up :: Node(id, rack(id))) <==> !Lost(m, b, up)
  {
    var servers := set id | id in up :: Node(id, rack(id));
    forall l | 0 <= l < |m| ensures Load(m, rack)[l][b] in servers <==> m[l][b] in up {
    }
  }

  ghost predicate Interleaves(g: Group, e: Event) {
    && (e.Finish? || e.Heartbeat? || e.Check? || e.HardCheck? || e.Bump?)
    && (e.Finish? ==> e.bucket < g.buckets)
    && (e.Heartbeat? ==> forall i :: 0 <= i < |e.buckets| ==> e.buckets[i] < g.buckets)
  }

  lemma {:induction false} RunExtend(g: Group, first: State, es: seq<Event>, last: State, e: Event)
    requires Run(g, first, es, last) && Typed(g, last) && Enabled(g, last, e) && Typed(g, Step(g, last, e))
    ensures Run(g, first, es + [e], Step(g, last, e))
    decreases |es|
  {
    if es == [] {
      assert ([e])[1..] == [];
      assert es + [e] == [e];
    } else {
      RunExtend(g, Step(g, first, es[0]), es[1..], last, e);
      assert (es + [e])[1..] == es[1..] + [e];
    }
  }

  /** Whether bucket `b` has to migrate: its master changes, or a slave of the target is not among its
      slaves now. */
  method MigrateThisBucket(m: Ids, d: Ids, b: nat) returns (migrate: bool)
    requires 1 <= |m| == |d| && forall l :: 0 <= l < |m| ==> b < |m[l]| && b < |d[l]|
    ensures migrate <==> MustMigrate(m, d, b)
  {
    migrate := false;
    if m[0][b] != 0 {
      if m[0][b] != d[0][b] {
        return true;
      }
      for j := 1 to |m|
        invariant forall i :: 1 <= i < j ==> !SlaveMissing(m, d, b, i)
      {
        var found := SlaveIsThere(m, d, b, j);
        if !found {
          return true;
        }
      }
    }
  }

  method SlaveIsThere(m: Ids, d: Ids, b: nat, j: nat) returns (found: bool)
    requires 1 <= j < |m| == |d| && forall l :: 0 <= l < |m| ==> b < |m[l]| && b < |d[l]|
    ensures found <==> !SlaveMissing(m, d, b, j)
  {
    for k := 1 to |m|
      invariant forall i :: 1 <= i < k ==> d[j][b] != m[i][b]
    {
      if d[j][b] == m[k][b] {
        return true;
      }
    }
    found := false;
  }

  /** Takes bucket `b` over from `d`, cell by cell, and tells whether any cell changed. */
  method CopyBucket(m: Ids, d: Ids, b: nat) returns (r: Ids, changed: bool)
    requires |m| == |d| && forall l :: 0 <= l < |m| ==> b < |m[l]| && b < |d[l]|
    ensures r == TakeOver(m, d, b)
    ensures changed <==> !SameBucket(m, d, b)
    ensures !changed ==> r == m
  {
    r, changed := m, false;
    var l := 0;
    while l < |m|
      invariant 0 <= l <= |m| == |r|
      invariant forall k :: 0 <= k < l ==> r[k] == m[k][b := d[k][b]]
      invariant forall k :: l <= k < |m| ==> r[k] == m[k]
      invariant changed <==> exists k :: 0 <= k < l && m[k][b] != d[k][b]
      invariant !changed ==> r == m
    {
      if r[l][b] != d[l][b] {
        r := r[l := r[l][b := d[l][b]]];
        changed := true;
      } else {
        assert m[l][b := d[l][b]] == m[l];
      }
      l := l + 1;
    }
    assert r == TakeOver(m, d, b);
  }

  function Increment(machine: map<int, int>, server: int): map<int, int> {
    machine[server := (if server in machine then machine[server] else 0) + 1]
  }

  /** The flagged buckets are counted, in all and per master. */
  method TallyBuckets(m: Ids, d: Ids, buckets: nat) returns (count: nat, machine: map<int, int>)
    requires 1 <= |m| == |d| && forall l :: 0 <= l < |m| ==> |m[l]| == |d[l]| == buckets
    ensures count == |Flagged(m, d, buckets)| && machine == TallyOf(Flagged(m, d, buckets), m[0])
  {
    count, machine := 0, map[];
    for b := 0 to buckets
      invariant count == |Flagged(m, d, b)| && Tallies(machine, Flagged(m, d, b), m[0])
    {
      var migrate := MigrateThisBucket(m, d, b);
      SeenNext(m, d, b);
      if migrate {
        TallyAdd(machine, Flagged(m, d, b), m[0], b);
        machine := Increment(machine, m[0][b]);
        count := count + 1;
      }
    }
    TallyUnique(machine, TallyOf(Flagged(m, d, buckets), m[0]), Flagged(m, d, buckets), m[0]);
  }

  lemma SeenNext(m: Ids, d: Ids, b: nat)
    requires 1 <= |m| == |d| && forall l :: 0 <= l < |m| ==> b < |m[l]| && b < |d[l]|
    ensures Flagged(m, d, b + 1) == Flagged(m, d, b) + (if MustMigrate(m, d, b) then {b} else {})
    ensures b !in Flagged(m, d, b)
  {
  }

  lemma TallyAdd(machine: map<int, int>, s: set<nat>, masters: seq<int>, b: nat)
    requires Tallies(machine, s, masters) && b !in s && b < |masters|
    ensures Tallies(Increment(machine, masters[b]), s + {b}, masters)
  {
    var more := Increment(machine, masters[b]);
    forall k
      ensures k in more <==> OfServer(s + {b}, masters, k) != {}
      ensures k in more ==> more[k] == |OfServer(s + {b}, masters, k)|
    {
      OfServerAdd(s, masters, b, k);
    }
  }

  lemma OfServerAdd(s: set<nat>, masters: seq<int>, b: nat, k: int)
    requires b !in s && b < |masters|
    ensures k == masters[b] ==> b in OfServer(s + {b}, masters, k)
    ensures |OfServer(s + {b}, masters, k)| == |OfServer(s, masters, k)| + if k == masters[b] then 1 else 0
    ensures k != masters[b] ==> OfServer(s + {b}, masters, k) == OfServer(s, masters, k)
  {
    if k == masters[b] {
      assert OfServer(s + {b}, masters, k) == OfServer(s, masters, k) + {b};
    } else {
      assert OfServer(s + {b}, masters, k) == OfServer(s, masters, k);
    }
  }
}
