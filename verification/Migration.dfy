/** The migration protocol of one group as a state machine over its locked steps. */
module Migration {
  import opened Options
  import opened Counting
  import opened Placement
  import opened Rows
  import opened Bookkeeping
  import opened Accounting

  /** What a rebuild remembers between its two locked sections: the progress table it read, the
      table to serve meanwhile, and the servers it saw. */
  datatype Snapshot = Snapshot(source: Table, quick: Table, firstRun: bool, servers: set<Node>)

  datatype Group = Group(copies: nat, buckets: nat, needMove: bool, minVersion: nat)

  /** `h` is served, `m` is the progress, `d` the target; `blockCount` is -1 when nothing migrates. */
  datatype State = State(
    h: Ids, m: Ids, d: Ids,
    blockCount: int,
    machine: map<int, int>,
    reported: set<int>,
    version: nat,
    pending: Option<Snapshot>)

  // ----- pending buckets and their tally -----

  function PendingBuckets(m: Ids, d: Ids, buckets: nat): set<nat>
    requires |m| == |d| && forall l :: 0 <= l < |m| ==> |m[l]| == |d[l]| == buckets
  {
    set b: nat | b < buckets && !SameBucket(m, d, b)
  }

  /** Of the first `buckets`, those that the config server's test flags. */
  ghost function Flagged(m: Ids, d: Ids, buckets: nat): set<nat>
    requires 1 <= |m| == |d| && forall l :: 0 <= l < |m| ==> buckets <= |m[l]| && buckets <= |d[l]|
  {
    set b: nat | b < buckets && MustMigrate(m, d, b)
  }

  /** The buckets of `s` mastered by `server`. */
  ghost function OfServer(s: set<nat>, masters: seq<int>, server: int): set<nat> {
    set b | b in s && b < |masters| && masters[b] == server
  }

  /** `machine` counts, per master, the buckets of `s`. */
  ghost predicate Tallies(machine: map<int, int>, s: set<nat>, masters: seq<int>) {
    && (forall b :: b in s ==> b < |masters|)
    && (forall k :: k in machine <==> OfServer(s, masters, k) != {})
    && (forall k :: k in machine ==> machine[k] == |OfServer(s, masters, k)|)
  }

  /** One bucket less for `server`; an empty entry goes away. */
  function Decrement(machine: map<int, int>, server: int): map<int, int> {
    if server !in machine then machine
    else if machine[server] == 1 then machine - {server}
    else machine[server := machine[server] - 1]
  }

  lemma OfServerRemove(s: set<nat>, before: seq<int>, after: seq<int>, b: nat, k: int)
    requires b in s && b < |before| == |after|
    requires forall c :: 0 <= c < |before| && c != b ==> after[c] == before[c]
    ensures k != before[b] ==> OfServer(s - {b}, after, k) == OfServer(s, before, k)
    ensures k == before[b] ==>
              b in OfServer(s, before, k) && |OfServer(s - {b}, after, k)| == |OfServer(s, before, k)| - 1
  {
    if k == before[b] {
      assert OfServer(s - {b}, after, k) == OfServer(s, before, k) - {b};
    }
  }

  lemma TallyRemove(machine: map<int, int>, s: set<nat>, before: seq<int>, after: seq<int>, b: nat)
    requires Tallies(machine, s, before) && b in s && |after| == |before|
    requires forall c :: 0 <= c < |before| && c != b ==> after[c] == before[c]
    ensures before[b] in machine && machine[before[b]] >= 1
    ensures Tallies(Decrement(machine, before[b]), s - {b}, after)
  {
    var less := Decrement(machine, before[b]);
    OfServerRemove(s, before, after, b, before[b]);
    forall k
      ensures k in less <==> OfServer(s - {b}, after, k) != {}
      ensures k in less ==> less[k] == |OfServer(s - {b}, after, k)|
    {
      OfServerRemove(s, before, after, b, k);
    }
  }

  /** The tally adds up to the number of buckets. */
  lemma {:induction false} TallySum(machine: map<int, int>, s: set<nat>, masters: seq<int>)
    requires Tallies(machine, s, masters)
    ensures Sum(machine) == |s|
    decreases |s|
  {
    if s == {} {
      TallyEmpty(machine, s, masters);
    } else {
      var b :| b in s;
      var k := masters[b];
      TallyRemove(machine, s, masters, masters, b);
      TallySum(Decrement(machine, k), s - {b}, masters);
      SumRemove(machine, k);
      if machine[k] != 1 {
        SumUpdate(machine, k, machine[k] - 1);
      }
    }
  }

  lemma TallyEmpty(machine: map<int, int>, s: set<nat>, masters: seq<int>)
    requires Tallies(machine, s, masters)
    ensures machine == map[] <==> s == {}
  {
    Inhabited(machine.Keys);
    if s != {} {
      var b :| b in s;
      assert b in OfServer(s, masters, masters[b]);
    } else {
      assert forall k :: OfServer(s, masters, k) == {};
    }
  }

  /** The tally of `s`, as the config server computes it. */
  ghost function TallyOf(s: set<nat>, masters: seq<int>): (machine: map<int, int>)
    requires forall b :: b in s ==> b < |masters|
    ensures Tallies(machine, s, masters)
  {
    var keys := set b | b in s :: masters[b];
    var machine := map k | k in keys :: |OfServer(s, masters, k)|;
    assert forall b :: b in s ==> b in OfServer(s, masters, masters[b]);
    machine
  }

  lemma TallyUnique(a: map<int, int>, b: map<int, int>, s: set<nat>, masters: seq<int>)
    requires Tallies(a, s, masters) && Tallies(b, s, masters)
    ensures a == b
  {
    assert forall k :: k in a <==> k in b;
    assert forall k :: k in a ==> a[k] == b[k];
  }

  // ----- the steps -----

  ghost predicate Tabled(g: Group, t: Ids) {
    g.copies >= 1 && IdShape(t, g.copies, g.buckets)
  }

  ghost predicate Typed(g: Group, st: State) {
    Tabled(g, st.h) && Tabled(g, st.m) && Tabled(g, st.d)
  }

  predicate AllZero(t: Ids) {
    forall l, b :: 0 <= l < |t| && 0 <= b < |t[l]| ==> t[l][b] == 0
  }

  function NextVersion(g: Group, version: nat, step: nat): (v: nat)
    ensures v >= version + step && v >= g.minVersion && (v == version + step || v == g.minVersion)
  {
    if g.minVersion > version + step then g.minVersion else version + step
  }

  /** `m` with bucket `b` taken over from `d`. */
  function TakeOver(m: Ids, d: Ids, b: nat): (r: Ids)
    requires |m| == |d| && forall l :: 0 <= l < |m| ==> b < |m[l]| && b < |d[l]|
    ensures |r| == |m| && forall l :: 0 <= l < |m| ==> r[l] == m[l][b := d[l][b]]
  {
    seq(|m|, l requires 0 <= l < |m| => m[l][b := d[l][b]])
  }

  /** A master reports that bucket `b` has reached its target. */
  function Report(g: Group, st: State, b: nat, server: int): State
    requires Typed(g, st) && b < g.buckets
  {
    if st.blockCount == -1 || st.m[0][b] != server || SameBucket(st.m, st.d, b) then st
    else st.(m := TakeOver(st.m, st.d, b),
             blockCount := st.blockCount - 1,
             machine := Decrement(st.machine, server))
  }

  function ReportAll(g: Group, st: State, bs: seq<nat>, server: int): (r: State)
    requires Typed(g, st) && forall i :: 0 <= i < |bs| ==> bs[i] < g.buckets
    ensures Typed(g, r) && r.h == st.h && r.d == st.d && r.version == st.version && r.pending == st.pending
    ensures r.reported == st.reported
    decreases |bs|
  {
    if bs == [] then st else ReportAll(g, Report(g, st, bs[0], server), bs[1..], server)
  }

  /** With one copy, a lost master is replaced by its target at once. */
  function Patched(m: Ids, d: Ids, ids: set<int>): (r: Ids)
    requires |m| == |d| && forall l :: 0 <= l < |m| ==> |m[l]| == |d[l]|
    ensures |r| == |m| && forall l :: 0 <= l < |m| ==> |r[l]| == |m[l]|
    ensures forall l, b :: 0 <= l < |m| && 0 <= b < |m[l]| ==> r[l][b] == if m[l][b] in ids then m[l][b] else d[l][b]
  {
    seq(|m|, l requires 0 <= l < |m| =>
      seq(|m[l]|, b requires 0 <= b < |m[l]| => if m[l][b] in ids then m[l][b] else d[l][b]))
  }

  function ServerIds(servers: set<Node>): set<int> {
    set s | s in servers :: s.id
  }

  /** The progress table a rebuild starts with: the quick table, or the target when data need not move. */
  function StartTable(g: Group, p: Snapshot, dest: Table): (m: Ids)
    requires Shape(p.source, g.copies, g.buckets) && Shape(p.quick, g.copies, g.buckets) && Shape(dest, g.copies, g.buckets)
    ensures IdShape(m, g.copies, g.buckets)
  {
    if !g.needMove || p.firstRun then Write(dest)
    else if g.copies <= 1 then Patched(Write(p.source), Write(dest), ServerIds(p.servers))
    else Write(p.quick)
  }

  datatype Event =
    | Begin(source: Table, quick: Table, servers: set<Node>)
    | End(dest: Table)
    | GiveUp
    | Finish(server: int, version: nat, bucket: nat)
    | Heartbeat(server: int, version: nat, buckets: seq<nat>)
    | Check
    | HardCheck
    | Bump(step: nat)
    | Restart

  ghost predicate QuickWanted(g: Group, firstRun: bool) {
    g.needMove && g.copies > 1 && !firstRun
  }

  ghost predicate SnapshotOk(g: Group, p: Snapshot) {
    && g.copies >= 1 && Shape(p.source, g.copies, g.buckets) && Servers(p.servers)
    && (if QuickWanted(g, p.firstRun) then QuickTable(p.source, p.quick, g.copies, g.buckets, p.servers)
        else p.quick == p.source)
  }

  /** What the rest of the system guarantees about an event: a rebuild reads the current progress
      table and ends with a table the builder made; reports name buckets of the group. */
  ghost predicate Enabled(g: Group, st: State, e: Event) {
    match e
    case Begin(source, quick, servers) =>
      && st.pending.None? && Write(source) == st.m
      && SnapshotOk(g, Snapshot(source, quick, AllZero(st.m), servers))
    case End(dest) =>
      st.pending.Some? && SnapshotOk(g, st.pending.value)
      && Rebuilt(st.pending.value.source, dest, g.copies, g.buckets, st.pending.value.servers, false)
    case Finish(_, _, b) => b < g.buckets
    case Heartbeat(_, _, bs) => forall i :: 0 <= i < |bs| ==> bs[i] < g.buckets
    case _ => true
  }

  ghost function Step(g: Group, st: State, e: Event): State
    requires Typed(g, st) && Enabled(g, st, e)
  {
    match e
    case Begin(source, quick, servers) =>
      st.(pending := Some(Snapshot(source, quick, AllZero(st.m), servers)))
    case End(dest) => Finished(g, st, st.pending.value, dest)
    case GiveUp => st.(pending := None, version := NextVersion(g, st.version, 1))
    case Finish(server, version, b) =>
      if !g.needMove || version != st.version then st else Report(g, st, b, server)
    case Heartbeat(server, version, bs) =>
      if version != st.version || st.blockCount == -1 || server in st.reported then st
      else ReportAll(g, st.(reported := st.reported + {server}), bs, server)
    case Check =>
      if !g.needMove || st.blockCount == -1 || st.machine != map[] then st
      else st.(h := st.d, blockCount := -1, reported := {}, version := NextVersion(g, st.version, 1))
    case HardCheck => if st.m == st.d then st.(machine := map[]) else st
    case Bump(n) => st.(version := NextVersion(g, st.version, n))
    case Restart =>
      st.(pending := None, reported := {},
          machine := if st.blockCount > 0 then TallyOf(Flagged(st.m, st.d, g.buckets), st.m[0]) else map[])
  }

  /** The second locked section of a rebuild. */
  ghost function Finished(g: Group, st: State, p: Snapshot, dest: Table): State
    requires Typed(g, st) && SnapshotOk(g, p) && Shape(dest, g.copies, g.buckets)
  {
    var m := StartTable(g, p, dest);
    var d := Write(dest);
    var flagged := if p.firstRun then {} else Flagged(m, d, g.buckets);
    st.(h := m, m := m, d := d,
        blockCount := if flagged == {} then -1 else |flagged|,
        machine := if p.firstRun then st.machine else TallyOf(flagged, m[0]),
        version := NextVersion(g, st.version, 1),
        pending := None)
  }

  // ----- the invariant -----

  /** The test for migration is exact on the current tables. */
  ghost predicate ExactAt(m: Ids, d: Ids, b: nat)
    requires 1 <= |m| == |d| && forall l :: 0 <= l < |m| ==> b < |m[l]| && b < |d[l]|
  {
    MustMigrate(m, d, b) <==> !SameBucket(m, d, b)
  }

  ghost predicate Exact(m: Ids, d: Ids, buckets: nat)
    requires 1 <= |m| == |d| && forall l :: 0 <= l < |m| ==> |m[l]| == |d[l]| == buckets
  {
    forall b :: 0 <= b < buckets ==> ExactAt(m, d, b)
  }

  /** Every bucket has a master. */
  ghost predicate Mastered(t: Ids) {
    |t| >= 1 && forall b :: 0 <= b < |t[0]| ==> t[0][b] != 0
  }

  ghost predicate Counted(g: Group, st: State)
    requires Typed(g, st)
  {
    var pending := PendingBuckets(st.m, st.d, g.buckets);
    st.blockCount == |pending| && Tallies(st.machine, pending, st.m[0])
  }

  ghost predicate Inv(g: Group, st: State) {
    && Typed(g, st) && g.buckets >= 1
    && Exact(st.m, st.d, g.buckets)
    && (st.blockCount == -1 ==> st.h == st.m == st.d && st.machine == map[])
    && (st.blockCount != -1 ==> Counted(g, st) && Mastered(st.m) && Mastered(st.d))
    && (st.pending.Some? ==> SnapshotOk(g, st.pending.value) && (st.pending.value.firstRun ==> st.blockCount == -1))
  }

  lemma TakeOverExact(m: Ids, d: Ids, b: nat, buckets: nat)
    requires 1 <= |m| == |d| && forall l :: 0 <= l < |m| ==> |m[l]| == |d[l]| == buckets
    requires Exact(m, d, buckets) && b < buckets
    ensures Exact(TakeOver(m, d, b), d, buckets)
    ensures PendingBuckets(TakeOver(m, d, b), d, buckets) == PendingBuckets(m, d, buckets) - {b}
  {
    var r := TakeOver(m, d, b);
    assert SameBucket(r, d, b);
    forall c | 0 <= c < buckets && c != b
      ensures ExactAt(r, d, c)
      ensures SameBucket(r, d, c) <==> SameBucket(m, d, c)
    {
      assert ExactAt(m, d, c);
      assert forall l :: 0 <= l < |m| ==> r[l][c] == m[l][c];
      assert forall j :: 1 <= j < |m| ==> (SlaveMissing(r, d, c, j) <==> SlaveMissing(m, d, c, j));
    }
    if MustMigrate(r, d, b) {
      MustMigrateDiffers(r, d, b);
    }
    assert ExactAt(r, d, b);
  }

  /** An accepted report settles one pending bucket of its master, and the master has one to settle. */
  lemma ReportKeepsInv(g: Group, st: State, b: nat, server: int)
    requires Inv(g, st) && b < g.buckets
    ensures Inv(g, Report(g, st, b, server))
    ensures Report(g, st, b, server) != st ==> server in st.machine && st.machine[server] >= 1 && st.blockCount >= 1
  {
    var r := Report(g, st, b, server);
    if r != st {
      TakeOverExact(st.m, st.d, b, g.buckets);
      var pending := PendingBuckets(st.m, st.d, g.buckets);
      assert b in pending;
      TallyRemove(st.machine, pending, st.m[0], r.m[0], b);
      assert |pending - {b}| == |pending| - 1;
    }
  }

  lemma {:induction false} ReportAllKeepsInv(g: Group, st: State, bs: seq<nat>, server: int)
    requires Inv(g, st) && forall i :: 0 <= i < |bs| ==> bs[i] < g.buckets
    ensures Inv(g, ReportAll(g, st, bs, server))
    decreases |bs|
  {
    if bs != [] {
      ReportKeepsInv(g, st, bs[0], server);
      ReportAllKeepsInv(g, Report(g, st, bs[0], server), bs[1..], server);
    }
  }

  /** The buckets of `bs` that `server` masters have reached their target, and the others are as they were. */
  ghost predicate Settled(g: Group, st: State, bs: seq<nat>, server: int, r: State)
    requires Typed(g, st) && Typed(g, r)
  {
    forall l, c :: 0 <= l < g.copies && 0 <= c < g.buckets ==>
      r.m[l][c] == if c in bs && st.m[0][c] == server then st.d[l][c] else st.m[l][c]
  }

  /** A report takes its bucket to the target, if it is from the bucket's master, and no other. */
  lemma ReportSettles(g: Group, st: State, b: nat, server: int)
    requires Inv(g, st) && b < g.buckets && st.blockCount != -1
    ensures Settled(g, st, [b], server, Report(g, st, b, server))
    ensures Report(g, st, b, server).blockCount != -1
  {
    ReportKeepsInv(g, st, b, server);
  }

  /** All buckets of a list are reported. */
  lemma {:induction false} ReportAllSettles(g: Group, st: State, bs: seq<nat>, server: int)
    requires Inv(g, st) && st.blockCount != -1 && forall i :: 0 <= i < |bs| ==> bs[i] < g.buckets
    ensures Settled(g, st, bs, server, ReportAll(g, st, bs, server))
    decreases |bs|
  {
    if bs != [] {
      var next := Report(g, st, bs[0], server);
      ReportKeepsInv(g, st, bs[0], server);
      ReportSettles(g, st, bs[0], server);
      ReportAllSettles(g, next, bs[1..], server);
      SettledJoin(g, st, next, ReportAll(g, st, bs, server), bs, server);
    }
  }

  lemma SettledJoin(g: Group, st: State, next: State, r: State, bs: seq<nat>, server: int)
    requires Typed(g, st) && Typed(g, next) && Typed(g, r) && next.d == st.d && bs != []
    requires Settled(g, st, [bs[0]], server, next) && Settled(g, next, bs[1..], server, r)
    ensures Settled(g, st, bs, server, r)
  {
    forall l, c | 0 <= l < g.copies && 0 <= c < g.buckets
      ensures r.m[l][c] == if c in bs && st.m[0][c] == server then st.d[l][c] else st.m[l][c]
    {
      assert c in bs <==> c in [bs[0]] || c in bs[1..];
      assert next.m[0][c] == if c in [bs[0]] && st.m[0][c] == server then st.d[0][c] else st.m[0][c];
      assert next.m[l][c] == if c in [bs[0]] && st.m[0][c] == server then st.d[l][c] else st.m[l][c];
    }
  }

  /** A heartbeat is heard if it is of the current version and the server's first since the last migration
      was completed: then all buckets in it that the server masters are settled, and nothing else changes. A
      rebuild in between does not make the server heard again. */
  lemma HeartbeatSettles(g: Group, st: State, server: int, version: nat, bs: seq<nat>)
    requires Inv(g, st) && Enabled(g, st, Heartbeat(server, version, bs))
    ensures var r := Step(g, st, Heartbeat(server, version, bs));
            && Typed(g, r) && r.h == st.h && r.d == st.d && r.version == st.version && r.pending == st.pending
            && if version == st.version && st.blockCount != -1 && server !in st.reported
               then Settled(g, st, bs, server, r) && r.reported == st.reported + {server}
               else r == st
  {
    if version == st.version && st.blockCount != -1 && server !in st.reported {
      var heard := st.(reported := st.reported + {server});
      ReportAllSettles(g, heard, bs, server);
      var r := ReportAll(g, heard, bs, server);
      assert Settled(g, st, bs, server, r);
    }
  }

  /** A check completes the migration exactly when progress has reached the target. */
  lemma CheckIsExact(g: Group, st: State)
    requires Inv(g, st) && g.needMove && st.blockCount != -1
    ensures var r := Step(g, st, Check);
            if st.m == st.d then r.h == r.m == r.d == st.d && r.blockCount == -1 && r.reported == {} && r.version > st.version
            else r == st
  {
    EmptyTallyMeansDone(g, st);
  }

  /** Reporting the same bucket again changes nothing. */
  lemma ReportTwice(g: Group, st: State, b: nat, server: int, again: int)
    requires Inv(g, st) && b < g.buckets && Report(g, st, b, server) != st
    ensures Typed(g, Report(g, st, b, server))
    ensures Report(g, Report(g, st, b, server), b, again) == Report(g, st, b, server)
  {
    var r := Report(g, st, b, server);
    assert forall l :: 0 <= l < |st.m| ==> r.m[l] == st.m[l][b := st.d[l][b]];
    assert SameBucket(r.m, r.d, b);
  }

  /** The start table of a rebuild has a live master everywhere and passes the exact test. */
  lemma StartIsExact(g: Group, p: Snapshot, dest: Table)
    requires SnapshotOk(g, p) && Rebuilt(p.source, dest, g.copies, g.buckets, p.servers, false)
    ensures Exact(StartTable(g, p, dest), Write(dest), g.buckets)
    ensures Mastered(Write(dest)) && Mastered(StartTable(g, p, dest))
    ensures forall b :: 0 <= b < g.buckets ==> StartTable(g, p, dest)[0][b] in ServerIds(p.servers)
  {
    var m, d := StartTable(g, p, dest), Write(dest);
    forall b | 0 <= b < g.buckets
      ensures ExactAt(m, d, b) && d[0][b] != 0 && m[0][b] != 0 && m[0][b] in ServerIds(p.servers)
    {
      assert PlacedColumn(dest, b, p.servers);
      assert dest[0][b] in p.servers;
      if !g.needMove || p.firstRun {
        if MustMigrate(m, d, b) {
          MustMigrateDiffers(m, d, b);
        }
      } else if g.copies <= 1 {
        assert m[0][b] in ServerIds(p.servers);
        SingleCopyTestIsExact(m, d, b);
      } else {
        QuickIsConservative(p.source, p.quick, g.copies, g.buckets, p.servers, b);
        TestIsExact(p.source, p.quick, dest, g.copies, g.buckets, p.servers, false, b);
      }
    }
  }

  lemma FlaggedIsPending(m: Ids, d: Ids, buckets: nat)
    requires 1 <= |m| == |d| && forall l :: 0 <= l < |m| ==> |m[l]| == |d[l]| == buckets
    requires Exact(m, d, buckets)
    ensures Flagged(m, d, buckets) == PendingBuckets(m, d, buckets)
    ensures Flagged(m, d, buckets) == {} ==> m == d
  {
    forall b: nat | b < buckets ensures MustMigrate(m, d, b) <==> !SameBucket(m, d, b) {
      assert ExactAt(m, d, b);
    }
    if Flagged(m, d, buckets) == {} {
      forall l | 0 <= l < |m| ensures m[l] == d[l] {
        forall b: nat | b < buckets ensures m[l][b] == d[l][b] {
          assert b !in Flagged(m, d, buckets);
          assert SameBucket(m, d, b);
        }
      }
    }
  }

  /** The second section of a rebuild restores the invariant, whatever happened since the first. */
  lemma FinishedKeepsInv(g: Group, st: State, p: Snapshot, dest: Table)
    requires Inv(g, st) && st.pending == Some(p)
    requires Rebuilt(p.source, dest, g.copies, g.buckets, p.servers, false)
    ensures Inv(g, Finished(g, st, p, dest))
  {
    var r := Finished(g, st, p, dest);
    StartIsExact(g, p, dest);
    FlaggedIsPending(r.m, r.d, g.buckets);
    if !p.firstRun {
      TallyEmpty(r.machine, Flagged(r.m, r.d, g.buckets), r.m[0]);
    }
  }

  /** In a reachable state an empty tally means that progress has reached the target. */
  lemma EmptyTallyMeansDone(g: Group, st: State)
    requires Inv(g, st)
    ensures st.blockCount != -1 ==> (st.machine == map[] <==> st.m == st.d)
    ensures st.blockCount != -1 ==> st.blockCount == Sum(st.machine)
  {
    if st.blockCount != -1 {
      var pending := PendingBuckets(st.m, st.d, g.buckets);
      TallyEmpty(st.machine, pending, st.m[0]);
      TallySum(st.machine, pending, st.m[0]);
      FlaggedIsPending(st.m, st.d, g.buckets);
      if st.m == st.d {
        assert forall b: nat :: b < g.buckets ==> SameBucket(st.m, st.d, b);
      }
    }
  }

  lemma StepKeepsInv(g: Group, st: State, e: Event)
    requires Inv(g, st) && Enabled(g, st, e)
    ensures Inv(g, Step(g, st, e))
  {
    match e
    case Begin(source, quick, servers) =>
      if AllZero(st.m) && st.blockCount != -1 {
        assert st.m[0][0] != 0;
      }
    case End(dest) => FinishedKeepsInv(g, st, st.pending.value, dest);
    case Finish(server, _, b) => ReportKeepsInv(g, st, b, server);
    case Heartbeat(server, _, bs) =>
      ReportAllKeepsInv(g, st.(reported := st.reported + {server}), bs, server);
    case Check => EmptyTallyMeansDone(g, st);
    case HardCheck => EmptyTallyMeansDone(g, st);
    case Restart =>
      FlaggedIsPending(st.m, st.d, g.buckets);
      if st.blockCount == 0 {
        TallyEmpty(st.machine, PendingBuckets(st.m, st.d, g.buckets), st.m[0]);
      }
    case _ =>
  }

  // ----- runs -----

  ghost predicate Run(g: Group, first: State, es: seq<Event>, last: State)
    decreases |es|
  {
    Typed(g, first) &&
    if es == [] then first == last
    else Enabled(g, first, es[0]) && Run(g, Step(g, first, es[0]), es[1..], last)
  }

  /** A freshly created group: all tables empty, nothing migrating. */
  ghost predicate Fresh(g: Group, st: State) {
    && Typed(g, st) && g.buckets >= 1 && AllZero(st.m) && st.h == st.m == st.d
    && st.blockCount == -1 && st.machine == map[] && st.pending.None?
  }

  lemma FreshHasInv(g: Group, st: State)
    requires Fresh(g, st)
    ensures Inv(g, st)
  {
    forall b | 0 <= b < g.buckets ensures ExactAt(st.m, st.d, b) {
      assert SameBucket(st.m, st.d, b);
      assert st.m[0][b] == 0;
    }
  }

  /** Run invariant: in every run the count of outstanding buckets, the per-master tally and the
      buckets that differ agree, and nothing outstanding means served, progress and target are one. */
  lemma {:induction false} RunInvariant(g: Group, first: State, es: seq<Event>, last: State)
    requires Inv(g, first) && Run(g, first, es, last)
    ensures Inv(g, last)
    ensures last.blockCount == -1 ==> last.h == last.m == last.d
    ensures last.blockCount != -1 ==>
              last.blockCount == |PendingBuckets(last.m, last.d, g.buckets)| == Sum(last.machine)
    decreases |es|
  {
    if es == [] {
      EmptyTallyMeansDone(g, last);
    } else {
      StepKeepsInv(g, first, es[0]);
      RunInvariant(g, Step(g, first, es[0]), es[1..], last);
    }
  }

  /** The served table changes only when a rebuild ends or a migration is completed, and the progress table only
      when a rebuild ends or by reports of the current version. */
  lemma TablesChangeOnly(g: Group, st: State, e: Event)
    requires Inv(g, st) && Enabled(g, st, e)
    ensures Step(g, st, e).h != st.h ==> e.End? || (e.Check? && g.needMove && st.m == st.d)
    ensures Step(g, st, e).m != st.m ==> e.End? || (e.Finish? && e.version == st.version) || (e.Heartbeat? && e.version == st.version)
    ensures Step(g, st, e).d != st.d ==> e.End?
    ensures e.GiveUp? || (e.Bump? && e.step > 0) ==> Step(g, st, e).version > st.version
  {
    EmptyTallyMeansDone(g, st);
  }

  /** A restart recounts exactly the tally that was lost. */
  lemma RestartRecovers(g: Group, st: State)
    requires Inv(g, st)
    ensures Step(g, st, Restart) == st.(pending := None, reported := {})
  {
    var flagged := Flagged(st.m, st.d, g.buckets);
    FlaggedIsPending(st.m, st.d, g.buckets);
    if st.blockCount > 0 {
      TallyUnique(st.machine, TallyOf(flagged, st.m[0]), flagged, st.m[0]);
    } else if st.blockCount == 0 {
      TallyEmpty(st.machine, flagged, st.m[0]);
    }
  }

  /** What a rebuild starts from: with nothing to move, or in the first run, the target; with one copy, every
      bucket where its live master has it and the lost ones at their target; otherwise the live copies. */
  lemma StartKeepsLive(g: Group, p: Snapshot, dest: Table, b: nat)
    requires SnapshotOk(g, p) && Rebuilt(p.source, dest, g.copies, g.buckets, p.servers, false) && b < g.buckets
    ensures var m := StartTable(g, p, dest);
            if !g.needMove || p.firstRun then m == Write(dest)
            else if g.copies == 1 then
              m[0][b] == if p.source[0][b].id in ServerIds(p.servers) then p.source[0][b].id else dest[0][b].id
            else m == Write(p.quick) && UsedCells(p.quick, b, g.copies) == LiveCopies(p.source, b, g.copies, p.servers)
  {
    if QuickWanted(g, p.firstRun) {
      QuickIsConservative(p.source, p.quick, g.copies, g.buckets, p.servers, b);
    }
  }

  /** The target and the served table change only together with a larger version. */
  lemma TargetChangesWithVersion(g: Group, st: State, e: Event)
    requires Typed(g, st) && Enabled(g, st, e)
    ensures Typed(g, Step(g, st, e)) && Step(g, st, e).version >= st.version
    ensures Step(g, st, e).d != st.d || Step(g, st, e).h != st.h ==> Step(g, st, e).version > st.version
  {}

  /** A rebuild that returns its source, with every server of it live, schedules no migration. */
  lemma NothingScheduled(g: Group, st: State, p: Snapshot, dest: Table)
    requires Typed(g, st) && SnapshotOk(g, p) && dest == p.source && Placed(dest, g.copies, g.buckets, p.servers)
    ensures var r := Finished(g, st, p, dest); r.h == r.m == r.d == Write(p.source) && r.blockCount == -1
  {
    var m, d := StartTable(g, p, dest), Write(dest);
    if QuickWanted(g, p.firstRun) {
      QuickOfPlaced(p.source, p.quick, g.copies, g.buckets, p.servers);
    } else if g.needMove && !p.firstRun {
      forall l | 0 <= l < g.copies ensures m[l] == d[l] {
        assert forall b :: 0 <= b < g.buckets ==> m[l][b] == d[l][b];
      }
    }
    assert m == d;
    forall b: nat | b < g.buckets ensures !MustMigrate(m, d, b) {
      if MustMigrate(m, d, b) {
        MustMigrateDiffers(m, d, b);
      }
    }
    assert Flagged(m, d, g.buckets) == {};
  }

  // ----- a migration can always be completed -----

  lemma {:induction false} MigrationCanFinish(g: Group, st: State) returns (es: seq<Event>, last: State)
    requires Inv(g, st) && g.needMove && st.blockCount != -1
    ensures Run(g, st, es, last) && |es| == st.blockCount + 1
    ensures last.h == last.m == last.d == st.d && last.blockCount == -1
    decreases st.blockCount
  {
    var pending := PendingBuckets(st.m, st.d, g.buckets);
    EmptyTallyMeansDone(g, st);
    if st.machine == map[] {
      es, last := [Check], Step(g, st, Check);
      assert pending == {} by { FlaggedIsPending(st.m, st.d, g.buckets); TallyEmpty(st.machine, pending, st.m[0]); }
      assert Run(g, last, [], last);
    } else {
      TallyEmpty(st.machine, pending, st.m[0]);
      var b :| b in pending;
      var e := Finish(st.m[0][b], st.version, b);
      StepKeepsInv(g, st, e);
      var next := Step(g, st, e);
      var rest;
      rest, last := MigrationCanFinish(g, next);
      es := [e] + rest;
      assert es[1..] == rest;
    }
  }

  // ----- a report is not one step for the periodic hard check -----

  /** The periodic hard check does not take the mutex that a report holds, so it can run after the
      report wrote the bucket and before it settles the tally. The report then asserts that its
      server still has an entry. That holds exactly when the bucket was not the last outstanding one. */
  lemma HardCheckInsideReport(g: Group, st: State, b: nat, server: int)
    requires Inv(g, st) && b < g.buckets && Report(g, st, b, server) != st
    ensures var half := st.(m := TakeOver(st.m, st.d, b));
            && Typed(g, half)
            && (server in Step(g, half, HardCheck).machine <==> st.blockCount > 1)
  {
    ReportKeepsInv(g, st, b, server);
    var r := Report(g, st, b, server);
    EmptyTallyMeansDone(g, r);
    TallyEmpty(r.machine, PendingBuckets(r.m, r.d, g.buckets), r.m[0]);
  }

  lemma OneCell(n: Node, servers: set<Node>)
    ensures Write([[n]]) == [[n.id]] && (n in servers ==> Placed([[n]], 1, 1, servers))
  {
    assert Write([[n]])[0] == [n.id];
  }

  lemma OneFlagged(a: int, b: int)
    requires a != 0 && a != b
    ensures Flagged([[a]], [[b]], 1) == {0}
  {
    assert MustMigrate([[a]], [[b]], 0);
  }

  const SERVER_A := Node(1, 0)
  const SERVER_B := Node(2, 0)
  const ONE_BUCKET := Group(1, 1, true, 0)
  const CREATED := State([[0]], [[0]], [[0]], -1, map[], {}, 1, None)
  const ON_A := State([[1]], [[1]], [[1]], -1, map[], {}, 2, None)

  /** The first rebuild, with one server up. */
  lemma PlaceFirst() returns (es: seq<Event>)
    ensures Run(ONE_BUCKET, CREATED, es, ON_A)
  {
    var none: Table, onA: Table := [[Node(0, 0)]], [[SERVER_A]];
    OneCell(Node(0, 0), {SERVER_A});
    OneCell(SERVER_A, {SERVER_A});
    es := [Begin(none, none, {SERVER_A}), End(onA)];
    var begun := Step(ONE_BUCKET, CREATED, es[0]);
    assert Step(ONE_BUCKET, begun, End(onA)) == ON_A;
    assert Run(ONE_BUCKET, begun, [End(onA)], ON_A) by { assert [End(onA)][1..] == []; }
    assert es[1..] == [End(onA)];
  }

  /** The second rebuild, with another server up, plans the bucket's move to it. */
  lemma PlanMove() returns (es: seq<Event>, last: State)
    ensures Run(ONE_BUCKET, ON_A, es, last)
    ensures last.m == [[1]] && last.d == [[2]] && last.blockCount == 1
  {
    var onA: Table, onB: Table, both := [[SERVER_A]], [[SERVER_B]], {SERVER_A, SERVER_B};
    OneCell(SERVER_A, both);
    OneCell(SERVER_B, both);
    es := [Begin(onA, onA, both), End(onB)];
    var begun := Step(ONE_BUCKET, ON_A, es[0]);
    last := Step(ONE_BUCKET, begun, End(onB));
    assert ServerIds(both) == {1, 2};
    assert last.m[0] == [1] && last.m == [[1]];
    OneFlagged(1, 2);
    assert Run(ONE_BUCKET, begun, [End(onB)], last) by { assert [End(onB)][1..] == []; }
    assert es[1..] == [End(onB)];
  }

  lemma {:induction false} RunJoin(g: Group, first: State, es: seq<Event>, mid: State, fs: seq<Event>, last: State)
    requires Run(g, first, es, mid) && Run(g, mid, fs, last)
    ensures Run(g, first, es + fs, last)
    decreases |es|
  {
    if es == [] {
      assert es + fs == fs;
    } else {
      RunJoin(g, Step(g, first, es[0]), es[1..], mid, fs, last);
      assert (es + fs)[1..] == es[1..] + fs;
    }
  }

  /** A run that gets there: one bucket with one copy, first placed on one server and then, with a second
      server up, to be moved to that one. The report of the move meets the hard check, and fails. */
  lemma HardCheckFails() returns (es: seq<Event>, last: State)
    ensures Fresh(ONE_BUCKET, CREATED) && Run(ONE_BUCKET, CREATED, es, last) && last.blockCount == 1
    ensures Typed(ONE_BUCKET, last) && Report(ONE_BUCKET, last, 0, SERVER_A.id) != last
    ensures var half := last.(m := TakeOver(last.m, last.d, 0));
            Typed(ONE_BUCKET, half) && SERVER_A.id !in Step(ONE_BUCKET, half, HardCheck).machine
  {
    var fs := PlaceFirst();
    es, last := PlanMove();
    RunJoin(ONE_BUCKET, CREATED, fs, ON_A, es, last);
    es := fs + es;
    FreshHasInv(ONE_BUCKET, CREATED);
    RunInvariant(ONE_BUCKET, CREATED, es, last);
    HardCheckInsideReport(ONE_BUCKET, last, 0, 1);
  }
}
