/** Relabelling never drops data: over every run the tables name only servers known to hold the bucket. */
module Holders {
  import opened Options
  import opened Placement
  import opened Rows
  import opened Bookkeeping
  import opened Accounting
  import opened Migration

  /** The protocol state together with what is known about the data: for each bucket the servers
      certified to hold it, and the target table that each version stood for. */
  datatype World = World(st: State, holders: seq<set<int>>, targets: map<nat, Ids>)

  /** The servers named for bucket `b`. */
  ghost function Column(t: Ids, b: nat): set<int> {
    set l | 0 <= l < |t| && b < |t[l]| :: t[l][b]
  }

  /** The buckets whose report the config server accepts: of the current version, from the master. */
  ghost function Accepted(g: Group, st: State, e: Event): set<nat>
    requires Typed(g, st) && Enabled(g, st, e)
  {
    match e
    case Finish(server, v, b) =>
      if g.needMove && v == st.version && st.blockCount != -1 && st.m[0][b] == server then {b} else {}
    case Heartbeat(server, v, bs) =>
      if v == st.version && st.blockCount != -1 && server !in st.reported
      then set i | 0 <= i < |bs| && st.m[0][bs[i]] == server :: bs[i] else {}
    case _ => {}
  }

  /** An accepted report certifies that the target of its version holds the bucket. */
  ghost function Certify(holders: seq<set<int>>, target: Ids, bs: set<nat>): (r: seq<set<int>>)
    ensures |r| == |holders|
    ensures forall b :: 0 <= b < |holders| ==> r[b] == holders[b] + if b in bs then Column(target, b) else {}
  {
    seq(|holders|, b requires 0 <= b < |holders| => holders[b] + if b in bs then Column(target, b) else {})
  }

  /** The first table of a group holds no data yet, so its servers hold all there is. */
  ghost function Seed(holders: seq<set<int>>, t: Ids): (r: seq<set<int>>)
    ensures |r| == |holders|
    ensures forall b :: 0 <= b < |holders| ==> r[b] == holders[b] + Column(t, b)
  {
    seq(|holders|, b requires 0 <= b < |holders| => holders[b] + Column(t, b))
  }

  ghost function WorldStep(g: Group, w: World, e: Event): World
    requires Typed(g, w.st) && Enabled(g, w.st, e)
  {
    var st := Step(g, w.st, e);
    World(st,
          match e
          case End(dest) => if w.st.pending.value.firstRun then Seed(w.holders, st.d) else w.holders
          case Finish(_, v, _) => if v in w.targets then Certify(w.holders, w.targets[v], Accepted(g, w.st, e)) else w.holders
          case Heartbeat(_, v, _) => if v in w.targets then Certify(w.holders, w.targets[v], Accepted(g, w.st, e)) else w.holders
          case _ => w.holders,
          if st.version > w.st.version then w.targets[st.version := st.d] else w.targets)
  }

  /** Every server named for bucket `b` is a certified holder. */
  ghost predicate HeldAt(t: Ids, holders: seq<set<int>>, b: nat)
    requires b < |holders|
  {
    forall l :: 0 <= l < |t| && b < |t[l]| && t[l][b] != 0 ==> t[l][b] in holders[b]
  }

  ghost predicate Held(t: Ids, holders: seq<set<int>>) {
    forall b :: 0 <= b < |holders| ==> HeldAt(t, holders, b)
  }

  ghost predicate Known(g: Group, w: World) {
    && Inv(g, w.st) && |w.holders| == g.buckets
    && w.st.version in w.targets && w.targets[w.st.version] == w.st.d
    && forall v :: v in w.targets ==> v <= w.st.version
  }

  ghost predicate DataSafe(g: Group, w: World) {
    && Known(g, w) && Held(w.st.m, w.holders) && Held(w.st.h, w.holders)
    && (w.st.pending.Some? && !w.st.pending.value.firstRun ==> Held(Write(w.st.pending.value.quick), w.holders))
  }

  lemma HeldGrows(t: Ids, holders: seq<set<int>>, more: seq<set<int>>)
    requires Held(t, holders) && |more| == |holders|
    requires forall b :: 0 <= b < |holders| ==> holders[b] <= more[b]
    ensures Held(t, more)
  {
    forall b | 0 <= b < |more| ensures HeldAt(t, more, b) {
      assert HeldAt(t, holders, b);
    }
  }

  /** Buckets whose target is certified can be reported without naming an uncertified server. */
  lemma ReportHeld(g: Group, st: State, b: nat, server: int, holders: seq<set<int>>)
    requires Typed(g, st) && b < g.buckets == |holders|
    requires Held(st.m, holders) && (st.m[0][b] == server ==> Column(st.d, b) <= holders[b])
    ensures Held(Report(g, st, b, server).m, holders)
  {
    var r := Report(g, st, b, server);
    forall c | 0 <= c < |holders| ensures HeldAt(r.m, holders, c) {
      assert HeldAt(st.m, holders, c);
      if r != st && c == b {
        forall l | 0 <= l < |r.m| ensures r.m[l][b] in holders[b] {
          assert st.d[l][b] in Column(st.d, b);
        }
      }
    }
  }

  lemma {:induction false} ReportAllHeld(g: Group, st: State, bs: seq<nat>, server: int, holders: seq<set<int>>)
    requires Typed(g, st) && g.buckets == |holders| && Held(st.m, holders)
    requires forall i :: 0 <= i < |bs| ==> bs[i] < g.buckets
    requires forall i :: 0 <= i < |bs| && st.m[0][bs[i]] == server ==> Column(st.d, bs[i]) <= holders[bs[i]]
    ensures Held(ReportAll(g, st, bs, server).m, holders) && ReportAll(g, st, bs, server).h == st.h
    decreases |bs|
  {
    if bs != [] {
      ReportHeld(g, st, bs[0], server, holders);
      ReportAllHeld(g, Report(g, st, bs[0], server), bs[1..], server, holders);
    }
  }

  /** A quick table names only servers that the old table names. */
  lemma QuickHeld(g: Group, source: Table, quick: Table, servers: set<Node>, holders: seq<set<int>>)
    requires Servers(servers) && QuickTable(source, quick, g.copies, g.buckets, servers)
    requires |holders| == g.buckets && Held(Write(source), holders)
    ensures Held(Write(quick), holders)
  {
    var m, q := Write(source), Write(quick);
    forall b | 0 <= b < |holders| ensures HeldAt(q, holders, b) {
      assert HeldAt(m, holders, b) && QuickColumn(source, quick, b, servers);
      var c: nat :| QuickFrom(source, quick, b, c, servers);
      forall l | 0 <= l < |q| && q[l][b] != 0 ensures q[l][b] in holders[b] {
        if l == 0 {
          assert q[l][b] == m[c][b];
        } else {
          assert q[l][b] == m[l][b];
        }
      }
    }
  }

  lemma SeedHolds(t: Ids, holders: seq<set<int>>)
    ensures Held(t, Seed(holders, t))
  {
    forall b | 0 <= b < |holders| ensures HeldAt(t, Seed(holders, t), b) {
      assert forall l :: 0 <= l < |t| && b < |t[l]| ==> t[l][b] in Column(t, b);
    }
  }

  lemma StepKeepsKnown(g: Group, w: World, e: Event)
    requires Known(g, w) && Enabled(g, w.st, e)
    ensures Known(g, WorldStep(g, w, e))
    ensures forall b :: 0 <= b < g.buckets ==> w.holders[b] <= WorldStep(g, w, e).holders[b]
  {
    StepKeepsInv(g, w.st, e);
    TargetChangesWithVersion(g, w.st, e);
  }

  lemma StepKeepsDataSafe(g: Group, w: World, e: Event)
    requires DataSafe(g, w) && Enabled(g, w.st, e) && g.copies >= 2 && g.needMove
    ensures DataSafe(g, WorldStep(g, w, e))
  {
    var x := WorldStep(g, w, e);
    StepKeepsKnown(g, w, e);
    HeldGrows(w.st.m, w.holders, x.holders);
    HeldGrows(w.st.h, w.holders, x.holders);
    if w.st.pending.Some? && !w.st.pending.value.firstRun {
      HeldGrows(Write(w.st.pending.value.quick), w.holders, x.holders);
    }
    match e
    case Begin(source, quick, servers) =>
      if !AllZero(w.st.m) {
        QuickHeld(g, source, quick, servers, w.holders);
      }
    case End(dest) =>
      if w.st.pending.value.firstRun {
        SeedHolds(x.st.d, w.holders);
      }
    case Finish(server, v, b) =>
      if v == w.st.version && w.st.blockCount != -1 {
        ReportHeld(g, w.st, b, server, x.holders);
      }
    case Heartbeat(server, v, bs) =>
      if v == w.st.version && w.st.blockCount != -1 && server !in w.st.reported {
        assert forall i :: 0 <= i < |bs| && w.st.m[0][bs[i]] == server ==> bs[i] in Accepted(g, w.st, e);
        ReportAllHeld(g, w.st.(reported := w.st.reported + {server}), bs, server, x.holders);
      }
    case Check => EmptyTallyMeansDone(g, w.st);
    case _ =>
  }

  ghost predicate WorldRun(g: Group, first: World, es: seq<Event>, last: World)
    decreases |es|
  {
    Typed(g, first.st) &&
    if es == [] then first == last
    else Enabled(g, first.st, es[0]) && WorldRun(g, WorldStep(g, first, es[0]), es[1..], last)
  }

  lemma FreshIsSafe(g: Group, w: World)
    requires Fresh(g, w.st) && |w.holders| == g.buckets && w.targets == map[w.st.version := w.st.d]
    ensures DataSafe(g, w)
  {
    FreshHasInv(g, w.st);
    forall b | 0 <= b < |w.holders| ensures HeldAt(w.st.m, w.holders, b) {
    }
  }

  /** Data is never dropped by relabelling: with two or more copies, after every run of failures,
      rebuilds, reports, completions and restarts, every server that the served table or the progress
      table names for a bucket is certified to hold that bucket. */
  lemma {:induction false} NeverDropped(g: Group, first: World, es: seq<Event>, last: World)
    requires g.copies >= 2 && g.needMove && DataSafe(g, first) && WorldRun(g, first, es, last)
    ensures DataSafe(g, last)
    ensures Held(last.st.m, last.holders) && Held(last.st.h, last.holders)
    decreases |es|
  {
    if es != [] {
      StepKeepsDataSafe(g, first, es[0]);
      NeverDropped(g, WorldStep(g, first, es[0]), es[1..], last);
    }
  }

  // ----- holders that leave -----

  /** A step of the protocol, or a data server that gives a bucket's data away once neither the served nor
      the progress table names it for the bucket. */
  datatype Act = Do(event: Event) | Release(bucket: nat, server: int)

  ghost predicate Released(w: World, b: nat, server: int) {
    server !in Column(w.st.h, b) && server !in Column(w.st.m, b)
  }

  ghost function Give(w: World, b: nat, server: int): World
    requires b < |w.holders|
  {
    w.(holders := w.holders[b := w.holders[b] - {server}])
  }

  /** Every server that the two tables name is a holder now. */
  ghost predicate Safe(g: Group, w: World) {
    Known(g, w) && Held(w.st.m, w.holders) && Held(w.st.h, w.holders)
  }

  /** The quick table that a rebuild is about to install names only servers that the tables still name. */
  ghost predicate Current(st: State) {
    st.pending.Some? && var q := Write(st.pending.value.quick);
    forall l, b :: 0 <= l < |q| && 0 <= b < |q[l]| && q[l][b] != 0 ==>
      q[l][b] in Column(st.h, b) || q[l][b] in Column(st.m, b)
  }

  ghost predicate CanDo(g: Group, w: World, a: Act) {
    match a
    case Do(e) => Typed(g, w.st) && Enabled(g, w.st, e)
    case Release(b, server) => b < |w.holders| && Released(w, b, server)
  }

  ghost function ActStep(g: Group, w: World, a: Act): World
    requires CanDo(g, w, a)
  {
    match a
    case Do(e) => WorldStep(g, w, e)
    case Release(b, server) => Give(w, b, server)
  }

  lemma GiveIsSafe(g: Group, w: World, b: nat, server: int)
    requires Safe(g, w) && b < |w.holders| && Released(w, b, server)
    ensures Safe(g, Give(w, b, server))
  {
    var x := Give(w, b, server);
    forall c | 0 <= c < |x.holders| ensures HeldAt(w.st.m, x.holders, c) && HeldAt(w.st.h, x.holders, c) {
      assert HeldAt(w.st.m, w.holders, c) && HeldAt(w.st.h, w.holders, c);
      if c == b {
        InColumn(w.st.m, b);
        InColumn(w.st.h, b);
      }
    }
  }

  lemma InColumn(t: Ids, b: nat)
    ensures forall l :: 0 <= l < |t| && b < |t[l]| ==> t[l][b] in Column(t, b)
  {
  }

  lemma CurrentIsHeld(g: Group, w: World)
    requires Safe(g, w) && Current(w.st)
    ensures Held(Write(w.st.pending.value.quick), w.holders)
  {
    var q := Write(w.st.pending.value.quick);
    forall b | 0 <= b < |w.holders| ensures HeldAt(q, w.holders, b) {
      HeldColumn(w.st.m, w.holders, b);
      HeldColumn(w.st.h, w.holders, b);
    }
  }

  lemma HeldColumn(t: Ids, holders: seq<set<int>>, b: nat)
    requires Held(t, holders) && b < |holders|
    ensures forall x :: x in Column(t, b) && x != 0 ==> x in holders[b]
  {
    assert HeldAt(t, holders, b);
  }

  /** Every step but the end of a rebuild is safe as it is. */
  lemma StepIsSafe(g: Group, w: World, e: Event)
    requires Safe(g, w) && Enabled(g, w.st, e) && g.copies >= 2 && g.needMove
    requires e.End? ==> w.st.pending.value.firstRun || Current(w.st)
    ensures Safe(g, WorldStep(g, w, e))
  {
    var x := WorldStep(g, w, e);
    StepKeepsKnown(g, w, e);
    HeldGrows(w.st.m, w.holders, x.holders);
    HeldGrows(w.st.h, w.holders, x.holders);
    match e
    case End(dest) =>
      if w.st.pending.value.firstRun {
        SeedHolds(x.st.d, w.holders);
      } else {
        CurrentIsHeld(g, w);
      }
    case Finish(server, v, b) =>
      if v == w.st.version && w.st.blockCount != -1 {
        ReportHeld(g, w.st, b, server, x.holders);
      }
    case Heartbeat(server, v, bs) =>
      if v == w.st.version && w.st.blockCount != -1 && server !in w.st.reported {
        assert forall i :: 0 <= i < |bs| && w.st.m[0][bs[i]] == server ==> bs[i] in Accepted(g, w.st, e);
        ReportAllHeld(g, w.st.(reported := w.st.reported + {server}), bs, server, x.holders);
      }
    case Check => EmptyTallyMeansDone(g, w.st);
    case _ =>
  }

  /** A snapshot is current while the progress table is the one it was taken from. */
  lemma UnchangedIsCurrent(g: Group, st: State)
    requires Inv(g, st) && st.pending.Some? && st.m == Write(st.pending.value.source)
    requires QuickWanted(g, st.pending.value.firstRun)
    ensures Current(st)
  {
    var p := st.pending.value;
    var q := Write(p.quick);
    forall l, b | 0 <= l < |q| && 0 <= b < |q[l]| && q[l][b] != 0 ensures q[l][b] in Column(st.m, b) {
      assert QuickColumn(p.source, p.quick, b, p.servers);
      var c: nat :| QuickFrom(p.source, p.quick, b, c, p.servers);
      var k := if l == 0 then c else l;
      assert st.m[k][b] == q[l][b];
    }
  }

  /** The end of a rebuild is safe whatever was released before it exactly when its snapshot is current:
      otherwise a single release makes it name a server without the data. */
  lemma EndIsSafeWhenCurrent(g: Group, w: World, dest: Table)
    requires Safe(g, w) && Enabled(g, w.st, End(dest)) && g.copies >= 2 && g.needMove
    requires !w.st.pending.value.firstRun
    ensures Current(w.st) ==> Safe(g, WorldStep(g, w, End(dest)))
    ensures !Current(w.st) ==> exists b: nat, s ::
              && b < |w.holders| && Released(w, b, s) && Safe(g, Give(w, b, s))
              && !Safe(g, WorldStep(g, Give(w, b, s), End(dest)))
  {
    if Current(w.st) {
      StepIsSafe(g, w, End(dest));
    } else {
      var q := Write(w.st.pending.value.quick);
      var l: nat, b: nat :| l < |q| && b < |q[l]| && q[l][b] != 0
                            && q[l][b] !in Column(w.st.h, b) && q[l][b] !in Column(w.st.m, b);
      var s := q[l][b];
      GiveIsSafe(g, w, b, s);
      var x := WorldStep(g, Give(w, b, s), End(dest));
      assert x.st.m == q && s !in x.holders[b];
      assert !HeldAt(x.st.m, x.holders, b);
    }
  }

  /** A run of steps and releases. */
  ghost predicate ActRun(g: Group, first: World, acts: seq<Act>, last: World)
    decreases |acts|
  {
    if acts == [] then first == last
    else CanDo(g, first, acts[0]) && ActRun(g, ActStep(g, first, acts[0]), acts[1..], last)
  }

  /** Each rebuild of the run ends on a current snapshot. */
  ghost predicate EndsCurrent(g: Group, first: World, acts: seq<Act>, last: World)
    requires ActRun(g, first, acts, last)
    decreases |acts|
  {
    acts != [] ==>
      && (acts[0].Do? && acts[0].event.End? ==> first.st.pending.value.firstRun || Current(first.st))
      && EndsCurrent(g, ActStep(g, first, acts[0]), acts[1..], last)
  }

  /** With holders that leave as soon as they may, every server that the tables name still holds the bucket,
      over every run in which rebuilds end on current snapshots. */
  lemma {:induction false} NeverDroppedThoughReleased(g: Group, first: World, acts: seq<Act>, last: World)
    requires g.copies >= 2 && g.needMove && Safe(g, first)
    requires ActRun(g, first, acts, last) && EndsCurrent(g, first, acts, last)
    ensures Safe(g, last)
    decreases |acts|
  {
    if acts != [] {
      match acts[0] {
        case Do(e) => StepIsSafe(g, first, e);
        case Release(b, server) => GiveIsSafe(g, first, b, server);
      }
      NeverDroppedThoughReleased(g, ActStep(g, first, acts[0]), acts[1..], last);
    }
  }

  // ----- a snapshot that is not current -----

  const TWO_COPIES := Group(2, 1, true, 0)
  const A := Node(1, 0)
  const B := Node(2, 0)
  const C := Node(3, 0)
  const AB: Table := [[A], [B]]
  const AC: Table := [[A], [C]]
  const NONE: Table := [[Node(0, 0)], [Node(0, 0)]]
  const IDS: Ids := [[0], [0]]
  const IDS_AB: Ids := [[1], [2]]
  const IDS_AC: Ids := [[1], [3]]

  /** A new group, with no data anywhere. */
  const CREATED_WORLD := World(State(IDS, IDS, IDS, -1, map[], {}, 1, None), [{}], map[1 := IDS])
  /** Its bucket on two servers. */
  const PLACED_WORLD :=
    World(State(IDS_AB, IDS_AB, IDS_AB, -1, map[], {}, 2, None), [{1, 2}], map[1 := IDS, 2 := IDS_AB])
  /** The move of the second copy to a third server planned. */
  const PLANNED_WORLD :=
    World(State(IDS_AB, IDS_AB, IDS_AC, 1, map[1 := 1], {}, 3, None), [{1, 2}], map[1 := IDS, 2 := IDS_AB, 3 := IDS_AC])
  /** The move done, while another rebuild still has the table from before it. */
  const MOVED_WORLD :=
    World(State(IDS_AC, IDS_AC, IDS_AC, -1, map[], {}, 4, Some(Snapshot(AB, AB, false, {A, B, C}))),
          [{1, 2, 3}], map[1 := IDS, 2 := IDS_AB, 3 := IDS_AC, 4 := IDS_AC])

  lemma TwoCells(x: Node, y: Node, servers: set<Node>)
    requires Servers(servers) && x in servers && y in servers && x != y
    ensures Write([[x], [y]]) == [[x.id], [y.id]] && Placed([[x], [y]], 2, 1, servers)
    ensures QuickTable([[x], [y]], [[x], [y]], 2, 1, servers)
  {
    var t: Table := [[x], [y]];
    assert Write(t)[0] == [x.id] && Write(t)[1] == [y.id];
    assert IdTells(x, y);
    assert PlacedColumn(t, 0, servers);
    assert QuickFrom(t, t, 0, 0, servers);
  }

  lemma TwoFlagged()
    ensures Flagged(IDS_AB, IDS_AC, 1) == {0} && TallyOf({0}, [1]) == map[1 := 1]
  {
    assert SlaveMissing(IDS_AB, IDS_AC, 0, 1);
    assert MustMigrate(IDS_AB, IDS_AC, 0);
    assert OfServer({0}, [1], 1) == {0};
  }

  lemma Columns()
    ensures Column(IDS_AB, 0) == {1, 2} && Column(IDS_AC, 0) == {1, 3} && TakeOver(IDS_AB, IDS_AC, 0) == IDS_AC
  {
    assert IDS_AB[0][0] == 1 && IDS_AB[1][0] == 2 && IDS_AC[0][0] == 1 && IDS_AC[1][0] == 3;
    assert TakeOver(IDS_AB, IDS_AC, 0)[0] == [1] && TakeOver(IDS_AB, IDS_AC, 0)[1] == [3];
  }

  lemma OneBucketHolders()
    ensures Seed([{}], IDS_AB) == [{1, 2}] && Certify([{1, 2}], IDS_AC, {0}) == [{1, 2, 3}]
    ensures [{1, 2, 3}][0 := {1, 2, 3} - {2}] == [{1, 3}]
  {
    Columns();
    assert Seed([{}], IDS_AB)[0] == {1, 2};
    assert Certify([{1, 2}], IDS_AC, {0})[0] == {1, 2, 3};
    assert {1, 2, 3} - {2} == {1, 3};
  }

  lemma TwoActs(g: Group, first: World, a: Act, mid: World, b: Act, last: World)
    requires CanDo(g, first, a) && ActStep(g, first, a) == mid && CanDo(g, mid, b) && ActStep(g, mid, b) == last
    ensures ActRun(g, first, [a, b], last)
  {
    assert [a, b][1..] == [b] && [b][1..] == [];
    assert ActRun(g, last, [], last);
    assert ActRun(g, mid, [b], last);
  }

  lemma {:induction false} ActsJoin(g: Group, first: World, acts: seq<Act>, mid: World, more: seq<Act>, last: World)
    requires ActRun(g, first, acts, mid) && ActRun(g, mid, more, last)
    ensures ActRun(g, first, acts + more, last)
    decreases |acts|
  {
    if acts == [] {
      assert acts + more == more;
    } else {
      ActsJoin(g, ActStep(g, first, acts[0]), acts[1..], mid, more, last);
      ActFirst(g, first, acts, more, last);
    }
  }

  lemma ActFirst(g: Group, first: World, acts: seq<Act>, more: seq<Act>, last: World)
    requires acts == [] || (CanDo(g, first, acts[0]) && ActRun(g, ActStep(g, first, acts[0]), acts[1..] + more, last))
    ensures acts == [] || ActRun(g, first, acts + more, last)
  {
    if acts != [] {
      assert (acts + more)[0] == acts[0] && (acts + more)[1..] == acts[1..] + more;
    }
  }

  lemma ReachPlaced() returns (acts: seq<Act>)
    ensures Safe(TWO_COPIES, CREATED_WORLD) && ActRun(TWO_COPIES, CREATED_WORLD, acts, PLACED_WORLD)
  {
    var g, servers := TWO_COPIES, {A, B};
    FreshIsSafe(g, CREATED_WORLD);
    TwoCells(A, B, servers);
    assert Write(NONE)[0] == [0] && Write(NONE)[1] == [0];
    var mid := ActStep(g, CREATED_WORLD, Do(Begin(NONE, NONE, servers)));
    Columns();
    OneBucketHolders();
    acts := [Do(Begin(NONE, NONE, servers)), Do(End(AB))];
    TwoActs(g, CREATED_WORLD, acts[0], mid, acts[1], PLACED_WORLD);
  }

  lemma ReachPlanned() returns (acts: seq<Act>)
    ensures ActRun(TWO_COPIES, PLACED_WORLD, acts, PLANNED_WORLD)
  {
    var g, servers := TWO_COPIES, {A, B, C};
    TwoCells(A, B, servers);
    TwoCells(A, C, servers);
    TwoFlagged();
    assert Evolved(AB, AC, 0) && PLACED_WORLD.st.m[0][0] == 1;
    var mid := ActStep(g, PLACED_WORLD, Do(Begin(AB, AB, servers)));
    acts := [Do(Begin(AB, AB, servers)), Do(End(AC))];
    TwoActs(g, PLACED_WORLD, acts[0], mid, acts[1], PLANNED_WORLD);
  }

  /** A rebuild has begun, with the table from before the move. */
  const BEGUN_WORLD := PLANNED_WORLD.(st := PLANNED_WORLD.st.(pending := Some(Snapshot(AB, AB, false, {A, B, C}))))
  const REPORTED_WORLD :=
    BEGUN_WORLD.(st := BEGUN_WORLD.st.(m := IDS_AC, blockCount := 0, machine := map[]), holders := [{1, 2, 3}])

  lemma BeginMoves()
    ensures CanDo(TWO_COPIES, PLANNED_WORLD, Do(Begin(AB, AB, {A, B, C})))
    ensures ActStep(TWO_COPIES, PLANNED_WORLD, Do(Begin(AB, AB, {A, B, C}))) == BEGUN_WORLD
  {
    TwoCells(A, B, {A, B, C});
    assert PLANNED_WORLD.st.m[0][0] == 1;
  }

  lemma FinishMoves()
    ensures CanDo(TWO_COPIES, BEGUN_WORLD, Do(Finish(1, 3, 0)))
    ensures ActStep(TWO_COPIES, BEGUN_WORLD, Do(Finish(1, 3, 0))) == REPORTED_WORLD
  {
    Columns();
    OneBucketHolders();
  }

  lemma CheckMoves()
    ensures ActRun(TWO_COPIES, REPORTED_WORLD, [Do(Check)], MOVED_WORLD)
  {
    var next := ActStep(TWO_COPIES, REPORTED_WORLD, Do(Check));
    assert next.st == MOVED_WORLD.st && next.targets == MOVED_WORLD.targets;
    assert [Do(Check)][1..] == [] && ActRun(TWO_COPIES, MOVED_WORLD, [], MOVED_WORLD);
  }

  /** A rebuild begins, the report arrives and the check completes the migration. */
  lemma ReachMoved() returns (acts: seq<Act>)
    ensures ActRun(TWO_COPIES, PLANNED_WORLD, acts, MOVED_WORLD)
  {
    var begin, finish := Do(Begin(AB, AB, {A, B, C})), Do(Finish(1, 3, 0));
    BeginMoves();
    FinishMoves();
    CheckMoves();
    TwoActs(TWO_COPIES, PLANNED_WORLD, begin, BEGUN_WORLD, finish, REPORTED_WORLD);
    ActsJoin(TWO_COPIES, PLANNED_WORLD, [begin, finish], REPORTED_WORLD, [Do(Check)], MOVED_WORLD);
    acts := [begin, finish] + [Do(Check)];
  }

  const GIVEN_WORLD := MOVED_WORLD.(holders := [{1, 3}])

  lemma EndStale() returns (last: World)
    ensures CanDo(TWO_COPIES, GIVEN_WORLD, Do(End(AC))) && last == ActStep(TWO_COPIES, GIVEN_WORLD, Do(End(AC)))
    ensures last.st.h == last.st.m == IDS_AB && last.holders == [{1, 3}]
  {
    TwoCells(A, B, {A, B, C});
    TwoCells(A, C, {A, B, C});
    assert Evolved(AB, AC, 0);
    last := ActStep(TWO_COPIES, GIVEN_WORLD, Do(End(AC)));
  }

  lemma NotHeld(w: World)
    requires w.st.h == IDS_AB && w.holders == [{1, 3}]
    ensures !Safe(TWO_COPIES, w)
  {
    assert w.st.h[1][0] == 2;
    assert !HeldAt(w.st.h, w.holders, 0);
  }

  /** The old second server gives the bucket away, and then the rebuild installs the table from before. */
  lemma InstallStale() returns (acts: seq<Act>, last: World)
    ensures ActRun(TWO_COPIES, MOVED_WORLD, acts, last)
    ensures last.st.h == IDS_AB && last.holders == [{1, 3}] && !Safe(TWO_COPIES, last)
  {
    Columns();
    OneBucketHolders();
    last := EndStale();
    acts := [Release(0, 2), Do(End(AC))];
    TwoActs(TWO_COPIES, MOVED_WORLD, acts[0], GIVEN_WORLD, acts[1], last);
    NotHeld(last);
  }

  /** The whole run, from a new group to a served table that names a server without the data. */
  lemma StaleSnapshotDrops() returns (acts: seq<Act>, last: World)
    ensures Safe(TWO_COPIES, CREATED_WORLD) && ActRun(TWO_COPIES, CREATED_WORLD, acts, last)
    ensures last.st.h == IDS_AB && last.holders == [{1, 3}] && !Safe(TWO_COPIES, last)
  {
    var g := TWO_COPIES;
    var placed := ReachPlaced();
    var planned := ReachPlanned();
    var moved := ReachMoved();
    acts, last := InstallStale();
    ActsJoin(g, CREATED_WORLD, placed, PLACED_WORLD, planned, PLANNED_WORLD);
    ActsJoin(g, CREATED_WORLD, placed + planned, PLANNED_WORLD, moved, MOVED_WORLD);
    ActsJoin(g, CREATED_WORLD, placed + planned + moved, MOVED_WORLD, acts, last);
    acts := placed + planned + moved + acts;
  }
}
