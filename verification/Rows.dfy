/** What the rows of a table must look like, and what the passes of a rebuild make of them. */
module Rows {
  import opened Counting
  import opened Placement
  import opened Capacity
  import opened Ledgers

  const CONSIDER_ALL := 0
  const CONSIDER_POS := 1
  const CONSIDER_BASE := 2
  const CONSIDER_FORCE := 3

  datatype Verdict = NodeOk | InvalidNode | TooManyMaster | TooManyBucket | SameNode | SamePos

  datatype BuildCode = BuildError | BuildOk | BuildQuick

  /** Load balance first, or data safety first. */
  datatype Strategy = LoadBalance | RackSafety

  // ----- what a row must look like -----

  /** No other copy of bucket `b` is on the server `n`. */
  predicate NodeFree(t: Table, line: nat, b: nat, n: Node)
    requires forall l :: 0 <= l < |t| ==> b < |t[l]|
  {
    forall l :: 0 <= l < |t| && l != line ==> t[l][b].id != n.id
  }

  /** No other copy of bucket `b` is in the rack of `n`. */
  predicate RackFree(t: Table, line: nat, b: nat, n: Node)
    requires forall l :: 0 <= l < |t| ==> b < |t[l]|
  {
    forall l :: 0 <= l < |t| && l != line ==> t[l][b].pos != n.pos
  }

  /** The racks of the other copies of bucket `b`. */
  function OtherRacks(t: Table, line: nat, b: nat): (racks: set<int>)
    requires forall l :: 0 <= l < |t| ==> b < |t[l]|
  {
    set l | 0 <= l < |t| && l != line :: t[l][b].pos
  }

  /** The load-balance walk over the other copies, from line `l`: the first clash decides. */
  function FirstClash(t: Table, line: nat, b: nat, n: Node, level: int, l: nat): (v: Verdict)
    requires l <= |t| && forall l :: 0 <= l < |t| ==> b < |t[l]|
    requires forall k :: 0 <= k < l && k != line ==>
                           t[k][b].id != n.id && (level < CONSIDER_BASE ==> t[k][b].pos != n.pos)
    ensures v.NodeOk? <==> NodeFree(t, line, b, n) && (level < CONSIDER_BASE ==> RackFree(t, line, b, n))
    decreases |t| - l
  {
    if l == |t| then NodeOk
    else if l != line && t[l][b].id == n.id then SameNode
    else if l != line && level < CONSIDER_BASE && t[l][b].pos == n.pos then SamePos
    else FirstClash(t, line, b, n, level, l + 1)
  }

  /** Some other copy of bucket `b` is in another rack than `n`. */
  ghost predicate OtherRack(t: Table, line: nat, b: nat, n: Node)
    requires forall l :: 0 <= l < |t| ==> b < |t[l]|
  {
    exists l :: 0 <= l < |t| && l != line && t[l][b].pos != n.pos
  }

  lemma OthersUnchanged(t: Table, line: nat, b: nat, x: Node, n: Node)
    requires line < |t| && forall l :: 0 <= l < |t| ==> b < |t[l]|
    ensures NodeFree(SetCell(t, line, b, x), line, b, n) <==> NodeFree(t, line, b, n)
    ensures RackFree(SetCell(t, line, b, x), line, b, n) <==> RackFree(t, line, b, n)
    ensures OtherRack(SetCell(t, line, b, x), line, b, n) <==> OtherRack(t, line, b, n)
  {
    var u := SetCell(t, line, b, x);
    assert forall l :: 0 <= l < |t| && l != line ==> u[l] == t[l];
  }

  lemma OtherRackMeans(t: Table, line: nat, b: nat, n: Node)
    requires line < |t| && (forall l :: 0 <= l < |t| ==> b < |t[l]|) && OtherRack(t, line, b, n)
    ensures TwoRackColumn(SetCell(t, line, b, n), b)
  {
    var l :| 0 <= l < |t| && l != line && t[l][b].pos != n.pos;
    var u: Table := SetCell(t, line, b, n);
    assert u[l][b].pos == t[l][b].pos && u[line][b] == n;
  }

  ghost predicate TwoRacks(servers: set<Node>) {
    exists s, u :: s in servers && u in servers && s.pos != u.pos
  }

  /** The servers of one rack. */
  function RoomOf(servers: set<Node>, rack: int): set<Node> {
    set s | s in servers && s.pos == rack
  }

  /** How far the largest room is from half of the servers. */
  function RoomRatio(servers: nat, posMax: nat): (ratio: real)
    requires posMax > 0
  {
    var diff := servers - posMax - posMax;
    (if diff <= 0 then -diff else diff) as real / posMax as real
  }

  lemma ServersFromIds(ids: set<int>, rack: int -> int)
    requires INVALID_FLAG !in ids && ids != {}
    ensures var servers := set id | id in ids :: Node(id, rack(id));
            Servers(servers) && servers != {}
  {
    var servers := set id | id in ids :: Node(id, rack(id));
    Inhabited(ids);
    var id :| id in ids;
    assert Node(id, rack(id)) in servers;
  }

  /** The rack with the most servers. */
  method LargestRoom(servers: set<Node>) returns (room: int, size: nat)
    requires servers != {}
    ensures size == |RoomOf(servers, room)| > 0
    ensures forall p :: |RoomOf(servers, p)| <= size
  {
    var count := RoomSizes(servers);
    size := 0;
    room := 0;
    var todo := count.Keys;
    while todo != {}
      invariant todo <= count.Keys
      invariant size == 0 || (room in count && size == count[room])
      invariant forall p :: p in count && p !in todo ==> count[p] <= size
    {
      Inhabited(todo);
      var p :| p in todo;
      if count[p] > size {
        room, size := p, count[p];
      }
      todo := todo - {p};
    }
    var s :| s in servers;
    assert s in RoomOf(servers, s.pos);
    forall p ensures |RoomOf(servers, p)| <= size {
      if p !in count {
        assert RoomOf(servers, p) == {};
      }
    }
  }

  lemma RoomGrows(servers: set<Node>, s: Node, p: int)
    requires s !in servers
    ensures p != s.pos ==> RoomOf(servers + {s}, p) == RoomOf(servers, p)
    ensures p == s.pos ==> RoomOf(servers + {s}, p) == RoomOf(servers, p) + {s}
    ensures |RoomOf(servers + {s}, s.pos)| == |RoomOf(servers, s.pos)| + 1
  {
    assert RoomOf(servers + {s}, s.pos) == RoomOf(servers, s.pos) + {s};
  }

  method RoomSizes(servers: set<Node>) returns (count: map<int, nat>)
    ensures forall p :: p in count <==> RoomOf(servers, p) != {}
    ensures forall p :: p in count ==> count[p] == |RoomOf(servers, p)|
  {
    count := map[];
    var todo := servers;
    ghost var done := {};
    while todo != {}
      invariant todo <= servers && done == servers - todo
      invariant forall p :: p in count <==> RoomOf(done, p) != {}
      invariant forall p :: p in count ==> count[p] == |RoomOf(done, p)|
    {
      var s :| s in todo;
      forall p {
        RoomGrows(done, s, p);
      }
      count := count[s.pos := (if s.pos in count then count[s.pos] else 0) + 1];
      todo, done := todo - {s}, done + {s};
    }
    assert done == servers;
  }

  /** Servers all in one rack make the ratio one, which is above the limit. */
  lemma NormalMeansTwoRacks(servers: set<Node>, room: int)
    requires RoomOf(servers, room) != {}
    requires RoomRatio(|servers|, |RoomOf(servers, room)|) <= 0.9999
    ensures TwoRacks(servers)
  {
    assert RoomOf(servers, room) != servers;
    var s :| s in servers && s !in RoomOf(servers, room);
    var u :| u in RoomOf(servers, room);
    assert s.pos != u.pos;
  }

  /** The servers are spread well enough over two rooms for a rack-safe build. */
  predicate Normal(servers: nat, posMax: nat, copies: nat, limit: real)
    requires posMax > 0
  {
    copies <= servers && RoomRatio(servers, posMax) <= limit && RoomRatio(servers, posMax) <= 0.9999
  }

  /** The largest room and the rest differ by no more than the given share of the largest room. */
  lemma NormalMeans(servers: nat, posMax: nat, copies: nat, limit: real)
    requires posMax > 0
    ensures Normal(servers, posMax, copies, limit) <==>
              && copies <= servers
              && -limit * posMax as real <= (servers - 2 * posMax) as real <= limit * posMax as real
              && -0.9999 * posMax as real <= (servers - 2 * posMax) as real <= 0.9999 * posMax as real
  {
    var diff := servers - posMax - posMax;
    Share(if diff <= 0 then -diff else diff, posMax, limit);
    Share(if diff <= 0 then -diff else diff, posMax, 0.9999);
  }

  lemma Share(diff: nat, whole: nat, limit: real)
    requires whole > 0
    ensures diff as real / whole as real <= limit <==> diff as real <= limit * whole as real
  {
    var q := diff as real / whole as real;
    assert q * whole as real == diff as real;
    assert q <= limit ==> q * whole as real <= limit * whole as real;
    assert q > limit ==> q * whole as real > limit * whole as real;
  }

  lemma OneRoomOnly(servers: set<Node>, rooms: set<int>, room: int)
    requires |rooms| <= 1 && room in rooms && forall s :: s in servers ==> s.pos in rooms
    ensures RoomOf(servers, room) == servers
  {
    forall p | p in rooms ensures p == room {
      assert |rooms - {room}| == |rooms| - 1;
    }
  }

  lemma OneRoomIsUneven(servers: set<Node>, rooms: set<int>, room: int, copies: nat, limit: real)
    requires |rooms| <= 1 && room in rooms && forall p :: RoomOf(servers, p) != {} ==> p in rooms
    requires RoomOf(servers, room) != {}
    ensures !Normal(|servers|, |RoomOf(servers, room)|, copies, limit)
  {
    forall s | s in servers ensures s.pos in rooms {
      assert s in RoomOf(servers, s.pos);
    }
    OneRoomOnly(servers, rooms, room);
    assert RoomRatio(|servers|, |servers|) == 1.0;
  }

  /** Chooses a strategy by the servers there are: a rack-safe build exactly when it would be accepted. */
  method SelectBuildStrategy(servers: set<Node>, copies: nat, diffRatio: real) returns (strategy: Strategy)
    requires servers != {}
    ensures strategy.RackSafety? ==> TwoRacks(servers)
    ensures forall room :: RoomOf(servers, room) != {} && (forall p :: |RoomOf(servers, p)| <= |RoomOf(servers, room)|) ==>
              (strategy.RackSafety? <==> Normal(|servers|, |RoomOf(servers, room)|, copies, diffRatio))
  {
    var count := RoomSizes(servers);
    if |count| <= 1 {
      forall room | RoomOf(servers, room) != {} ensures !Normal(|servers|, |RoomOf(servers, room)|, copies, diffRatio) {
        OneRoomIsUneven(servers, count.Keys, room, copies, diffRatio);
      }
      return LoadBalance;
    }
    var room, posMax := LargestRoom(servers);
    var ratio := RoomRatio(|servers|, posMax);
    if ratio > diffRatio || |servers| < copies || ratio > 0.9999 {
      strategy := LoadBalance;
    } else {
      NormalMeansTwoRacks(servers, room);
      strategy := RackSafety;
    }
  }

  lemma OutsideRoom(servers: set<Node>, rack: int)
    requires TwoRacks(servers)
    ensures servers - RoomOf(servers, rack) != {}
    ensures RoomOf(servers, rack) + (servers - RoomOf(servers, rack)) == servers
  {
    var s, u :| s in servers && u in servers && s.pos != u.pos;
    assert s in servers - RoomOf(servers, rack) || u in servers - RoomOf(servers, rack);
  }

  lemma CellsCover(buckets: nat, copies: nat)
    requires copies >= 1
    ensures buckets * copies >= buckets && buckets * copies >= 0 && buckets * (copies - 1) >= 0
  {}

  lemma EvenNonNegative(m: map<Node, int>, total: nat)
    requires Even(m, total)
    ensures forall s :: s in m ==> m[s] >= 0
  {
    DivideEvenly(total, |m|);
  }

  lemma TwoMembers(racks: set<int>, x: int, y: int)
    requires x in racks && y in racks && x != y
    ensures |racks| >= 2
  {
    assert {x, y} <= racks;
    assert |racks - {x}| >= 1;
  }

  /** With two racks there is a free server that makes bucket `b` span two racks. */
  lemma SomeServerScattered(t: Table, b: nat, line: nat, servers: set<Node>) returns (s: Node)
    requires line < |t| <= |servers| && |t| >= 2 && forall l :: 0 <= l < |t| ==> b < |t[l]|
    requires Servers(servers) && Genuine(t, servers) && TwoRacks(servers)
    ensures s in servers && NodeFree(t, line, b, s) && OtherRack(t, line, b, s)
  {
    s := SomeServerFree(t, b, line, servers);
    if !OtherRack(t, line, b, s) {
      var x, y :| x in servers && y in servers && x.pos != y.pos;
      var other := if line == 0 then 1 else 0;
      s := if x.pos != s.pos then x else y;
      assert t[other][b].pos != s.pos;
      forall l | 0 <= l < |t| && l != line ensures t[l][b].id != s.id {
        assert GenuineCell(t, l, b, servers);
      }
    }
  }

  // ----- what the passes do to a bucket -----

  /** The first slave of `r` that differs from `t` names a server that no other copy of `t` names. */
  ghost predicate FreshFirst(t: Table, r: Table, b: nat, k: nat)
    requires k <= |t| == |r| && forall l :: 0 <= l < |t| ==> b < |t[l]| && b < |r[l]|
  {
    forall l :: 1 <= l < k && r[l][b] != t[l][b] && (forall m :: 0 <= m < l ==> r[m][b] == t[m][b]) ==>
      forall m :: 0 <= m < |t| && m != l ==> r[l][b].id != t[m][b].id
  }

  /** Slaves 1 to k-1 of bucket `b` are on live servers that nobody else in the bucket uses; the
      other copies are still those of `t`. */
  ghost predicate Settled(t: Table, r: Table, b: nat, k: nat, servers: set<Node>)
    requires 1 <= k <= |t| == |r| && forall l :: 0 <= l < |t| ==> b < |t[l]| && b < |r[l]|
  {
    (forall l :: 0 <= l < |t| ==> SettledLine(t, r, b, k, l, servers)) && FreshFirst(t, r, b, k)
  }

  ghost predicate SettledLine(t: Table, r: Table, b: nat, k: nat, l: nat, servers: set<Node>)
    requires l < |t| == |r| && forall l :: 0 <= l < |t| ==> b < |t[l]| && b < |r[l]|
  {
    if 1 <= l < k then r[l][b] in servers && NodeFree(r, l, b, r[l][b]) else r[l][b] == t[l][b]
  }

  lemma SettleOne(t: Table, r: Table, b: nat, k: nat, servers: set<Node>, n: Node)
    requires 1 <= k < |t| == |r| && forall l :: 0 <= l < |t| ==> b < |t[l]| && b < |r[l]|
    requires Settled(t, r, b, k, servers) && n in servers && NodeFree(r, k, b, n)
    ensures Settled(t, SetCell(r, k, b, n), b, k + 1, servers)
  {
    var u := SetCell(r, k, b, n);
    assert forall l :: 0 <= l < |t| ==> u[l][b] == if l == k then n else r[l][b];
    var next := k + 1;
    forall l | 0 <= l < |t| ensures SettledLine(t, u, b, next, l, servers) {
      assert SettledLine(t, r, b, k, l, servers);
    }
    forall m | k < m < |t| ensures r[m][b] == t[m][b] {
      assert SettledLine(t, r, b, k, m, servers);
    }
    FreshOne(t, r, u, b, k, n);
  }

  lemma FreshOne(t: Table, r: Table, u: Table, b: nat, k: nat, n: Node)
    requires 1 <= k < |t| == |r| == |u| && forall l :: 0 <= l < |t| ==> b < |t[l]| && b < |r[l]| && b < |u[l]|
    requires FreshFirst(t, r, b, k) && NodeFree(r, k, b, n)
    requires forall l :: 0 <= l < |t| ==> u[l][b] == if l == k then n else r[l][b]
    requires forall m :: k < m < |t| ==> r[m][b] == t[m][b]
    ensures FreshFirst(t, u, b, k + 1)
  {
    forall l | 1 <= l < k + 1 && u[l][b] != t[l][b] && (forall m :: 0 <= m < l ==> u[m][b] == t[m][b])
      ensures forall m :: 0 <= m < |t| && m != l ==> u[l][b].id != t[m][b].id
    {
      assert forall m :: 0 <= m < l ==> r[m][b] == u[m][b];
      if l == k {
        assert forall m :: 0 <= m < |t| && m != k ==> r[m][b] == t[m][b];
      }
    }
  }

  /** The first `b` buckets have all their slaves settled, apart from each other in rack if `byRack`;
      the later ones are those of `t`. */
  ghost predicate SlavesPlaced(t: Table, r: Table, b: nat, servers: set<Node>, byRack: bool) {
    && |r| == |t| >= 1
    && (forall l :: 0 <= l < |t| ==> |r[l]| == |t[l]| == |t[0]|) && b <= |t[0]|
    && (forall c :: 0 <= c < b ==> Settled(t, r, c, |t|, servers))
    && (forall c :: 0 <= c < b && byRack ==> TwoRackColumn(r, c))
    && (forall c :: b <= c < |t[0]| ==> SameColumn(t, r, c))
  }

  /** The copies of bucket `b` are not all in one rack. */
  ghost predicate TwoRackColumn(t: Table, b: nat)
    requires forall l :: 0 <= l < |t| ==> b < |t[l]|
  {
    exists l, m :: 0 <= l < |t| && 0 <= m < |t| && t[l][b].pos != t[m][b].pos
  }

  lemma SlavesStep(t: Table, q: Table, r: Table, b: nat, servers: set<Node>, byRack: bool)
    requires SlavesPlaced(t, q, b, servers, byRack) && b < |t[0]|
    requires RowPlaced(q, r, b, |t|, servers, byRack) && (byRack ==> |t| >= 2)
    ensures SlavesPlaced(t, r, b + 1, servers, byRack)
  {
    forall c | 0 <= c < b + 1
      ensures Settled(t, r, c, |t|, servers) && (byRack ==> TwoRackColumn(r, c))
    {
      SlavesStepAt(t, q, r, b, servers, byRack, c);
    }
    forall c | b + 1 <= c < |t[0]| ensures SameColumn(t, r, c) {
      assert SameColumn(t, q, c) && SameColumn(q, r, c);
    }
  }

  lemma SlavesStepAt(t: Table, q: Table, r: Table, b: nat, servers: set<Node>, byRack: bool, c: nat)
    requires SlavesPlaced(t, q, b, servers, byRack) && c <= b < |t[0]|
    requires RowPlaced(q, r, b, |t|, servers, byRack) && (byRack ==> |t| >= 2)
    ensures |r| == |t| && forall l :: 0 <= l < |t| ==> c < |r[l]|
    ensures c > b || (Settled(t, r, c, |t|, servers) && (byRack ==> TwoRackColumn(r, c)))
  {
    if c < b {
      var settled := Settled(t, q, c, |t|, servers);
      assert SameColumn(q, r, c) && settled;
      SettledCarries(t, q, r, c, servers);
    } else {
      assert SameColumn(t, q, b);
      SettledFrom(t, q, r, c, servers);
    }
  }

  lemma SettledCarries(t: Table, q: Table, r: Table, b: nat, servers: set<Node>)
    requires |t| == |q| == |r| >= 1 && forall l :: 0 <= l < |t| ==> b < |t[l]| && b < |q[l]| && b < |r[l]|
    requires Settled(t, q, b, |t|, servers) && SameColumn(q, r, b)
    ensures Settled(t, r, b, |t|, servers)
    ensures TwoRackColumn(q, b) ==> TwoRackColumn(r, b)
  {
    assert forall l :: 0 <= l < |t| ==> r[l][b] == q[l][b];
    forall l | 0 <= l < |t| ensures SettledLine(t, r, b, |t|, l, servers) {
      assert SettledLine(t, q, b, |t|, l, servers);
    }
    assert FreshFirst(t, q, b, |t|);
  }

  lemma SettledFrom(t: Table, q: Table, r: Table, b: nat, servers: set<Node>)
    requires |t| == |q| == |r| >= 1 && forall l :: 0 <= l < |t| ==> b < |t[l]| && b < |q[l]| && b < |r[l]|
    requires Settled(q, r, b, |t|, servers) && SameColumn(t, q, b)
    ensures Settled(t, r, b, |t|, servers)
  {
    assert forall l :: 0 <= l < |t| ==> q[l][b] == t[l][b];
    forall l | 0 <= l < |t| ensures SettledLine(t, r, b, |t|, l, servers) {
      assert SettledLine(q, r, b, |t|, l, servers);
    }
    assert FreshFirst(q, r, b, |t|);
  }

  /** Bucket `b` has its first `k - 1` slaves settled and no other bucket changed. */
  ghost predicate RowPlaced(t: Table, r: Table, b: nat, k: nat, servers: set<Node>, byRack: bool) {
    && 1 <= k <= |t| == |r| && (forall l :: 0 <= l < |t| ==> b < |t[l]| && b < |r[l]|)
    && SameOutside(t, r, b) && Settled(t, r, b, k, servers)
    && (byRack && k >= 2 ==> TwoRackColumn(r, b))
  }

  lemma RowStarts(t: Table, b: nat, servers: set<Node>, byRack: bool)
    requires |t| >= 1 && b < |t[0]| && forall l :: 0 <= l < |t| ==> |t[l]| == |t[0]|
    ensures RowPlaced(t, t, b, 1, servers, byRack)
  {
  }

  lemma RowStep(t: Table, r: Table, b: nat, k: nat, servers: set<Node>, byRack: bool, n: Node)
    requires RowPlaced(t, r, b, k, servers, byRack) && k < |t|
    requires n in servers && NodeFree(r, k, b, n) && (byRack ==> OtherRack(r, k, b, n))
    ensures RowPlaced(t, SetCell(r, k, b, n), b, k + 1, servers, byRack)
  {
    SettleOne(t, r, b, k, servers, n);
    SetCellOutside(r, k, b, n);
    SameOutsideChain(t, r, SetCell(r, k, b, n), b);
    if byRack {
      OtherRackMeans(r, k, b, n);
    }
  }

  /** Every master is on a live server and nobody masters more than its capacity. */
  ghost predicate MastersContent(masters: Ledger, servers: set<Node>, t: Table) {
    && |t| >= 1 && (forall b :: 0 <= b < |t[0]| ==> t[0][b] in servers)
    && (forall s :: s in servers ==> Get(masters.count, s) <= Get(masters.capable, s))
  }

  /** Copy `l` of bucket `b` is where the strictest level would leave it. */
  ghost predicate SlaveContent(all: Ledger, servers: set<Node>, t: Table, l: nat, b: nat, strategy: Strategy, byRack: bool)
    requires l < |t| && forall k :: 0 <= k < |t| ==> b < |t[k]|
  {
    && t[l][b] in servers && Get(all.count, t[l][b]) <= Get(all.capable, t[l][b])
    && NodeFree(t, l, b, t[l][b])
    && (strategy.LoadBalance? ==> RackFree(t, l, b, t[l][b]))
    && (byRack ==> OtherRack(t, l, b, t[l][b]))
  }

  ghost predicate SlavesContent(all: Ledger, servers: set<Node>, t: Table, buckets: nat, strategy: Strategy, byRack: bool)
    requires Shape(t, |t|, buckets)
  {
    forall l, b {:trigger SlaveContent(all, servers, t, l, b, strategy, byRack)} ::
      1 <= l < |t| && 0 <= b < buckets ==> SlaveContent(all, servers, t, l, b, strategy, byRack)
  }

  /** Every copy is on a live server and the copies of a bucket are on different servers. */
  ghost predicate Placed(t: Table, copies: nat, buckets: nat, servers: set<Node>) {
    Shape(t, copies, buckets) && forall b {:trigger PlacedColumn(t, b, servers)} :: 0 <= b < buckets ==> PlacedColumn(t, b, servers)
  }

  ghost predicate PlacedColumn(t: Table, b: nat, servers: set<Node>)
    requires forall l :: 0 <= l < |t| ==> b < |t[l]|
  {
    forall l :: 0 <= l < |t| ==> t[l][b] in servers && NodeFree(t, l, b, t[l][b])
  }

  /** A bucket that keeps its master changes its slaves only by bringing in servers it did not use:
      the first slave that differs is new to the bucket. */
  ghost predicate Evolved(t: Table, r: Table, b: nat)
    requires 1 <= |t| == |r| && forall l :: 0 <= l < |t| ==> b < |t[l]| && b < |r[l]|
  {
    r[0][b] == t[0][b] ==> FreshFirst(t, r, b, |t|)
  }

  /** What a successful build makes of `t`. */
  ghost predicate Rebuilt(t: Table, r: Table, copies: nat, buckets: nat, servers: set<Node>, byRack: bool) {
    && copies >= 1 && Shape(t, copies, buckets) && Placed(r, copies, buckets, servers)
    && (forall b :: 0 <= b < buckets ==> Evolved(t, r, b))
    && (byRack ==> forall b :: 0 <= b < buckets ==> TwoRackColumn(r, b))
  }

  // ----- a table that needs no change -----

  /** All copies on live servers, servers and racks distinct in every bucket, and both the masters
      and all copies spread evenly over the servers. */
  ghost predicate Balanced(t: Table, copies: nat, buckets: nat, servers: set<Node>)
    requires servers != {}
  {
    && Placed(t, copies, buckets, servers)
    && (forall b {:trigger RacksApart(t, b)} :: 0 <= b < buckets ==> RacksApart(t, b))
    && (forall s {:trigger FairShare(t, s, copies, buckets, |servers|)} ::
          s in servers ==> FairShare(t, s, copies, buckets, |servers|))
  }

  /** Of all cells and of the masters, a server has the floor of the mean or one more. */
  ghost predicate FairShare(t: Table, s: Node, copies: nat, buckets: nat, servers: nat)
    requires servers > 0
  {
    && buckets * copies / servers <= Copies(t, s) <= buckets * copies / servers + 1
    && buckets / servers <= Masters(t, s) <= buckets / servers + 1
  }

  ghost predicate RacksApart(t: Table, b: nat)
    requires forall l :: 0 <= l < |t| ==> b < |t[l]|
  {
    forall l :: 0 <= l < |t| ==> RackFree(t, l, b, t[l][b])
  }

  lemma BalancedContent(t: Table, copies: nat, buckets: nat, servers: set<Node>, all: Ledger, masters: Ledger)
    requires servers != {} && copies >= 1 && Balanced(t, copies, buckets, servers)
    requires all.capable == all.count && masters.capable == masters.count
    ensures MastersContent(masters, servers, t)
    ensures SlavesContent(all, servers, t, buckets, LoadBalance, false)
  {
    forall b | 0 <= b < buckets ensures t[0][b] in servers {
      assert PlacedColumn(t, b, servers);
    }
    forall l, b | 1 <= l < |t| && 0 <= b < buckets ensures SlaveContent(all, servers, t, l, b, LoadBalance, false) {
      assert PlacedColumn(t, b, servers) && RacksApart(t, b);
    }
  }

  lemma BalancedSums(t: Table, copies: nat, buckets: nat, servers: set<Node>, tokens: map<Node, int>, mtokens: map<Node, int>)
    requires servers != {} && copies >= 1 && Balanced(t, copies, buckets, servers)
    requires tokens.Keys == servers && mtokens.Keys == servers
    requires forall s :: s in servers ==> tokens[s] == Copies(t, s) && mtokens[s] == Masters(t, s)
    ensures Even(tokens, buckets * copies) && Sum(tokens) == buckets * copies
    ensures Even(mtokens, buckets) && Sum(mtokens) == buckets
  {
    assert |tokens| == |servers| == |mtokens| by { assert tokens.Keys == mtokens.Keys == servers; }
    assert forall s :: s in servers ==> FairShare(t, s, copies, buckets, |servers|);
    CellsSize(t, copies, buckets);
    forall l, b | 0 <= l < |t| && 0 <= b < |t[l]| ensures t[l][b] in servers {
      assert PlacedColumn(t, b, servers);
    }
    CellsFrom(t, servers);
    SumOfCells(tokens, Cells(t));
    assert forall n :: n in multiset(t[0]) ==> n in t[0];
    SumOfCells(mtokens, multiset(t[0]));
  }
}
