/** Which buckets a new target table makes migrate, and why the config server's test for it is exact. */
module Accounting {
  import opened Placement
  import opened Rows
  import opened Bookkeeping

  /** A table as the config server stores it: server ids only, one line per copy. */
  type Ids = seq<seq<int>>

  ghost predicate IdShape(t: Ids, copies: nat, buckets: nat) {
    |t| == copies && forall l :: 0 <= l < copies ==> |t[l]| == buckets
  }

  /** Bucket `b` is the same in both tables. */
  predicate SameBucket(m: Ids, d: Ids, b: nat)
    requires |m| == |d| && forall l :: 0 <= l < |m| ==> b < |m[l]| && b < |d[l]|
  {
    forall l :: 0 <= l < |m| ==> m[l][b] == d[l][b]
  }

  /** Slave `j` of the target is not among the slaves that bucket `b` has now. */
  predicate SlaveMissing(m: Ids, d: Ids, b: nat, j: nat)
    requires j < |m| == |d| && forall l :: 0 <= l < |m| ==> b < |m[l]| && b < |d[l]|
  {
    forall k :: 1 <= k < |m| ==> d[j][b] != m[k][b]
  }

  /** The config server's test: the master differs, or some slave of the target is missing. */
  predicate MustMigrate(m: Ids, d: Ids, b: nat)
    requires 1 <= |m| == |d| && forall l :: 0 <= l < |m| ==> b < |m[l]| && b < |d[l]|
  {
    m[0][b] != 0 && (m[0][b] != d[0][b] || exists j :: 1 <= j < |m| && SlaveMissing(m, d, b, j))
  }

  lemma MustMigrateDiffers(m: Ids, d: Ids, b: nat)
    requires 1 <= |m| == |d| && forall l :: 0 <= l < |m| ==> b < |m[l]| && b < |d[l]|
    requires MustMigrate(m, d, b)
    ensures !SameBucket(m, d, b)
  {
    if m[0][b] == d[0][b] {
      var j :| 1 <= j < |m| && SlaveMissing(m, d, b, j);
      assert d[j][b] != m[j][b];
    }
  }

  // ----- from ids to nodes and back -----

  /** Reading a stored table: the rack of a server is computed from its id. */
  function Load(t: Ids, rack: int -> int): (r: Table)
    ensures |r| == |t|
    ensures forall l :: 0 <= l < |t| ==> |r[l]| == |t[l]|
    ensures forall l, b :: 0 <= l < |t| && 0 <= b < |t[l]| ==> r[l][b] == Node(t[l][b], rack(t[l][b]))
  {
    seq(|t|, l requires 0 <= l < |t| => seq(|t[l]|, b requires 0 <= b < |t[l]| => Node(t[l][b], rack(t[l][b]))))
  }

  /** Writing a table back keeps the ids. */
  function Write(t: Table): (r: Ids)
    ensures |r| == |t|
    ensures forall l :: 0 <= l < |t| ==> |r[l]| == |t[l]|
    ensures forall l, b :: 0 <= l < |t| && 0 <= b < |t[l]| ==> r[l][b] == t[l][b].id
  {
    seq(|t|, l requires 0 <= l < |t| => seq(|t[l]|, b requires 0 <= b < |t[l]| => t[l][b].id))
  }

  lemma WriteLoad(t: Ids, rack: int -> int)
    ensures Write(Load(t, rack)) == t
  {
    var r := Write(Load(t, rack));
    forall l | 0 <= l < |t| ensures r[l] == t[l] {
    }
  }

  ghost predicate Live(servers: set<Node>, rack: int -> int) {
    Servers(servers) && forall s :: s in servers ==> s.pos == rack(s.id)
  }

  lemma LoadGenuine(t: Ids, rack: int -> int, servers: set<Node>)
    requires Live(servers, rack)
    ensures Genuine(Load(t, rack), servers)
  {
    var r := Load(t, rack);
    forall l, b | 0 <= l < |r| && 0 <= b < |r[l]| ensures GenuineCell(r, l, b, servers) {
    }
  }

  // ----- the pigeonhole on slave ids -----

  /** The ids in lines 1 to k-1 of bucket `b`. */
  ghost function SlaveIds(t: Table, b: nat, k: nat): set<int>
    requires k <= |t| && forall l :: 0 <= l < |t| ==> b < |t[l]|
  {
    set l | 1 <= l < k :: t[l][b].id
  }

  /** Slave `j` of bucket `b` of `d` is on a server that some slave of `q` is on. */
  ghost predicate SlaveFound(q: Table, d: Table, b: nat, j: nat)
    requires j < |d| && |q| == |d| && forall l :: 0 <= l < |q| ==> b < |q[l]| && b < |d[l]|
  {
    d[j][b].id in SlaveIds(q, b, |q|)
  }

  ghost predicate SlavesFound(q: Table, d: Table, b: nat)
    requires |q| == |d| && forall l :: 0 <= l < |q| ==> b < |q[l]| && b < |d[l]|
  {
    forall j :: 1 <= j < |d| ==> SlaveFound(q, d, b, j)
  }

  lemma {:induction false} SlaveIdsSize(t: Table, b: nat, k: nat)
    requires 1 <= k <= |t| && forall l :: 0 <= l < |t| ==> b < |t[l]|
    ensures |SlaveIds(t, b, k)| <= k - 1
    ensures (forall l, m :: 1 <= l < m < k ==> t[l][b].id != t[m][b].id) ==> |SlaveIds(t, b, k)| == k - 1
    decreases k
  {
    if k == 1 {
      assert SlaveIds(t, b, k) == {};
    } else {
      SlaveIdsSize(t, b, k - 1);
      assert SlaveIds(t, b, k) == SlaveIds(t, b, k - 1) + {t[k - 1][b].id};
    }
  }

  lemma EqualSize(a: set<int>, b: set<int>)
    requires a <= b && |a| >= |b|
    ensures a == b
  {
    assert b == a + (b - a);
  }

  /** When every slave of the placed bucket is among the slaves of `q`, every slave of `q` is among
      those of the placed bucket. */
  lemma SlavesMatch(q: Table, d: Table, b: nat, servers: set<Node>)
    requires 1 <= |q| == |d| && forall l :: 0 <= l < |q| ==> b < |q[l]| && b < |d[l]|
    requires PlacedColumn(d, b, servers)
    requires SlavesFound(q, d, b)
    ensures SlaveIds(q, b, |q|) == SlaveIds(d, b, |d|)
  {
    SlaveIdsSize(q, b, |q|);
    SlaveIdsSize(d, b, |d|);
    forall l, m | 1 <= l < m < |d| ensures d[l][b].id != d[m][b].id {
      assert NodeFree(d, l, b, d[l][b]);
    }
    forall x | x in SlaveIds(d, b, |d|) ensures x in SlaveIds(q, b, |q|) {
      var j :| 1 <= j < |d| && x == d[j][b].id;
      assert SlaveFound(q, d, b, j);
    }
    EqualSize(SlaveIds(d, b, |d|), SlaveIds(q, b, |q|));
  }

  lemma NoEmptySlave(q: Table, d: Table, b: nat, servers: set<Node>)
    requires 1 <= |q| == |d| && forall l :: 0 <= l < |q| ==> b < |q[l]| && b < |d[l]|
    requires Servers(servers) && PlacedColumn(d, b, servers)
    requires SlavesFound(q, d, b)
    ensures forall l :: 1 <= l < |q| ==> q[l][b].id != 0
  {
    SlavesMatch(q, d, b, servers);
    forall l | 1 <= l < |q| ensures q[l][b].id != 0 {
      assert q[l][b].id in SlaveIds(d, b, |d|);
    }
  }

  /** A quick bucket without an empty slave is the old bucket, all of it live. */
  lemma FullQuickIsOld(t: Table, q: Table, b: nat, servers: set<Node>)
    requires 1 <= |t| == |q| && forall l :: 0 <= l < |t| ==> b < |t[l]| && b < |q[l]|
    requires QuickColumn(t, q, b, servers)
    requires forall l :: 1 <= l < |t| ==> q[l][b].id != 0
    ensures SameColumn(t, q, b) && forall l :: 0 <= l < |t| ==> t[l][b] in servers
  {
    var c: nat :| QuickFrom(t, q, b, c, servers);
    assert c == 0;
    forall l | 1 <= l < |t| ensures q[l][b] == t[l][b] && t[l][b] in servers {
      assert q[l][b] == Blanked(t[l][b], servers);
    }
  }

  /** Up to a slave of the rebuilt bucket that was a slave before, nothing has changed: neither has it. */
  lemma NextSlaveStays(t: Table, d: Table, b: nat, j: nat)
    requires 1 <= j < |t| == |d| && forall l :: 0 <= l < |t| ==> b < |t[l]| && b < |d[l]|
    requires FreshFirst(t, d, b, |t|) && (forall m :: 0 <= m < j ==> d[m][b] == t[m][b])
    requires SlaveFound(t, d, b, j) && IdTells(d[j][b], t[j][b])
    ensures d[j][b] == t[j][b]
  {
    var k :| 1 <= k < |t| && d[j][b].id == t[k][b].id;
    assert d[j][b] == t[j][b] || k == j;
  }

  /** A rebuilt bucket with the master and the slave ids of the old, fully live bucket is that bucket. */
  lemma {:induction false} SameSlavesSameBucket(t: Table, d: Table, b: nat, servers: set<Node>, l: nat)
    requires 1 <= |t| == |d| && forall l :: 0 <= l < |t| ==> b < |t[l]| && b < |d[l]|
    requires Servers(servers) && PlacedColumn(d, b, servers) && Evolved(t, d, b)
    requires forall l :: 0 <= l < |t| ==> t[l][b] in servers
    requires d[0][b] == t[0][b] && SlavesFound(t, d, b)
    requires l <= |t|
    ensures forall m :: 0 <= m < l ==> d[m][b] == t[m][b]
    decreases l
  {
    if l > 1 {
      var j := l - 1;
      SameSlavesSameBucket(t, d, b, servers, j);
      assert SlaveFound(t, d, b, j) && IdTells(d[j][b], t[j][b]);
      NextSlaveStays(t, d, b, j);
    }
  }

  lemma SameIds(t: Table, q: Table, b: nat)
    requires 1 <= |t| == |q| && forall l :: 0 <= l < |t| ==> b < |t[l]| && b < |q[l]|
    requires SameColumn(t, q, b)
    ensures SlaveIds(q, b, |t|) == SlaveIds(t, b, |t|)
  {
    assert forall l :: 1 <= l < |t| ==> q[l][b].id == t[l][b].id;
  }

  lemma FoundAgain(t: Table, q: Table, d: Table, b: nat)
    requires 1 <= |t| == |q| == |d| && forall l :: 0 <= l < |t| ==> b < |t[l]| && b < |q[l]| && b < |d[l]|
    requires SlavesFound(q, d, b) && SameColumn(t, q, b)
    ensures SlavesFound(t, d, b)
  {
    SameIds(t, q, b);
    forall j | 1 <= j < |d| ensures SlaveFound(t, d, b, j) {
      assert SlaveFound(q, d, b, j);
    }
  }

  lemma LiveMasterSame(t: Table, d: Table, b: nat, servers: set<Node>)
    requires 1 <= |t| == |d| && forall l :: 0 <= l < |t| ==> b < |t[l]| && b < |d[l]|
    requires Servers(servers) && PlacedColumn(d, b, servers) && t[0][b] in servers && t[0][b].id == d[0][b].id
    ensures d[0][b] == t[0][b]
  {
    assert IdTells(d[0][b], t[0][b]);
  }

  /** A rebuilt bucket with the master of the quick bucket and slaves found among its slaves is the
      quick bucket: the two never hold the same servers in another order. */
  lemma QuietBucket(t: Table, q: Table, d: Table, b: nat, servers: set<Node>)
    requires 1 <= |t| == |q| == |d| && forall l :: 0 <= l < |t| ==> b < |t[l]| && b < |q[l]| && b < |d[l]|
    requires Servers(servers) && QuickColumn(t, q, b, servers) && PlacedColumn(d, b, servers) && Evolved(t, d, b)
    requires q[0][b].id == d[0][b].id && SlavesFound(q, d, b)
    ensures SameColumn(q, d, b)
  {
    NoEmptySlave(q, d, b, servers);
    FullQuickIsOld(t, q, b, servers);
    FoundAgain(t, q, d, b);
    LiveMasterSame(t, d, b, servers);
    SameSlavesSameBucket(t, d, b, servers, |t|);
  }

  /** Exact accounting: after a rebuild, the test flags a bucket exactly when it has to change. */
  lemma TestIsExact(t: Table, q: Table, d: Table, copies: nat, buckets: nat, servers: set<Node>, byRack: bool, b: nat)
    requires Servers(servers) && b < buckets
    requires QuickTable(t, q, copies, buckets, servers) && Rebuilt(t, d, copies, buckets, servers, byRack)
    ensures MustMigrate(Write(q), Write(d), b) <==> !SameBucket(Write(q), Write(d), b)
  {
    var m, n := Write(q), Write(d);
    if MustMigrate(m, n, b) {
      MustMigrateDiffers(m, n, b);
    } else {
      assert QuickColumn(t, q, b, servers) && PlacedColumn(d, b, servers) && Evolved(t, d, b);
      var c: nat :| QuickFrom(t, q, b, c, servers);
      forall j | 1 <= j < copies ensures SlaveFound(q, d, b, j) {
        assert !SlaveMissing(m, n, b, j);
        var k :| 1 <= k < copies && n[j][b] == m[k][b];
        assert q[k][b].id == d[j][b].id;
      }
      QuietBucket(t, q, d, b, servers);
    }
  }

  /** With a single copy the table is patched instead: a lost master is replaced by its target. */
  lemma SingleCopyTestIsExact(m: Ids, d: Ids, b: nat)
    requires |m| == |d| == 1 && b < |m[0]| && b < |d[0]| && m[0][b] != 0
    ensures MustMigrate(m, d, b) <==> !SameBucket(m, d, b)
  {
    assert SameBucket(m, d, b) <==> m[0][b] == d[0][b];
  }

  // ----- the quick table neither loses nor invents a copy -----

  /** The live copies among the first `k` lines of bucket `b`. */
  ghost function LiveCopies(t: Table, b: nat, k: nat, servers: set<Node>): multiset<Node>
    requires k <= |t| && forall l :: 0 <= l < |t| ==> b < |t[l]|
  {
    if k == 0 then multiset{}
    else if t[k - 1][b] in servers then LiveCopies(t, b, k - 1, servers) + multiset{t[k - 1][b]}
    else LiveCopies(t, b, k - 1, servers)
  }

  /** The cells in use among the first `k` lines of bucket `b`. */
  ghost function UsedCells(t: Table, b: nat, k: nat): multiset<Node>
    requires k <= |t| && forall l :: 0 <= l < |t| ==> b < |t[l]|
  {
    if k == 0 then multiset{}
    else if t[k - 1][b].id != 0 then UsedCells(t, b, k - 1) + multiset{t[k - 1][b]}
    else UsedCells(t, b, k - 1)
  }

  lemma {:induction false} QuickKeepsUpTo(t: Table, q: Table, b: nat, c: nat, servers: set<Node>, k: nat)
    requires 1 <= k <= |t| == |q| && forall l :: 0 <= l < |t| ==> b < |t[l]| && b < |q[l]|
    requires Servers(servers) && QuickFrom(t, q, b, c, servers)
    ensures c < k ==> UsedCells(q, b, k) == LiveCopies(t, b, k, servers)
    ensures c >= k ==> UsedCells(q, b, k) == LiveCopies(t, b, k, servers) + multiset{t[c][b]}
    decreases k
  {
    if k == 1 {
      assert UsedCells(q, b, 0) == LiveCopies(t, b, 0, servers) == multiset{};
      assert q[0][b] == t[c][b];
    } else {
      QuickKeepsUpTo(t, q, b, c, servers, k - 1);
      var used, live, x := UsedCells(q, b, k - 1), LiveCopies(t, b, k - 1, servers), t[k - 1][b];
      if k - 1 == c {
        assert UsedCells(q, b, k) == used && LiveCopies(t, b, k, servers) == live + multiset{x};
      } else if x in servers {
        assert q[k - 1][b] == x;
        assert UsedCells(q, b, k) == used + multiset{x} && LiveCopies(t, b, k, servers) == live + multiset{x};
      } else {
        assert q[k - 1][b] == Node(0, 0);
        assert UsedCells(q, b, k) == used && LiveCopies(t, b, k, servers) == live;
      }
    }
  }

  /** The cells in use in a quick bucket are exactly the live copies of the old bucket, and its
      master is one of them. */
  lemma QuickIsConservative(t: Table, q: Table, copies: nat, buckets: nat, servers: set<Node>, b: nat)
    requires Servers(servers) && QuickTable(t, q, copies, buckets, servers) && b < buckets
    ensures UsedCells(q, b, copies) == LiveCopies(t, b, copies, servers)
    ensures q[0][b] in servers
  {
    assert QuickColumn(t, q, b, servers);
    var c: nat :| QuickFrom(t, q, b, c, servers);
    QuickKeepsUpTo(t, q, b, c, servers, copies);
  }

  // ----- a table that is placed already -----

  /** The quick table of a table without a dead server is that table. */
  lemma QuickOfPlaced(t: Table, q: Table, copies: nat, buckets: nat, servers: set<Node>)
    requires copies >= 1 && Placed(t, copies, buckets, servers) && QuickTable(t, q, copies, buckets, servers)
    ensures q == t
  {
    forall b | 0 <= b < buckets ensures SameColumn(t, q, b) {
      assert PlacedColumn(t, b, servers) && QuickColumn(t, q, b, servers);
      var c: nat :| QuickFrom(t, q, b, c, servers);
      assert t[0][b] in servers;
      forall l | 0 <= l < copies ensures q[l][b] == t[l][b] {
        assert t[l][b] in servers;
      }
    }
    forall l | 0 <= l < copies ensures q[l] == t[l] {
      forall b | 0 <= b < buckets ensures q[l][b] == t[l][b] {
        assert SameColumn(t, q, b);
      }
    }
  }

  /** The servers of a placed bucket are as many as its copies. */
  lemma {:induction false} PlacedFits(t: Table, b: nat, servers: set<Node>, k: nat) returns (used: set<Node>)
    requires k <= |t| && (forall l :: 0 <= l < |t| ==> b < |t[l]|) && PlacedColumn(t, b, servers)
    ensures used <= servers && |used| == k && forall n :: n in used ==> exists l :: 0 <= l < k && t[l][b] == n
    decreases k
  {
    used := {};
    if k > 0 {
      var last := k - 1;
      used := PlacedFits(t, b, servers, last);
      assert t[last][b] in servers && NodeFree(t, last, b, t[last][b]);
      used := used + {t[last][b]};
    }
  }
}
