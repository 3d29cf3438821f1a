/** The per-server books kept beside a table: that they agree with it, and what moving masters does. */
module Bookkeeping {
  import opened Counting
  import opened Placement
  import opened Ledgers
  import opened Rows

  // ----- agreement of the books with the table -----

  ghost predicate CopiesCounted(l: Ledger, t: Table, s: Node) {
    Get(l.count, s) == Copies(t, s)
  }

  ghost predicate MastersCounted(l: Ledger, t: Table, s: Node) {
    Get(l.count, s) == Masters(t, s)
  }

  /** The ledger agrees with itself and with a recount of all copies. */
  ghost predicate RecountAll(l: Ledger, servers: set<Node>, t: Table) {
    Agrees(l, servers) && forall s {:trigger CopiesCounted(l, t, s)} :: s in servers ==> CopiesCounted(l, t, s)
  }

  /** The ledger agrees with itself and with a recount of the masters. */
  ghost predicate RecountMasters(l: Ledger, servers: set<Node>, t: Table) {
    Agrees(l, servers) && forall s {:trigger MastersCounted(l, t, s)} :: s in servers ==> MastersCounted(l, t, s)
  }

  /** The change told to a ledger when it keeps `n`. */
  function Tell(l: Ledger, n: Node, delta: int, servers: set<Node>): Ledger {
    if n in servers then ChangeTokens(l, n, delta) else l
  }

  lemma TellAgrees(l: Ledger, n: Node, delta: int, servers: set<Node>)
    requires Agrees(l, servers)
    ensures var r := Tell(l, n, delta, servers);
            && Agrees(r, servers) && r.capable == l.capable
            && forall s :: s in servers ==> r.count[s] == l.count[s] + if s == n then delta else 0
  {
    if n in servers {
      ChangeKeepsAgreement(l, n, delta, servers);
    }
  }

  /** Only line 0 is told to the master ledger. */
  function TellMaster(l: Ledger, line: nat, n: Node, delta: int, servers: set<Node>): Ledger {
    if line == 0 then Tell(l, n, delta, servers) else l
  }

  /** A cell is given up. */
  lemma GivenUp(all: Ledger, masters: Ledger, servers: set<Node>, t: Table, line: nat, b: nat, n: Node)
    requires RecountAll(all, servers, t) && RecountMasters(masters, servers, t)
    requires line < |t| && b < |t[line]| && n !in servers
    ensures RecountAll(Tell(all, t[line][b], -1, servers), servers, SetCell(t, line, b, n))
    ensures RecountMasters(TellMaster(masters, line, t[line][b], -1, servers), servers, SetCell(t, line, b, n))
  {
    var all', masters' := Tell(all, t[line][b], -1, servers), TellMaster(masters, line, t[line][b], -1, servers);
    TellAgrees(all, t[line][b], -1, servers);
    TellAgrees(masters, t[line][b], -1, servers);
    forall s | s in servers
      ensures CopiesCounted(all', SetCell(t, line, b, n), s)
      ensures MastersCounted(masters', SetCell(t, line, b, n), s)
    {
      assert CopiesCounted(all, t, s) && MastersCounted(masters, t, s);
      CountsSetCell(t, line, b, n, s);
    }
  }

  /** A cell that nobody holds is given out. */
  lemma GivenOut(all: Ledger, masters: Ledger, servers: set<Node>, t: Table, line: nat, b: nat, n: Node)
    requires RecountAll(all, servers, t) && RecountMasters(masters, servers, t)
    requires line < |t| && b < |t[line]| && t[line][b] !in servers
    ensures RecountAll(Tell(all, n, 1, servers), servers, SetCell(t, line, b, n))
    ensures RecountMasters(TellMaster(masters, line, n, 1, servers), servers, SetCell(t, line, b, n))
  {
    var all', masters' := Tell(all, n, 1, servers), TellMaster(masters, line, n, 1, servers);
    TellAgrees(all, n, 1, servers);
    TellAgrees(masters, n, 1, servers);
    forall s | s in servers
      ensures CopiesCounted(all', SetCell(t, line, b, n), s)
      ensures MastersCounted(masters', SetCell(t, line, b, n), s)
    {
      assert CopiesCounted(all, t, s) && MastersCounted(masters, t, s);
      CountsSetCell(t, line, b, n, s);
    }
  }

  // ----- shapes of the quick table -----

  /** Bucket `b` after its slave in line `c` became master: a live old master takes the slave's
      place, a lost one leaves it empty. */
  function Promote(t: Table, b: nat, c: nat, servers: set<Node>): Table
    requires |t| >= 1 && c < |t| && forall l :: 0 <= l < |t| ==> b < |t[l]|
  {
    SetCell(SetCell(t, 0, b, t[c][b]), c, b,
            if t[0][b] in servers then t[0][b] else Node(INVALID_FLAG, t[c][b].pos))
  }

  lemma PromoteFacts(t: Table, b: nat, c: nat, servers: set<Node>)
    requires 1 <= c < |t| && Shape(t, |t|, |t[0]|) && b < |t[0]|
    requires Servers(servers) && t[c][b] in servers
    ensures SameOutside(t, Promote(t, b, c, servers), b)
    ensures t[0][b] !in servers ==> LiveMaster(t, Promote(t, b, c, servers), b, c, servers)
  {}

  lemma PromoteGenuine(t: Table, b: nat, c: nat, servers: set<Node>)
    requires 1 <= c < |t| && (forall l :: 0 <= l < |t| ==> b < |t[l]|)
    requires Servers(servers) && t[c][b] in servers && Genuine(t, servers)
    ensures Genuine(Promote(t, b, c, servers), servers)
  {
    SetCellGenuine(t, servers, 0, b, t[c][b]);
    SetCellGenuine(SetCell(t, 0, b, t[c][b]), servers, c, b,
                   if t[0][b] in servers then t[0][b] else Node(INVALID_FLAG, t[c][b].pos));
  }

  /** Some copy of bucket `b` is on a live server. */
  ghost predicate Alive(t: Table, b: nat, servers: set<Node>)
    requires forall l :: 0 <= l < |t| ==> b < |t[l]|
  {
    exists l :: 0 <= l < |t| && t[l][b] in servers
  }

  /** A lost slave cell is emptied, a live one stays. */
  function Blanked(n: Node, servers: set<Node>): Node {
    if n in servers then n else Node(0, 0)
  }

  /** `r` has in line 0 the live node that `t` has in line `c`; the old cell of line `c`, and the
      master when it was lost, no longer name a live server. */
  ghost predicate LiveMaster(t: Table, r: Table, b: nat, c: nat, servers: set<Node>)
    requires |t| == |r| >= 1 && forall l :: 0 <= l < |t| ==> b < |t[l]| && b < |r[l]|
  {
    && c < |t| && t[c][b] in servers && r[0][b] == t[c][b]
    && (c != 0 ==> t[0][b] !in servers && r[c][b] !in servers)
    && forall l :: 1 <= l < |t| && l != c ==> r[l][b] == t[l][b]
  }

  /** The first `b` buckets have a live master, taken from line `from[c]`; the later ones are those of `t`. */
  ghost predicate Promoted(t: Table, r: Table, b: nat, from: seq<nat>, servers: set<Node>) {
    && |t| == |r| >= 1 && (forall l :: 0 <= l < |t| ==> |r[l]| == |t[l]| == |t[0]|)
    && |from| == b <= |t[0]|
    && (forall c :: 0 <= c < b ==> LiveMaster(t, r, c, from[c], servers))
    && (forall c :: b <= c < |t[0]| ==> SameColumn(t, r, c))
  }

  lemma PromotedStep(t: Table, q: Table, r: Table, b: nat, from: seq<nat>, c: nat, servers: set<Node>)
    requires Promoted(t, q, b, from, servers) && b < |t[0]|
    requires Shape(r, |t|, |t[0]|) && (r == q || SameOutside(q, r, b)) && LiveMaster(q, r, b, c, servers)
    ensures Promoted(t, r, b + 1, from + [c], servers)
    ensures Alive(t, b, servers)
  {
    assert SameColumn(t, q, b);
    forall d | 0 <= d < b + 1 ensures LiveMaster(t, r, d, (from + [c])[d], servers) {
      if d < b {
        assert LiveMaster(t, q, d, from[d], servers) && SameColumn(q, r, d);
      }
    }
    forall d | b + 1 <= d < |t[0]| ensures SameColumn(t, r, d) {
      assert SameColumn(t, q, d) && SameColumn(q, r, d);
    }
  }

  ghost predicate QuickFrom(t: Table, r: Table, b: nat, c: nat, servers: set<Node>)
    requires |t| == |r| >= 1 && forall l :: 0 <= l < |t| ==> b < |t[l]| && b < |r[l]|
  {
    && c < |t| && t[c][b] in servers && r[0][b] == t[c][b]
    && (c != 0 ==> t[0][b] !in servers)
    && forall l :: 1 <= l < |t| ==> r[l][b] == if l == c then Node(0, 0) else Blanked(t[l][b], servers)
  }

  /** Bucket `b` of a quick table: a live master stays or one live slave moves into its place, live
      slaves stay where they are, and every other cell is emptied. */
  ghost predicate QuickColumn(t: Table, r: Table, b: nat, servers: set<Node>)
    requires |t| == |r| >= 1 && forall l :: 0 <= l < |t| ==> b < |t[l]| && b < |r[l]|
  {
    exists c :: QuickFrom(t, r, b, c, servers)
  }

  ghost predicate QuickTable(t: Table, r: Table, copies: nat, buckets: nat, servers: set<Node>) {
    && copies >= 1 && Shape(t, copies, buckets) && Shape(r, copies, buckets)
    && forall b :: 0 <= b < buckets ==> QuickColumn(t, r, b, servers)
  }

  lemma PromoteCounts(t: Table, b: nat, c: nat, servers: set<Node>, s: Node)
    requires 1 <= c < |t| && (forall l :: 0 <= l < |t| ==> b < |t[l]|)
    requires Servers(servers) && s in servers
    ensures Copies(Promote(t, b, c, servers), s) == Copies(t, s)
    ensures Masters(Promote(t, b, c, servers), s)
         == Masters(t, s) + (if s == t[c][b] then 1 else 0) - (if s == t[0][b] then 1 else 0)
  {
    var x := if t[0][b] in servers then t[0][b] else Node(INVALID_FLAG, t[c][b].pos);
    CountsSetCell(t, 0, b, t[c][b], s);
    CountsSetCell(SetCell(t, 0, b, t[c][b]), c, b, x, s);
  }

  /** A promotion moves a master and no copy, for every live server. */
  lemma PromoteKeepsBooks(all: Ledger, masters: Ledger, servers: set<Node>, t: Table, b: nat, c: nat)
    requires RecountAll(all, servers, t) && RecountMasters(masters, servers, t) && Servers(servers)
    requires 1 <= c < |t| && (forall l :: 0 <= l < |t| ==> b < |t[l]|) && t[c][b] in servers
    ensures RecountAll(all, servers, Promote(t, b, c, servers))
    ensures RecountMasters(Tell(Tell(masters, t[c][b], 1, servers), t[0][b], -1, servers), servers, Promote(t, b, c, servers))
  {
    var masters' := Tell(Tell(masters, t[c][b], 1, servers), t[0][b], -1, servers);
    TellAgrees(masters, t[c][b], 1, servers);
    TellAgrees(Tell(masters, t[c][b], 1, servers), t[0][b], -1, servers);
    forall s | s in servers
      ensures CopiesCounted(all, Promote(t, b, c, servers), s)
      ensures MastersCounted(masters', Promote(t, b, c, servers), s)
    {
      assert CopiesCounted(all, t, s) && MastersCounted(masters, t, s);
      PromoteCounts(t, b, c, servers, s);
    }
  }

  /** A surplus or lost master gives way to a server with room: the two differ, and only the new
      one gains. */
  lemma MasterMoved(m: Ledger, servers: set<Node>, o: Node, n: Node)
    requires Agrees(m, servers) && n in servers
    requires o in servers ==> m.count[o] > m.capable[o]
    requires var less := Tell(m, o, -1, servers); Get(less.count, n) < Get(less.capable, n)
    ensures n != o
    ensures Relieved(m, Tell(Tell(m, o, -1, servers), n, 1, servers), servers, n)
  {
    TellAgrees(m, o, -1, servers);
    TellAgrees(Tell(m, o, -1, servers), n, 1, servers);
  }

  /** Whoever is over capacity afterwards was so before and did not grow. */
  ghost predicate Eases(before: map<Node, int>, after: map<Node, int>, capable: map<Node, int>) {
    && before.Keys == after.Keys == capable.Keys
    && forall s :: s in after ==> after[s] <= capable[s] || after[s] <= before[s]
  }

  /** Nobody is over capacity in `r` who was not in `m`, nobody over it grows, and `n` is within it. */
  ghost predicate Relieved(m: Ledger, r: Ledger, servers: set<Node>, n: Node) {
    && m.count.Keys == r.count.Keys == m.capable.Keys == servers && r.capable == m.capable
    && n in servers && r.count[n] <= r.capable[n]
    && (forall s :: s in servers && r.count[s] > r.capable[s] ==> m.count[s] > m.capable[s])
    && Eases(m.count, r.count, m.capable)
  }

  /** The counts after each step, from `first` to `last`: none grows above its capacity. */
  ghost predicate Trails(trail: seq<map<Node, int>>, first: map<Node, int>, last: map<Node, int>,
                         capable: map<Node, int>, steps: nat)
  {
    && |trail| == steps + 1 && trail[0] == first && trail[steps] == last && first.Keys == capable.Keys
    && forall i, j :: 0 <= i < |trail| && j == i + 1 < |trail| ==> Eases(trail[i], trail[j], capable)
  }

  lemma TrailGrows(trail: seq<map<Node, int>>, first: map<Node, int>, last: map<Node, int>, next: map<Node, int>,
                   capable: map<Node, int>, steps: nat)
    requires Trails(trail, first, last, capable, steps) && Eases(last, next, capable)
    ensures Trails(trail + [next], first, next, capable, steps + 1)
  {
  }

  /** So no count ever exceeds the larger of its first value and its capacity. */
  lemma {:induction false} TrailBound(trail: seq<map<Node, int>>, first: map<Node, int>, last: map<Node, int>,
                                      capable: map<Node, int>, steps: nat, i: nat, s: Node)
    requires Trails(trail, first, last, capable, steps) && i <= steps && s in capable
    ensures s in trail[i] && (trail[i][s] <= capable[s] || trail[i][s] <= first[s])
    decreases i
  {
    if i > 0 {
      var before := i - 1;
      TrailBound(trail, first, last, capable, steps, before, s);
      assert Eases(trail[before], trail[i], capable);
    }
  }

  /** Bucket `b` got another live master, with room for it, and nothing else changed. */
  ghost predicate NewMaster(t: Table, r: Table, b: nat, m: Ledger, n: Ledger, servers: set<Node>) {
    && |r| == |t| >= 1 && b < |r[0]| && b < |t[0]| && r[0][b] != t[0][b]
    && SameOutside(t, r, b) && Genuine(r, servers) && Relieved(m, n, servers, r[0][b])
  }

  /** The masters of the first `b` buckets are on live servers within their capacity; a bucket whose
      master did not change did not change at all, and neither did the later buckets. */
  ghost predicate MastersPlaced(t: Table, r: Table, b: nat, m: Ledger, servers: set<Node>) {
    && |r| == |t| >= 1 && m.count.Keys == m.capable.Keys == servers
    && (forall l :: 0 <= l < |t| ==> |r[l]| == |t[l]| == |t[0]|) && b <= |t[0]|
    && (forall c :: 0 <= c < b ==> r[0][c] in servers && m.count[r[0][c]] <= m.capable[r[0][c]])
    && (forall c :: 0 <= c < |t[0]| && (b <= c || r[0][c] == t[0][c]) ==> SameColumn(t, r, c))
  }

  lemma MasterKept(t: Table, r: Table, b: nat, m: Ledger, servers: set<Node>)
    requires MastersPlaced(t, r, b, m, servers) && b < |t[0]|
    requires r[0][b] in servers && m.count[r[0][b]] <= m.capable[r[0][b]]
    ensures MastersPlaced(t, r, b + 1, m, servers)
  {}

  lemma MasterChanged(t: Table, q: Table, r: Table, b: nat, m: Ledger, n: Ledger, servers: set<Node>)
    requires MastersPlaced(t, q, b, m, servers) && b < |t[0]|
    requires NewMaster(q, r, b, m, n, servers)
    ensures MastersPlaced(t, r, b + 1, n, servers)
  {
    assert SameColumn(t, q, b);
    forall c | 0 <= c < b ensures r[0][c] == q[0][c] {
      assert SameColumn(q, r, c);
    }
    forall c | 0 <= c < |t[0]| && (b + 1 <= c || r[0][c] == t[0][c]) ensures SameColumn(t, r, c) {
      assert c != b && SameColumn(q, r, c);
      assert SameColumn(t, q, c);
    }
  }

  lemma MasterPromoted(m: Ledger, servers: set<Node>, o: Node, n: Node)
    requires Agrees(m, servers) && n in servers
    requires o in servers ==> m.count[o] > m.capable[o]
    requires m.count[n] < m.capable[n]
    ensures n != o
    ensures Relieved(m, Tell(Tell(m, n, 1, servers), o, -1, servers), servers, n)
  {
    TellAgrees(m, n, 1, servers);
    TellAgrees(Tell(m, n, 1, servers), o, -1, servers);
  }

  /** While a cell of line 0 is not on a live server, some live server has room for a master. */
  lemma SomeMasterHasRoom(masters: Ledger, servers: set<Node>, t: Table, b: nat) returns (s: Node)
    requires RecountMasters(masters, servers, t) && |t| >= 1 && b < |t[0]| && t[0][b] !in servers
    requires Sum(masters.capable) == |t[0]|
    ensures s in servers && masters.count[s] < masters.capable[s]
  {
    assert forall s :: s in servers ==> MastersCounted(masters, t, s);
    SumOfCells(masters.count, multiset(t[0]));
    assert t[0][b] in multiset(t[0]);
    if forall s :: s in servers ==> masters.capable[s] <= masters.count[s] {
      SumOrder(masters.capable, masters.count);
      assert false;
    }
    s :| s in servers && masters.count[s] < masters.capable[s];
  }

  /** When all of line 0 is on live servers and nobody is over capacity, everybody is at capacity. */
  lemma MastersExact(masters: Ledger, servers: set<Node>, t: Table)
    requires RecountMasters(masters, servers, t) && |t| >= 1
    requires Sum(masters.capable) == |t[0]|
    requires forall s :: s in servers ==> masters.capable[s] >= 0
    requires forall b :: 0 <= b < |t[0]| ==> t[0][b] in servers && masters.count[t[0][b]] <= masters.capable[t[0][b]]
    ensures masters.count == masters.capable
  {
    assert forall n :: n in multiset(t[0]) ==> n in t[0];
    assert forall s :: s in servers ==> MastersCounted(masters, t, s);
    SumOfCells(masters.count, multiset(t[0]));
    forall s | s in servers ensures masters.count[s] <= masters.capable[s] {
      if s in multiset(t[0]) {
        var b :| 0 <= b < |t[0]| && t[0][b] == s;
      }
    }
    SumOrder(masters.count, masters.capable);
  }

  lemma PassesPlace(t: Table, mid: Table, r: Table, m: Ledger, servers: set<Node>, byRack: bool)
    requires |t| >= 1 && MastersPlaced(t, mid, |t[0]|, m, servers)
    requires SlavesPlaced(mid, r, |t[0]|, servers, byRack)
    ensures Rebuilt(t, r, |t|, |t[0]|, servers, byRack) && r[0] == mid[0]
  {
    forall b | 0 <= b < |t[0]|
      ensures r[0][b] == mid[0][b] && Evolved(t, r, b) && PlacedColumn(r, b, servers)
    {
      assert Settled(mid, r, b, |t|, servers);
      assert SettledLine(mid, r, b, |t|, 0, servers);
      forall l | 1 <= l < |t| ensures r[l][b] in servers && NodeFree(r, l, b, r[l][b]) {
        assert SettledLine(mid, r, b, |t|, l, servers);
      }
      if r[0][b] == t[0][b] {
        assert SameColumn(t, mid, b);
        SettledFrom(t, mid, r, b, servers);
      }
    }
    assert r[0] == mid[0];
  }

  /** The cells and the masters of every server are counted. */
  ghost predicate Tallied(t: Table, tokens: map<Node, int>, mtokens: map<Node, int>, servers: set<Node>) {
    && tokens.Keys == mtokens.Keys == servers
    && forall s :: s in servers ==> tokens[s] == Copies(t, s) && mtokens[s] == Masters(t, s)
  }

  lemma TallyGrows(t: Table, l: nat, tokens: map<Node, int>, mtokens: map<Node, int>,
                   tokens': map<Node, int>, mtokens': map<Node, int>, servers: set<Node>)
    requires l < |t| && Tallied(t[..l], tokens, mtokens, servers) && tokens'.Keys == mtokens'.Keys == servers
    requires forall s :: s in servers ==> tokens'[s] == tokens[s] + multiset(t[l])[s]
    requires if l == 0 then forall s :: s in servers ==> mtokens'[s] == mtokens[s] + multiset(t[0])[s] else mtokens' == mtokens
    ensures Tallied(t[..l + 1], tokens', mtokens', servers)
  {
    CountsGrow(t, l);
  }

  ghost predicate MasterLost(t: Table, buckets: nat, servers: set<Node>)
    requires |t| >= 1 && |t[0]| == buckets
  {
    exists b :: 0 <= b < buckets && t[0][b] !in servers
  }

  /** Whether and how a build succeeds is decided by the servers: it gives up only when there are
      fewer servers than copies, when the rooms are too uneven, or when a quick table is wanted
      and some bucket has lost all its copies. */
  ghost function Outcome(t: Table, copies: nat, buckets: nat, servers: set<Node>, tooUneven: bool, noQuickTable: bool): BuildCode
    requires Shape(t, copies, buckets) && copies >= 1
  {
    if tooUneven then BuildError
    else if !noQuickTable && MasterLost(t, buckets, servers) then
      if forall b :: 0 <= b < buckets ==> Alive(t, b, servers) then BuildQuick else BuildError
    else if |servers| < copies then BuildError
    else BuildOk
  }
}
