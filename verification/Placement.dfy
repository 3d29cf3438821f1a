/** Bucket tables: one line per copy, one cell per bucket, each cell naming a server and its rack. */
module Placement {
  import opened Counting

  const INVALID_FLAG := 0

  datatype Node = Node(id: int, pos: int)

  type Line = seq<Node>
  type Table = seq<Line>

  predicate Shape(t: Table, copies: nat, buckets: nat) {
    |t| == copies && forall l :: 0 <= l < copies ==> |t[l]| == buckets
  }

  function SetCell(t: Table, l: nat, b: nat, n: Node): (r: Table)
    requires l < |t| && b < |t[l]|
  {
    t[l := t[l][b := n]]
  }

  lemma SetCellShape(t: Table, copies: nat, buckets: nat, l: nat, b: nat, n: Node)
    requires Shape(t, copies, buckets) && l < copies && b < buckets
    ensures Shape(SetCell(t, l, b, n), copies, buckets)
  {}

  lemma SetCellSame(t: Table, l: nat, b: nat)
    requires l < |t| && b < |t[l]|
    ensures SetCell(t, l, b, t[l][b]) == t
  {
    assert t[l][b := t[l][b]] == t[l];
  }

  lemma SetCellOutside(t: Table, l: nat, b: nat, n: Node)
    requires l < |t| && b < |t[l]| && Shape(t, |t|, |t[0]|)
    ensures SameOutside(t, SetCell(t, l, b, n), b)
  {}

  lemma SetCellTwice(t: Table, l: nat, b: nat, n: Node, m: Node)
    requires l < |t| && b < |t[l]|
    ensures SetCell(SetCell(t, l, b, n), l, b, m) == SetCell(t, l, b, m)
  {
    assert t[l][b := n][b := m] == t[l][b := m];
  }

  /** Bucket `b` is the same in both tables. */
  ghost predicate SameColumn(t: Table, u: Table, b: nat)
    requires |t| == |u| && forall l :: 0 <= l < |t| ==> b < |t[l]| && b < |u[l]|
  {
    forall l :: 0 <= l < |t| ==> u[l][b] == t[l][b]
  }

  /** Every bucket except `b` is the same in both tables. */
  ghost predicate SameOutside(t: Table, u: Table, b: nat) {
    && |t| == |u| >= 1
    && (forall l :: 0 <= l < |t| ==> |t[l]| == |u[l]| == |t[0]|)
    && (forall c :: 0 <= c < |t[0]| && c != b ==> SameColumn(t, u, c))
  }

  lemma SameOutsideChain(t: Table, u: Table, v: Table, b: nat)
    requires SameOutside(t, u, b) && SameOutside(u, v, b)
    ensures SameOutside(t, v, b)
  {
    forall c | 0 <= c < |t[0]| && c != b ensures SameColumn(t, v, c) {
      assert SameColumn(t, u, c) && SameColumn(u, v, c);
    }
  }

  // ----- counting cells -----

  ghost function Cells(t: Table): multiset<Node> {
    if t == [] then multiset{} else multiset(t[0]) + Cells(t[1..])
  }

  /** How often `n` occurs in the whole table. */
  ghost function Copies(t: Table, n: Node): nat {
    Cells(t)[n]
  }

  /** How often `n` occurs in the first line. */
  ghost function Masters(t: Table, n: Node): nat {
    if t == [] then 0 else multiset(t[0])[n]
  }

  lemma CountsGrow(t: Table, l: nat)
    requires l < |t|
    ensures forall n :: Copies(t[..l + 1], n) == Copies(t[..l], n) + multiset(t[l])[n]
    ensures forall n :: Masters(t[..l + 1], n) == if l == 0 then multiset(t[0])[n] else Masters(t[..l], n)
  {
    CellsAppend(t[..l], t[l]);
    assert t[..l + 1] == t[..l] + [t[l]];
  }

  lemma {:induction false} CellsSetCell(t: Table, l: nat, b: nat, n: Node)
    requires l < |t| && b < |t[l]|
    ensures t[l][b] in Cells(t)
    ensures Cells(SetCell(t, l, b, n)) == Cells(t) - multiset{t[l][b]} + multiset{n}
  {
    var u, rest := SetCell(t, l, b, n), t[1..];
    if l == 0 {
      assert u[1..] == rest && u[0] == t[0][b := n];
      assert multiset(u[0]) == multiset(t[0]) - multiset{t[l][b]} + multiset{n};
    } else {
      CellsSetCell(rest, l - 1, b, n);
      assert u[1..] == SetCell(rest, l - 1, b, n) && u[0] == t[0];
    }
  }

  /** Writing one cell takes one copy from the old server and gives one to the new. */
  lemma CountsSetCell(t: Table, l: nat, b: nat, n: Node, s: Node)
    requires l < |t| && b < |t[l]|
    ensures var less := if t[l][b] == s then 1 else 0;
            var more := if n == s then 1 else 0;
            && Copies(SetCell(t, l, b, n), s) == Copies(t, s) - less + more
            && Masters(SetCell(t, l, b, n), s) == Masters(t, s) - (if l == 0 then less else 0) + (if l == 0 then more else 0)
  {
    CellsSetCell(t, l, b, n);
    if l == 0 {
      assert t[0][b] in multiset(t[0]);
      assert SetCell(t, l, b, n)[0] == t[0][b := n];
    }
  }

  lemma {:induction false} CellsAppend(t: Table, line: Line)
    ensures Cells(t + [line]) == Cells(t) + multiset(line)
  {
    if t == [] {
      assert (t + [line])[1..] == [];
    } else {
      CellsAppend(t[1..], line);
      assert (t + [line])[1..] == t[1..] + [line];
    }
  }

  lemma OneMore(copies: nat, buckets: nat)
    requires copies > 0
    ensures copies * buckets == (copies - 1) * buckets + buckets
  {}

  lemma {:induction false} CellsSize(t: Table, copies: nat, buckets: nat)
    requires Shape(t, copies, buckets)
    ensures |Cells(t)| == copies * buckets
    decreases copies
  {
    if copies > 0 {
      var rest := t[1..];
      CellsSize(rest, copies - 1, buckets);
      assert Cells(t) == multiset(t[0]) + Cells(rest);
      assert |multiset(t[0])| == |t[0]|;
      OneMore(copies, buckets);
    }
  }

  lemma {:induction false} CellsFrom(t: Table, servers: set<Node>)
    requires forall l, b :: 0 <= l < |t| && 0 <= b < |t[l]| ==> t[l][b] in servers
    ensures forall n :: n in Cells(t) ==> n in servers
  {
    if t != [] {
      CellsFrom(t[1..], servers);
      assert forall n :: n in multiset(t[0]) ==> n in t[0];
    }
  }

  /** Per-server counts of a collection of cells add up to at most its size, and to exactly
      its size when and only when every cell names one of the counted servers. */
  lemma {:induction false} SumOfCells(count: map<Node, int>, cells: multiset<Node>)
    requires forall s :: s in count ==> count[s] == cells[s]
    ensures Sum(count) <= |cells|
    ensures Sum(count) == |cells| <==> forall n :: n in cells ==> n in count
    decreases |cells|
  {
    if cells == multiset{} {
      SumConstant(count, 0);
    } else {
      var n :| n in cells;
      var rest := cells - multiset{n};
      if n in count {
        var less := count[n := count[n] - 1];
        SumOfCells(less, rest);
        SumUpdate(count, n, count[n] - 1);
        assert forall x :: x in cells <==> x == n || x in rest;
        assert less.Keys == count.Keys;
      } else {
        SumOfCells(count, rest);
      }
    }
  }

  // ----- servers -----

  /** Server ids are not the invalid flag and identify the server. */
  ghost predicate Servers(servers: set<Node>) {
    && (forall s :: s in servers ==> s.id != INVALID_FLAG)
    && (forall s, u {:trigger IdTells(s, u)} :: s in servers && u in servers ==> IdTells(s, u))
  }

  ghost predicate IdTells(s: Node, u: Node) {
    s.id == u.id ==> s == u
  }

  /** A cell that carries the id of one of the servers is that server, rack included. */
  ghost predicate GenuineCell(t: Table, l: nat, b: nat, servers: set<Node>)
    requires l < |t| && b < |t[l]|
  {
    forall s :: s in servers && s.id == t[l][b].id ==> s == t[l][b]
  }

  ghost predicate Genuine(t: Table, servers: set<Node>) {
    forall l, b :: 0 <= l < |t| && 0 <= b < |t[l]| ==> GenuineCell(t, l, b, servers)
  }

  lemma SetCellGenuine(t: Table, servers: set<Node>, l: nat, b: nat, n: Node)
    requires Genuine(t, servers) && Servers(servers) && l < |t| && b < |t[l]|
    requires n.id == INVALID_FLAG || n in servers
    ensures Genuine(SetCell(t, l, b, n), servers)
  {
    var u := SetCell(t, l, b, n);
    forall k, c | 0 <= k < |u| && 0 <= c < |u[k]| ensures GenuineCell(u, k, c, servers) {
      assert GenuineCell(t, k, c, servers);
      assert n in servers ==> forall s :: s in servers ==> IdTells(s, n);
    }
  }

  /** The servers whose id occurs in bucket `b` among the first `k` lines, line `skip` left out. */
  ghost function Taken(t: Table, b: nat, skip: nat, k: nat, servers: set<Node>): set<Node>
    requires k <= |t| && forall l :: 0 <= l < |t| ==> b < |t[l]|
  {
    set s | s in servers && exists l :: 0 <= l < k && l != skip && t[l][b].id == s.id
  }

  lemma {:induction false} TakenFew(t: Table, b: nat, skip: nat, k: nat, servers: set<Node>)
    requires k <= |t| && forall l :: 0 <= l < |t| ==> b < |t[l]|
    requires Servers(servers)
    ensures |Taken(t, b, skip, k, servers)| <= k - (if skip < k then 1 else 0)
    decreases k
  {
    if k == 0 {
      assert Taken(t, b, skip, k, servers) == {};
    } else {
      TakenFew(t, b, skip, k - 1, servers);
      var before, after := Taken(t, b, skip, k - 1, servers), Taken(t, b, skip, k, servers);
      if skip == k - 1 || !exists s :: s in servers && s.id == t[k - 1][b].id {
        assert after == before;
      } else {
        var s :| s in servers && s.id == t[k - 1][b].id;
        assert forall u :: u in servers ==> IdTells(s, u);
        assert after == before + {s};
      }
    }
  }

  /** With at least as many servers as copies, some server is not used by the other copies. */
  lemma SomeServerFree(t: Table, b: nat, line: nat, servers: set<Node>) returns (s: Node)
    requires line < |t| <= |servers| && forall l :: 0 <= l < |t| ==> b < |t[l]|
    requires Servers(servers)
    ensures s in servers && forall l :: 0 <= l < |t| && l != line ==> t[l][b].id != s.id
  {
    var taken := Taken(t, b, line, |t|, servers);
    TakenFew(t, b, line, |t|, servers);
    assert (forall x :: x in servers ==> x in taken) ==> servers == taken;
    s :| s in servers && s !in taken;
  }
}
