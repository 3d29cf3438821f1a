/** The search for a server that takes a cell: what it must satisfy at each level, and who is looked at. */
module Search {
  import opened Placement
  import opened Ledgers
  import opened Rows
  import opened Bookkeeping

  /** The wanted tokens per server, and how many servers may have one more. */
  datatype Limit = Limit(tokens: int, maxCount: int)

  /** What the search goes by besides the ledgers: the strategy, the cells placed so far in this build, and
      the limits on them in the largest room and elsewhere. */
  datatype Wishes = Wishes(strategy: Strategy, byRack: bool, now: map<Node, int>, maxNow: int,
                           room: int, inRoom: Limit, elsewhere: Limit)
  {
    function LimitOf(n: Node): Limit {
      if n.pos == room then inRoom else elsewhere
    }

    /** The cells placed on `n` so far are below the limit, or not too many servers are above it. */
    predicate Below(n: Node, turn: int) {
      Get(now, n) < LimitOf(n).tokens + turn || maxNow < LimitOf(n).maxCount + turn
    }
  }

  /** No cell is placed yet. */
  ghost predicate NonePlaced(now: map<Node, int>, maxNow: int, servers: set<Node>) {
    maxNow == 0 && forall s :: s in servers ==> Get(now, s) == 0
  }

  /** One more cell is placed on `n`. */
  ghost predicate Noted(before: map<Node, int>, after: map<Node, int>, n: Node) {
    after == before[n := Get(before, n) + 1]
  }

  /** `n` has room for copy `line`. A server that has the cell already is allowed one more (`turn`). */
  predicate Room(w: Wishes, ledger: Ledger, line: nat, n: Node, level: int, turn: int) {
    if line == 0 || level == CONSIDER_ALL then Get(ledger.count, n) < Get(ledger.capable, n) + turn
    else level == CONSIDER_FORCE || w.Below(n, turn)
  }

  /** `n` is far enough from the other copies of bucket `b`. At CONSIDER_BASE a master need not be. */
  ghost predicate Apart(w: Wishes, t: Table, line: nat, b: nat, n: Node, level: int)
    requires forall l :: 0 <= l < |t| ==> b < |t[l]|
  {
    || (line == 0 && level == CONSIDER_BASE)
    || (&& NodeFree(t, line, b, n)
        && (w.strategy.LoadBalance? && level < CONSIDER_BASE ==> RackFree(t, line, b, n))
        && (w.byRack && line != 0 ==> OtherRack(t, line, b, n)))
  }

  /** The servers that may take the cell at `level`. */
  ghost function Acceptable(w: Wishes, ledger: Ledger, servers: set<Node>, t: Table, line: nat, b: nat, level: int): set<Node>
    requires forall l :: 0 <= l < |t| ==> b < |t[l]|
  {
    set s | s in servers && Room(w, ledger, line, s, level, 0) && Apart(w, t, line, b, s, level)
  }

  /** Entry `j` is one of the first `k`. */
  ghost predicate Least(index: map<int, set<Node>>, j: int, k: nat) {
    j in index && |set i | i in index && i < j| < k
  }

  /** The entries looked at: one at the first level, two at the second, all at the others. */
  ghost predicate Looked(index: map<int, set<Node>>, j: int, level: nat) {
    j in index && (level < CONSIDER_BASE ==> Least(index, j, level + 1))
  }

  /** No server of the entries looked at is in `ok`. */
  ghost predicate NobodySeen(ledger: Ledger, ok: set<Node>, level: nat) {
    forall j {:trigger Looked(ledger.candidates, j, level)} ::
      Looked(ledger.candidates, j, level) ==> ledger.candidates[j] !! ok
  }

  /** `n` is what the search finds, at level `at`: the preferred one of those acceptable there, after the
      levels before have found nobody. */
  ghost predicate Found(w: Wishes, ledger: Ledger, servers: set<Node>, t: Table, line: nat, b: nat,
                        original: Node, n: Node, at: nat)
    requires forall l :: 0 <= l < |t| ==> b < |t[l]|
  {
    && ledger.count.Keys == ledger.capable.Keys == servers
    && at <= CONSIDER_FORCE && n in Acceptable(w, ledger, servers, t, line, b, at)
    && Preferred(ledger, Acceptable(w, ledger, servers, t, line, b, at), n, original)
    && Unseen(w, ledger, servers, t, line, b, at)
  }

  /** The levels below `at` find nobody. */
  ghost predicate Unseen(w: Wishes, ledger: Ledger, servers: set<Node>, t: Table, line: nat, b: nat, at: nat)
    requires forall l :: 0 <= l < |t| ==> b < |t[l]|
  {
    forall level: nat {:trigger Acceptable(w, ledger, servers, t, line, b, level)} ::
      level < at ==> NobodySeen(ledger, Acceptable(w, ledger, servers, t, line, b, level), level)
  }

  /** No server of the least entries, one at the first level and two at the second, that has room there is on
      a server and in a rack of its own. */
  ghost predicate RacksTaken(w: Wishes, ledger: Ledger, t: Table, line: nat, b: nat)
    requires forall l :: 0 <= l < |t| ==> b < |t[l]|
  {
    forall j, s :: j in ledger.candidates && s in ledger.candidates[j] && NodeFree(t, line, b, s) && RackFree(t, line, b, s) ==>
      && (Least(ledger.candidates, j, 1) ==> Get(ledger.count, s) >= Get(ledger.capable, s))
      && (Least(ledger.candidates, j, 2) ==> !w.Below(s, 0))
  }

  /** Under load balance a slave shares a rack only if that cannot be helped. */
  lemma SharedRack(w: Wishes, ledger: Ledger, servers: set<Node>, t: Table, line: nat, b: nat,
                   original: Node, n: Node, at: nat)
    requires forall l :: 0 <= l < |t| ==> b < |t[l]|
    requires Agrees(ledger, servers) && line >= 1 && w.strategy.LoadBalance? && !w.byRack
    requires Found(w, ledger, servers, t, line, b, original, n, at) && !RackFree(t, line, b, n)
    ensures at >= CONSIDER_BASE && RacksTaken(w, ledger, t, line, b)
  {
    forall j, s | j in ledger.candidates && s in ledger.candidates[j] && NodeFree(t, line, b, s) && RackFree(t, line, b, s)
      ensures Least(ledger.candidates, j, 1) ==> Get(ledger.count, s) >= Get(ledger.capable, s)
      ensures Least(ledger.candidates, j, 2) ==> !w.Below(s, 0)
    {
      EntryIsKnown(ledger, servers, j);
      assert Looked(ledger.candidates, j, CONSIDER_ALL) <==> Least(ledger.candidates, j, 1);
      assert Looked(ledger.candidates, j, CONSIDER_POS) <==> Least(ledger.candidates, j, 2);
      assert NobodySeen(ledger, Acceptable(w, ledger, servers, t, line, b, CONSIDER_ALL), CONSIDER_ALL);
      assert NobodySeen(ledger, Acceptable(w, ledger, servers, t, line, b, CONSIDER_POS), CONSIDER_POS);
    }
  }

  /** Slave `c` is a live one of bucket `b` with the fewest masters; -1 if none is live. */
  ghost predicate FewestMasters(masters: Ledger, servers: set<Node>, t: Table, b: nat, c: int)
    requires forall l :: 0 <= l < |t| ==> b < |t[l]|
  {
    if c == -1 then forall l :: 1 <= l < |t| ==> t[l][b] !in servers
    else
      && 1 <= c < |t| && t[c][b] in servers
      && forall l :: 1 <= l < |t| && t[l][b] in servers ==>
           Get(masters.count, t[c][b]) <= Get(masters.count, t[l][b])
  }

  /** How a lost or surplus master is replaced: by the slave with the fewest masters, if it has room for one
      more, and otherwise by what the search finds. */
  ghost predicate MasterChosen(w: Wishes, masters: Ledger, servers: set<Node>, t: Table, b: nat, c: int, at: nat, r: Table)
    requires |t| >= 1 && forall l :: 0 <= l < |t| ==> b < |t[l]|
  {
    && FewestMasters(masters, servers, t, b, c)
    && if c != -1 && Get(masters.count, t[c][b]) < Get(masters.capable, t[c][b]) then r == Promote(t, b, c, servers)
       else
         && |r| == |t| && b < |r[0]| && r == SetCell(t, 0, b, r[0][b])
         && Found(w, Tell(masters, t[0][b], -1, servers), servers, t, 0, b, t[0][b], r[0][b], at)
  }

  lemma ChosenByCount(w: Wishes, masters: Ledger, servers: set<Node>, t: Table, b: nat, c: int, at: nat)
    requires |t| >= 1 && (forall l :: 0 <= l < |t| ==> b < |t[l]|) && FewestMasters(masters, servers, t, b, c)
    requires c != -1 && Get(masters.count, t[c][b]) < Get(masters.capable, t[c][b])
    ensures var r := Promote(t, b, c, servers); MasterChosen(w, masters, servers, t, b, c, at, r) && r[0][b] == t[c][b]
  {}

  lemma ChosenBySearch(w: Wishes, masters: Ledger, servers: set<Node>, t: Table, b: nat, c: int, n: Node, at: nat)
    requires |t| >= 1 && (forall l :: 0 <= l < |t| ==> b < |t[l]|) && FewestMasters(masters, servers, t, b, c)
    requires c == -1 || Get(masters.count, t[c][b]) >= Get(masters.capable, t[c][b])
    requires Found(w, Tell(masters, t[0][b], -1, servers), servers, t, 0, b, t[0][b], n, at)
    ensures MasterChosen(w, masters, servers, t, b, c, at, SetCell(t, 0, b, n)) && SetCell(t, 0, b, n)[0][b] == n
  {}

  /** What the search finds for a lost or surplus master has room for it. */
  lemma FoundMaster(w: Wishes, masters: Ledger, servers: set<Node>, t: Table, b: nat, n: Node, at: nat)
    requires |t| >= 1 && b < |t[0]| && Shape(t, |t|, |t[0]|) && Genuine(t, servers) && Servers(servers)
    requires Agrees(masters, servers) && (t[0][b] in servers ==> masters.count[t[0][b]] > masters.capable[t[0][b]])
    requires Found(w, Tell(masters, t[0][b], -1, servers), servers, t, 0, b, t[0][b], n, at)
    ensures n in servers && var less := Tell(masters, t[0][b], -1, servers);
            NewMaster(t, SetCell(t, 0, b, n), b, masters, Tell(less, n, 1, servers), servers)
  {
    MasterMoved(masters, servers, t[0][b], n);
    SetCellGenuine(t, servers, 0, b, n);
    SetCellOutside(t, 0, b, n);
  }

  /** How a slave is replaced: by what the search finds once it has given up its cell. */
  ghost predicate SlaveChosen(w: Wishes, all: Ledger, servers: set<Node>, t: Table, line: nat, b: nat, n: Node, at: nat)
    requires line < |t| && forall l :: 0 <= l < |t| ==> b < |t[l]|
  {
    Found(w, Tell(all, t[line][b], -1, servers), servers, t, line, b, t[line][b], n, at)
  }

  /** What the search finds for a slave is free and, with rack safety, in another rack; under load balance
      it shares a rack only if that cannot be helped. */
  lemma ChosenSlave(w: Wishes, all: Ledger, servers: set<Node>, t: Table, line: nat, b: nat, n: Node, at: nat)
    requires 1 <= line < |t| && forall l :: 0 <= l < |t| ==> b < |t[l]|
    requires Agrees(all, servers) && SlaveChosen(w, all, servers, t, line, b, n, at) && (w.byRack ==> w.strategy.RackSafety?)
    ensures n in servers && NodeFree(t, line, b, n) && (w.byRack ==> OtherRack(t, line, b, n))
    ensures w.strategy.LoadBalance? && !RackFree(t, line, b, n) ==>
              RacksTaken(w, Tell(all, t[line][b], -1, servers), t, line, b)
  {
    TellAgrees(all, t[line][b], -1, servers);
    if w.strategy.LoadBalance? && !RackFree(t, line, b, n) {
      SharedRack(w, Tell(all, t[line][b], -1, servers), servers, t, line, b, t[line][b], n, at);
    }
  }

  /** The entries passed are the first `visited` ones. */
  ghost predicate Ascending(index: map<int, set<Node>>, keys: set<int>, visited: nat) {
    && keys <= index.Keys && |index.Keys - keys| == visited
    && forall i, j :: i in index && i !in keys && j in keys ==> i < j
  }

  lemma NextKey(index: map<int, set<Node>>, keys: set<int>, visited: nat, k: int)
    requires Ascending(index, keys, visited) && k in keys && forall j :: j in keys ==> k <= j
    ensures Ascending(index, keys - {k}, visited + 1)
  {
    assert index.Keys - (keys - {k}) == index.Keys - keys + {k};
  }

  /** A level is through when it has looked at its entries or at all of them. */
  lemma LevelDone(ledger: Ledger, ok: set<Node>, keys: set<int>, visited: nat, level: nat)
    requires Passed(ledger, keys, ok) && Ascending(ledger.candidates, keys, visited)
    requires keys == {} || (level < CONSIDER_BASE && visited == level + 1)
    ensures NobodySeen(ledger, ok, level)
  {
    var index := ledger.candidates;
    forall j | Looked(index, j, level) ensures index[j] !! ok {
      if j in keys {
        var before := set i | i in index && i < j;
        assert index.Keys - keys <= before;
        Fewer(index.Keys - keys, before);
        assert false;
      }
    }
  }

  lemma Fewer(a: set<int>, b: set<int>)
    requires a <= b
    ensures |a| <= |b|
  {
    assert b == a + (b - a);
  }

  /** A level that looks at everybody and finds nobody: there is nobody. */
  lemma NobodyAtAll(ledger: Ledger, servers: set<Node>, ok: set<Node>, level: nat)
    requires Agrees(ledger, servers) && ok <= servers && level >= CONSIDER_BASE && NobodySeen(ledger, ok, level)
    ensures ok == {}
  {
    forall k | k in ledger.candidates ensures ledger.candidates[k] !! ok {
      assert Looked(ledger.candidates, k, level);
    }
    NobodyLeft(ledger, servers, ok);
  }

  /** What is asked of the other copies does not depend on what is in the cell itself. */
  lemma CellDoesNotMatter(w: Wishes, ledger: Ledger, servers: set<Node>, t: Table, line: nat, b: nat, x: Node, level: int)
    requires line < |t| && forall l :: 0 <= l < |t| ==> b < |t[l]|
    ensures Acceptable(w, ledger, servers, SetCell(t, line, b, x), line, b, level)
         == Acceptable(w, ledger, servers, t, line, b, level)
  {
    forall s | s in servers
      ensures Apart(w, SetCell(t, line, b, x), line, b, s, level) <==> Apart(w, t, line, b, s, level)
    {
      OthersUnchanged(t, line, b, x, s);
    }
  }

  lemma FoundInHole(w: Wishes, ledger: Ledger, servers: set<Node>, t: Table, line: nat, b: nat, x: Node,
                    original: Node, n: Node, at: nat)
    requires line < |t| && forall l :: 0 <= l < |t| ==> b < |t[l]|
    requires Found(w, ledger, servers, SetCell(t, line, b, x), line, b, original, n, at)
    ensures Found(w, ledger, servers, t, line, b, original, n, at)
  {
    forall level: nat ensures Acceptable(w, ledger, servers, SetCell(t, line, b, x), line, b, level)
                           == Acceptable(w, ledger, servers, t, line, b, level)
    {
      CellDoesNotMatter(w, ledger, servers, t, line, b, x, level);
    }
  }
}
