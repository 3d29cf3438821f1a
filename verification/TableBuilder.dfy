/** The config server's table builder: places every copy of every bucket on the live servers. */
module TableBuilding {
  import opened Counting
  import opened Placement
  import opened Capacity
  import opened Ledgers
  import opened Rows
  import opened Search
  import opened Bookkeeping

  class TableBuilder {
    const bucketCount: nat
    const copyCount: nat
    const strategy: Strategy
    const statChangeRatio: real

    var availableServer: set<Node>
    var all: Ledger
    var masters: Ledger
    var tokensNow: map<Node, int>
    var maxCountNow: int

    // Limits of the load-balance strategy.
    var tokensPerNodeMin: int
    var tokensPerNodeMaxCount: int

    // Rooms of the rack-safety strategy. Its own limits are read and never assigned.
    var buildStatNormal: bool
    var posMax: nat
    var maxRoom: int
    var mTokensPerNodeMin: int
    var mTokensPerNodeMaxCount: int
    var oTokensPerNodeMin: int
    var oTokensPerNodeMaxCount: int

    function TokensPerNode(n: Node): int
      reads this
    {
      match strategy
      case LoadBalance => tokensPerNodeMin
      case RackSafety => if n.pos == maxRoom then mTokensPerNodeMin else oTokensPerNodeMin
    }

    function MaxCount(n: Node): int
      reads this
    {
      match strategy
      case LoadBalance => tokensPerNodeMaxCount
      case RackSafety => if n.pos == maxRoom then mTokensPerNodeMaxCount else oTokensPerNodeMaxCount
    }

    predicate Available(n: Node)
      reads this
    {
      n.id != INVALID_FLAG && n in availableServer
    }

    /** May `n` hold copy `line` of bucket `b`? Higher levels drop more of the wishes. */
    function IsNodeOk(n: Node, line: nat, b: nat, t: Table, level: int, inUse: bool): (v: Verdict)
      requires Shape(t, copyCount, bucketCount) && b < bucketCount
      reads this
    {
      var turn := if inUse then 1 else 0;
      if !Available(n) then InvalidNode
      else if line == 0 && Get(masters.count, n) >= Get(masters.capable, n) + turn then TooManyMaster
      else if line != 0 && level == CONSIDER_ALL && Get(all.count, n) >= Get(all.capable, n) + turn then TooManyBucket
      else if line != 0 && level != CONSIDER_ALL && level != CONSIDER_FORCE
              && Get(tokensNow, n) >= TokensPerNode(n) + turn && maxCountNow >= MaxCount(n) + turn then TooManyBucket
      else if line == 0 && level == CONSIDER_BASE then NodeOk
      else match strategy
        case LoadBalance => FirstClash(t, line, b, n, level, 0)
        case RackSafety =>
          if !NodeFree(t, line, b, n) then SameNode
          else if buildStatNormal && line != 0 && |OtherRacks(t, line, b) + {n.pos}| < 2 then SamePos
          else NodeOk
    }

    function LedgerOf(line: nat): Ledger
      reads this`all, this`masters
    {
      if line == 0 then masters else all
    }

    /** What the search goes by at present. */
    function WishesNow(): Wishes
      reads this`tokensNow, this`maxCountNow, this`tokensPerNodeMin, this`tokensPerNodeMaxCount, this`buildStatNormal
      reads this`maxRoom, this`mTokensPerNodeMin, this`mTokensPerNodeMaxCount, this`oTokensPerNodeMin, this`oTokensPerNodeMaxCount
    {
      match strategy
      case LoadBalance =>
        var limit := Limit(tokensPerNodeMin, tokensPerNodeMaxCount);
        Wishes(strategy, false, tokensNow, maxCountNow, maxRoom, limit, limit)
      case RackSafety =>
        Wishes(strategy, buildStatNormal, tokensNow, maxCountNow, maxRoom,
               Limit(mTokensPerNodeMin, mTokensPerNodeMaxCount), Limit(oTokensPerNodeMin, oTokensPerNodeMaxCount))
    }

    /** A server is accepted exactly if it is live, has room and is far enough from the other copies. */
    lemma VerdictMeans(n: Node, line: nat, b: nat, t: Table, level: int, inUse: bool)
      requires Given(t) && line < copyCount && b < bucketCount
      ensures IsNodeOk(n, line, b, t, level, inUse).NodeOk? <==>
                && n in availableServer && Apart(WishesNow(), t, line, b, n, level)
                && Room(WishesNow(), LedgerOf(line), line, n, level, if inUse then 1 else 0)
    {
      var racks := OtherRacks(t, line, b) + {n.pos};
      if OtherRack(t, line, b, n) {
        var l :| 0 <= l < copyCount && l != line && t[l][b].pos != n.pos;
        TwoMembers(racks, t[l][b].pos, n.pos);
      } else {
        assert racks == {n.pos};
      }
    }

    /** The rack-safety strategy is at work and the rooms are comparable. */
    ghost predicate ByRack()
      reads this`buildStatNormal
    {
      strategy.RackSafety? && buildStatNormal
    }

    /** The table has the builder's shape and the servers have proper ids. */
    ghost predicate Given(t: Table)
      reads this`availableServer
    {
      Shape(t, copyCount, bucketCount) && Servers(availableServer)
    }

    /** Both ledgers agree with themselves and with a recount of the table. */
    ghost predicate Books(t: Table)
      reads this`all, this`masters, this`availableServer
    {
      RecountAll(all, availableServer, t) && RecountMasters(masters, availableServer, t)
    }

    /** Gives up copy `line` of bucket `b`; the cell keeps its rack. */
    method InvalidateNode(line: nat, b: nat, t: Table) returns (r: Table)
      requires Given(t) && Books(t) && line < copyCount && b < bucketCount
      modifies this`all, this`masters
      ensures r == SetCell(t, line, b, Node(INVALID_FLAG, t[line][b].pos)) && Given(r) && Books(r)
      ensures all == old(Tell(all, t[line][b], -1, availableServer)) && all.capable == old(all.capable)
      ensures masters == old(TellMaster(masters, line, t[line][b], -1, availableServer))
    {
      var n := t[line][b];
      GivenUp(all, masters, availableServer, t, line, b, Node(INVALID_FLAG, n.pos));
      all := Tell(all, n, -1, availableServer);
      masters := TellMaster(masters, line, n, -1, availableServer);
      r := SetCell(t, line, b, Node(INVALID_FLAG, n.pos));
      SetCellShape(t, copyCount, bucketCount, line, b, Node(INVALID_FLAG, n.pos));
    }

    /** Gives the empty copy `line` of bucket `b` to `n`. */
    method UpdateNode(line: nat, b: nat, n: Node, t: Table) returns (r: Table)
      requires Given(t) && Books(t) && line < copyCount && b < bucketCount
      requires n in availableServer && t[line][b] !in availableServer
      modifies this`all, this`masters
      ensures r == SetCell(t, line, b, n) && Given(r) && Books(r)
      ensures all == old(Tell(all, n, 1, availableServer)) && all.capable == old(all.capable)
      ensures masters == old(TellMaster(masters, line, n, 1, availableServer))
    {
      GivenOut(all, masters, availableServer, t, line, b, n);
      r := SetCell(t, line, b, n);
      SetCellShape(t, copyCount, bucketCount, line, b, n);
      all := Tell(all, n, 1, availableServer);
      masters := TellMaster(masters, line, n, 1, availableServer);
    }

    // ----- promoting a slave copy to master -----

    /** The slave of bucket `b` with the fewest masters among the available ones, or -1. */
    method ChooseSlave(b: nat, t: Table) returns (chosen: int)
      requires Given(t) && copyCount >= 1 && b < bucketCount
      requires forall s :: s in availableServer ==> Get(masters.count, s) >= 0
      ensures FewestMasters(masters, availableServer, t, b, chosen)
    {
      chosen := -1;
      var minCount := -1;
      var l := 1;
      while l < copyCount
        invariant 1 <= l <= copyCount
        invariant chosen == -1 || 1 <= chosen < l
        invariant minCount == -1 <==> chosen == -1
        invariant chosen == -1 ==> forall k :: 1 <= k < l ==> t[k][b] !in availableServer
        invariant chosen != -1 ==> t[chosen][b] in availableServer && minCount == Get(masters.count, t[chosen][b])
        invariant chosen != -1 ==> forall k :: 1 <= k < l && t[k][b] in availableServer ==>
                                     minCount <= Get(masters.count, t[k][b])
      {
        var n := t[l][b];
        if Available(n) {
          if minCount == -1 || minCount > Get(masters.count, n) {
            chosen, minCount := l, Get(masters.count, n);
          }
        }
        l := l + 1;
      }
    }

    /** Swaps the master of bucket `b` with one of its available slaves; a master that is gone
        leaves its place empty. Unless forced, the new master must have room. */
    method ChangeMasterNode(b: nat, t: Table, force: bool) returns (ok: bool, r: Table, ghost chosen: int)
      requires Given(t) && copyCount >= 1 && b < bucketCount
      requires forall s :: s in availableServer ==> Get(masters.count, s) >= 0
      modifies this`masters, this`tokensNow
      ensures !ok ==> r == t && masters == old(masters) && tokensNow == old(tokensNow)
      ensures force ==> (ok <==> exists l :: 1 <= l < copyCount && t[l][b] in availableServer)
      ensures FewestMasters(old(masters), availableServer, t, b, chosen)
      ensures ok <==> chosen != -1 && (force || old(Get(masters.count, t[chosen][b]) < Get(masters.capable, t[chosen][b])))
      ensures ok ==> r == Promote(t, b, chosen, availableServer)
      ensures ok ==> masters == old(Tell(Tell(masters, t[chosen][b], 1, availableServer), t[0][b], -1, availableServer))
      ensures !ok || Noted(old(tokensNow), tokensNow, t[chosen][b])
    {
      ok, r := false, t;
      var c := ChooseSlave(b, t);
      chosen := c;
      if c == -1 {
        return;
      }
      var newMaster := t[c][b];
      if !force && Get(masters.count, newMaster) >= Get(masters.capable, newMaster) {
        return;
      }
      r := SwapMaster(b, t, c);
      ok := true;
    }

    /** Slave `c` becomes the master; the old master takes its place, if it is live. */
    method SwapMaster(b: nat, t: Table, c: nat) returns (r: Table)
      requires Given(t) && 1 <= c < copyCount && b < bucketCount && t[c][b] in availableServer
      requires forall s :: s in availableServer ==> Get(masters.count, s) >= 0
      modifies this`masters, this`tokensNow
      ensures r == Promote(t, b, c, availableServer)
      ensures masters == old(Tell(Tell(masters, t[c][b], 1, availableServer), t[0][b], -1, availableServer))
      ensures Noted(old(tokensNow), tokensNow, t[c][b])
    {
      var newMaster, oldMaster := t[c][b], t[0][b];
      r := SetCell(t, 0, b, newMaster);
      tokensNow := tokensNow[newMaster := Get(tokensNow, newMaster) + 1];
      masters := ChangeTokens(masters, newMaster, 1);
      if Available(oldMaster) {
        r := SetCell(r, c, b, oldMaster);
        masters := ChangeTokens(masters, oldMaster, -1);
      } else {
        r := SetCell(r, c, b, Node(INVALID_FLAG, newMaster.pos));
      }
    }

    // ----- the quick table -----

    method BuildQuickTable(t: Table) returns (ok: bool, r: Table)
      requires Given(t) && copyCount >= 1
      requires forall s :: s in availableServer ==> Get(masters.count, s) >= 0
      modifies this`masters, this`tokensNow
      ensures ok <==> forall b :: 0 <= b < bucketCount ==> Alive(t, b, availableServer)
      ensures ok ==> QuickTable(t, r, copyCount, bucketCount, availableServer)
    {
      ghost var from: seq<nat>;
      ok, r, from := PromoteLostMasters(t);
      if ok {
        r := BlankLostSlaves(t, r, from);
      }
    }

    method PromoteLostMasters(t: Table) returns (ok: bool, r: Table, ghost from: seq<nat>)
      requires Given(t) && copyCount >= 1
      requires forall s :: s in availableServer ==> Get(masters.count, s) >= 0
      modifies this`masters, this`tokensNow
      ensures Shape(r, copyCount, bucketCount)
      ensures ok <==> forall b :: 0 <= b < bucketCount ==> Alive(t, b, availableServer)
      ensures ok ==> Promoted(t, r, bucketCount, from, availableServer)
    {
      ok, r, from := true, t, [];
      var b := 0;
      while b < bucketCount
        invariant 0 <= b <= bucketCount && Shape(r, copyCount, bucketCount) && ok
        invariant forall s :: s in availableServer ==> Get(masters.count, s) >= 0
        invariant Promoted(t, r, b, from, availableServer)
        invariant forall c :: 0 <= c < b ==> Alive(t, c, availableServer)
      {
        ghost var c, before := 0, r;
        assert SameColumn(t, r, b);
        if !Available(r[0][b]) {
          ok, r, c := ChangeMasterNode(b, r, true);
          if !ok {
            assert !Alive(t, b, availableServer);
            return;
          }
          PromoteFacts(before, b, c, availableServer);
        }
        PromotedStep(t, before, r, b, from, c, availableServer);
        from := from + [c];
        b := b + 1;
      }
    }

    method BlankLostSlaves(ghost t: Table, mid: Table, ghost from: seq<nat>) returns (r: Table)
      requires Given(t) && Shape(mid, copyCount, bucketCount) && copyCount >= 1
      requires Promoted(t, mid, bucketCount, from, availableServer)
      ensures QuickTable(t, r, copyCount, bucketCount, availableServer)
    {
      r := mid;
      var l := 1;
      while l < copyCount
        invariant 1 <= l <= copyCount && Shape(r, copyCount, bucketCount)
        invariant forall k, b :: 1 <= k < l && 0 <= b < bucketCount ==> r[k][b] == Blanked(mid[k][b], availableServer)
        invariant forall k, b :: (k == 0 || l <= k < copyCount) && 0 <= b < bucketCount ==> r[k][b] == mid[k][b]
      {
        var b := 0;
        while b < bucketCount
          invariant 0 <= b <= bucketCount && Shape(r, copyCount, bucketCount)
          invariant forall k, c :: 1 <= k < l && 0 <= c < bucketCount ==> r[k][c] == Blanked(mid[k][c], availableServer)
          invariant forall k, c :: (k == 0 || l < k < copyCount) && 0 <= c < bucketCount ==> r[k][c] == mid[k][c]
          invariant forall c :: 0 <= c < bucketCount ==>
                                  r[l][c] == if c < b then Blanked(mid[l][c], availableServer) else mid[l][c]
        {
          if !Available(r[l][b]) {
            r := SetCell(r, l, b, Node(0, 0));
          }
          b := b + 1;
        }
        l := l + 1;
      }
      forall b | 0 <= b < bucketCount ensures QuickColumn(t, r, b, availableServer) {
        assert LiveMaster(t, mid, b, from[b], availableServer);
        assert QuickFrom(t, r, b, from[b], availableServer);
      }
    }

    // ----- the candidate search -----

    /** The servers that may take the cell at `level`. */
    ghost function Candidates(line: nat, b: nat, t: Table, level: int): set<Node>
      requires Given(t) && line < copyCount && b < bucketCount
      reads this
    {
      Acceptable(WishesNow(), LedgerOf(line), availableServer, t, line, b, level)
    }

    /** The last acceptable server of one entry, or the original one when it is met. */
    method ScanEntry(entry: set<Node>, line: nat, b: nat, t: Table, level: int, original: Node) returns (found: Node)
      requires Given(t) && line < copyCount && b < bucketCount && entry <= availableServer
      ensures found.id != INVALID_FLAG ==> found in entry && found in Candidates(line, b, t, level)
      ensures found.id == INVALID_FLAG ==> entry !! Candidates(line, b, t, level)
      ensures forall s :: s in entry && s in Candidates(line, b, t, level) && s.id == original.id ==>
                            found.id == original.id
    {
      found := Node(INVALID_FLAG, INVALID_FLAG);
      ghost var ok := Candidates(line, b, t, level);
      var todo := entry;
      while todo != {}
        invariant todo <= entry
        invariant forall s :: s in entry && s !in todo && s.id == original.id ==> s !in ok
        invariant found.id != INVALID_FLAG ==> found in entry && found in ok
        invariant found.id == INVALID_FLAG ==> entry - todo !! ok
      {
        var s :| s in todo;
        todo := todo - {s};
        VerdictMeans(s, line, b, t, level, false);
        if IsNodeOk(s, line, b, t, level, false).NodeOk? {
          found := s;
          if s.id == original.id {
            break;
          }
        }
      }
    }

    /** The entry with the least slack of those left. */
    method ScanNext(keys: set<int>, ghost passed: nat, line: nat, b: nat, t: Table, level: nat, original: Node)
        returns (k: int, found: Node)
      requires Given(t) && line < copyCount && b < bucketCount
      requires Agrees(LedgerOf(line), availableServer) && keys != {} && Ascending(LedgerOf(line).candidates, keys, passed)
      requires Passed(LedgerOf(line), keys, Candidates(line, b, t, level))
      ensures k in keys && Ascending(LedgerOf(line).candidates, keys - {k}, passed + 1)
      ensures found.id == INVALID_FLAG || (found in Candidates(line, b, t, level)
                && Preferred(LedgerOf(line), Candidates(line, b, t, level), found, original))
      ensures found.id == INVALID_FLAG ==> Passed(LedgerOf(line), keys - {k}, Candidates(line, b, t, level))
    {
      var ledger := LedgerOf(line);
      k := Smallest(keys);
      NextKey(ledger.candidates, keys, passed, k);
      EntryIsKnown(ledger, availableServer, k);
      found := ScanEntry(ledger.candidates[k], line, b, t, level, original);
      if found.id != INVALID_FLAG {
        LeastFirst(ledger, availableServer, Candidates(line, b, t, level), keys, found, k, original);
      }
    }

    /** One level of the ladder: entries by ascending slack, only the first few below CONSIDER_BASE. Of the
        servers acceptable at this level the one found is preferred. */
    method ScanLevel(line: nat, b: nat, t: Table, level: nat, original: Node) returns (found: Node)
      requires Given(t) && line < copyCount && b < bucketCount
      requires Agrees(LedgerOf(line), availableServer)
      ensures found.id == INVALID_FLAG || (found in Candidates(line, b, t, level)
                && Preferred(LedgerOf(line), Candidates(line, b, t, level), found, original))
      ensures found.id == INVALID_FLAG ==> NobodySeen(LedgerOf(line), Candidates(line, b, t, level), level)
    {
      var ledger := LedgerOf(line);
      ghost var ok := Candidates(line, b, t, level);
      ghost var passed := 0;
      found := Node(INVALID_FLAG, INVALID_FLAG);
      var keys := ledger.candidates.Keys;
      var visited := CONSIDER_ALL;
      while keys != {} && visited < level + 1 && found.id == INVALID_FLAG
        invariant Ascending(ledger.candidates, keys, passed)
        invariant visited == if level < CONSIDER_BASE then passed else CONSIDER_ALL
        invariant visited <= level + 1
        invariant found.id == INVALID_FLAG || (found in ok && Preferred(ledger, ok, found, original))
        invariant found.id == INVALID_FLAG ==> Passed(ledger, keys, ok)
      {
        var k;
        k, found := ScanNext(keys, passed, line, b, t, level, original);
        keys, passed := keys - {k}, passed + 1;
        if level < CONSIDER_BASE {
          visited := visited + 1;
        }
      }
      if found.id == INVALID_FLAG {
        LevelDone(ledger, ok, keys, passed, level);
      }
    }

    /** Climbs the ladder until some server is acceptable. It comes back empty-handed only when no
        server is acceptable at the two levels that look at everyone. */
    method GetSuitableNode(line: nat, b: nat, t: Table, original: Node) returns (suitable: Node, ghost at: nat)
      requires Given(t) && line < copyCount && b < bucketCount
      requires Agrees(all, availableServer) && Agrees(masters, availableServer)
      ensures suitable.id == INVALID_FLAG ||
                Found(WishesNow(), LedgerOf(line), availableServer, t, line, b, original, suitable, at)
      ensures suitable.id != INVALID_FLAG && at == CONSIDER_FORCE ==> Candidates(line, b, t, CONSIDER_BASE) == {}
      ensures suitable.id == INVALID_FLAG ==>
                Candidates(line, b, t, CONSIDER_BASE) == Candidates(line, b, t, CONSIDER_FORCE) == {}
    {
      suitable, at := Node(INVALID_FLAG, INVALID_FLAG), CONSIDER_ALL;
      ghost var w, ledger := WishesNow(), LedgerOf(line);
      var level := CONSIDER_ALL;
      while level <= CONSIDER_FORCE && suitable.id == INVALID_FLAG
        invariant CONSIDER_ALL <= level <= CONSIDER_FORCE + 1
        invariant suitable.id == INVALID_FLAG || Found(w, ledger, availableServer, t, line, b, original, suitable, at)
        invariant suitable.id == INVALID_FLAG ==> Unseen(w, ledger, availableServer, t, line, b, level)
      {
        suitable := ScanLevel(line, b, t, level, original);
        at := level;
        level := level + 1;
      }
      if suitable.id == INVALID_FLAG || at == CONSIDER_FORCE {
        NobodyAtAll(ledger, availableServer, Candidates(line, b, t, CONSIDER_BASE), CONSIDER_BASE);
      }
      if suitable.id == INVALID_FLAG {
        NobodyAtAll(ledger, availableServer, Candidates(line, b, t, CONSIDER_FORCE), CONSIDER_FORCE);
      }
    }

    // ----- one cell of each pass -----

    /** One more cell is placed on `n`; the servers that come to be one above their limit are counted. */
    method NoteToken(n: Node)
      modifies this`tokensNow, this`maxCountNow
      ensures Noted(old(tokensNow), tokensNow, n)
      ensures maxCountNow == old(maxCountNow) + if Get(tokensNow, n) == TokensPerNode(n) + 1 then 1 else 0
    {
      tokensNow := tokensNow[n := Get(tokensNow, n) + 1];
      if tokensNow[n] == TokensPerNode(n) + 1 {
        maxCountNow := maxCountNow + 1;
      }
    }

    /** At CONSIDER_BASE some server takes a master cell that is not on a live server. */
    lemma MasterLadder(b: nat, t: Table) returns (s: Node)
      requires Given(t) && Books(t) && copyCount >= 1 && b < bucketCount && t[0][b] !in availableServer
      requires Sum(masters.capable) == bucketCount
      ensures s in Candidates(0, b, t, CONSIDER_BASE)
    {
      s := SomeMasterHasRoom(masters, availableServer, t, b);
    }

    /** At CONSIDER_FORCE some server takes any slave cell. */
    lemma SlaveLadder(line: nat, b: nat, t: Table) returns (s: Node)
      requires Given(t) && 1 <= line < copyCount <= |availableServer| && b < bucketCount
      requires Genuine(t, availableServer) && (ByRack() ==> TwoRacks(availableServer))
      ensures s in Candidates(line, b, t, CONSIDER_FORCE)
    {
      s := SomeServerFree(t, b, line, availableServer);
      if ByRack() {
        s := SomeServerScattered(t, b, line, availableServer);
      }
    }

    /** Swaps the lost or surplus master of bucket `b` with a slave that has room, if there is one. */
    method TryPromote(b: nat, t: Table) returns (ok: bool, r: Table, ghost c: int)
      requires Given(t) && Books(t) && Genuine(t, availableServer) && copyCount >= 1 && b < bucketCount
      requires t[0][b] in availableServer ==> masters.count[t[0][b]] > masters.capable[t[0][b]]
      modifies this`masters, this`tokensNow
      ensures FewestMasters(old(masters), availableServer, t, b, c)
      ensures ok <==> c != -1 && old(Get(masters.count, t[c][b]) < Get(masters.capable, t[c][b]))
      ensures !ok ==> masters == old(masters) && tokensNow == old(tokensNow)
      ensures ok ==> Given(r) && Books(r) && NewMaster(t, r, b, old(masters), masters, availableServer)
      ensures ok ==> r == Promote(t, b, c, availableServer)
      ensures !ok || Noted(old(tokensNow), tokensNow, t[c][b])
    {
      assert forall s :: s in availableServer ==> MastersCounted(masters, t, s);
      ok, r, c := ChangeMasterNode(b, t, false);
      if ok {
        MasterPromoted(old(masters), availableServer, t[0][b], t[c][b]);
        PromoteFacts(t, b, c, availableServer);
        PromoteGenuine(t, b, c, availableServer);
        PromoteKeepsBooks(all, old(masters), availableServer, t, b, c);
      }
    }

    /** Gives up copy `line` of bucket `b` and searches for another server to take it. */
    method SearchAnew(line: nat, b: nat, t: Table) returns (hole: Table, n: Node, ghost at: nat)
      requires Given(t) && Books(t) && line < copyCount && b < bucketCount
      modifies this`all, this`masters
      ensures hole == SetCell(t, line, b, Node(INVALID_FLAG, t[line][b].pos)) && Given(hole) && Books(hole)
      ensures all == old(Tell(all, t[line][b], -1, availableServer)) && all.capable == old(all.capable)
      ensures masters == old(TellMaster(masters, line, t[line][b], -1, availableServer))
      ensures n.id == INVALID_FLAG ||
                Found(old(WishesNow()), LedgerOf(line), availableServer, t, line, b, t[line][b], n, at)
      ensures n.id == INVALID_FLAG ==>
                Candidates(line, b, hole, CONSIDER_BASE) == Candidates(line, b, hole, CONSIDER_FORCE) == {}
    {
      hole := InvalidateNode(line, b, t);
      assert WishesNow() == old(WishesNow());
      n, at := GetSuitableNode(line, b, hole, t[line][b]);
      if n.id != INVALID_FLAG {
        FoundInHole(WishesNow(), LedgerOf(line), availableServer, t, line, b, hole[line][b], t[line][b], n, at);
      }
    }

    /** Replaces the lost or surplus master of bucket `b` by the best server the ladder finds. */
    method ReplaceMaster(b: nat, t: Table) returns (ok: bool, r: Table, n: Node, ghost at: nat)
      requires Given(t) && Books(t) && Genuine(t, availableServer) && copyCount >= 1 && b < bucketCount
      requires Sum(masters.capable) == bucketCount
      requires t[0][b] in availableServer ==> masters.count[t[0][b]] > masters.capable[t[0][b]]
      modifies this`all, this`masters
      ensures ok && r == SetCell(t, 0, b, n) && all.capable == old(all.capable)
      ensures !ok || (Given(r) && Books(r) && NewMaster(t, r, b, old(masters), masters, availableServer))
      ensures !ok || Found(old(WishesNow()), old(Tell(masters, t[0][b], -1, availableServer)), availableServer,
                           t, 0, b, t[0][b], n, at)
    {
      var hole;
      hole, n, at := SearchAnew(0, b, t);
      ghost var s := MasterLadder(b, hole);
      ok, r := n.id != INVALID_FLAG, hole;
      if ok {
        FoundMaster(old(WishesNow()), old(masters), availableServer, t, b, n, at);
        SetCellTwice(t, 0, b, hole[0][b], n);
        r := UpdateNode(0, b, n, hole);
      }
    }

    /** Replaces slave copy `line` of bucket `b` by the best server the ladder finds. */
    method ReplaceSlave(line: nat, b: nat, t: Table) returns (ok: bool, r: Table, n: Node, ghost at: nat)
      requires Given(t) && Books(t) && 1 <= line < copyCount <= |availableServer| && b < bucketCount
      requires Genuine(t, availableServer) && (ByRack() ==> TwoRacks(availableServer))
      modifies this`all, this`masters
      ensures ok && n in availableServer && r == SetCell(t, line, b, n)
      ensures Given(r) && Books(r) && all.capable == old(all.capable) && masters == old(masters)
      ensures !ok || SlaveChosen(old(WishesNow()), old(all), availableServer, t, line, b, n, at)
    {
      var hole;
      hole, n, at := SearchAnew(line, b, t);
      SetCellGenuine(t, availableServer, line, b, hole[line][b]);
      ghost var s := SlaveLadder(line, b, hole);
      ok, r := n.id != INVALID_FLAG, hole;
      if ok {
        SetCellTwice(t, line, b, hole[line][b], n);
        r := UpdateNode(line, b, n, hole);
      }
    }

    /** A master that no slave can be swapped with is replaced. */
    method ReplaceByFound(b: nat, t: Table, ghost c: int) returns (ok: bool, r: Table, ghost at: nat)
      requires Given(t) && Books(t) && Genuine(t, availableServer) && copyCount >= 1 && b < bucketCount
      requires Sum(masters.capable) == bucketCount
      requires t[0][b] in availableServer ==> masters.count[t[0][b]] > masters.capable[t[0][b]]
      requires FewestMasters(masters, availableServer, t, b, c)
      requires c == -1 || Get(masters.count, t[c][b]) >= Get(masters.capable, t[c][b])
      modifies this`all, this`masters, this`tokensNow, this`maxCountNow
      ensures ok && all.capable == old(all.capable)
      ensures !ok || (Given(r) && Books(r) && NewMaster(t, r, b, old(masters), masters, availableServer))
      ensures !ok || MasterChosen(old(WishesNow()), old(masters), availableServer, t, b, c, at, r)
      ensures !ok || Noted(old(tokensNow), tokensNow, r[0][b])
    {
      var n;
      ok, r, n, at := ReplaceMaster(b, t);
      if ok {
        ChosenBySearch(old(WishesNow()), old(masters), availableServer, t, b, c, n, at);
        NoteToken(n);
      }
    }

    /** A lost or surplus master is swapped with a slave or replaced. */
    method ChangeMaster(b: nat, t: Table) returns (ok: bool, r: Table, ghost c: int, ghost at: nat)
      requires Given(t) && Books(t) && Genuine(t, availableServer) && copyCount >= 1 && b < bucketCount
      requires Sum(masters.capable) == bucketCount
      requires t[0][b] in availableServer ==> masters.count[t[0][b]] > masters.capable[t[0][b]]
      modifies this`all, this`masters, this`tokensNow, this`maxCountNow
      ensures ok && all.capable == old(all.capable)
      ensures !ok || (Given(r) && Books(r) && NewMaster(t, r, b, old(masters), masters, availableServer))
      ensures !ok || MasterChosen(old(WishesNow()), old(masters), availableServer, t, b, c, at, r)
      ensures !ok || Noted(old(tokensNow), tokensNow, r[0][b])
    {
      at := 0;
      ok, r, c := TryPromote(b, t);
      if !ok {
        assert WishesNow() == old(WishesNow());
        ok, r, at := ReplaceByFound(b, t, c);
      } else {
        ChosenByCount(old(WishesNow()), old(masters), availableServer, t, b, c, at);
      }
    }

    /** The master pass at bucket `b`. */
    method PlaceMaster(b: nat, t: Table) returns (ok: bool, r: Table, ghost c: int, ghost at: nat)
      requires Given(t) && Books(t) && Genuine(t, availableServer) && copyCount >= 1 && b < bucketCount
      requires Sum(masters.capable) == bucketCount
      modifies this`all, this`masters, this`tokensNow, this`maxCountNow
      ensures ok && Given(r) && Books(r) && all.capable == old(all.capable)
      ensures if old(t[0][b] in availableServer && masters.count[t[0][b]] <= masters.capable[t[0][b]])
              then r == t && all == old(all) && masters == old(masters)
              else NewMaster(t, r, b, old(masters), masters, availableServer)
      ensures || old(t[0][b] in availableServer && masters.count[t[0][b]] <= masters.capable[t[0][b]])
              || MasterChosen(old(WishesNow()), old(masters), availableServer, t, b, c, at, r)
      ensures !ok || Noted(old(tokensNow), tokensNow, r[0][b])
    {
      ok, r, c, at := true, t, -1, 0;
      var n := t[0][b];
      VerdictMeans(n, 0, b, t, CONSIDER_BASE, true);
      if IsNodeOk(n, 0, b, t, CONSIDER_BASE, true) != NodeOk {
        ok, r, c, at := ChangeMaster(b, t);
      } else {
        NoteToken(n);
      }
    }

    /** A slave that is not content is replaced. */
    method ChangeSlave(line: nat, b: nat, t: Table) returns (ok: bool, r: Table, n: Node, ghost at: nat)
      requires Given(t) && Books(t) && 1 <= line < copyCount <= |availableServer| && b < bucketCount
      requires Genuine(t, availableServer) && (ByRack() ==> TwoRacks(availableServer))
      modifies this`all, this`masters
      ensures ok && n in availableServer && r == SetCell(t, line, b, n) && NodeFree(t, line, b, n)
      ensures !ok || (Given(r) && Books(r) && Genuine(r, availableServer))
      ensures all.capable == old(all.capable) && masters == old(masters)
      ensures ByRack() ==> OtherRack(t, line, b, n)
      ensures RackFree(t, line, b, n) || strategy.RackSafety?
                || old(RacksTaken(WishesNow(), Tell(all, t[line][b], -1, availableServer), t, line, b))
      ensures !ok || SlaveChosen(old(WishesNow()), old(all), availableServer, t, line, b, n, at)
    {
      ok, r, n, at := ReplaceSlave(line, b, t);
      if ok {
        SetCellGenuine(t, availableServer, line, b, n);
        ChosenSlave(old(WishesNow()), old(all), availableServer, t, line, b, n, at);
      }
    }

    /** The slave pass at copy `line` of bucket `b`: a slave that is content stays. Under load balance the
        one placed shares a rack only if none of the servers looked at first could help it. */
    method PlaceSlave(line: nat, b: nat, t: Table) returns (ok: bool, r: Table, n: Node, ghost at: nat)
      requires Given(t) && Books(t) && 1 <= line < copyCount <= |availableServer| && b < bucketCount
      requires Genuine(t, availableServer) && (ByRack() ==> TwoRacks(availableServer))
      modifies this`all, this`masters, this`tokensNow, this`maxCountNow
      ensures ok && Given(r) && Books(r) && Genuine(r, availableServer)
      ensures all.capable == old(all.capable) && masters == old(masters)
      ensures r == SetCell(t, line, b, n) && n in availableServer && NodeFree(t, line, b, n)
      ensures ByRack() ==> OtherRack(t, line, b, n)
      ensures RackFree(t, line, b, n) || strategy.RackSafety?
                || old(RacksTaken(WishesNow(), Tell(all, t[line][b], -1, availableServer), t, line, b))
      ensures old(SlaveContent(all, availableServer, t, line, b, strategy, ByRack())) ==> r == t && all == old(all)
      ensures || old(SlaveContent(all, availableServer, t, line, b, strategy, ByRack()))
              || SlaveChosen(old(WishesNow()), old(all), availableServer, t, line, b, n, at)
      ensures !ok || Noted(old(tokensNow), tokensNow, n)
    {
      ok, r, n, at := true, t, t[line][b], 0;
      VerdictMeans(n, line, b, t, CONSIDER_ALL, true);
      if IsNodeOk(n, line, b, t, CONSIDER_ALL, true) != NodeOk {
        ok, r, n, at := ChangeSlave(line, b, t);
      } else {
        SetCellSame(t, line, b);
      }
      if ok {
        NoteToken(n);
      }
    }

    // ----- the two passes -----

    /** The next master, the earlier ones being placed since the table was `t`. */
    method NextMaster(b: nat, ghost t: Table, q: Table, ghost content: bool) returns (ok: bool, r: Table)
      requires Given(q) && Books(q) && Genuine(q, availableServer) && copyCount >= 1 && b < bucketCount
      requires Sum(masters.capable) == bucketCount && MastersPlaced(t, q, b, masters, availableServer)
      requires content ==> MastersContent(masters, availableServer, q)
      modifies this`all, this`masters, this`tokensNow, this`maxCountNow
      ensures ok && Given(r) && Books(r) && Genuine(r, availableServer)
      ensures all.capable == old(all.capable) && masters.capable == old(masters.capable)
      ensures Eases(old(masters.count), masters.count, masters.capable)
      ensures MastersPlaced(t, r, b + 1, masters, availableServer)
      ensures content ==> r == q && all == old(all) && masters == old(masters)
    {
      ghost var ledger := masters;
      ghost var c, at;
      ok, r, c, at := PlaceMaster(b, q);
      if r == q && masters == ledger {
        MasterKept(t, r, b, masters, availableServer);
      } else {
        MasterChanged(t, q, r, b, ledger, masters, availableServer);
      }
    }

    /** The pass over the masters; `trail` has the master counts before it and after each bucket. */
    method MasterPass(t: Table) returns (ok: bool, r: Table, ghost trail: seq<map<Node, int>>)
      requires Given(t) && Books(t) && Genuine(t, availableServer) && copyCount >= 1
      requires Sum(masters.capable) == bucketCount && forall s :: s in availableServer ==> masters.capable[s] >= 0
      modifies this`all, this`masters, this`tokensNow, this`maxCountNow
      ensures ok && Given(r) && Books(r) && Genuine(r, availableServer)
      ensures all.capable == old(all.capable) && masters.capable == old(masters.capable)
      ensures masters.count == masters.capable
      ensures Trails(trail, old(masters.count), masters.count, masters.capable, bucketCount)
      ensures MastersPlaced(t, r, bucketCount, masters, availableServer)
      ensures MastersContent(old(masters), availableServer, t) ==> r == t && all == old(all) && masters == old(masters)
    {
      ok, r, trail := true, t, [masters.count];
      ghost var content := MastersContent(masters, availableServer, t);
      var b := 0;
      while b < bucketCount && ok
        invariant 0 <= b <= bucketCount && ok && Given(r) && Books(r) && Genuine(r, availableServer)
        invariant all.capable == old(all.capable) && masters.capable == old(masters.capable)
        invariant MastersPlaced(t, r, b, masters, availableServer)
        invariant Trails(trail, old(masters.count), masters.count, masters.capable, b)
        invariant content ==> r == t && all == old(all) && masters == old(masters)
      {
        ghost var count := masters.count;
        ok, r := NextMaster(b, t, r, content);
        TrailGrows(trail, old(masters.count), count, masters.count, masters.capable, b);
        trail := trail + [masters.count];
        b := b + 1;
      }
      MastersExact(masters, availableServer, r);
    }

    /** The next slave of bucket `b`, the earlier ones being settled since the table was `t`. */
    method NextSlave(line: nat, b: nat, ghost t: Table, q: Table, ghost content: bool) returns (ok: bool, r: Table)
      requires Given(q) && Books(q) && 1 <= line < copyCount <= |availableServer| && b < bucketCount
      requires Genuine(q, availableServer) && (ByRack() ==> TwoRacks(availableServer))
      requires RowPlaced(t, q, b, line, availableServer, ByRack())
      requires content ==> SlavesContent(all, availableServer, q, bucketCount, strategy, ByRack())
      modifies this`all, this`masters, this`tokensNow, this`maxCountNow
      ensures ok && Given(r) && Books(r) && Genuine(r, availableServer)
      ensures all.capable == old(all.capable) && masters == old(masters)
      ensures RowPlaced(t, r, b, line + 1, availableServer, ByRack())
      ensures content ==> r == q && all == old(all)
    {
      assert content ==> SlaveContent(all, availableServer, q, line, b, strategy, ByRack());
      var n;
      ghost var at;
      ok, r, n, at := PlaceSlave(line, b, q);
      if ok {
        RowStep(t, q, b, line, availableServer, ByRack(), n);
      }
    }

    /** All slaves of bucket `b`. */
    method PlaceSlaves(b: nat, t: Table, ghost content: bool) returns (ok: bool, r: Table)
      requires Given(t) && Books(t) && 1 <= copyCount <= |availableServer| && b < bucketCount
      requires Genuine(t, availableServer) && (ByRack() ==> TwoRacks(availableServer))
      requires content ==> SlavesContent(all, availableServer, t, bucketCount, strategy, ByRack())
      modifies this`all, this`masters, this`tokensNow, this`maxCountNow
      ensures ok && Given(r) && Books(r) && Genuine(r, availableServer)
      ensures all.capable == old(all.capable) && masters == old(masters)
      ensures RowPlaced(t, r, b, copyCount, availableServer, ByRack())
      ensures content ==> r == t && all == old(all)
    {
      ok, r := true, t;
      RowStarts(t, b, availableServer, ByRack());
      var line := 1;
      while line < copyCount && ok
        invariant 1 <= line <= copyCount && ok && Given(r) && Books(r) && Genuine(r, availableServer)
        invariant all.capable == old(all.capable) && masters == old(masters)
        invariant RowPlaced(t, r, b, line, availableServer, ByRack())
        invariant content ==> r == t && all == old(all)
      {
        ok, r := NextSlave(line, b, t, r, content);
        line := line + 1;
      }
    }

    method SlavePass(t: Table) returns (ok: bool, r: Table)
      requires Given(t) && Books(t) && 1 <= copyCount <= |availableServer|
      requires Genuine(t, availableServer) && (ByRack() ==> TwoRacks(availableServer) && copyCount >= 2)
      modifies this`all, this`masters, this`tokensNow, this`maxCountNow
      ensures ok && Given(r) && Books(r)
      ensures all.capable == old(all.capable) && masters == old(masters)
      ensures SlavesPlaced(t, r, bucketCount, availableServer, ByRack())
      ensures SlavesContent(old(all), availableServer, t, bucketCount, strategy, ByRack()) ==> r == t && all == old(all)
    {
      ok, r := true, t;
      ghost var byRack := ByRack();
      ghost var content := SlavesContent(all, availableServer, t, bucketCount, strategy, byRack);
      var b := 0;
      while b < bucketCount && ok
        invariant 0 <= b <= bucketCount && ok && Given(r) && Books(r) && Genuine(r, availableServer)
        invariant all.capable == old(all.capable) && masters == old(masters)
        invariant SlavesPlaced(t, r, b, availableServer, byRack)
        invariant content ==> r == t && all == old(all)
      {
        ghost var before := r;
        ok, r := PlaceSlaves(b, r, content);
        SlavesStep(t, before, r, b, availableServer, byRack);
        b := b + 1;
      }
    }

    // ----- capacities -----

    /** Sets both capacities. Those of the masters add up to the buckets and those of all copies to
        the cells; under load balance both are even, and even counts are kept. */
    method CalculateCapable()
      requires Servers(availableServer) && availableServer != {} && copyCount >= 1
      requires all.count.Keys == availableServer && masters.count.Keys == availableServer
      requires strategy.RackSafety? ==> buildStatNormal && copyCount >= 2 && TwoRacks(availableServer)
      requires strategy.RackSafety? ==> RoomOf(availableServer, maxRoom) != {}
      modifies this`all, this`masters, this`tokensPerNodeMin, this`tokensPerNodeMaxCount
      ensures all == old(all).(capable := all.capable) && masters == old(masters).(capable := masters.capable)
      ensures all.capable.Keys == availableServer && masters.capable.Keys == availableServer
      ensures Sum(all.capable) == bucketCount * copyCount && Sum(masters.capable) == bucketCount
      ensures forall s :: s in availableServer ==> masters.capable[s] >= 0
      ensures strategy.LoadBalance? ==> Even(all.capable, bucketCount * copyCount) && Even(masters.capable, bucketCount)
      ensures strategy.LoadBalance? ==> tokensPerNodeMin == bucketCount * copyCount / |availableServer|
                                        && tokensPerNodeMaxCount == bucketCount * copyCount % |availableServer|
      ensures strategy.LoadBalance? && bucketCount >= |availableServer| ==>
                && (Even(all.count, bucketCount * copyCount) && Sum(all.count) == bucketCount * copyCount ==> all.capable == all.count)
                && (Even(masters.count, bucketCount) && Sum(masters.count) == bucketCount ==> masters.capable == masters.count)
    {
      CellsCover(bucketCount, copyCount);
      match strategy
      case LoadBalance => ShareLoad();
      case RackSafety => ShareByRooms();
    }

    /** Floor and remainder, by history. */
    method ShareLoad()
      requires availableServer != {} && all.count.Keys == availableServer && masters.count.Keys == availableServer
      modifies this`all, this`masters, this`tokensPerNodeMin, this`tokensPerNodeMaxCount
      ensures all == old(all).(capable := all.capable) && masters == old(masters).(capable := masters.capable)
      ensures all.capable.Keys == availableServer && masters.capable.Keys == availableServer
      ensures Sum(all.capable) == bucketCount * copyCount && Sum(masters.capable) == bucketCount
      ensures forall s :: s in availableServer ==> masters.capable[s] >= 0
      ensures Even(all.capable, bucketCount * copyCount) && Even(masters.capable, bucketCount)
      ensures tokensPerNodeMin == bucketCount * copyCount / |availableServer|
      ensures tokensPerNodeMaxCount == bucketCount * copyCount % |availableServer|
      ensures bucketCount * copyCount >= |availableServer| ==>
                (Even(all.count, bucketCount * copyCount) && Sum(all.count) == bucketCount * copyCount ==> all.capable == all.count)
      ensures bucketCount >= |availableServer| ==>
                (Even(masters.count, bucketCount) && Sum(masters.count) == bucketCount ==> masters.capable == masters.count)
    {
      assert |all.count| == |availableServer| == |masters.count| by {
        assert all.count.Keys == masters.count.Keys == availableServer;
      }
      var capable, low, maxCount := ShareByHistory(all.count, bucketCount * copyCount);
      all := all.(capable := capable);
      tokensPerNodeMin, tokensPerNodeMaxCount := low, maxCount;
      capable, low, maxCount := ShareByHistory(masters.count, bucketCount);
      masters := masters.(capable := capable);
      assert |capable| == |availableServer| by { assert capable.Keys == availableServer; }
      EvenNonNegative(capable, bucketCount);
    }

    /** The largest room and the others get their parts. */
    method ShareByRooms()
      requires Servers(availableServer) && copyCount >= 2 && TwoRacks(availableServer)
      requires RoomOf(availableServer, maxRoom) != {}
      modifies this`all, this`masters
      ensures all == old(all).(capable := all.capable) && masters == old(masters).(capable := masters.capable)
      ensures all.capable.Keys == availableServer && masters.capable.Keys == availableServer
      ensures Sum(all.capable) == bucketCount * copyCount && Sum(masters.capable) == bucketCount
      ensures forall s :: s in availableServer ==> masters.capable[s] >= 0
    {
      var cells := bucketCount * copyCount;
      CellsCover(bucketCount, copyCount);
      // The two splits are products of a float ratio below one; any rounding of them will do.
      var masterBucket, balanceBucket :| 0 <= masterBucket <= bucketCount && 0 <= balanceBucket <= cells;
      var roomBucket := bucketCount * (copyCount - 1);
      var inRoom := if roomBucket > balanceBucket then balanceBucket else roomBucket;
      var room := RoomOf(availableServer, maxRoom);
      var others := availableServer - room;
      OutsideRoom(availableServer, maxRoom);
      var capable := ShareBetweenRooms(room, others, cells, inRoom);
      all := all.(capable := capable);
      capable := ShareBetweenRooms(room, others, bucketCount, masterBucket);
      masters := masters.(capable := capable);
    }

    // ----- building a table -----

    /** Counts the cells of every live server; `lost` tells whether some master is not live. */
    method CountTokens(t: Table) returns (tokens: map<Node, int>, mtokens: map<Node, int>, lost: bool)
      requires Shape(t, copyCount, bucketCount)
      ensures Tallied(t, tokens, mtokens, availableServer)
      ensures lost <==> copyCount >= 1 && MasterLost(t, bucketCount, availableServer)
    {
      tokens, mtokens, lost := Zeros(availableServer), Zeros(availableServer), false;
      var l := 0;
      while l < copyCount
        invariant 0 <= l <= copyCount && Tallied(t[..l], tokens, mtokens, availableServer)
        invariant lost <==> l >= 1 && MasterLost(t, bucketCount, availableServer)
      {
        ghost var before, mbefore := tokens, mtokens;
        var missing;
        tokens, missing := CountLine(t[l], tokens);
        if l == 0 {
          mtokens, lost := CountLine(t[l], mtokens);
        }
        TallyGrows(t, l, before, mbefore, tokens, mtokens, availableServer);
        l := l + 1;
      }
      assert t[..copyCount] == t;
    }

    /** Turns the counts into the two ledgers, capacities and indexes included. */
    method OpenBooks(t: Table, tokens: map<Node, int>, mtokens: map<Node, int>)
      requires Given(t) && availableServer != {} && copyCount >= 1
      requires Tallied(t, tokens, mtokens, availableServer)
      requires strategy.RackSafety? ==> buildStatNormal && copyCount >= 2 && TwoRacks(availableServer)
      requires strategy.RackSafety? ==> RoomOf(availableServer, maxRoom) != {}
      modifies this`all, this`masters, this`tokensPerNodeMin, this`tokensPerNodeMaxCount
      ensures Books(t) && all.count == tokens && masters.count == mtokens
      ensures Sum(masters.capable) == bucketCount && forall s :: s in availableServer ==> masters.capable[s] >= 0
      ensures strategy.LoadBalance? ==> Even(masters.capable, bucketCount)
      ensures strategy.LoadBalance? && bucketCount >= |availableServer| ==>
                && (Even(tokens, bucketCount * copyCount) && Sum(tokens) == bucketCount * copyCount ==> all.capable == tokens)
                && (Even(mtokens, bucketCount) && Sum(mtokens) == bucketCount ==> masters.capable == mtokens)
    {
      var servers := BuildIndex(tokens);
      var mservers := BuildIndex(mtokens);
      all := Ledger(tokens, servers, map[], map[]);
      masters := Ledger(mtokens, mservers, map[], map[]);
      CalculateCapable();
      InitCandidates(t);
    }

    /** The candidate indexes complete the two ledgers. */
    method InitCandidates(ghost t: Table)
      requires all.count.Keys == all.capable.Keys == masters.count.Keys == masters.capable.Keys == availableServer
      requires ByCount(all.servers, all.count) && ByCount(masters.servers, masters.count)
      requires forall s :: s in availableServer ==> all.count[s] == Copies(t, s) && masters.count[s] == Masters(t, s)
      modifies this`all, this`masters
      ensures Books(t)
      ensures all == old(all).(candidates := all.candidates) && masters == old(masters).(candidates := masters.candidates)
    {
      var candidates := InitCandidate(masters.capable, masters.servers, masters.count);
      masters := masters.(candidates := candidates);
      candidates := InitCandidate(all.capable, all.servers, all.count);
      all := all.(candidates := candidates);
    }

    constructor (bucketCount: nat, copyCount: nat, strategy: Strategy, statChangeRatio: real)
      ensures this.bucketCount == bucketCount && this.copyCount == copyCount
      ensures this.strategy == strategy && this.statChangeRatio == statChangeRatio
      ensures masters.count == map[]
    {
      this.bucketCount, this.copyCount := bucketCount, copyCount;
      this.strategy, this.statChangeRatio := strategy, statChangeRatio;
      var empty := Ledger(map[], map[], map[], map[]);
      all, masters := empty, empty;
    }

    /** Takes over the live servers; a server's rack is a function of its id. The rack-safety strategy
        also finds its largest room and judges whether the rooms are comparable. */
    method SetAvailableServer(ids: set<int>, rack: int -> int)
      requires INVALID_FLAG !in ids && ids != {}
      modifies this`availableServer, this`posMax, this`maxRoom, this`buildStatNormal
      ensures availableServer == set id | id in ids :: Node(id, rack(id))
      ensures Servers(availableServer) && availableServer != {} && RoomsKnown()
      ensures strategy.RackSafety? ==> posMax == |RoomOf(availableServer, maxRoom)| > 0
      ensures strategy.RackSafety? ==> forall p :: |RoomOf(availableServer, p)| <= posMax
      ensures strategy.RackSafety? ==>
                (buildStatNormal <==> Normal(|availableServer|, posMax, copyCount, statChangeRatio))
    {
      availableServer := set id | id in ids :: Node(id, rack(id));
      ServersFromIds(ids, rack);
      if strategy.RackSafety? {
        maxRoom, posMax := LargestRoom(availableServer);
        var ratio := RoomRatio(|availableServer|, posMax);
        buildStatNormal := !(ratio > statChangeRatio || |availableServer| < copyCount || ratio > 0.9999);
        if buildStatNormal {
          NormalMeansTwoRacks(availableServer, maxRoom);
        }
      }
    }

    /** What `SetAvailableServer` leaves for a rack-safe build. */
    ghost predicate RoomsKnown()
      reads this`availableServer, this`buildStatNormal, this`maxRoom
    {
      strategy.RackSafety? && buildStatNormal ==>
        && copyCount <= |availableServer| && TwoRacks(availableServer) && RoomOf(availableServer, maxRoom) != {}
    }

    /** The table is good as it is and there are enough buckets to go round. */
    ghost predicate NothingToDo(t: Table)
      reads this`availableServer
    {
      && strategy.LoadBalance? && bucketCount >= |availableServer| > 0
      && Balanced(t, copyCount, bucketCount, availableServer)
    }

    /** Opens the books for `source`. */
    method Prepare(source: Table) returns (lost: bool)
      requires Given(source) && copyCount >= 1 && availableServer != {}
      requires RoomsKnown() && (strategy.RackSafety? ==> buildStatNormal && copyCount >= 2)
      modifies this`all, this`masters, this`tokensNow, this`maxCountNow, this`tokensPerNodeMin, this`tokensPerNodeMaxCount
      ensures Books(source)
      ensures lost <==> MasterLost(source, bucketCount, availableServer)
      ensures Sum(masters.capable) == bucketCount && forall s :: s in availableServer ==> masters.capable[s] >= 0
      ensures strategy.LoadBalance? ==> Even(masters.capable, bucketCount)
      ensures NothingToDo(source) ==> all.capable == all.count && masters.capable == masters.count
      ensures availableServer == {} || NonePlaced(tokensNow, maxCountNow, availableServer)
    {
      tokensNow, maxCountNow := Zeros(availableServer), 0;
      assert NonePlaced(tokensNow, maxCountNow, availableServer);
      var tokens, mtokens;
      tokens, mtokens, lost := CountTokens(source);
      if NothingToDo(source) {
        BalancedSums(source, copyCount, bucketCount, availableServer, tokens, mtokens);
      }
      OpenBooks(source, tokens, mtokens);
    }

    /** Builds a new table from `source`, in place, by the two passes or by the quick way. */
    method RebuildTable(source: Table, noQuickTable: bool) returns (code: BuildCode, result: Table)
      requires Given(source) && Genuine(source, availableServer) && copyCount >= 1 && availableServer != {}
      requires RoomsKnown() && (ByRack() ==> copyCount >= 2)
      modifies this`all, this`masters, this`tokensNow, this`maxCountNow, this`tokensPerNodeMin, this`tokensPerNodeMaxCount
      ensures code == Outcome(source, copyCount, bucketCount, availableServer,
                              strategy.RackSafety? && !buildStatNormal, noQuickTable)
      ensures code.BuildQuick? ==> QuickTable(source, result, copyCount, bucketCount, availableServer)
      ensures code.BuildOk? ==> Rebuilt(source, result, copyCount, bucketCount, availableServer, ByRack())
      ensures code.BuildOk? ==> Books(result) && Sum(masters.capable) == bucketCount && masters.count == masters.capable
      ensures code.BuildOk? && strategy.LoadBalance? ==> Even(masters.count, bucketCount)
      ensures code.BuildOk? && NothingToDo(source) ==> result == source
    {
      code, result := BuildError, source;
      if !(strategy.RackSafety? && !buildStatNormal) {
        var lost := Prepare(source);
        code, result := Build(source, lost, noQuickTable);
      }
    }

    /** The quick way or the full one, from the opened books. */
    method Build(source: Table, lost: bool, noQuickTable: bool) returns (code: BuildCode, result: Table)
      requires Given(source) && Books(source) && Genuine(source, availableServer) && copyCount >= 1
      requires RoomsKnown() && (ByRack() ==> copyCount >= 2)
      requires Sum(masters.capable) == bucketCount && forall s :: s in availableServer ==> masters.capable[s] >= 0
      requires NothingToDo(source) ==> all.capable == all.count && masters.capable == masters.count
      requires lost <==> MasterLost(source, bucketCount, availableServer)
      modifies this`all, this`masters, this`tokensNow, this`maxCountNow
      ensures code == Outcome(source, copyCount, bucketCount, availableServer, false, noQuickTable)
      ensures code.BuildQuick? ==> QuickTable(source, result, copyCount, bucketCount, availableServer)
      ensures code.BuildOk? ==> Rebuilt(source, result, copyCount, bucketCount, availableServer, ByRack()) && Books(result)
      ensures code.BuildOk? ==> masters.capable == old(masters.capable) && masters.count == masters.capable
      ensures code.BuildOk? && old(NothingToDo(source)) ==> result == source
    {
      code, result := BuildError, source;
      if lost && !noQuickTable {
        var ok;
        assert forall s :: s in availableServer ==> MastersCounted(masters, source, s);
        ok, result := BuildQuickTable(source);
        code := if ok then BuildQuick else BuildError;
      } else if |availableServer| >= copyCount {
        code, result := BuildAnew(source);
      }
    }

    /** The full build, which leaves a good table alone. */
    method BuildAnew(source: Table) returns (code: BuildCode, result: Table)
      requires Given(source) && Books(source) && Genuine(source, availableServer)
      requires 1 <= copyCount <= |availableServer|
      requires RoomsKnown() && (ByRack() ==> copyCount >= 2)
      requires Sum(masters.capable) == bucketCount && forall s :: s in availableServer ==> masters.capable[s] >= 0
      requires NothingToDo(source) ==> all.capable == all.count && masters.capable == masters.count
      modifies this`all, this`masters, this`tokensNow, this`maxCountNow
      ensures code.BuildOk? && Rebuilt(source, result, copyCount, bucketCount, availableServer, ByRack()) && Books(result)
      ensures masters.capable == old(masters.capable) && masters.count == masters.capable
      ensures old(NothingToDo(source)) ==> result == source
    {
      if NothingToDo(source) {
        BalancedContent(source, copyCount, bucketCount, availableServer, all, masters);
      }
      code, result := RunPasses(source);
    }

    /** The two passes over an opened ledger. */
    method RunPasses(source: Table) returns (code: BuildCode, result: Table)
      requires Given(source) && Books(source) && Genuine(source, availableServer)
      requires 1 <= copyCount <= |availableServer|
      requires RoomsKnown() && (ByRack() ==> copyCount >= 2)
      requires Sum(masters.capable) == bucketCount && forall s :: s in availableServer ==> masters.capable[s] >= 0
      modifies this`all, this`masters, this`tokensNow, this`maxCountNow
      ensures code.BuildOk? && Rebuilt(source, result, copyCount, bucketCount, availableServer, ByRack()) && Books(result)
      ensures masters.capable == old(masters.capable) && masters.count == masters.capable
      ensures (MastersContent(old(masters), availableServer, source)
               && SlavesContent(old(all), availableServer, source, bucketCount, strategy, ByRack())) ==> result == source
    {
      code := BuildError;
      var ok;
      ghost var trail;
      ok, result, trail := MasterPass(source);
      if ok {
        ghost var mid, ledger := result, masters;
        ok, result := SlavePass(result);
        PassesPlace(source, mid, result, ledger, availableServer, ByRack());
        code := if ok then BuildOk else BuildError;
      }
    }
  }

  method CountLine(line: Line, before: map<Node, int>) returns (count: map<Node, int>, missing: bool)
    ensures count.Keys == before.Keys
    ensures forall s :: s in before ==> count[s] == before[s] + multiset(line)[s]
    ensures missing <==> exists b :: 0 <= b < |line| && line[b] !in before
  {
    count, missing := before, false;
    var b := 0;
    while b < |line|
      invariant 0 <= b <= |line| && count.Keys == before.Keys
      invariant forall s :: s in before ==> count[s] == before[s] + multiset(line[..b])[s]
      invariant missing <==> exists c :: 0 <= c < b && line[c] !in before
    {
      if line[b] in count {
        count := count[line[b] := count[line[b]] + 1];
      } else {
        missing := true;
      }
      assert line[..b + 1] == line[..b] + [line[b]];
      b := b + 1;
    }
    assert line[..|line|] == line;
  }

  method Smallest(keys: set<int>) returns (k: int)
    requires keys != {}
    ensures k in keys && forall j :: j in keys ==> k <= j
  {
    Inhabited(keys);
    k :| k in keys;
    var todo := keys - {k};
    while todo != {}
      invariant todo <= keys && k in keys
      invariant forall j :: j in keys && j !in todo ==> k <= j
    {
      Inhabited(todo);
      var j :| j in todo;
      if j < k {
        k := j;
      }
      todo := todo - {j};
    }
  }
}
