/** How many cells each server should hold: the arithmetic of both placement strategies. */
module Capacity {
  import opened Counting
  import opened Placement

  /** Every value is the floor of the mean or one more. */
  ghost predicate Even(m: map<Node, int>, total: int) {
    m != map[] && forall s :: s in m ==> total / |m| <= m[s] <= total / |m| + 1
  }

  /** `low` for everyone and one more for the servers of `larger`. */
  ghost predicate Shares(m: map<Node, int>, low: int, larger: set<Node>) {
    larger <= m.Keys && forall s :: s in m ==> m[s] == low + if s in larger then 1 else 0
  }

  lemma OneLess(low: int, n: int)
    ensures low * (n - 1) == low * n - low
  {
  }

  lemma {:induction false} SumShares(m: map<Node, int>, low: int, larger: set<Node>)
    requires Shares(m, low, larger)
    ensures Sum(m) == low * |m| + |larger|
    decreases |m|
  {
    if m == map[] {
      assert larger == {};
    } else {
      var s :| s in m;
      SumRemove(m, s);
      var less := m - {s};
      assert |less| == |m| - 1 by { assert less.Keys == m.Keys - {s}; }
      SumShares(less, low, larger - {s});
      OneLess(low, |m|);
      assert |larger - {s}| == |larger| - if s in larger then 1 else 0;
    }
  }

  /** `m` is `own` and `rest` together. */
  ghost predicate TwoParts(m: map<Node, int>, own: map<Node, int>, rest: map<Node, int>) {
    && own.Keys !! rest.Keys && m.Keys == own.Keys + rest.Keys
    && (forall s :: s in own ==> own[s] == m[s]) && forall s :: s in rest ==> rest[s] == m[s]
  }

  lemma {:induction false} SplitSum(m: map<Node, int>, own: map<Node, int>, rest: map<Node, int>)
    requires TwoParts(m, own, rest)
    ensures Sum(m) == Sum(own) + Sum(rest)
    decreases |own|
  {
    if own == map[] {
      assert m == rest;
    } else {
      var x :| x in own;
      PartsWithout(m, own, rest, x);
      SumWithout(m, own, x);
      SplitSum(m - {x}, own - {x}, rest);
    }
  }

  lemma SumWithout(m: map<Node, int>, own: map<Node, int>, x: Node)
    requires x in m && x in own && own[x] == m[x]
    ensures Sum(m) - Sum(own) == Sum(m - {x}) - Sum(own - {x})
    ensures |own - {x}| < |own|
  {
    assert (own - {x}).Keys == own.Keys - {x};
    SumRemove(m, x);
    SumRemove(own, x);
  }

  lemma PartsWithout(m: map<Node, int>, own: map<Node, int>, rest: map<Node, int>, x: Node)
    requires TwoParts(m, own, rest) && x in own
    ensures x in m && TwoParts(m - {x}, own - {x}, rest)
  {
  }

  lemma SubsetSmaller(a: set<Node>, b: set<Node>)
    requires a <= b
    ensures |a| <= |b|
    ensures a < b ==> |a| < |b|
  {
    assert b == a + (b - a);
  }

  lemma DivideEvenly(total: nat, parts: nat)
    requires parts > 0
    ensures total - (total / parts) * parts == total % parts
    ensures 0 <= total % parts < parts
    ensures total / parts >= 0
    ensures total >= parts ==> total / parts >= 1
  {}

  /** A mean taken over the servers that hold something. */
  method MeanOfUsed(count: map<Node, int>) returns (mean: int)
    ensures var used := set s | s in count && count[s] != 0;
            mean == if used == {} then 0 else Sum(count) / |used|
  {
    var size, sum := 0, 0;
    var todo := count.Keys;
    ghost var done: map<Node, int> := map[];
    while todo != {}
      invariant todo <= count.Keys
      invariant done == count - todo
      invariant sum == Sum(done)
      invariant size == |set s | s in done && done[s] != 0|
    {
      var s :| s in todo;
      ghost var used := set x | x in done && done[x] != 0;
      SumInsert(done, s, count[s]);
      done := done[s := count[s]];
      todo := todo - {s};
      if count[s] != 0 {
        assert (set x | x in done && done[x] != 0) == used + {s};
        size := size + 1;
        sum := sum + count[s];
      } else {
        assert (set x | x in done && done[x] != 0) == used;
      }
      assert done == count - todo;
    }
    assert done == count;
    mean := if size > 0 then sum / size else 0;
  }

  /** The servers above the mean. */
  ghost function Above(count: map<Node, int>, mean: int): set<Node> {
    set s | s in count && count[s] > mean
  }

  /** While the served servers got the larger share exactly when above the mean, the next server
      still finds a share of the kind it prefers. */
  lemma RoomLeft(count: map<Node, int>, mean: int, larger: set<Node>, todo: set<Node>, s: Node)
    requires todo <= count.Keys && s in todo && larger <= count.Keys && larger !! todo
    requires forall x :: x in count && x !in todo ==> (x in larger <==> count[x] > mean)
    ensures count[s] > mean ==> |larger| < |Above(count, mean)|
    ensures count[s] <= mean ==> |count| - |todo| - |larger| < |count| - |Above(count, mean)|
  {
    var all, wanted := count.Keys, Above(count, mean);
    assert larger <= wanted;
    assert s in wanted ==> larger < wanted;
    SubsetSmaller(larger, wanted);
    var smaller := all - todo - larger;
    assert smaller <= all - wanted;
    assert s !in wanted ==> s in all - wanted && s !in smaller;
    SubsetSmaller(smaller, all - wanted);
    assert |smaller| == |all| - |todo| - |larger|;
    assert |all - wanted| == |all| - |wanted|;
  }

  /** Which `maxCount` servers get the larger share. A server at or below the previous mean prefers
      the smaller share and the others prefer the larger one, so the servers above the mean are what
      comes out when their number is right. */
  method PickLarger(count: map<Node, int>, mean: int, maxCount: int) returns (larger: set<Node>)
    requires 0 <= maxCount <= |count|
    ensures larger <= count.Keys && |larger| == maxCount
    ensures |Above(count, mean)| == maxCount ==> larger == Above(count, mean)
  {
    var minCount := |count| - maxCount;
    larger := {};
    var maxSoFar, i := 0, 0;
    var todo := count.Keys;
    while todo != {}
      invariant todo <= count.Keys && larger <= count.Keys && larger !! todo
      invariant i == |count| - |todo| && |larger| == maxSoFar
      invariant 0 <= maxSoFar <= maxCount && i - maxSoFar <= minCount
      invariant |Above(count, mean)| == maxCount ==>
                  forall x :: x in count && x !in todo ==> (x in larger <==> count[x] > mean)
    {
      var s :| s in todo;
      if |Above(count, mean)| == maxCount {
        RoomLeft(count, mean, larger, todo, s);
      }
      if if count[s] <= mean then i - maxSoFar >= minCount else maxSoFar < maxCount {
        maxSoFar := maxSoFar + 1;
        larger := larger + {s};
      }
      todo := todo - {s};
      i := i + 1;
    }
  }

  /** The load-balance strategy: `total` cells shared out by floor and remainder. An already even
      distribution of at least one cell per server is given back as it is. */
  method ShareByHistory(count: map<Node, int>, total: nat)
      returns (capable: map<Node, int>, low: int, maxCount: int)
    requires count != map[]
    ensures capable.Keys == count.Keys
    ensures low == total / |count| && maxCount == total % |count|
    ensures Even(capable, total) && Sum(capable) == total
    ensures Even(count, total) && Sum(count) == total && total >= |count| ==> capable == count
  {
    low := total / |count|;
    maxCount := total - low * |count|;
    DivideEvenly(total, |count|);
    var mean := MeanOfUsed(count);
    var larger := PickLarger(count, mean, maxCount);
    capable := map s | s in count :: if s in larger then low + 1 else low;
    assert capable.Keys == count.Keys;
    SumShares(capable, low, larger);
    if Even(count, total) && Sum(count) == total && total >= |count| {
      EvenStays(count, total, mean);
      assert capable == count;
    }
  }

  /** In even counts the servers above the mean are those with the larger share. */
  lemma EvenStays(count: map<Node, int>, total: nat, mean: int)
    requires count != map[] && Even(count, total) && Sum(count) == total && total >= |count|
    requires var used := set s | s in count && count[s] != 0; used != {} ==> mean == total / |used|
    ensures Shares(count, total / |count|, Above(count, mean)) && |Above(count, mean)| == total % |count|
  {
    DivideEvenly(total, |count|);
    assert (set s | s in count && count[s] != 0) == count.Keys;
    assert |count.Keys| == |count| && count.Keys != {};
    SumShares(count, total / |count|, Above(count, mean));
  }

  /** The rack-safety strategy: `total` cells for one room, the larger shares first. The shares of
      the other room, in `before`, are kept. */
  method ShareInRoom(room: set<Node>, total: nat, before: map<Node, int>)
      returns (capable: map<Node, int>, low: nat, maxCount: nat)
    requires room != {} && room !! before.Keys
    ensures low == total / |room| && maxCount == total % |room|
    ensures capable.Keys == before.Keys + room
    ensures Sum(capable) == Sum(before) + total
    ensures forall s :: s in room ==> low <= capable[s] <= low + 1
    ensures forall s :: s in before ==> capable[s] == before[s]
  {
    DivideEvenly(total, |room|);
    low := total / |room|;
    maxCount := total - low * |room|;
    var anyone := map s | s in room :: 0;
    assert anyone.Keys == room;
    var larger := PickLarger(anyone, -1, maxCount);
    capable := before + map s | s in room :: if s in larger then low + 1 else low;
    RoomSum(capable, before, room, larger, low);
  }

  lemma RoomSum(capable: map<Node, int>, before: map<Node, int>, room: set<Node>, larger: set<Node>, low: int)
    requires room !! before.Keys && capable.Keys == before.Keys + room && larger <= room
    requires forall s :: s in room ==> capable[s] == low + if s in larger then 1 else 0
    requires forall s :: s in before ==> capable[s] == before[s]
    ensures Sum(capable) == Sum(before) + low * |room| + |larger|
  {
    var own := map s | s in room :: capable[s];
    SumOver(own, room, low, larger);
    SplitSum(capable, own, before);
  }

  lemma SumOver(m: map<Node, int>, room: set<Node>, low: int, larger: set<Node>)
    requires m.Keys == room && Shares(m, low, larger)
    ensures Sum(m) == low * |room| + |larger|
  {
    SumShares(m, low, larger);
    assert |m| == |m.Keys|;
  }

  /** Adding up the shares of a room gives back what was divided. */
  lemma SharesAddUp(low: nat, parts: nat, total: nat)
    requires parts > 0 && low == total / parts
    ensures low * (parts - total % parts) + (low + 1) * (total % parts) == total
  {
    DivideEvenly(total, parts);
    assert low * (parts - total % parts) + low * (total % parts) == low * parts;
  }

  /** What is left of `total` after a room of `parts` servers took its shares of `inRoom`. */
  function Remainder(total: nat, inRoom: nat, parts: nat, low: nat, maxCount: nat): (rest: int)
    requires parts > 0 && low == inRoom / parts && maxCount == inRoom % parts
    ensures rest == total - inRoom
  {
    SharesAddUp(low, parts, inRoom);
    total - (low * (parts - maxCount) + (low + 1) * maxCount)
  }

  /** `inRoom` of the `total` cells go to one room and the rest to the other servers. */
  method ShareBetweenRooms(room: set<Node>, others: set<Node>, total: nat, inRoom: nat)
      returns (capable: map<Node, int>)
    requires room !! others && room != {} && others != {} && inRoom <= total
    ensures capable.Keys == room + others && Sum(capable) == total
    ensures forall s :: s in capable ==> capable[s] >= 0
  {
    var own, low, maxCount := ShareInRoom(room, inRoom, map[]);
    var rest := Remainder(total, inRoom, |room|, low, maxCount);
    capable, low, maxCount := ShareInRoom(others, rest, own);
  }
}
