/** How a client finds the servers of a key in the flat table it was sent. */
module Routing {
  import opened Options
  import opened Placement
  import opened Rows
  import opened Bookkeeping
  import opened Accounting
  import opened Migration

  /** The table as it is stored and sent: one line after the other. */
  function Flatten(t: Ids): seq<int> {
    if t == [] then [] else t[0] + Flatten(t[1..])
  }

  lemma {:induction false} FlattenAt(t: Ids, buckets: nat, l: nat, b: nat)
    requires forall k :: 0 <= k < |t| ==> |t[k]| == buckets
    ensures |Flatten(t)| == |t| * buckets
    ensures l < |t| && b < buckets ==>
              l <= l * buckets <= b + l * buckets < |Flatten(t)| && Flatten(t)[b + l * buckets] == t[l][b]
    decreases |t|
  {
    if t != [] {
      FlattenAt(t[1..], buckets, if l == 0 then 0 else l - 1, b);
      OneMore(|t|, buckets);
      if 0 < l < |t| && b < buckets {
        OneMore(l, buckets);
        assert Flatten(t)[b + l * buckets] == Flatten(t[1..])[b + l * buckets - buckets];
      }
    }
  }

  /** The servers of bucket `b` from line `l` on, empty cells left out. */
  function Route(t: Ids, b: nat, l: nat): seq<int>
    requires l <= |t| && forall k :: 0 <= k < |t| ==> b < |t[k]|
    decreases |t| - l
  {
    if l == |t| then []
    else if t[l][b] != 0 then [t[l][b]] + Route(t, b, l + 1)
    else Route(t, b, l + 1)
  }

  /** `lines` are the lines from `l` on whose cell of bucket `b` is not empty, in order, and `servers` is what
      is there. */
  ghost predicate Nonempty(t: Ids, b: nat, l: nat, lines: seq<nat>, servers: seq<int>)
    requires forall k :: 0 <= k < |t| ==> b < |t[k]|
  {
    && |servers| == |lines|
    && (forall i :: 0 <= i < |lines| ==> l <= lines[i] < |t| && servers[i] == t[lines[i]][b] && servers[i] != 0)
    && (forall i, j :: 0 <= i < j < |lines| ==> lines[i] < lines[j])
    && (forall k :: l <= k < |t| && t[k][b] != 0 ==> k in lines)
  }

  /** The answer has every nonempty cell of the bucket, once each and in the order of the lines. */
  lemma {:induction false} RouteIsComplete(t: Ids, b: nat, l: nat) returns (lines: seq<nat>)
    requires l <= |t| && forall k :: 0 <= k < |t| ==> b < |t[k]|
    ensures Nonempty(t, b, l, lines, Route(t, b, l))
    decreases |t| - l
  {
    lines := [];
    if l < |t| {
      var rest := RouteIsComplete(t, b, l + 1);
      lines := if t[l][b] != 0 then [l] + rest else rest;
      OneLineMore(t, b, l, rest, Route(t, b, l + 1));
    }
  }

  lemma OneLineMore(t: Ids, b: nat, l: nat, rest: seq<nat>, servers: seq<int>)
    requires l < |t| && (forall k :: 0 <= k < |t| ==> b < |t[k]|) && Nonempty(t, b, l + 1, rest, servers)
    ensures if t[l][b] != 0 then Nonempty(t, b, l, [l] + rest, [t[l][b]] + servers) else Nonempty(t, b, l, rest, servers)
  {
    if t[l][b] != 0 {
      var lines := [l] + rest;
      assert forall i :: 1 <= i < |lines| ==> lines[i] == rest[i - 1];
      forall k | l <= k < |t| && t[k][b] != 0 ensures k in lines {
        assert k == lines[0] || k in rest;
      }
    }
  }

  ghost predicate CellAt(list: seq<int>, t: Ids, buckets: nat, l: nat, b: nat)
    requires l < |t| && b < |t[l]|
  {
    l <= l * buckets <= b + l * buckets < |list| && list[b + l * buckets] == t[l][b]
  }

  /** The client's lookup in the flat list. */
  method GetServerId(hash: nat, direct: Option<int>, list: seq<int>, bucketCount: nat, copyCount: nat, ghost t: Ids)
      returns (ok: bool, server: seq<int>, ghost lines: seq<nat>)
    requires bucketCount >= 1 && IdShape(t, copyCount, bucketCount) && list == Flatten(t)
    ensures server == if direct.Some? then [direct.value] else Route(t, hash % bucketCount, 0)
    ensures direct.None? ==> Nonempty(t, hash % bucketCount, 0, lines, server)
    ensures ok <==> server != []
  {
    server, lines := [], [];
    if direct.Some? {
      return true, [direct.value], [];
    }
    var b := hash % bucketCount;
    forall i | 0 <= i < copyCount ensures CellAt(list, t, bucketCount, i, b) {
      FlattenAt(t, bucketCount, i, b);
    }
    var i := 0;
    while i < copyCount && i < |list|
      invariant 0 <= i <= copyCount
      invariant server + Route(t, b, i) == Route(t, b, 0)
    {
      assert CellAt(list, t, bucketCount, i, b);
      var id := list[b + i * bucketCount];
      if id != 0 {
        assert server + ([id] + Route(t, b, i + 1)) == server + [id] + Route(t, b, i + 1);
        server := server + [id];
      }
      i := i + 1;
    }
    assert i < copyCount ==> CellAt(list, t, bucketCount, i, b);
    ok := |server| > 0;
    lines := RouteIsComplete(t, b, 0);
  }

  lemma MasterComesFirst(t: Ids, b: nat)
    requires |t| >= 1 && (forall k :: 0 <= k < |t| ==> b < |t[k]|) && t[0][b] != 0
    ensures Route(t, b, 0) != [] && Route(t, b, 0)[0] == t[0][b]
  {}

  /** The table served after a rebuild names live servers only. */
  lemma StartIsLive(g: Group, p: Snapshot, dest: Table, l: nat, b: nat)
    requires SnapshotOk(g, p) && Rebuilt(p.source, dest, g.copies, g.buckets, p.servers, false)
    requires l < g.copies && b < g.buckets
    ensures var m := StartTable(g, p, dest); m[l][b] == 0 || m[l][b] in ServerIds(p.servers)
  {
    assert PlacedColumn(dest, b, p.servers);
    assert dest[l][b] in p.servers;
    if QuickWanted(g, p.firstRun) {
      assert QuickColumn(p.source, p.quick, b, p.servers);
      var c :| QuickFrom(p.source, p.quick, b, c, p.servers);
    }
  }

  /** End-to-end routing: after every successful rebuild, on all its write paths, every key hash
      routes to a nonempty list of live servers of that rebuild. */
  lemma RebuildRoutesToLive(g: Group, st: State, p: Snapshot, dest: Table, hash: nat)
    requires Typed(g, st) && g.buckets >= 1 && SnapshotOk(g, p)
    requires Rebuilt(p.source, dest, g.copies, g.buckets, p.servers, false)
    ensures var route := Route(Finished(g, st, p, dest).h, hash % g.buckets, 0);
            route != [] && forall i :: 0 <= i < |route| ==> route[i] in ServerIds(p.servers)
  {
    var h, b := Finished(g, st, p, dest).h, hash % g.buckets;
    StartIsExact(g, p, dest);
    MasterComesFirst(h, b);
    var lines := RouteIsComplete(h, b, 0);
    forall i | 0 <= i < |lines| ensures Route(h, b, 0)[i] in ServerIds(p.servers) {
      StartIsLive(g, p, dest, lines[i], b);
    }
  }

  /** Once the served table has a master everywhere, no step takes it away. */
  lemma StepKeepsMastered(g: Group, st: State, e: Event)
    requires Inv(g, st) && Enabled(g, st, e) && Mastered(st.h)
    ensures Mastered(Step(g, st, e).h)
  {
    match e
    case End(dest) => StartIsExact(g, st.pending.value, dest);
    case _ =>
  }

  /** In every run from a group that serves all buckets, every key hash keeps finding a server. */
  lemma {:induction false} AlwaysRouted(g: Group, first: State, es: seq<Event>, last: State, hash: nat)
    requires Inv(g, first) && Mastered(first.h) && Run(g, first, es, last)
    ensures Inv(g, last) && Route(last.h, hash % g.buckets, 0) != []
    decreases |es|
  {
    if es == [] {
      MasterComesFirst(last.h, hash % g.buckets);
    } else {
      StepKeepsInv(g, first, es[0]);
      StepKeepsMastered(g, first, es[0]);
      AlwaysRouted(g, Step(g, first, es[0]), es[1..], last, hash);
    }
  }
}
