/** The builder's redundant books: counts per server, servers per count, and servers per slack. */
module Ledgers {
  import opened Counting
  import opened Placement

  /** One set of books: `servers` indexes `count`, `candidates` indexes `count - capable`. */
  datatype Ledger = Ledger(
    count: map<Node, int>,
    servers: map<int, set<Node>>,
    candidates: map<int, set<Node>>,
    capable: map<Node, int>)

  /** Reading a missing entry of a map gives its default. */
  function Get(m: map<Node, int>, n: Node): int {
    if n in m then m[n] else 0
  }

  /** A count of zero for everybody. */
  function Zeros(servers: set<Node>): (m: map<Node, int>)
    ensures m.Keys == servers && forall s :: s in servers ==> m[s] == 0
  {
    map s | s in servers :: 0
  }

  function GetSet(m: map<int, set<Node>>, k: int): set<Node> {
    if k in m then m[k] else {}
  }

  /** `index` lists under each count exactly the servers that have it; empty entries may remain. */
  ghost predicate ByCount(index: map<int, set<Node>>, count: map<Node, int>) {
    forall k, s :: s in GetSet(index, k) <==> s in count && count[s] == k
  }

  /** `index` lists under each slack exactly the servers whose count exceeds their capacity by it. */
  ghost predicate BySlack(index: map<int, set<Node>>, count: map<Node, int>, capable: map<Node, int>) {
    forall k, s :: s in GetSet(index, k) <==> s in count && count[s] == k + Get(capable, s)
  }

  ghost predicate Agrees(l: Ledger, servers: set<Node>) {
    && l.count.Keys == servers && l.capable.Keys == servers
    && ByCount(l.servers, l.count)
    && BySlack(l.candidates, l.count, l.capable)
  }

  function Insert(index: map<int, set<Node>>, n: Node, k: int): map<int, set<Node>> {
    index[k := GetSet(index, k) + {n}]
  }

  function Erase(index: map<int, set<Node>>, n: Node, k: int): map<int, set<Node>> {
    index[k := GetSet(index, k) - {n}]
  }

  lemma InsertByCount(index: map<int, set<Node>>, count: map<Node, int>, n: Node, now: int)
    requires ByCount(index, count - {n})
    ensures ByCount(Insert(index, n, now), count[n := now])
  {
    forall k, s ensures s in GetSet(Insert(index, n, now), k) <==> s in count[n := now] && count[n := now][s] == k {
      assert s in GetSet(index, k) <==> s in count - {n} && count[s] == k;
    }
  }

  lemma EraseByCount(index: map<int, set<Node>>, count: map<Node, int>, n: Node)
    requires ByCount(index, count)
    ensures ByCount(Erase(index, n, Get(count, n)), count - {n})
  {
    forall k, s ensures s in GetSet(Erase(index, n, Get(count, n)), k) <==> s in count - {n} && count[s] == k {
      assert s in GetSet(index, k) <==> s in count && count[s] == k;
    }
  }

  lemma InsertBySlack(index: map<int, set<Node>>, count: map<Node, int>, capable: map<Node, int>, n: Node, now: int)
    requires BySlack(index, count - {n}, capable)
    ensures BySlack(Insert(index, n, now - Get(capable, n)), count[n := now], capable)
  {
    var more, after := Insert(index, n, now - Get(capable, n)), count[n := now];
    forall k, s ensures s in GetSet(more, k) <==> s in after && after[s] == k + Get(capable, s) {
      assert s in GetSet(index, k) <==> s in count - {n} && count[s] == k + Get(capable, s);
    }
  }

  lemma EraseBySlack(index: map<int, set<Node>>, count: map<Node, int>, capable: map<Node, int>, n: Node)
    requires BySlack(index, count, capable)
    ensures BySlack(Erase(index, n, Get(count, n) - Get(capable, n)), count - {n}, capable)
  {
    var less := Erase(index, n, Get(count, n) - Get(capable, n));
    forall k, s ensures s in GetSet(less, k) <==> s in count - {n} && count[s] == k + Get(capable, s) {
      assert s in GetSet(index, k) <==> s in count && count[s] == k + Get(capable, s);
    }
  }

  /** One server gains or loses cells; both indexes are told. */
  function ChangeTokens(l: Ledger, n: Node, delta: int): Ledger {
    var was := Get(l.count, n);
    var cap := Get(l.capable, n);
    Ledger(l.count[n := was + delta],
           Insert(Erase(l.servers, n, was), n, was + delta),
           Insert(Erase(l.candidates, n, was - cap), n, was + delta - cap),
           l.capable)
  }

  lemma ChangeKeepsAgreement(l: Ledger, n: Node, delta: int, servers: set<Node>)
    requires Agrees(l, servers) && n in servers
    ensures Agrees(ChangeTokens(l, n, delta), servers)
  {
    var now := Get(l.count, n) + delta;
    EraseByCount(l.servers, l.count, n);
    InsertByCount(Erase(l.servers, n, Get(l.count, n)), l.count, n, now);
    EraseBySlack(l.candidates, l.count, l.capable, n);
    InsertBySlack(Erase(l.candidates, n, Get(l.count, n) - Get(l.capable, n)), l.count, l.capable, n, now);
  }

  method BuildIndex(count: map<Node, int>) returns (index: map<int, set<Node>>)
    ensures ByCount(index, count)
  {
    index := map[];
    var todo := count.Keys;
    ghost var done: map<Node, int> := map[];
    while todo != {}
      invariant todo <= count.Keys && done == count - todo
      invariant ByCount(index, done)
    {
      var s :| s in todo;
      assert done - {s} == done;
      InsertByCount(index, done, s, count[s]);
      index := Insert(index, s, count[s]);
      todo, done := todo - {s}, done[s := count[s]];
    }
    assert done == count;
  }

  /** Re-indexes the servers of a count index by their slack. */
  method InitCandidate(capable: map<Node, int>, index: map<int, set<Node>>, ghost count: map<Node, int>)
      returns (candidates: map<int, set<Node>>)
    requires ByCount(index, count)
    ensures BySlack(candidates, count, capable)
  {
    candidates := map[];
    var keys := index.Keys;
    ghost var done: map<Node, int> := map[];
    assert forall s :: s in count ==> s in GetSet(index, count[s]);
    while keys != {}
      invariant keys <= index.Keys
      invariant forall s :: s in done <==> s in count && count[s] !in keys
      invariant forall s :: s in done ==> done[s] == count[s]
      invariant BySlack(candidates, done, capable)
    {
      Inhabited(keys);
      var k :| k in keys;
      assert forall s :: s in index[k] <==> s in GetSet(index, k);
      candidates, done := AddCandidates(candidates, done, capable, k, index[k]);
      keys := keys - {k};
    }
    assert done == count;
  }

  method AddCandidates(before: map<int, set<Node>>, ghost known: map<Node, int>, capable: map<Node, int>,
                       k: int, batch: set<Node>)
      returns (candidates: map<int, set<Node>>, ghost done: map<Node, int>)
    requires BySlack(before, known, capable) && known.Keys !! batch
    ensures BySlack(candidates, done, capable) && done.Keys == known.Keys + batch
    ensures forall s :: s in known ==> done[s] == known[s]
    ensures forall s :: s in batch ==> done[s] == k
  {
    candidates, done := before, known;
    var todo := batch;
    while todo != {}
      invariant todo <= batch && done.Keys == known.Keys + (batch - todo)
      invariant BySlack(candidates, done, capable)
      invariant forall s :: s in known ==> done[s] == known[s]
      invariant forall s :: s in batch - todo ==> done[s] == k
    {
      var s :| s in todo;
      assert done - {s} == done;
      InsertBySlack(candidates, done, capable, s, k);
      candidates := Insert(candidates, s, k - Get(capable, s));
      todo, done := todo - {s}, done[s := k];
    }
  }

  /** How far a count is above the capacity. */
  function Excess(ledger: Ledger, n: Node): int {
    Get(ledger.count, n) - Get(ledger.capable, n)
  }

  /** Of the nodes in `ok`, `n` has the least count in excess of its capacity, and the server that was there
      before goes first among equals. */
  ghost predicate Preferred(ledger: Ledger, ok: set<Node>, n: Node, original: Node) {
    forall s :: s in ok ==>
      && Excess(ledger, n) <= Excess(ledger, s)
      && (Excess(ledger, n) == Excess(ledger, s) && s.id == original.id ==> n.id == original.id)
  }

  /** Nobody in `ok` is in an entry other than those of `keys`. */
  ghost predicate Passed(ledger: Ledger, keys: set<int>, ok: set<Node>) {
    forall k :: k in ledger.candidates && k !in keys ==> ledger.candidates[k] !! ok
  }

  lemma EntryIsKnown(ledger: Ledger, servers: set<Node>, k: int)
    requires Agrees(ledger, servers) && k in ledger.candidates
    ensures ledger.candidates[k] <= servers
  {
    assert GetSet(ledger.candidates, k) <= servers;
  }

  /** A node of the first entry that has an acceptable node, by ascending excess over capacity, is preferred. */
  lemma LeastFirst(ledger: Ledger, servers: set<Node>, ok: set<Node>, keys: set<int>, n: Node, k: int, original: Node)
    requires Agrees(ledger, servers) && ok <= servers && k in ledger.candidates && n in ledger.candidates[k] && n in ok
    requires forall s :: s in ledger.candidates[k] && s in ok && s.id == original.id ==> n.id == original.id
    requires Passed(ledger, keys + {k}, ok) && forall j :: j in keys ==> k <= j
    ensures Preferred(ledger, ok, n, original)
  {
    assert n in GetSet(ledger.candidates, k);
    forall s | s in ok
      ensures k <= ledger.count[s] - ledger.capable[s]
      ensures ledger.count[s] - ledger.capable[s] == k ==> s in ledger.candidates[k]
    {
      assert s in GetSet(ledger.candidates, ledger.count[s] - ledger.capable[s]);
    }
  }

  lemma NobodyLeft(ledger: Ledger, servers: set<Node>, ok: set<Node>)
    requires Agrees(ledger, servers) && ok <= servers && Passed(ledger, {}, ok)
    ensures ok == {}
  {
    forall s | s in servers ensures s !in ok {
      assert s in GetSet(ledger.candidates, ledger.count[s] - ledger.capable[s]);
    }
  }
}
