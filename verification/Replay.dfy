/** Puts and removes on a bucket, and why replaying a log again and again does no harm. */
module Replay {
  import opened Options

  type Key = string
  type Value = string
  type Store = map<Key, Value>

  datatype Op = Put(key: Key, value: Value) | Remove(key: Key)

  function Apply(s: Store, op: Op): Store {
    match op
    case Put(k, v) => s[k := v]
    case Remove(k) => s - {k}
  }

  function ApplyAll(s: Store, ops: seq<Op>): Store
    decreases |ops|
  {
    if ops == [] then s else Apply(ApplyAll(s, ops[..|ops| - 1]), ops[|ops| - 1])
  }

  function Lookup(s: Store, k: Key): Option<Value> {
    if k in s then Some(s[k]) else None
  }

  /** Some operation of the batch is about key `k`. */
  predicate Touched(ops: seq<Op>, k: Key) {
    exists i :: 0 <= i < |ops| && ops[i].key == k
  }

  lemma ApplyOne(s: Store, op: Op)
    ensures ApplyAll(s, [op]) == Apply(s, op)
  {
    assert [op][..0] == [];
  }

  lemma ApplyPush(s: Store, ops: seq<Op>, op: Op)
    ensures ApplyAll(s, ops + [op]) == Apply(ApplyAll(s, ops), op)
  {
    assert (ops + [op])[..|ops|] == ops;
  }

  lemma {:induction false} ApplyAppend(s: Store, a: seq<Op>, b: seq<Op>)
    ensures ApplyAll(s, a + b) == ApplyAll(ApplyAll(s, a), b)
    decreases |b|
  {
    if b == [] {
      assert a + b == a;
    } else {
      var front := b[..|b| - 1];
      ApplyAppend(s, a, front);
      assert (a + b)[..|a + b| - 1] == a + front;
    }
  }

  lemma {:induction false} Untouched(s: Store, ops: seq<Op>, k: Key)
    requires !Touched(ops, k)
    ensures Lookup(ApplyAll(s, ops), k) == Lookup(s, k)
    decreases |ops|
  {
    if ops != [] {
      var front := ops[..|ops| - 1];
      assert forall i :: 0 <= i < |front| ==> front[i] == ops[i];
      Untouched(s, front, k);
      assert ops[|ops| - 1].key != k;
    }
  }

  /** The last operation on a key decides its value, whatever was there before. */
  lemma {:induction false} LastWins(s: Store, t: Store, ops: seq<Op>, k: Key)
    requires Touched(ops, k)
    ensures Lookup(ApplyAll(s, ops), k) == Lookup(ApplyAll(t, ops), k)
    decreases |ops|
  {
    var front := ops[..|ops| - 1];
    if ops[|ops| - 1].key != k {
      var i :| 0 <= i < |ops| && ops[i].key == k;
      assert front[i].key == k;
      LastWins(s, t, front, k);
    }
  }

  /** The two stores agree on every key the batch does not touch. */
  ghost predicate AgreeOff(s: Store, t: Store, ops: seq<Op>) {
    forall k {:trigger Lookup(s, k)} :: !Touched(ops, k) ==> Lookup(s, k) == Lookup(t, k)
  }

  /** Stores that agree off the batch become equal once the batch has been applied to both. */
  lemma Converge(s: Store, t: Store, ops: seq<Op>)
    requires AgreeOff(s, t, ops)
    ensures ApplyAll(s, ops) == ApplyAll(t, ops)
  {
    var a, b := ApplyAll(s, ops), ApplyAll(t, ops);
    forall k ensures Lookup(a, k) == Lookup(b, k) {
      if Touched(ops, k) {
        LastWins(s, t, ops, k);
      } else {
        Untouched(s, ops, k);
        Untouched(t, ops, k);
      }
    }
    SameLookups(a, b);
  }

  lemma SameLookups(a: Store, b: Store)
    requires forall k :: Lookup(a, k) == Lookup(b, k)
    ensures a == b
  {
    forall k ensures (k in a <==> k in b) && (k in a ==> a[k] == b[k]) {
      assert Lookup(a, k) == Lookup(b, k);
    }
  }

  /** A prefix of the batch, applied any number of times, keeps the agreement off the batch. */
  lemma PrefixAgrees(s: Store, t: Store, ops: seq<Op>, n: nat)
    requires n <= |ops| && AgreeOff(s, t, ops)
    ensures AgreeOff(ApplyAll(s, ops[..n]), t, ops)
  {
    forall k | !Touched(ops, k) ensures Lookup(ApplyAll(s, ops[..n]), k) == Lookup(t, k) {
      assert !Touched(ops[..n], k);
      Untouched(s, ops[..n], k);
      assert Lookup(s, k) == Lookup(t, k);
    }
  }

  /** Applying prefixes of a batch, one after the other. */
  function ApplyPrefixes(s: Store, ops: seq<Op>, cuts: seq<nat>): Store
    requires forall i :: 0 <= i < |cuts| ==> cuts[i] <= |ops|
    decreases |cuts|
  {
    if cuts == [] then s else ApplyPrefixes(ApplyAll(s, ops[..cuts[0]]), ops, cuts[1..])
  }

  /** Retry is harmless: after any prefixes of a batch, in any number, the whole batch has the effect
      of applying it once. */
  lemma {:induction false} RetryIsHarmless(s: Store, ops: seq<Op>, cuts: seq<nat>)
    requires forall i :: 0 <= i < |cuts| ==> cuts[i] <= |ops|
    ensures ApplyAll(ApplyPrefixes(s, ops, cuts), ops) == ApplyAll(s, ops)
    decreases |cuts|
  {
    if cuts != [] {
      RetryIsHarmless(ApplyAll(s, ops[..cuts[0]]), ops, cuts[1..]);
      PrefixAgrees(s, s, ops, cuts[0]);
      Converge(ApplyAll(s, ops[..cuts[0]]), s, ops);
    }
  }

  /** The receiving server: operations one by one, up to the first that fails. `failAt` is where the
      storage refuses; it is past the batch when nothing fails. */
  method Process(s: Store, ops: seq<Op>, failAt: nat) returns (r: Store, ok: bool)
    ensures r == ApplyAll(s, if failAt < |ops| then ops[..failAt] else ops)
    ensures ok <==> failAt >= |ops|
  {
    r, ok := s, true;
    var i := 0;
    while i < |ops|
      invariant 0 <= i <= |ops| && (failAt < |ops| ==> i <= failAt)
      invariant r == ApplyAll(s, ops[..i])
    {
      if i == failAt {
        ok := false;
        break;
      }
      assert ops[..i + 1][..i] == ops[..i];
      r := Apply(r, ops[i]);
      i := i + 1;
    }
    assert ops[..|ops|] == ops;
  }

  // ----- the log -----

  /** One record of the update log, `size` bytes long; the log is shared by all buckets. */
  datatype Entry = Entry(bucket: int, op: Op, size: nat)

  /** The operations on `bucket` in a stretch of the log. */
  function OpsOf(log: seq<Entry>, bucket: int): seq<Op>
    decreases |log|
  {
    if log == [] then []
    else
      var last := log[|log| - 1];
      OpsOf(log[..|log| - 1], bucket) + (if last.bucket == bucket then [last.op] else [])
  }

  lemma OpsPush(log: seq<Entry>, e: Entry, bucket: int)
    ensures OpsOf(log + [e], bucket) == OpsOf(log, bucket) + (if e.bucket == bucket then [e.op] else [])
  {
    assert (log + [e])[..|log + [e]| - 1] == log;
  }

  /** A logged operation keeps the source where replaying the log from `start` leads. */
  lemma TrackPush(base: Store, log: seq<Entry>, start: nat, e: Entry, bucket: int)
    requires start <= |log|
    ensures ApplyAll(base, OpsOf((log + [e])[start..], bucket))
            == var s := ApplyAll(base, OpsOf(log[start..], bucket)); if e.bucket == bucket then Apply(s, e.op) else s
  {
    assert (log + [e])[start..] == log[start..] + [e];
    OpsPush(log[start..], e, bucket);
    var ops := OpsOf(log[start..], bucket);
    if e.bucket == bucket {
      ApplyAppend(base, ops, [e.op]);
      ApplyOne(ApplyAll(base, ops), e.op);
    } else {
      assert ops + [] == ops;
    }
  }

  lemma {:induction false} OpsAppend(a: seq<Entry>, b: seq<Entry>, bucket: int)
    ensures OpsOf(a + b, bucket) == OpsOf(a, bucket) + OpsOf(b, bucket)
    decreases |b|
  {
    if b == [] {
      assert a + b == a;
    } else {
      var front := b[..|b| - 1];
      OpsAppend(a, front, bucket);
      assert (a + b)[..|a + b| - 1] == a + front;
    }
  }

  lemma OpsNext(log: seq<Entry>, from: nat, i: nat, bucket: int)
    requires from <= i < |log|
    ensures OpsOf(log[from..i + 1], bucket)
            == if log[i].bucket == bucket then OpsOf(log[from..i], bucket) + [log[i].op] else OpsOf(log[from..i], bucket)
  {
    OpsPush(log[from..i], log[i], bucket);
    assert log[from..i] + [log[i]] == log[from..i + 1];
  }

  lemma OpsWindow(log: seq<Entry>, from: nat, mid: nat, to: nat, bucket: int)
    requires from <= mid <= to <= |log|
    ensures OpsOf(log[from..to], bucket) == OpsOf(log[from..mid], bucket) + OpsOf(log[mid..to], bucket)
  {
    assert log[from..to] == log[from..mid] + log[mid..to];
    OpsAppend(log[from..mid], log[mid..to], bucket);
  }

  /** The length of a stretch of the log in bytes: a difference of two log sequence numbers. */
  function Bytes(log: seq<Entry>): nat
    decreases |log|
  {
    if log == [] then 0 else Bytes(log[..|log| - 1]) + log[|log| - 1].size
  }

  /** Consecutive windows, without gap or overlap, from `from` to `to`. */
  ghost predicate Tiles(windows: seq<(nat, nat)>, from: nat, to: nat)
    decreases |windows|
  {
    if windows == [] then from == to
    else
      var last := windows[|windows| - 1];
      last.1 == to && last.0 <= to && Tiles(windows[..|windows| - 1], from, last.0)
  }

  lemma AddWindow(windows: seq<(nat, nat)>, from: nat, mid: nat, end: nat)
    requires Tiles(windows, from, mid) && mid <= end
    ensures Tiles(windows + [(mid, end)], from, end)
  {
    assert (windows + [(mid, end)])[..|windows|] == windows;
  }

  // ----- the fuzzy scan -----

  /** How far a scan has got: `view` is what a destination will hold once the packet being filled
      has arrived, `todo` are the keys the scan still has to visit. Off the operations logged so far,
      the visited keys are as in the source at the start, and the source's own ones are still to come. */
  ghost predicate ScanOk(view: Store, init: Store, base: Store, todo: set<Key>, ops: seq<Op>) {
    forall k {:trigger Lookup(view, k)} :: !Touched(ops, k) ==>
      if k in todo then k in base else Lookup(view, k) == Lookup(init + base, k)
  }

  lemma ScanStarts(init: Store, base: Store, ops: seq<Op>)
    ensures ScanOk(init, init, base, ApplyAll(base, ops).Keys, ops)
  {
    var now := ApplyAll(base, ops);
    forall k | !Touched(ops, k)
      ensures if k in now.Keys then k in base else Lookup(init, k) == Lookup(init + base, k)
    {
      Untouched(base, ops, k);
    }
  }

  lemma ScanGrows(view: Store, init: Store, base: Store, todo: set<Key>, ops: seq<Op>, more: seq<Op>)
    requires ScanOk(view, init, base, todo, ops)
    ensures ScanOk(view, init, base, todo, ops + more)
  {
    forall k | !Touched(ops + more, k)
      ensures if k in todo then k in base else Lookup(view, k) == Lookup(init + base, k)
    {
      assert forall i :: 0 <= i < |ops| ==> (ops + more)[i] == ops[i];
      assert !Touched(ops, k);
      var _ := Lookup(view, k);
    }
  }

  /** Reading a key that is there now, and shipping its present value. */
  lemma ScanEmits(view: Store, init: Store, base: Store, todo: set<Key>, ops: seq<Op>, key: Key)
    requires ScanOk(view, init, base, todo, ops)
    requires key in ApplyAll(base, ops)
    ensures ScanOk(view[key := ApplyAll(base, ops)[key]], init, base, todo - {key}, ops)
  {
    var now := ApplyAll(base, ops);
    var next := view[key := now[key]];
    forall k | !Touched(ops, k)
      ensures if k in todo - {key} then k in base else Lookup(next, k) == Lookup(init + base, k)
    {
      Untouched(base, ops, k);
      assert Lookup(view, k) == if k in view then Some(view[k]) else None;
    }
  }

  lemma ScanEmitsPut(dest: Store, pending: seq<Op>, init: Store, base: Store, todo: set<Key>, ops: seq<Op>, key: Key)
    requires ScanOk(ApplyAll(dest, pending), init, base, todo, ops)
    requires key in ApplyAll(base, ops)
    ensures ScanOk(ApplyAll(dest, pending + [Put(key, ApplyAll(base, ops)[key])]), init, base, todo - {key}, ops)
  {
    var op := Put(key, ApplyAll(base, ops)[key]);
    ScanEmits(ApplyAll(dest, pending), init, base, todo, ops, key);
    ApplyAppend(dest, pending, [op]);
    ApplyOne(ApplyAll(dest, pending), op);
  }

  /** A key that has gone in the meantime needs no visit: its removal is in the log. */
  lemma ScanSkips(view: Store, init: Store, base: Store, todo: set<Key>, ops: seq<Op>, key: Key)
    requires ScanOk(view, init, base, todo, ops)
    requires key in todo && key !in ApplyAll(base, ops)
    ensures ScanOk(view, init, base, todo - {key}, ops)
  {
    forall k | !Touched(ops, k)
      ensures if k in todo - {key} then k in base else Lookup(view, k) == Lookup(init + base, k)
    {
      Untouched(base, ops, k);
      assert Lookup(view, k) == if k in view then Some(view[k]) else None;
    }
  }

  /** The scan is not disturbed by what is logged while it runs. */
  lemma ScanLater(view: Store, init: Store, base: Store, todo: set<Key>,
                  log: seq<Entry>, longer: seq<Entry>, start: nat, bucket: int)
    requires start <= |log| && log <= longer
    requires ScanOk(view, init, base, todo, OpsOf(log[start..], bucket))
    ensures ScanOk(view, init, base, todo, OpsOf(longer[start..], bucket))
  {
    assert longer[start..] == log[start..] + longer[|log|..];
    OpsAppend(log[start..], longer[|log|..], bucket);
    ScanGrows(view, init, base, todo, OpsOf(log[start..], bucket), OpsOf(longer[|log|..], bucket));
  }

  lemma AgreeLater(s: Store, t: Store, log: seq<Entry>, longer: seq<Entry>, start: nat, bucket: int)
    requires start <= |log| && log <= longer && AgreeOff(s, t, OpsOf(log[start..], bucket))
    ensures AgreeOff(s, t, OpsOf(longer[start..], bucket))
  {
    assert longer[start..] == log[start..] + longer[|log|..];
    OpsAppend(log[start..], longer[|log|..], bucket);
    var ops, more := OpsOf(log[start..], bucket), OpsOf(longer[|log|..], bucket);
    forall k | !Touched(ops + more, k) ensures Lookup(s, k) == Lookup(t, k) {
      assert forall i :: 0 <= i < |ops| ==> (ops + more)[i] == ops[i];
      assert !Touched(ops, k);
    }
  }

  /** A destination that was not empty: exactly the keys it had that the source did not have, and
      that nobody wrote or removed since, are left over. */
  lemma StaleKeys(init: Store, base: Store, ops: seq<Op>)
    ensures ApplyAll(init + base, ops) == ApplyAll(base, ops)
            <==> forall k :: k in init ==> k in base || Touched(ops, k)
  {
    var a, b := ApplyAll(init + base, ops), ApplyAll(base, ops);
    forall k ensures Lookup(a, k) == Lookup(b, k) <==> (k in init ==> k in base || Touched(ops, k)) {
      if Touched(ops, k) {
        LastWins(init + base, base, ops, k);
      } else {
        Untouched(init + base, ops, k);
        Untouched(base, ops, k);
      }
    }
    if forall k :: k in init ==> k in base || Touched(ops, k) {
      SameLookups(a, b);
    }
  }

  // ----- writes that are not logged -----

  /** The last operation on a key. */
  function LastOn(ops: seq<Op>, k: Key): Op
    requires Touched(ops, k)
    decreases |ops|
  {
    var last := ops[|ops| - 1];
    if last.key == k then last
    else
      assert forall i :: 0 <= i < |ops| - 1 ==> ops[..|ops| - 1][i] == ops[i];
      LastOn(ops[..|ops| - 1], k)
  }

  /** The operation leaves its key as it is in `s`. */
  predicate Leaves(s: Store, op: Op) {
    match op
    case Put(k, v) => Lookup(s, k) == Some(v)
    case Remove(k) => k !in s
  }

  lemma {:induction false} LastDecides(s: Store, ops: seq<Op>, k: Key)
    requires Touched(ops, k)
    ensures LastOn(ops, k).key == k && Lookup(ApplyAll(s, ops), k) == Lookup(Apply(s, LastOn(ops, k)), k)
    decreases |ops|
  {
    var front := ops[..|ops| - 1];
    if ops[|ops| - 1].key != k {
      assert forall i :: 0 <= i < |front| ==> front[i] == ops[i];
      LastDecides(s, front, k);
    }
  }

  /** Without a log, a destination keeps what the scan brought: it has the source's contents after later
      writes exactly when the last write to each key leaves that key as it was scanned. */
  lemma UnloggedWrites(scanned: Store, later: seq<Op>)
    ensures ApplyAll(scanned, later) == scanned
            <==> forall k :: Touched(later, k) ==> Leaves(scanned, LastOn(later, k))
  {
    var now := ApplyAll(scanned, later);
    forall k ensures Lookup(now, k) == Lookup(scanned, k) <==> (Touched(later, k) ==> Leaves(scanned, LastOn(later, k))) {
      if Touched(later, k) {
        LastDecides(scanned, later, k);
      } else {
        Untouched(scanned, later, k);
      }
    }
    if forall k :: Touched(later, k) ==> Leaves(scanned, LastOn(later, k)) {
      SameLookups(now, scanned);
    }
  }

  /** One unlogged write after the scan leaves the destination behind. */
  lemma UnloggedWriteIsLost()
    ensures ApplyAll(map["k" := "old"], [Put("k", "new")]) == map["k" := "new"]
    ensures !Leaves(map["k" := "old"], LastOn([Put("k", "new")], "k"))
  {
    ApplyOne(map["k" := "old"], Put("k", "new"));
    assert [Put("k", "new")][0].key == "k";
  }
}
