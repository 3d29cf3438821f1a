/** How the disk queue lays its records out in segment files. */
module SpillBytes {

  type Byte = b: int | 0 <= b < 256
  type Bytes = seq<Byte>

  /** A serialized node: never empty, and its length fits a 32-bit int. */
  type Data = d: Bytes | 0 < |d| < 0x8000_0000 witness [0]

  const SEGMENT_END_FLAG: Bytes := [61, 61, 69, 78, 68, 32, 83, 69, 71, 77, 69, 78, 84, 61, 61]

  /** A 32-bit int in memory, lowest byte first. */
  function Int32Bytes(n: int): (r: Bytes)
    requires -0x8000_0000 <= n < 0x8000_0000
    ensures |r| == 4 && Int32At(r) == n
  {
    var u := if n < 0 then n + 0x1_0000_0000 else n;
    var (b0, q1) := Split(u);
    var (b1, q2) := Split(q1);
    var (b2, b3) := Split(q2);
    [b0, b1, b2, b3]
  }

  /** The lowest byte and the rest. */
  function Split(u: nat): (r: (Byte, nat))
    ensures u == r.0 + 0x100 * r.1
  {
    (u % 0x100, u / 0x100)
  }

  function Int32At(b: Bytes): (n: int)
    requires |b| >= 4
    ensures b[3] < 128 <==> 0 <= n
  {
    var b0: int, b1: int, b2: int, b3: int := b[0], b[1], b[2], b[3];
    var u: int := b0 + b1 * 0x100 + b2 * 0x1_0000 + b3 * 0x100_0000;
    if b[3] < 128 then u else u - 0x1_0000_0000
  }

  const SEGMENT_END: Bytes := Int32Bytes(-15)

  /** A record: its length, then its bytes. */
  function Record(d: Data): Bytes {
    Int32Bytes(|d|) + d
  }

  ghost function Enc(ds: seq<Data>): Bytes {
    if ds == [] then [] else Record(ds[0]) + Enc(ds[1..])
  }

  lemma Regroup(a: Bytes, b: Bytes, c: Bytes)
    ensures a + (b + c) == (a + b) + c
  {
  }

  lemma {:induction false} EncPush(ds: seq<Data>, d: Data)
    ensures Enc(ds + [d]) == Enc(ds) + Record(d)
  {
    var all := ds + [d];
    if ds == [] {
      assert all[1..] == [] && all[0] == d;
    } else {
      EncPush(ds[1..], d);
      assert all[1..] == ds[1..] + [d] && all[0] == ds[0];
      Regroup(Record(ds[0]), Enc(ds[1..]), Record(d));
    }
  }

  // ----- files -----

  /** Writing over what is there, growing the file as needed. */
  function WriteAt(f: Bytes, pos: nat, d: Bytes): Bytes
    requires pos <= |f|
  {
    seq(if pos + |d| < |f| then |f| else pos + |d|,
        i requires 0 <= i && (i < |f| || i < pos + |d|) => if pos <= i < pos + |d| then d[i - pos] else f[i])
  }

  predicate Has(f: Bytes, pos: nat, d: Bytes) {
    pos + |d| <= |f| && forall i {:trigger d[i]} :: 0 <= i < |d| ==> f[pos + i] == d[i]
  }

  lemma WriteKeeps(f: Bytes, pos: nat, d: Bytes, o: nat, e: Bytes)
    requires pos <= |f| && Has(f, o, e) && o + |e| <= pos
    ensures Has(WriteAt(f, pos, d), o, e)
  {
  }

  lemma WriteExtends(f: Bytes, o: nat, e: Bytes, d: Bytes)
    requires Has(f, o, e)
    ensures Has(WriteAt(f, o + |e|, d), o, e + d)
  {
  }

  lemma HasPrefix(f: Bytes, o: nat, e: Bytes, rest: Bytes)
    requires Has(f, o, e + rest)
    ensures Has(f, o, e) && Has(f, o + |e|, rest)
  {
    assert forall i :: 0 <= i < |e| ==> (e + rest)[i] == e[i];
    forall i | 0 <= i < |rest| ensures f[o + |e| + i] == rest[i] {
      assert (e + rest)[|e| + i] == rest[i];
    }
  }

  lemma HasHead(f: Bytes, o: nat, head: Bytes, rest: Bytes, end: Bytes)
    requires Has(f, o, head + rest + end)
    ensures Has(f, o, head) && Has(f, o + |head|, rest + end)
  {
    Regroup(head, rest, end);
    HasPrefix(f, o, head, rest + end);
  }

  lemma RecordReads(f: Bytes, o: nat, d: Data)
    requires Has(f, o, Record(d))
    ensures o + 4 + |d| <= |f| && Int32At(f[o..o + 4]) == |d| && f[o + 4..o + 4 + |d|] == d
  {
    HasPrefix(f, o, Int32Bytes(|d|), d);
    assert f[o..o + 4] == Int32Bytes(|d|);
  }

  lemma MarkReads(f: Bytes, o: nat)
    requires Has(f, o, SEGMENT_END)
    ensures o + 4 <= |f| && Int32At(f[o..o + 4]) == -15
  {
    assert f[o..o + 4] == SEGMENT_END;
  }

  /** A file from whose start a reader would take a whole record. */
  predicate WholeRecord(f: Bytes) {
    |f| >= 4 && 0 < Int32At(f) && 4 + Int32At(f) <= |f|
  }

  /** The record at the start of such a file. */
  function RecordAt(f: Bytes): Bytes
    requires WholeRecord(f)
  {
    f[4..4 + Int32At(f)]
  }

  // ----- garbage -----

  /** What torn records leave at the start of a file never reads as a negative length. */
  lemma TopByteKeeps(f: Bytes, d: Data, n: nat)
    requires n <= |Record(d)| && (|f| >= 4 ==> f[3] < 128)
    ensures var g := WriteAt(f, 0, Record(d)[..n]); |g| >= 4 ==> g[3] < 128
  {
    assert Record(d)[3] == Int32Bytes(|d|)[3];
  }

  /** One record cut short leaves nothing that reads as a record. */
  lemma OneTornWriteIsHarmless(d: Data, n: nat)
    requires n < |Record(d)|
    ensures !WholeRecord(WriteAt([], 0, Record(d)[..n]))
  {
    var f := WriteAt([], 0, Record(d)[..n]);
    assert f == Record(d)[..n];
    if n >= 4 {
      assert f[..4] == Int32Bytes(|d|);
      assert Int32At(f) == Int32At(f[..4]);
    }
  }

  /** Two records cut short one over the other do, exactly when the first left enough for the second. */
  lemma TwoTornWrites(d: Data, n: nat, e: Data, m: nat)
    requires n < |Record(d)| && 4 <= m < |Record(e)|
    ensures WholeRecord(WriteAt(WriteAt([], 0, Record(d)[..n]), 0, Record(e)[..m])) <==> |Record(e)| <= n
  {
    var f := WriteAt([], 0, Record(d)[..n]);
    assert f == Record(d)[..n];
    var g := WriteAt(f, 0, Record(e)[..m]);
    assert g[..4] == Int32Bytes(|e|);
    assert Int32At(g) == Int32At(g[..4]);
  }
}
