/** The disk part of the spill queue: records in numbered segment files, read at the head and written
    at the tail, where any write may stop part way. */
module DiskQueues {
  import opened Options
  import opened SpillBytes

  /** Mentioned where the bytes of a segment matter. */
  predicate Peek(peek: int) {
    true
  }

  /** What `torn` records cut short can have left in a segment without records. */
  ghost predicate Fresh(f: Bytes, torn: nat) {
    forall peek {:trigger Peek(peek)} :: Peek(peek) ==>
      && (|f| >= 4 ==> 0 <= Int32At(f))
      && (torn == 0 ==> f == [])
      && (torn <= 1 ==> !WholeRecord(f))
  }

  lemma FreshEmpty()
    ensures Fresh([], 0)
  {
  }

  lemma FreshTorn(f: Bytes, torn: nat, d: Data, n: nat)
    requires Fresh(f, torn) && n < |Record(d)|
    ensures Fresh(WriteAt(f, 0, Record(d)[..n]), torn + 1)
  {
    assert Peek(0);
    TopByteKeeps(f, d, n);
    OneTornWriteIsHarmless(d, n);
  }

  lemma FreshTells(f: Bytes, torn: nat)
    requires Fresh(f, torn)
    ensures (|f| >= 4 ==> 0 <= Int32At(f)) && (WholeRecord(f) ==> torn >= 2)
  {
    assert Peek(0);
  }

  /** The records of all segments, in order. */
  ghost function Flatten(segs: seq<seq<Data>>): seq<Data> {
    if segs == [] then [] else segs[0] + Flatten(segs[1..])
  }

  lemma {:induction false} FlattenPushSegment(segs: seq<seq<Data>>, s: seq<Data>)
    ensures Flatten(segs + [s]) == Flatten(segs) + s
  {
    var all := segs + [s];
    if segs == [] {
      assert all[1..] == [] && all[0] == s;
    } else {
      FlattenPushSegment(segs[1..], s);
      assert all[1..] == segs[1..] + [s] && all[0] == segs[0];
    }
  }

  /** The segment without its last record is as if that record were appended. */
  lemma FlattenPush(segs: seq<seq<Data>>, d: Data)
    requires segs != []
    ensures Flatten(segs[|segs| - 1 := segs[|segs| - 1] + [d]]) == Flatten(segs) + [d]
  {
    var n := |segs| - 1;
    FlattenPushSegment(segs[..n], segs[n]);
    FlattenPushSegment(segs[..n], segs[n] + [d]);
    assert segs[..n] + [segs[n]] == segs;
    assert segs[..n] + [segs[n] + [d]] == segs[n := segs[n] + [d]];
  }

  lemma FlattenPop(segs: seq<seq<Data>>)
    requires segs != [] && segs[0] != []
    ensures [segs[0][0]] + Flatten(segs[0 := segs[0][1..]]) == Flatten(segs)
  {
    var less := segs[0 := segs[0][1..]];
    assert less[1..] == segs[1..];
    assert Flatten(segs) == segs[0] + Flatten(segs[1..]);
    assert Flatten(less) == less[0] + Flatten(less[1..]);
  }

  /** A segment that has been ended: its records from `o` on, then the mark. */
  ghost predicate Ended(f: Bytes, o: nat, ds: seq<Data>) {
    forall peek {:trigger Peek(peek)} :: Peek(peek) ==> Has(f, o, Enc(ds) + SEGMENT_END)
  }

  /** The segment being written: its records from `o` on, up to `end`. */
  ghost predicate Open(f: Bytes, o: nat, ds: seq<Data>, end: nat) {
    forall peek {:trigger Peek(peek)} :: Peek(peek) ==> o + |Enc(ds)| == end && Has(f, o, Enc(ds))
  }

  function From(i: nat, offset: nat): nat {
    if i == 0 then offset else 0
  }

  ghost predicate EndedAt(files: map<int, Bytes>, id: int, o: nat, ds: seq<Data>) {
    id in files && Ended(files[id], o, ds)
  }

  /** The segment files from the head's on: `segs[i]` are the records not yet read of segment
      `startId + i`. */
  ghost predicate Laid(files: map<int, Bytes>, startId: int, startOffset: nat, endId: int, endOffset: nat,
                       segs: seq<seq<Data>>)
  {
    && |segs| == endId - startId + 1 && startId <= endId && endId in files && endOffset <= |files[endId]|
    && forall look {:trigger Look(look)} :: Look(look) ==>
         Layout(files, startId, startOffset, endId, endOffset, segs)
  }

  /** Mentioned where the layout of the files matters. */
  predicate Look(look: int) {
    true
  }

  ghost predicate Layout(files: map<int, Bytes>, startId: int, startOffset: nat, endId: int, endOffset: nat,
                         segs: seq<seq<Data>>)
    requires |segs| == endId - startId + 1 && startId <= endId && endId in files
  {
    && (forall i {:trigger segs[i]} :: 0 <= i < |segs| - 1 ==> EndedAt(files, startId + i, From(i, startOffset), segs[i]))
    && (forall i :: 0 < i < |segs| - 1 ==> segs[i] != [])
    && Open(files[endId], From(endId - startId, startOffset), segs[endId - startId], endOffset)
  }

  lemma OpenKeeps(f: Bytes, o: nat, ds: seq<Data>, end: nat, d: Bytes)
    requires Open(f, o, ds, end)
    ensures end <= |f| && Open(WriteAt(f, end, d), o, ds, end)
  {
    assert Peek(0);
    WriteKeeps(f, end, d, o, Enc(ds));
  }

  lemma OpenLength(f: Bytes, o: nat, ds: seq<Data>, end: nat)
    requires Open(f, o, ds, end)
    ensures o <= end <= |f| && (ds == [] <==> o == end)
  {
    assert Peek(0);
    if ds != [] {
      assert |Enc(ds)| == |Record(ds[0])| + |Enc(ds[1..])|;
    }
  }

  lemma OpenEmpty()
    ensures Open([], 0, [], 0)
  {
  }

  lemma EndedMark(f: Bytes, o: nat)
    requires Ended(f, o, [])
    ensures Has(f, o, SEGMENT_END)
  {
    assert Peek(0);
    assert Enc([]) + SEGMENT_END == SEGMENT_END;
  }

  /** Whatever is written at the tail's offset or after leaves the records alone. */
  lemma GarbageKeeps(files: map<int, Bytes>, startId: int, startOffset: nat, endId: int, endOffset: nat,
                     segs: seq<seq<Data>>, d: Bytes)
    requires Laid(files, startId, startOffset, endId, endOffset, segs)
    ensures endOffset <= |files[endId]|
    ensures Laid(files[endId := WriteAt(files[endId], endOffset, d)], startId, startOffset, endId, endOffset, segs)
  {
    assert Look(0);
    var n := endId - startId;
    OpenKeeps(files[endId], From(n, startOffset), segs[n], endOffset, d);
  }

  lemma OpenExtends(f: Bytes, o: nat, ds: seq<Data>, end: nat, d: Data)
    requires Open(f, o, ds, end)
    ensures end <= |f| && Open(WriteAt(f, end, Record(d)), o, ds + [d], end + |Record(d)|)
  {
    assert Peek(0);
    EncPush(ds, d);
    WriteExtends(f, o, Enc(ds), Record(d));
  }

  lemma OpenEnds(f: Bytes, o: nat, ds: seq<Data>, end: nat)
    requires Open(f, o, ds, end)
    ensures end <= |f| && Ended(WriteAt(f, end, SEGMENT_END), o, ds)
  {
    assert Peek(0);
    WriteExtends(f, o, Enc(ds), SEGMENT_END);
  }

  lemma EndedKeeps(f: Bytes, o: nat, ds: seq<Data>, end: nat, d: Bytes)
    requires Open(f, o, ds, end) && Ended(f, o, ds)
    ensures end + 4 <= |f|
    ensures Open(WriteAt(f, end + 4, d), o, ds, end) && Ended(WriteAt(f, end + 4, d), o, ds)
  {
    assert Peek(0);
    WriteKeeps(f, end + 4, d, o, Enc(ds));
    WriteKeeps(f, end + 4, d, o, Enc(ds) + SEGMENT_END);
  }

  /** A whole record at the tail's offset is one more record of the last segment. */
  lemma RecordExtends(files: map<int, Bytes>, startId: int, startOffset: nat, endId: int, endOffset: nat,
                      segs: seq<seq<Data>>, d: Data)
    requires Laid(files, startId, startOffset, endId, endOffset, segs)
    ensures Laid(files[endId := WriteAt(files[endId], endOffset, Record(d))], startId, startOffset, endId,
                 endOffset + |Record(d)|, segs[endId - startId := segs[endId - startId] + [d]])
  {
    assert Look(0);
    var n := endId - startId;
    OpenExtends(files[endId], From(n, startOffset), segs[n], endOffset, d);
    var next := files[endId := WriteAt(files[endId], endOffset, Record(d))];
    var more := segs[n := segs[n] + [d]];
    forall i {:trigger more[i]} | 0 <= i < |more| - 1
      ensures EndedAt(next, startId + i, From(i, startOffset), more[i])
    {
      assert more[i] == segs[i];
    }
  }

  /** The last segment has its mark. */
  ghost predicate Marked(files: map<int, Bytes>, startId: int, startOffset: nat, endId: int, segs: seq<seq<Data>>)
    requires |segs| == endId - startId + 1 && startId <= endId
  {
    EndedAt(files, endId, From(endId - startId, startOffset), segs[endId - startId])
  }

  /** The mark at the tail's offset ends the last segment. */
  lemma MarkEnds(files: map<int, Bytes>, startId: int, startOffset: nat, endId: int, endOffset: nat, segs: seq<seq<Data>>)
    requires Laid(files, startId, startOffset, endId, endOffset, segs)
    ensures var next := files[endId := WriteAt(files[endId], endOffset, SEGMENT_END)];
            Laid(next, startId, startOffset, endId, endOffset, segs) && Marked(next, startId, startOffset, endId, segs)
  {
    GarbageKeeps(files, startId, startOffset, endId, endOffset, segs, SEGMENT_END);
    assert Look(0);
    OpenEnds(files[endId], From(endId - startId, startOffset), segs[endId - startId], endOffset);
  }

  lemma MarkFits(files: map<int, Bytes>, startId: int, startOffset: nat, endId: int, endOffset: nat, segs: seq<seq<Data>>)
    requires Laid(files, startId, startOffset, endId, endOffset, segs)
    requires Marked(files, startId, startOffset, endId, segs)
    ensures endOffset + 4 <= |files[endId]|
  {
    FlagKeeps(files, startId, startOffset, endId, endOffset, segs, []);
  }

  /** What follows the mark does not matter. */
  lemma FlagKeeps(files: map<int, Bytes>, startId: int, startOffset: nat, endId: int, endOffset: nat,
                  segs: seq<seq<Data>>, d: Bytes)
    requires Laid(files, startId, startOffset, endId, endOffset, segs)
    requires Marked(files, startId, startOffset, endId, segs)
    ensures endOffset + 4 <= |files[endId]|
    ensures var next := files[endId := WriteAt(files[endId], endOffset + 4, d)];
            Laid(next, startId, startOffset, endId, endOffset, segs) && Marked(next, startId, startOffset, endId, segs)
  {
    assert Look(0);
    var n := endId - startId;
    EndedKeeps(files[endId], From(n, startOffset), segs[n], endOffset, d);
  }

  /** After a marked segment an empty one can follow. */
  lemma SegmentFollows(files: map<int, Bytes>, startId: int, startOffset: nat, endId: int, endOffset: nat,
                       segs: seq<seq<Data>>)
    requires Laid(files, startId, startOffset, endId, endOffset, segs)
    requires Marked(files, startId, startOffset, endId, segs)
    requires endId > startId ==> endOffset > 0
    ensures Laid(files[endId + 1 := []], startId, startOffset, endId + 1, 0, segs + [[]])
  {
    assert Look(0);
    var n := endId - startId;
    OpenLength(files[endId], From(n, startOffset), segs[n], endOffset);
    OpenEmpty();
    var next, more := files[endId + 1 := []], segs + [[]];
    forall i {:trigger more[i]} | 0 <= i < |more| - 1
      ensures EndedAt(next, startId + i, From(i, startOffset), more[i]) && (i > 0 ==> more[i] != [])
    {
      assert more[i] == segs[i];
      assert EndedAt(files, startId + i, From(i, startOffset), segs[i]);
    }
    assert more[endId + 1 - startId] == [];
    assert Layout(next, startId, startOffset, endId + 1, 0, more);
  }

  lemma OpenHead(f: Bytes, o: nat, ds: seq<Data>, end: nat)
    requires Open(f, o, ds, end) && ds != []
    ensures Has(f, o, Record(ds[0])) && Open(f, o + 4 + |ds[0]|, ds[1..], end)
  {
    assert Peek(0);
    HasPrefix(f, o, Record(ds[0]), Enc(ds[1..]));
  }

  lemma EndedHead(f: Bytes, o: nat, ds: seq<Data>)
    requires Ended(f, o, ds) && ds != []
    ensures Has(f, o, Record(ds[0])) && Ended(f, o + 4 + |ds[0]|, ds[1..])
  {
    assert Peek(0);
    HasHead(f, o, Record(ds[0]), Enc(ds[1..]), SEGMENT_END);
  }

  lemma HeadSegment(files: map<int, Bytes>, startId: int, startOffset: nat, endId: int, endOffset: nat,
                    segs: seq<seq<Data>>)
    requires Laid(files, startId, startOffset, endId, endOffset, segs)
    ensures startId in files
    ensures if startId < endId then Ended(files[startId], startOffset, segs[0])
            else Open(files[startId], startOffset, segs[0], endOffset)
  {
    assert Look(0);
    if startId < endId {
      assert EndedAt(files, startId, From(0, startOffset), segs[0]);
    }
  }

  /** The head moves to a place from which its segment has other records to read. */
  lemma HeadMoves(files: map<int, Bytes>, startId: int, startOffset: nat, endId: int, endOffset: nat,
                  segs: seq<seq<Data>>, next: nat, ds: seq<Data>)
    requires Laid(files, startId, startOffset, endId, endOffset, segs)
    requires (startId < endId && EndedAt(files, startId, next, ds)) || (startId == endId && Open(files[endId], next, ds, endOffset))
    ensures Laid(files, startId, next, endId, endOffset, segs[0 := ds])
  {
    assert Look(0);
    var less := segs[0 := ds];
    forall i {:trigger less[i]} | 0 <= i < |less| - 1
      ensures EndedAt(files, startId + i, From(i, next), less[i])
    {
      if i != 0 {
        assert EndedAt(files, startId + i, From(i, startOffset), segs[i]);
      }
    }
  }

  /** The next record at the head. */
  lemma HeadRecord(files: map<int, Bytes>, startId: int, startOffset: nat, endId: int, endOffset: nat,
                   segs: seq<seq<Data>>)
    requires Laid(files, startId, startOffset, endId, endOffset, segs) && segs[0] != []
    ensures startId in files && Has(files[startId], startOffset, Record(segs[0][0]))
  {
    HeadSegment(files, startId, startOffset, endId, endOffset, segs);
    if startId < endId {
      EndedHead(files[startId], startOffset, segs[0]);
    } else {
      OpenHead(files[startId], startOffset, segs[0], endOffset);
    }
  }

  lemma OpenRest(f: Bytes, o: nat, ds: seq<Data>, end: nat)
    requires ds == [] || Open(f, o, ds, end)
    ensures ds == [] || Open(f, o + 4 + |ds[0]|, ds[1..], end)
  {
    if ds != [] {
      OpenHead(f, o, ds, end);
    }
  }

  lemma EndedRest(f: Bytes, o: nat, ds: seq<Data>)
    requires ds == [] || Ended(f, o, ds)
    ensures ds == [] || Ended(f, o + 4 + |ds[0]|, ds[1..])
  {
    if ds != [] {
      EndedHead(f, o, ds);
    }
  }

  /** The head's segment reads on behind it. */
  lemma EndedTail(files: map<int, Bytes>, startId: int, startOffset: nat, endId: int, endOffset: nat, segs: seq<seq<Data>>)
    requires Laid(files, startId, startOffset, endId, endOffset, segs) && segs[0] != []
    ensures startId == endId || EndedAt(files, startId, startOffset + 4 + |segs[0][0]|, segs[0][1..])
  {
    if startId < endId {
      HeadSegment(files, startId, startOffset, endId, endOffset, segs);
      EndedRest(files[startId], startOffset, segs[0]);
    }
  }

  lemma OpenTail(files: map<int, Bytes>, startId: int, startOffset: nat, endId: int, endOffset: nat, segs: seq<seq<Data>>)
    requires Laid(files, startId, startOffset, endId, endOffset, segs) && segs[0] != []
    ensures startId < endId || Open(files[endId], startOffset + 4 + |segs[0][0]|, segs[0][1..], endOffset)
  {
    if startId == endId {
      HeadSegment(files, startId, startOffset, endId, endOffset, segs);
      OpenRest(files[endId], startOffset, segs[0], endOffset);
    }
  }

  /** The queue without it. */
  lemma HeadRest(files: map<int, Bytes>, startId: int, startOffset: nat, endId: int, endOffset: nat,
                 segs: seq<seq<Data>>)
    requires Laid(files, startId, startOffset, endId, endOffset, segs) && segs[0] != []
    ensures segs[0] == [] || Laid(files, startId, startOffset + 4 + |segs[0][0]|, endId, endOffset, segs[0 := segs[0][1..]])
  {
    EndedTail(files, startId, startOffset, endId, endOffset, segs);
    OpenTail(files, startId, startOffset, endId, endOffset, segs);
    HeadMoves(files, startId, startOffset, endId, endOffset, segs, startOffset + 4 + |segs[0][0]|, segs[0][1..]);
  }

  /** Past the last record of a segment that has been ended comes the mark, and then the next segment. */
  lemma HeadMark(files: map<int, Bytes>, startId: int, startOffset: nat, endId: int, endOffset: nat,
                 segs: seq<seq<Data>>)
    requires Laid(files, startId, startOffset, endId, endOffset, segs) && segs[0] == [] && startId < endId
    ensures startId in files && Has(files[startId], startOffset, SEGMENT_END)
    ensures Laid(files, startId + 1, 0, endId, endOffset, segs[1..])
    ensures startId + 1 < endId ==> segs[1] != []
  {
    assert Look(0);
    assert EndedAt(files, startId, From(0, startOffset), segs[0]);
    EndedMark(files[startId], startOffset);
    var later := segs[1..];
    forall i {:trigger later[i]} | 0 <= i < |later| - 1
      ensures EndedAt(files, startId + 1 + i, From(i, 0), later[i])
    {
      var next := i + 1;
      assert later[i] == segs[next];
      assert EndedAt(files, startId + next, From(next, startOffset), segs[next]);
    }
    assert later[endId - (startId + 1)] == segs[endId - startId];
  }

  /** What a reader takes that stands at `pos` of segment `id`: past the ends of segments, up to the
      tail's, the bytes that a length field announces. */
  function HeadRead(files: map<int, Bytes>, id: int, pos: nat, endId: int): Option<Bytes>
    decreases endId - id
  {
    if id !in files || pos + 4 > |files[id]| then None
    else
      var len := Int32At(files[id][pos..pos + 4]);
      if len < 0 then (if id < endId then HeadRead(files, id + 1, 0, endId) else None)
      else if 0 < len && pos + 4 + len <= |files[id]| then Some(files[id][pos + 4..pos + 4 + len])
      else None
  }

  lemma HeadReadFresh(files: map<int, Bytes>, endId: int)
    requires endId in files && (|files[endId]| >= 4 ==> 0 <= Int32At(files[endId]))
    ensures HeadRead(files, endId, 0, endId)
            == if WholeRecord(files[endId]) then Some(RecordAt(files[endId])) else None
  {
    var f := files[endId];
    if |f| >= 4 {
      assert Int32At(f[0..4]) == Int32At(f);
    }
  }

  lemma ReadsFirst(files: map<int, Bytes>, startId: int, startOffset: nat, endId: int, endOffset: nat,
                   segs: seq<seq<Data>>)
    requires Laid(files, startId, startOffset, endId, endOffset, segs) && segs[0] != []
    ensures var r := HeadRead(files, startId, startOffset, endId); r.Some? && r.value == segs[0][0]
  {
    HeadRecord(files, startId, startOffset, endId, endOffset, segs);
    RecordReads(files[startId], startOffset, segs[0][0]);
  }

  lemma ReadsPastMark(files: map<int, Bytes>, startId: int, startOffset: nat, endId: int, endOffset: nat,
                      segs: seq<seq<Data>>)
    requires Laid(files, startId, startOffset, endId, endOffset, segs) && segs[0] == [] && startId < endId
    ensures HeadRead(files, startId, startOffset, endId) == HeadRead(files, startId + 1, 0, endId)
  {
    HeadMark(files, startId, startOffset, endId, endOffset, segs);
    MarkReads(files[startId], startOffset);
  }

  /** Two pushes that fail at the start of a fresh segment, of a two-byte record after five bytes and of
      a one-byte record after four, leave a whole record there. Before them a one-byte record filled the
      first segment, which was ended with its mark and flag, and the reader has taken that record: nothing
      is queued. Its next read takes a record that was never pushed. */
  lemma PhantomHappens()
    ensures var first := WriteAt(WriteAt(WriteAt([], 0, Record([5])), 5, SEGMENT_END), 9, SEGMENT_END_FLAG);
            var second := WriteAt(WriteAt([], 0, Record([7, 7])[..5]), 0, Record([9])[..4]);
            var files := map[0 := first, 1 := second];
            && Laid(files, 0, 5, 1, 0, [[], []]) && Flatten([[], []]) == [] && Fresh(second, 2)
            && HeadRead(files, 0, 5, 1) == Some([7])
  {
    var first := WriteAt(WriteAt(WriteAt([], 0, Record([5])), 5, SEGMENT_END), 9, SEGMENT_END_FLAG);
    var second := WriteAt(WriteAt([], 0, Record([7, 7])[..5]), 0, Record([9])[..4]);
    var files := map[0 := first, 1 := second];
    EndedFirst();
    TornSecond();
    assert EndedAt(files, 0, 5, []);
    assert Open(second, 0, [], 0);
    HeadReadFresh(files, 1);
    ReadsPastMark(files, 0, 5, 1, 0, [[], []]);
  }

  lemma EndedFirst()
    ensures Ended(WriteAt(WriteAt(WriteAt([], 0, Record([5])), 5, SEGMENT_END), 9, SEGMENT_END_FLAG), 5, [])
  {
    var first := WriteAt(WriteAt(WriteAt([], 0, Record([5])), 5, SEGMENT_END), 9, SEGMENT_END_FLAG);
    assert first == Record([5]) + SEGMENT_END + SEGMENT_END_FLAG;
    assert Enc([]) + SEGMENT_END == SEGMENT_END;
    assert Has(first, 5, SEGMENT_END);
  }

  lemma TornSecond()
    ensures var second := WriteAt(WriteAt([], 0, Record([7, 7])[..5]), 0, Record([9])[..4]);
            Fresh(second, 2) && WholeRecord(second) && RecordAt(second) == [7] && 0 <= Int32At(second)
  {
    var two, one: Data := [7, 7], [9];
    var torn := WriteAt([], 0, Record(two)[..5]);
    assert torn == Record(two)[..5];
    var second := WriteAt(torn, 0, Record(one)[..4]);
    FreshEmpty();
    FreshTorn([], 0, two, 5);
    FreshTorn(torn, 1, one, 4);
    TwoTornWrites(two, 5, one, 4);
    assert second[..4] == Int32Bytes(1) && Int32At(second) == Int32At(second[..4]);
    assert second[4] == torn[4] == 7;
  }

  class DiskQueue {
    const maxFileSize: nat
    /** Whether a write may be cut short. */
    const mayCut: bool
    var files: map<int, Bytes>
    var startId: int
    var startOffset: nat
    var endId: int
    var endOffset: nat
    /** Where the two file handles stand. */
    var headPos: nat
    var tailPos: nat
    var headNoNeedSeek: bool
    var tailNoNeedSeek: bool
    ghost var segs: seq<seq<Data>>
    /** How many records were cut short since the tail's segment was begun. */
    ghost var torn: nat
    /** How many writes were cut short. */
    ghost var cut: nat

    ghost predicate Valid()
      reads this
    {
      && maxFileSize > 0
      && Laid(files, startId, startOffset, endId, endOffset, segs)
      && (headNoNeedSeek ==> headPos == startOffset)
      && (tailNoNeedSeek && endOffset < maxFileSize ==> tailPos == endOffset)
      && (endOffset == 0 ==> Fresh(files[endId], torn))
    }

    /** The records in the queue. */
    ghost function Contents(): seq<Data>
      reads this
    {
      Flatten(segs)
    }

    /** Nothing is queued, the head has not yet noticed that its segment has ended, and what torn
        writes left in the next one reads as a record. */
    ghost predicate Phantom()
      reads this
    {
      startId + 1 == endId && Contents() == [] && endId in files && WholeRecord(files[endId])
    }

    constructor (size: nat, mayCut: bool)
      ensures Valid() && Contents() == [] && torn == cut == 0
      ensures this.mayCut == mayCut && maxFileSize == if size != 0 then size else 0x1000_0000
    {
      this.mayCut, cut := mayCut, 0;
      maxFileSize := if size != 0 then size else 0x1000_0000;
      files, startId, startOffset, endId, endOffset := map[0 := []], 0, 0, 0, 0;
      headPos, tailPos, headNoNeedSeek, tailNoNeedSeek := 0, 0, true, true;
      segs, torn := [[]], 0;
    }

    /** Whether head and tail stand at the same place. */
    method IsEmpty() returns (empty: bool)
      requires Valid()
      ensures empty <==> startId == endId && startOffset == endOffset
      ensures empty ==> Contents() == []
      ensures Contents() == [] ==> empty || startId + 1 == endId
    {
      empty := startId == endId && startOffset == endOffset;
      EmptyMeans();
    }

    /** There is no phantom unless two records were cut short since the last segment was begun. */
    lemma PhantomTakesTwo()
      requires Valid() && Phantom()
      ensures torn >= 2
    {
      EmptyMeans();
      FreshTells(files[endId], torn);
    }

    lemma EmptyMeans()
      requires Valid()
      ensures startId == endId && startOffset == endOffset ==> Contents() == []
      ensures Contents() == [] ==> startId + 1 >= endId && segs[0] == []
      ensures Contents() == [] && startId == endId ==> startOffset == endOffset
      ensures Contents() == [] && startId + 1 == endId ==> endOffset == 0 && segs[1] == []
    {
      assert Look(0);
      OpenLength(files[endId], From(endId - startId, startOffset), segs[endId - startId], endOffset);
      if startId == endId {
        assert Flatten(segs) == segs[0] + Flatten(segs[1..]) == segs[0];
      } else {
        assert Flatten(segs) == segs[0] + (segs[1] + Flatten(segs[1..][1..]));
      }
    }

    /** A write of which only a part may reach the file. */
    method Write(d: Bytes) returns (n: nat)
      requires endId in files && tailPos <= |files[endId]|
      modifies this`files, this`tailPos, this`cut
      ensures n <= |d| && tailPos == old(tailPos) + n
      ensures if n == |d| then cut == old(cut) else mayCut && cut > old(cut)
      ensures files == old(files)[endId := WriteAt(old(files)[endId], old(tailPos), d[..n])]
    {
      n := |d|;
      if mayCut {
        n :| 0 <= n <= |d|;
      }
      if n < |d| {
        cut := cut + 1;
      }
      files := files[endId := WriteAt(files[endId], tailPos, d[..n])];
      tailPos := tailPos + n;
    }

    method WriteMark() returns (ok: bool)
      requires Valid() && endOffset >= maxFileSize
      modifies this`files, this`tailPos, this`cut
      ensures if ok then cut == old(cut) else mayCut && cut > old(cut)
      ensures Valid() && (ok ==> tailPos == endOffset + 4 && Marked(files, startId, startOffset, endId, segs))
    {
      tailPos := endOffset;
      var n := Write(SEGMENT_END);
      ok := n == 4;
      if ok {
        assert SEGMENT_END[..4] == SEGMENT_END;
        MarkEnds(old(files), startId, startOffset, endId, endOffset, segs);
      } else {
        GarbageKeeps(old(files), startId, startOffset, endId, endOffset, segs, SEGMENT_END[..n]);
      }
    }

    method WriteFlag(flag: Bytes) returns (ok: bool)
      requires Valid() && endOffset >= maxFileSize
      requires tailPos == endOffset + 4 && Marked(files, startId, startOffset, endId, segs)
      modifies this`files, this`tailPos, this`cut
      ensures if ok then cut == old(cut) else mayCut && cut > old(cut)
      ensures Valid() && Marked(files, startId, startOffset, endId, segs)
    {
      MarkFits(files, startId, startOffset, endId, endOffset, segs);
      var n := Write(flag);
      ok := n == |flag|;
      FlagKeeps(old(files), startId, startOffset, endId, endOffset, segs, flag[..n]);
    }

    /** The mark at the end of the segment; false when it did not get written whole. */
    method EndSegment() returns (ok: bool)
      requires Valid() && endOffset >= maxFileSize
      modifies this`files, this`tailPos, this`cut
      ensures if ok then cut == old(cut) else mayCut && cut > old(cut)
      ensures Valid() && (ok ==> Marked(files, startId, startOffset, endId, segs))
    {
      ok := WriteMark();
      if ok {
        ok := WriteFlag(SEGMENT_END_FLAG);
      }
    }

    /** The tail moves on to a new, empty segment. */
    method NextTailSegment()
      requires Valid() && endOffset > 0 && Marked(files, startId, startOffset, endId, segs)
      modifies this`files, this`endId, this`endOffset, this`tailPos, this`torn, this`segs
      ensures Valid() && Contents() == old(Contents())
      ensures endId == old(endId) + 1 && endOffset == tailPos == torn == 0
    {
      FreshEmpty();
      FlattenPushSegment(segs, []);
      SegmentFollows(files, startId, startOffset, endId, endOffset, segs);
      endId, endOffset, tailPos, torn := endId + 1, 0, 0, 0;
      files := files[endId := []];
      segs := segs + [[]];
    }

    /** The tail stands where a record can be written; false when the segment could not be ended. */
    method MakeRoom() returns (ok: bool)
      requires Valid()
      modifies this`files, this`tailPos, this`endId, this`endOffset, this`tailNoNeedSeek, this`segs, this`torn, this`cut
      ensures if ok then cut == old(cut) else mayCut && cut > old(cut)
      ensures endId == old(endId) + if ok && old(endOffset) >= maxFileSize then 1 else 0
      ensures Valid() && Contents() == old(Contents())
      ensures torn == if endId == old(endId) then old(torn) else 0
      ensures ok ==> endOffset < maxFileSize
    {
      ok := true;
      if endOffset >= maxFileSize {
        ok := EndSegment();
        if ok {
          NextTailSegment();
          tailNoNeedSeek := true;
        }
      }
    }

    /** The write itself, at the tail. */
    method Append(d: Data) returns (ok: bool)
      requires Valid() && endOffset < maxFileSize
      modifies this`files, this`tailPos, this`tailNoNeedSeek, this`torn, this`cut
      ensures if ok then cut == old(cut) else mayCut && cut > old(cut)
      ensures torn == if ok then old(torn) else old(torn) + 1
      ensures ok ==> tailNoNeedSeek && tailPos == endOffset + 4 + |d|
      ensures if ok then Laid(files, startId, startOffset, endId, endOffset + 4 + |d|,
                              segs[endId - startId := segs[endId - startId] + [d]])
              else Valid()
    {
      if !tailNoNeedSeek {
        tailPos := endOffset;
        tailNoNeedSeek := true;
      }
      var rec := Record(d);
      var n := Write(rec);
      ok := n == 4 + |d|;
      if ok {
        assert rec[..n] == rec;
        RecordExtends(old(files), startId, startOffset, endId, endOffset, segs, d);
      } else {
        tailNoNeedSeek, torn := false, torn + 1;
        GarbageKeeps(old(files), startId, startOffset, endId, endOffset, segs, rec[..n]);
        if endOffset == 0 {
          FreshTorn(old(files)[endId], torn - 1, d, n);
        }
      }
    }

    /** A record is appended whole, or the records are left as they were and one more may be torn; it fails
        exactly if a write is cut short. A segment that has reached its size is ended first. */
    method WriteRecord(d: Data) returns (ok: bool)
      requires Valid()
      modifies this`files, this`tailPos, this`endId, this`endOffset, this`tailNoNeedSeek, this`segs, this`torn, this`cut
      ensures if ok then cut == old(cut) else mayCut && cut > old(cut)
      ensures ok ==> endId == old(endId) + if old(endOffset) >= maxFileSize then 1 else 0
      ensures torn <= (if endId == old(endId) then old(torn) else 0) + (if ok then 0 else 1)
      ensures Valid() && Contents() == if ok then old(Contents()) + [d] else old(Contents())
    {
      ok := MakeRoom();
      if !ok {
        return;
      }
      ok := Append(d);
      if ok {
        FlattenPush(segs, d);
        segs := segs[endId - startId := segs[endId - startId] + [d]];
        endOffset := endOffset + 4 + |d|;
      }
    }

    /** Bytes at the head; a read of nothing, or past the end of the file, fails. */
    method Read(n: int) returns (ok: bool, d: Bytes)
      requires startId in files
      modifies this`headPos
      ensures ok <==> 0 < n && old(headPos) + n <= |files[startId]|
      ensures ok ==> headPos == old(headPos) + n && d == files[startId][old(headPos)..old(headPos) + n]
    {
      var f := files[startId];
      ok, d := 0 < n && headPos + n <= |f|, [];
      if ok {
        d := f[headPos..headPos + n];
        headPos := headPos + n;
      } else if headPos < |f| {
        headPos := |f|;
      }
    }

    /** What a reader finds at the head: the next record, the mark, or what lies at the start of a
        segment without records. */
    lemma AtHead()
      requires Valid() && !(startId == endId && startOffset == endOffset && startOffset > 0)
      ensures startId in files
      ensures segs[0] != [] || startId < endId ==> startOffset + 4 <= |files[startId]|
      ensures segs[0] != [] ==> Int32At(files[startId][startOffset..startOffset + 4]) == |segs[0][0]|
      ensures segs[0] == [] && startId < endId ==> Int32At(files[startId][startOffset..startOffset + 4]) == -15
      ensures segs[0] == [] && startId == endId ==>
                startOffset == endOffset == 0 && (|files[startId]| >= 4 ==> 0 <= Int32At(files[startId]))
    {
      EmptyMeans();
      if segs[0] != [] {
        HeadRecord(files, startId, startOffset, endId, endOffset, segs);
        RecordReads(files[startId], startOffset, segs[0][0]);
      } else if startId < endId {
        HeadMark(files, startId, startOffset, endId, endOffset, segs);
        MarkReads(files[startId], startOffset);
      } else {
        assert Flatten(segs) == segs[0] + Flatten(segs[1..]);
        FreshTells(files[endId], torn);
      }
    }

    /** The head moves on to the next segment. */
    method NextHeadSegment()
      requires Valid() && segs[0] == [] && startId < endId
      modifies this`startId, this`startOffset, this`headPos, this`segs
      ensures Valid() && Contents() == old(Contents()) && startId == old(startId) + 1 && startOffset == headPos == 0
      ensures segs == old(segs)[1..]
    {
      HeadMark(files, startId, startOffset, endId, endOffset, segs);
      startId, startOffset, headPos := startId + 1, 0, 0;
      segs := segs[1..];
    }

    /** The length of the next record, past the ends of segments. */
    method ReadLength() returns (ok: bool, dataLen: int)
      requires Valid() && !(startId == endId && startOffset == endOffset)
      requires headPos == startOffset && !headNoNeedSeek
      modifies this`startId, this`startOffset, this`headPos, this`segs
      ensures Valid() && Contents() == old(Contents())
      ensures startId in files && (ok ==> dataLen >= 0 && headPos == startOffset + 4)
      ensures segs[0] != [] ==> ok && dataLen == |segs[0][0]|
      ensures segs[0] == [] ==> startId == endId && startOffset == endOffset == 0
      ensures segs[0] == [] ==> (ok <==> |files[startId]| >= 4) && (ok ==> dataLen == Int32At(files[startId]))
    {
      dataLen := -1;
      while dataLen < 0
        invariant Valid() && Contents() == old(Contents())
        invariant !(startId == endId && startOffset == endOffset && startOffset > 0)
        invariant headPos == if dataLen < 0 then startOffset else startOffset + 4
        invariant dataLen >= 0 && segs[0] != [] ==> dataLen == |segs[0][0]|
        invariant dataLen >= 0 && segs[0] == [] ==> startId == endId && startOffset == endOffset == 0
        invariant dataLen >= 0 && segs[0] == [] ==> |files[startId]| >= 4 && dataLen == Int32At(files[startId])
        invariant dataLen >= 0 ==> startId in files
        decreases endId - startId, if dataLen < 0 then 1 else 0
      {
        AtHead();
        var b;
        ok, b := Read(4);
        if !ok {
          return;
        }
        dataLen := Int32At(b);
        if dataLen < 0 {
          NextHeadSegment();
        }
      }
      ok := true;
    }

    /** The next record's bytes, and the queue without it. */
    lemma AfterHead()
      requires Valid() && segs[0] != []
      ensures startId in files
      ensures var d, o := segs[0][0], startOffset + 4;
              o + |d| <= |files[startId]| && files[startId][o..o + |d|] == d
              && Laid(files, startId, o + |d|, endId, endOffset, segs[0 := segs[0][1..]])
              && [d] + Flatten(segs[0 := segs[0][1..]]) == Contents()
    {
      HeadRecord(files, startId, startOffset, endId, endOffset, segs);
      HeadRest(files, startId, startOffset, endId, endOffset, segs);
      RecordReads(files[startId], startOffset, segs[0][0]);
      FlattenPop(segs);
    }

    /** The bytes of the record whose length has been read. */
    method ReadData(dataLen: int) returns (ok: bool, d: Bytes)
      requires Valid() && startId in files && headPos == startOffset + 4 && !headNoNeedSeek
      requires segs[0] != [] ==> dataLen == |segs[0][0]|
      requires segs[0] == [] ==> dataLen >= 0
      modifies this`startOffset, this`headPos, this`headNoNeedSeek, this`segs
      ensures old(segs[0]) != [] ==> ok && Valid() && [d] + Contents() == old(Contents())
      ensures old(segs[0]) == [] ==> (ok <==> 0 < dataLen && old(headPos) + dataLen <= |files[startId]|)
      ensures old(segs[0]) == [] && ok ==> d == files[startId][old(headPos)..old(headPos) + dataLen]
      ensures old(segs[0]) == [] && !ok ==> Valid() && segs == old(segs)
    {
      if segs[0] != [] {
        AfterHead();
      }
      ok, d := Read(dataLen);
      if !ok {
        return;
      }
      startOffset := startOffset + 4 + dataLen;
      headNoNeedSeek := true;
      if segs[0] != [] {
        segs := segs[0 := segs[0][1..]];
      }
    }

    lemma NothingLeft()
      requires Valid()
      ensures startId == endId ==> (segs[0] == [] <==> Contents() == [])
      ensures segs[0] != [] ==> Contents() != []
    {
      assert Flatten(segs) == segs[0] + Flatten(segs[1..]);
    }

    /** What the next read takes: the oldest record, or the phantom. */
    lemma NextRead()
      requires Valid() && !(startId == endId && startOffset == endOffset)
      ensures Contents() != [] ==>
                var r := HeadRead(files, startId, startOffset, endId); r.Some? && r.value == Contents()[0]
      ensures Contents() == [] ==> HeadRead(files, startId, startOffset, endId)
                                   == if Phantom() then Some(RecordAt(files[endId])) else None
    {
      EmptyMeans();
      assert Flatten(segs) == segs[0] + Flatten(segs[1..]);
      if segs[0] != [] {
        ReadsFirst(files, startId, startOffset, endId, endOffset, segs);
      } else {
        NextReadPast();
      }
    }

    lemma NextReadPast()
      requires Valid() && !(startId == endId && startOffset == endOffset) && segs[0] == []
      ensures Contents() != [] ==>
                var r := HeadRead(files, startId, startOffset, endId); r.Some? && r.value == Contents()[0]
      ensures Contents() == [] ==> HeadRead(files, startId, startOffset, endId)
                                   == if Phantom() then Some(RecordAt(files[endId])) else None
    {
      EmptyMeans();
      assert Flatten(segs) == segs[0] + Flatten(segs[1..]);
      ReadsPastMark(files, startId, startOffset, endId, endOffset, segs);
      HeadMark(files, startId, startOffset, endId, endOffset, segs);
      var later := segs[1..];
      assert Flatten(later) == later[0] + Flatten(later[1..]);
      if later[0] != [] {
        ReadsFirst(files, startId + 1, 0, endId, endOffset, later);
      } else {
        FreshTells(files[endId], torn);
        HeadReadFresh(files, endId);
      }
    }

    /** Takes the oldest record out. With nothing queued it fails, unless torn writes left a phantom:
        then, and only then, it hands out a record that was never written. */
    method ReadRecord() returns (ok: bool, d: Bytes)
      requires Valid() && !(startId == endId && startOffset == endOffset)
      modifies this`startId, this`startOffset, this`headPos, this`headNoNeedSeek, this`segs
      ensures old(Contents()) != [] ==> ok && Valid() && [d] + Contents() == old(Contents())
      ensures old(Contents()) == [] ==> (ok <==> old(Phantom()))
      ensures (if ok then Some(d) else None) == old(HeadRead(files, startId, startOffset, endId))
      ensures old(Contents()) == [] && ok ==> d == RecordAt(old(files)[endId])
      ensures old(Contents()) == [] && !ok ==> Valid() && Contents() == [] && startId == endId
    {
      if !headNoNeedSeek {
        headPos := startOffset;
      }
      headNoNeedSeek := false;
      EmptyMeans();
      NextRead();
      var dataLen;
      ok, dataLen := ReadLength();
      NothingLeft();
      if !ok {
        return false, [];
      }
      ok, d := ReadData(dataLen);
    }
  }
}
