/** Batches applied to the skip list itself: the listing that the other modules speak of is its contents. */
module MemtableBatch {
  import opened ByteStrings
  import opened Records
  import opened Memtable
  import ReadPath
  import R = StoreRuns

  /** `applyRecordToMemtable`. */
  method ApplyRecord(sl: SkipList, r: Record)
    requires sl.Valid()
    modifies sl, sl.all
    ensures sl.Valid() && sl.contents == Upsert(old(sl.contents), ReadPath.Clean(r))
    ensures forall n :: n in sl.all ==> n in old(sl.all) || fresh(n)
  {
    hide Upsert, SkipList.Valid;
    if r.tombstone { sl.Delete(r.key); } else { sl.Put(r.key, r.value); }
  }

  /** The loop over a batch or over replayed records; the size that decides the next freeze is that of the listing. */
  method ApplyBatch(sl: SkipList, batch: seq<Record>)
    requires sl.Valid()
    modifies sl, sl.all
    ensures sl.Valid() && sl.contents == R.UpsertAll(old(sl.contents), batch)
    ensures sl.size == SizeOf(R.UpsertAll(old(sl.contents), batch))
  {
    hide Upsert;
    var i := 0;
    while i < |batch|
      invariant 0 <= i <= |batch| && sl.Valid()
      invariant R.UpsertAll(sl.contents, batch[i..]) == R.UpsertAll(old(sl.contents), batch)
      invariant forall n :: n in sl.all ==> n in old(sl.all) || fresh(n)
    {
      assert batch[i..][1..] == batch[i + 1..];
      assert forall j :: 0 <= j < |sl.all| ==> sl.all[j] in sl.all;
      ApplyRecord(sl, batch[i]);
      i := i + 1;
    }
  }
}
