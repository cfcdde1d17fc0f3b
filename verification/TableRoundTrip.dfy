/** From entries to a file and back: what a flush or a merge writes is what readers answer. */
module TableRoundTrip {
  import opened ByteStrings
  import opened Records
  import opened Merge
  import opened MergeReach
  import opened TableFormat
  import opened TableLayout
  import opened TableReader
  import opened TableWriter
  import opened ReadPath
  import Bloom
  import Compaction

  /** A written table opens to one that holds its entries behind a filter without false negatives. */
  lemma WrittenTableHolds(blocks: Blocks, f: Bloom.Filter, fnv: Bytes -> uint64)
    requires |Data(blocks)| < TWO_63 && TableSize(blocks, f) < TWO_63
    requires NonEmptyBlocks(blocks) && AllFit(Entries(blocks)) && Sorted(Entries(blocks))
    requires Bloom.AsNew(f) && f.m < TWO_32 && forall e :: e in Entries(blocks) ==> Bloom.Passes(f, fnv(e.key))
    ensures var r := OpenReader(TableFile(blocks, f));
      r.Ok? && Holds(r.table, blocks) && FilterCovers(r.table, fnv, Entries(blocks))
  {
    hide Data, IndexFor, Entries, OpenReader, EncodeIndex, EncodeFooter, Bloom.Encode, Bloom.Passes;
    OpensAsWritten(blocks, f);
    var ix, bl := EncodeIndex(IndexFor(blocks)), Bloom.Encode(f);
    Regions(Data(blocks), ix, bl, EncodeFooter(Footer(|Data(blocks)|, |ix|, |Data(blocks)| + |ix|, |bl|, VERSION,
      MAGIC)));
  }

  /** The writing half of `flushImmutable`: any sorted listing becomes a table that answers as the listing does. */
  method WriteAndOpen(es: seq<Record>, blockSize: int, fnv: Bytes -> uint64, k: nat, m: nat)
    returns (r: Opened, ghost blocks: Blocks)
    requires Sorted(es) && AllFit(es) && blockSize > 0 && 1 <= k <= 30 && 0 < m < TWO_32 && m % 8 == 0
    requires 4 * |EncodeBlock(es)| + m < TWO_63 - 64
    ensures r.Ok? && Holds(r.table, blocks) && FilterCovers(r.table, fnv, Entries(blocks)) && Entries(blocks) == es
  {
    hide Data, IndexFor, Entries, OpenReader, EncodeBlock, TableFile, TableSize, Bloom.Passes, Bloom.AsNew;
    SortedIsAccepted(es);
    var res, written, f := WriteTable(es, blockSize, fnv, k, m);
    blocks := written;
    WrittenTableHolds(blocks, f, fnv);
    r := OpenReader(res.bytes);
  }

  ghost predicate AllTablesFit(tables: Rests) {
    forall i :: 0 <= i < |tables| ==> AllFit(tables[i])
  }

  lemma MergedFits(tables: Rests)
    requires AllSorted(tables) && AllTablesFit(tables)
    ensures AllFit(Compaction.MergedTable(tables))
  {
    hide Merged, IsBest, LastEmpty, Late;
    var out, pris := Compaction.MergedTable(tables), Compaction.ReaderPriorities(|tables|);
    Compaction.ReaderPrioritiesRanked(|tables|);
    forall j | 0 <= j < |out| ensures Fits(out[j]) {
      MergedIsBest(tables, pris, out[j]);
      BestComesFromSource(Reach(tables), pris, out[j]);
      var i :| 0 <= i < |tables| && out[j] in Reach(tables)[i];
      assert out[j] in tables[i];
    }
  }

  /** `mergeSSTables`: the merged file answers every key as a newest-first search over what is reached of its inputs. */
  method MergeSSTables(tables: Rests, blockSize: int, fnv: Bytes -> uint64, k: nat, m: nat)
    returns (r: Opened, ghost blocks: Blocks)
    requires AllSorted(tables) && AllTablesFit(tables) && blockSize > 0 && 1 <= k <= 30 && 0 < m < TWO_32 && m % 8 == 0
    requires 4 * |EncodeBlock(Compaction.MergedTable(tables))| + m < TWO_63 - 64
    ensures r.Ok? && Holds(r.table, blocks) && FilterCovers(r.table, fnv, Entries(blocks))
    ensures forall key :: Find(Entries(blocks), key) == FirstHit(Reverse(Reach(tables)), key)
    ensures WellFormed(tables) ==> Reach(tables) == tables
  {
    hide Data, IndexFor, Entries, OpenReader, EncodeBlock, Merged, Find, FirstHit, Reach;
    var out := Compaction.MergeReaders(tables);
    Compaction.MergedTableAnswers(tables, []);
    MergedFits(tables);
    r, blocks := WriteAndOpen(out, blockSize, fnv, k, m);
    forall key ensures Find(Entries(blocks), key) == FirstHit(Reverse(Reach(tables)), key) {
      Compaction.MergedTableAnswers(tables, key);
    }
    if WellFormed(tables) { ReachAll(tables); }
  }
}
