/**
 Properties of whole runs of `process_images`: the order in which files are
 picked up, the contiguous id block, skipped failures, and that ids are never
 handed out twice, within a run or across runs.
 */
module Runs {
  import opened Wrappers
  import ImageIds
  import Manifest
  import Batch

  /** Selection keeps listing order: it distributes over concatenation. */
  lemma SelectImagesAppend(a: seq<Batch.Listed>, b: seq<Batch.Listed>)
    ensures Batch.SelectImages(a + b) == Batch.SelectImages(a) + Batch.SelectImages(b)
  {
    Batch.FilterAppend(a, b, Batch.Selected);
  }

  lemma {:induction false} SuccessesAppend(cfg: Batch.Config, a: seq<Batch.Listed>, b: seq<Batch.Listed>)
    requires Batch.ValidConfig(cfg)
    ensures Batch.Successes(cfg, a + b) == Batch.Successes(cfg, a) + Batch.Successes(cfg, b)
    decreases |a|
  {
    if |a| > 0 {
      assert (a + b)[1..] == a[1..] + b;
      SuccessesAppend(cfg, a[1..], b);
    } else {
      assert a + b == b;
    }
  }

  /** A converting file has fewer converting files before it than the whole list has. */
  lemma SuccessesBefore(cfg: Batch.Config, files: seq<Batch.Listed>, i: nat)
    requires Batch.ValidConfig(cfg)
    requires i < |files| && Batch.Succeeds(cfg, files[i])
    ensures Batch.Successes(cfg, files[..i]) < Batch.Successes(cfg, files)
  {
    var rest := files[i..];
    assert files == files[..i] + rest;
    SuccessesAppend(cfg, files[..i], rest);
    assert rest[0] == files[i];
  }

  /** The `k`-th entry a loop from an empty `added` list produces is the entry for `start + k`. */
  lemma LoopEntry(cfg: Batch.Config, start: nat, backgrounds: seq<Manifest.Entry>, files: seq<Batch.Listed>, k: nat)
    requires Batch.ValidConfig(cfg)
    requires k < Batch.Successes(cfg, files)
    ensures var q := Batch.Loop(cfg, Batch.Progress(start, [], backgrounds), files);
      k < |q.added| && q.added[k] == Manifest.NewEntry(cfg.baseUrl, start + k)
  {
    var n := Batch.Successes(cfg, files);
    assert [] + Manifest.Block(cfg.baseUrl, start, n) == Manifest.Block(cfg.baseUrl, start, n);
    Manifest.BlockAt(cfg.baseUrl, start, n, k);
  }

  /**
   The file at position `i` that converts is processed with the id
   `start + k`, where `k` is the number of files before it that converted:
   after the files before it the counter stands at `start + k`, and its own
   step appends exactly the entry for `start + k`. That entry is the `k`-th
   new entry of the whole loop.
   */
  lemma KthSuccessGetsStartPlusK(cfg: Batch.Config, start: nat, backgrounds: seq<Manifest.Entry>, files: seq<Batch.Listed>, i: nat)
    requires Batch.ValidConfig(cfg)
    requires i < |files| && Batch.Succeeds(cfg, files[i])
    ensures var p := Batch.Progress(start, [], backgrounds);
      var before := Batch.Loop(cfg, p, files[..i]);
      var k := Batch.Successes(cfg, files[..i]);
      && before.currentId == start + k
      && Batch.Loop(cfg, p, files[..i + 1]).currentId == start + k + 1
      && Batch.Loop(cfg, p, files[..i + 1]).added == before.added + [Manifest.NewEntry(cfg.baseUrl, start + k)]
      && k < |Batch.Loop(cfg, p, files).added|
      && Batch.Loop(cfg, p, files).added[k] == Manifest.NewEntry(cfg.baseUrl, start + k)
  {
    var p := Batch.Progress(start, [], backgrounds);
    assert files[..i + 1] == files[..i] + [files[i]];
    Batch.LoopSnoc(cfg, p, files[..i], files[i]);
    SuccessesBefore(cfg, files, i);
    LoopEntry(cfg, start, backgrounds, files, Batch.Successes(cfg, files[..i]));
  }

  /** A file that fails leaves no trace in the loop: it runs as if the file had not been listed. */
  lemma FailureIsSkipped(cfg: Batch.Config, p: Batch.Progress, a: seq<Batch.Listed>, f: Batch.Listed, b: seq<Batch.Listed>)
    requires Batch.ValidConfig(cfg)
    requires !Batch.Succeeds(cfg, f)
    ensures Batch.Loop(cfg, p, a + [f] + b) == Batch.Loop(cfg, p, a + b)
  {
    SuccessesAppend(cfg, a + [f], b);
    SuccessesAppend(cfg, a, [f]);
    SuccessesAppend(cfg, a, b);
    assert Batch.Successes(cfg, [f]) == 0;
  }

  /**
   In a whole run, a file that fails leaves the report unchanged as long as
   some other listed file is selected. With no other selected file the run
   would instead stop early with `NoImages`.
   */
  lemma FailureIsSkippedInRun(
    cfg: Batch.Config, a: seq<Batch.Listed>, f: Batch.Listed, b: seq<Batch.Listed>,
    fullDirNames: seq<string>, backgrounds: seq<Manifest.Entry>)
    requires Batch.ValidConfig(cfg)
    requires !Batch.Succeeds(cfg, f)
    requires Batch.SelectImages(a + b) != []
    ensures Batch.ProcessImages(cfg, Some(a + [f] + b), fullDirNames, backgrounds)
         == Batch.ProcessImages(cfg, Some(a + b), fullDirNames, backgrounds)
  {
    var sa, sb := Batch.SelectImages(a), Batch.SelectImages(b);
    SelectImagesAppend(a + [f], b);
    SelectImagesAppend(a, [f]);
    SelectImagesAppend(a, b);
    var p := Batch.Progress(ImageIds.NextId(fullDirNames, Manifest.Ids(backgrounds)), [], backgrounds);
    if Batch.Selected(f) {
      assert Batch.SelectImages([f]) == [f];
      FailureIsSkipped(cfg, p, sa, f, sb);
      SameLoopSameRun(cfg, a + [f] + b, a + b, fullDirNames, backgrounds);
    } else {
      assert Batch.SelectImages([f]) == [];
      assert sa + [] + sb == sa + sb;
    }
  }

  /** Two listings whose selections are non-empty and loop alike give the same report. */
  lemma SameLoopSameRun(
    cfg: Batch.Config, l1: seq<Batch.Listed>, l2: seq<Batch.Listed>, fullDirNames: seq<string>, backgrounds: seq<Manifest.Entry>)
    requires Batch.ValidConfig(cfg)
    requires Batch.SelectImages(l1) != [] && Batch.SelectImages(l2) != []
    requires var p := Batch.Progress(ImageIds.NextId(fullDirNames, Manifest.Ids(backgrounds)), [], backgrounds);
      Batch.Loop(cfg, p, Batch.SelectImages(l1)) == Batch.Loop(cfg, p, Batch.SelectImages(l2))
    ensures Batch.ProcessImages(cfg, Some(l1), fullDirNames, backgrounds)
         == Batch.ProcessImages(cfg, Some(l2), fullDirNames, backgrounds)
  {
  }

  /** No new entry reuses the id of an entry already in the manifest. */
  lemma NewIdsAreFresh(
    cfg: Batch.Config, listing: seq<Batch.Listed>, fullDirNames: seq<string>, backgrounds: seq<Manifest.Entry>,
    r: Batch.Report, j: nat, k: nat)
    requires Batch.ValidConfig(cfg)
    requires r == Batch.ProcessImages(cfg, Some(listing), fullDirNames, backgrounds) && r.Processed?
    requires j < |backgrounds| && k < |r.added|
    ensures backgrounds[j].id != r.added[k].id
  {
    Manifest.BlockAt(cfg.baseUrl, r.startId, |r.added|, k);
    IdAtOrAboveNextIsFresh(cfg.baseUrl, fullDirNames, backgrounds, j, r.startId + k);
  }

  /** An entry numbered at or above the next id differs in id from every entry of the manifest. */
  lemma IdAtOrAboveNextIsFresh(baseUrl: string, fullDirNames: seq<string>, backgrounds: seq<Manifest.Entry>, j: nat, n: nat)
    requires j < |backgrounds|
    requires n >= ImageIds.NextId(fullDirNames, Manifest.Ids(backgrounds))
    ensures backgrounds[j].id != Manifest.NewEntry(baseUrl, n).id
  {
    var ids := Manifest.Ids(backgrounds);
    assert ids[j] in ids;
    ImageIds.ManifestIdBelowNext(fullDirNames, ids, ids[j]);
    Manifest.NewEntryReadsBack(baseUrl, n);
  }

  /** When the full-size files of a non-empty block remain, the next id is past the block. */
  lemma BlockFilesKeepIdsTaken(
    baseUrl: string, start: nat, added: seq<Manifest.Entry>, laterFullDirNames: seq<string>, laterManifestIds: seq<string>)
    requires |added| > 0 && added == Manifest.Block(baseUrl, start, |added|)
    requires forall e :: e in added ==> e.id + ImageIds.FullExtension in laterFullDirNames
    ensures ImageIds.NextId(laterFullDirNames, laterManifestIds) >= start + |added|
  {
    var n := start + |added| - 1;
    var e := added[|added| - 1];
    Manifest.BlockAt(baseUrl, start, |added|, |added| - 1);
    assert e in added;
    ImageIds.FileKeepsIdTaken(laterFullDirNames, laterManifestIds, n);
  }

  /** A manifest ending in a non-empty block makes the next id pass the block. */
  lemma SavedBlockKeepsIdsTaken(
    baseUrl: string, start: nat, backgrounds: seq<Manifest.Entry>, added: seq<Manifest.Entry>, laterFullDirNames: seq<string>)
    requires |added| > 0 && added == Manifest.Block(baseUrl, start, |added|)
    ensures ImageIds.NextId(laterFullDirNames, Manifest.Ids(backgrounds + added)) >= start + |added|
  {
    var saved := backgrounds + added;
    var n := start + |added| - 1;
    var e := added[|added| - 1];
    Manifest.BlockAt(baseUrl, start, |added|, |added| - 1);
    assert saved[|saved| - 1] == e;
    var ids := Manifest.Ids(saved);
    assert ids[|ids| - 1] == ImageIds.FormatId(n);
    assert ids[|ids| - 1] in ids;
    ImageIds.ManifestKeepsIdTaken(laterFullDirNames, ids, n);
  }

  /**
   Ids are not reused by the next run, even when the manifest lost the new
   entries: as long as each full-size file written remains in the directory,
   the next run starts past every id this run gave out.
   */
  lemma NextRunStartsPastThisRun(
    cfg: Batch.Config, listing: seq<Batch.Listed>, fullDirNames: seq<string>, backgrounds: seq<Manifest.Entry>,
    r: Batch.Report, laterFullDirNames: seq<string>, laterManifestIds: seq<string>)
    requires Batch.ValidConfig(cfg)
    requires r == Batch.ProcessImages(cfg, Some(listing), fullDirNames, backgrounds) && r.Processed?
    requires forall e :: e in r.added ==> e.id + ImageIds.FullExtension in laterFullDirNames
    ensures |r.added| > 0 ==> ImageIds.NextId(laterFullDirNames, laterManifestIds) >= r.startId + |r.added|
  {
    if |r.added| > 0 {
      BlockFilesKeepIdsTaken(cfg.baseUrl, r.startId, r.added, laterFullDirNames, laterManifestIds);
    }
  }

  /** Saving the manifest a run wrote is enough too: the next run starts past every id in it. */
  lemma NextRunAfterSave(
    cfg: Batch.Config, listing: seq<Batch.Listed>, fullDirNames: seq<string>, backgrounds: seq<Manifest.Entry>,
    r: Batch.Report, laterFullDirNames: seq<string>)
    requires Batch.ValidConfig(cfg)
    requires r == Batch.ProcessImages(cfg, Some(listing), fullDirNames, backgrounds) && r.Processed?
    requires r.saved.Some?
    ensures ImageIds.NextId(laterFullDirNames, Manifest.Ids(r.saved.value)) >= r.startId + |r.added|
  {
    SavedBlockKeepsIdsTaken(cfg.baseUrl, r.startId, backgrounds, r.added, laterFullDirNames);
  }

  /** With an empty store, numbering starts at 1: the `k`-th new entry (from 0) is `image-<k+1>`. */
  lemma EmptyStoreNumbersFromOne(cfg: Batch.Config, listing: seq<Batch.Listed>, r: Batch.Report, k: nat)
    requires Batch.ValidConfig(cfg)
    requires r == Batch.ProcessImages(cfg, Some(listing), [], []) && r.Processed?
    requires k < |r.added|
    ensures r.startId == 1
    ensures r.added[k].id == ImageIds.FormatId(k + 1)
  {
    assert Manifest.Ids([]) == [];
    ImageIds.NextIdOfEmptyStore();
    BlockIdAt(cfg.baseUrl, r.startId, r.added, k);
  }

  /** The `k`-th id of a block starting at `start` is `image-<start + k>`. */
  lemma BlockIdAt(baseUrl: string, start: nat, added: seq<Manifest.Entry>, k: nat)
    requires added == Manifest.Block(baseUrl, start, |added|)
    requires k < |added|
    ensures added[k].id == ImageIds.FormatId(start + k)
  {
    Manifest.BlockAt(baseUrl, start, |added|, k);
  }
}
