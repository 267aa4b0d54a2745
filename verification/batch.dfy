/**
 The batch run of `process_images`: select the input files by extension,
 allocate the first id once, then fold over the files, giving each file that
 converts the next id and a manifest entry, and save the manifest only if
 something was added. Pillow's decoding and encoding of a file is abstracted
 to whether it opened, with what size, and whether both WebP saves succeed.
 */
module Batch {
  import opened Wrappers
  import ImageIds
  import Manifest
  import Thumbnail

  /** The run's fixed settings: `BASE_URL` and `THUMB_SIZE`. */
  datatype Config = Config(baseUrl: string, thumbSize: Thumbnail.Size)

  const DefaultConfig: Config := Config(Manifest.BaseUrl, Thumbnail.DefaultSize)

  const ImageExtensions: seq<string> := [".jpg", ".jpeg", ".png", ".gif", ".bmp", ".webp", ".tiff", ".tif"]

  /**
   One entry of the input directory listing. `decoded` is the pixel size when
   Pillow can open and convert the file to RGB, and None when it raises;
   `encodes` says whether both WebP saves succeed.
   */
  datatype Listed = Listed(name: string, isFile: bool, decoded: Option<Thumbnail.Size>, encodes: bool)

  /** The state the loop carries: `current_id`, `new_entries` and the manifest's `backgrounds` list. */
  datatype Progress = Progress(currentId: nat, added: seq<Manifest.Entry>, backgrounds: seq<Manifest.Entry>)

  /** What a run does: stop on a missing folder, stop when no image is selected, or process the selection. */
  datatype Report =
    | FolderMissing
    | NoImages
    | Processed(startId: nat, added: seq<Manifest.Entry>, saved: Option<seq<Manifest.Entry>>)

  predicate ValidConfig(cfg: Config) {
    Thumbnail.ValidTarget(cfg.thumbSize)
  }

  /** The position of the last occurrence of `c` in `s` (`str.rfind`), or None. */
  function LastIndexOf(s: string, c: char): (r: Option<nat>)
    ensures r.Some? ==> r.value < |s| && s[r.value] == c && forall j :: r.value < j < |s| ==> s[j] != c
    ensures r.None? ==> forall j :: 0 <= j < |s| ==> s[j] != c
    decreases |s|
  {
    if |s| == 0 then None
    else if s[|s| - 1] == c then Some(|s| - 1)
    else LastIndexOf(s[..|s| - 1], c)
  }

  /** `PurePath.suffix`: from the last dot on, unless that dot starts or ends the name. */
  function Suffix(name: string): (r: string)
    ensures r == [] || (|r| >= 2 && r[0] == '.' && |r| < |name| && r == name[|name| - |r|..])
    ensures forall j :: 1 <= j < |r| ==> r[j] != '.'
  {
    match LastIndexOf(name, '.')
    case Some(i) => if 0 < i < |name| - 1 then name[i..] else []
    case None => []
  }

  /**
   The suffix is non-empty exactly when the name has a last dot that neither
   starts nor ends it.
   */
  lemma SuffixNonEmpty(name: string)
    ensures Suffix(name) != [] <==>
      exists i :: 0 < i < |name| - 1 && name[i] == '.' && forall j :: i < j < |name| ==> name[j] != '.'
  {
    var r := LastIndexOf(name, '.');
    if i :| 0 < i < |name| - 1 && name[i] == '.' && forall j :: i < j < |name| ==> name[j] != '.' {
      assert r == Some(i);
    }
  }

  /** An ASCII upper-case letter. */
  predicate IsUpper(c: char) {
    'A' <= c <= 'Z'
  }

  function LowerChar(c: char): (d: char)
    ensures d == '.' <==> c == '.'
  {
    if IsUpper(c) then (c as int + 32) as char else c
  }

  /** `str.lower` on the characters that matter here (ASCII letters). */
  function Lower(s: string): string {
    seq(|s|, i requires 0 <= i < |s| => LowerChar(s[i]))
  }

  /**
   Lowering keeps the length and leaves no upper-case letter; each upper-case
   letter becomes its lower-case partner and every other character is kept.
   */
  lemma LowerAt(s: string, i: nat)
    requires i < |s|
    ensures |Lower(s)| == |s|
    ensures !IsUpper(Lower(s)[i])
    ensures IsUpper(s[i]) ==> 'a' <= Lower(s)[i] <= 'z' && Lower(s)[i] as int - 'a' as int == s[i] as int - 'A' as int
    ensures !IsUpper(s[i]) ==> Lower(s)[i] == s[i]
  {
  }

  /** The allowed extensions are already lower-case, so each is accepted as written. */
  lemma ExtensionsLowered(e: string)
    requires e in ImageExtensions
    ensures Lower(e) == e
  {
  }

  /** The file is picked up: a regular file whose lowercased suffix is an image extension. */
  predicate Selected(f: Listed) {
    f.isFile && Lower(Suffix(f.name)) in ImageExtensions
  }

  /** Each allowed extension is a dot followed by at least one character that is not a dot. */
  lemma ExtensionShape(e: string)
    requires e in ImageExtensions
    ensures |e| >= 2 && e[0] == '.'
    ensures forall j :: 1 <= j < |e| ==> e[j] != '.'
  {
  }

  /**
   The extension filter, stated without `rfind`: a name is accepted exactly
   when, after at least one character, it ends in an allowed extension in any
   mix of upper and lower case.
   */
  lemma SelectedByEnding(name: string)
    ensures Lower(Suffix(name)) in ImageExtensions <==>
      exists k :: 0 < k < |name| && Lower(name[k..]) in ImageExtensions
  {
    var sfx := Suffix(name);
    if Lower(sfx) in ImageExtensions {
      var k := |name| - |sfx|;
      assert name[k..] == sfx;
    }
    if k :| 0 < k < |name| && Lower(name[k..]) in ImageExtensions {
      EndingIsSuffix(name, k);
    }
  }

  /** An allowed ending after at least one character is exactly the suffix. */
  lemma EndingIsSuffix(name: string, k: nat)
    requires 0 < k < |name| && Lower(name[k..]) in ImageExtensions
    ensures Suffix(name) == name[k..]
  {
    var t := name[k..];
    var lt := Lower(t);
    ExtensionShape(lt);
    assert forall j :: 0 <= j < |t| ==> lt[j] == LowerChar(t[j]);
    assert name[k] == t[0];
    assert forall j :: k < j < |name| ==> name[j] == t[j - k];
    assert LastIndexOf(name, '.') == Some(k);
  }

  /** The elements of `s` that `keep` accepts, in order. */
  function Filter<T>(s: seq<T>, keep: T -> bool): (r: seq<T>)
    ensures |r| <= |s|
    decreases |s|
  {
    if |s| == 0 then []
    else if keep(s[0]) then [s[0]] + Filter(s[1..], keep)
    else Filter(s[1..], keep)
  }

  lemma {:induction false} FilterMembers<T>(s: seq<T>, keep: T -> bool, x: T)
    ensures x in Filter(s, keep) <==> x in s && keep(x)
    decreases |s|
  {
    if |s| > 0 {
      FilterMembers(s[1..], keep, x);
      assert s == [s[0]] + s[1..];
    }
  }

  /** Filtering distributes over concatenation, so order is kept. */
  lemma {:induction false} FilterAppend<T>(a: seq<T>, b: seq<T>, keep: T -> bool)
    ensures Filter(a + b, keep) == Filter(a, keep) + Filter(b, keep)
    decreases |a|
  {
    if |a| > 0 {
      assert (a + b)[0] == a[0];
      assert (a + b)[1..] == a[1..] + b;
      FilterAppend(a[1..], b, keep);
    } else {
      assert a + b == b;
    }
  }

  /** `image_files`: the selected entries of the listing, in listing order. */
  function SelectImages(listing: seq<Listed>): seq<Listed> {
    Filter(listing, Selected)
  }

  /** An entry is selected exactly when it is listed and passes the filter. */
  lemma SelectImagesMembers(listing: seq<Listed>, f: Listed)
    ensures f in SelectImages(listing) <==> f in listing && Selected(f)
  {
    FilterMembers(listing, Selected, f);
  }

  /** Nothing is selected exactly when no listed entry passes the filter. */
  lemma NothingSelected(listing: seq<Listed>)
    ensures SelectImages(listing) == [] <==> forall f :: f in listing ==> !Selected(f)
  {
    if SelectImages(listing) != [] {
      var f := SelectImages(listing)[0];
      SelectImagesMembers(listing, f);
    } else {
      forall f | f in listing
        ensures !Selected(f)
      {
        SelectImagesMembers(listing, f);
      }
    }
  }

  /** Processing the file raises nothing, so it receives an id and an entry. */
  predicate Succeeds(cfg: Config, f: Listed)
    requires ValidConfig(cfg)
  {
    && f.decoded.Some?
    && f.encodes
    && Thumbnail.CreateThumbnail(f.decoded.value, cfg.thumbSize).Some?
  }

  /** The number of files in `files` that are processed without an exception. */
  function Successes(cfg: Config, files: seq<Listed>): (n: nat)
    requires ValidConfig(cfg)
    ensures n <= |files|
    decreases |files|
  {
    if |files| == 0 then 0
    else (if Succeeds(cfg, files[0]) then 1 else 0) + Successes(cfg, files[1..])
  }

  /** One iteration of the loop: on success append the entry to both lists and advance the id; on failure change nothing. */
  function Step(cfg: Config, p: Progress, f: Listed): Progress
    requires ValidConfig(cfg)
  {
    if Succeeds(cfg, f) then
      var e := Manifest.NewEntry(cfg.baseUrl, p.currentId);
      Progress(p.currentId + 1, p.added + [e], p.backgrounds + [e])
    else
      p
  }

  /**
   The loop over the selected files. The successes receive consecutive ids
   from the starting one, both lists gain the same block of entries, and the
   counter ends one past the last id given.
   */
  function Loop(cfg: Config, p: Progress, files: seq<Listed>): (q: Progress)
    requires ValidConfig(cfg)
    ensures q.currentId == p.currentId + Successes(cfg, files)
    ensures q.added == p.added + Manifest.Block(cfg.baseUrl, p.currentId, Successes(cfg, files))
    ensures q.backgrounds == p.backgrounds + Manifest.Block(cfg.baseUrl, p.currentId, Successes(cfg, files))
    decreases |files|
  {
    if |files| == 0 then p
    else
      StepThenBlock(cfg, p, files[0], Successes(cfg, files[1..]));
      Loop(cfg, Step(cfg, p, files[0]), files[1..])
  }

  /** Running the loop over one more file is one more step after the loop over the others. */
  lemma {:induction false} LoopSnoc(cfg: Config, p: Progress, a: seq<Listed>, f: Listed)
    requires ValidConfig(cfg)
    ensures Loop(cfg, p, a + [f]) == Step(cfg, Loop(cfg, p, a), f)
    decreases |a|
  {
    if |a| == 0 {
      assert a + [f] == [f];
      assert [f][1..] == [];
    } else {
      assert (a + [f])[0] == a[0];
      assert (a + [f])[1..] == a[1..] + [f];
      LoopSnoc(cfg, Step(cfg, p, a[0]), a[1..], f);
    }
  }

  /** A step followed by a block of `n` entries is a block from the step's starting id. */
  lemma StepThenBlock(cfg: Config, p: Progress, f: Listed, n: nat)
    requires ValidConfig(cfg)
    ensures var q := Step(cfg, p, f);
      var m := (if Succeeds(cfg, f) then 1 else 0) + n;
      && q.currentId + n == p.currentId + m
      && q.added + Manifest.Block(cfg.baseUrl, q.currentId, n) == p.added + Manifest.Block(cfg.baseUrl, p.currentId, m)
      && q.backgrounds + Manifest.Block(cfg.baseUrl, q.currentId, n) == p.backgrounds + Manifest.Block(cfg.baseUrl, p.currentId, m)
  {
    if Succeeds(cfg, f) {
      var e := Manifest.NewEntry(cfg.baseUrl, p.currentId);
      var b := Manifest.Block(cfg.baseUrl, p.currentId + 1, n);
      Manifest.BlockCons(cfg.baseUrl, p.currentId, n);
      assert (p.added + [e]) + b == p.added + ([e] + b);
      assert (p.backgrounds + [e]) + b == p.backgrounds + ([e] + b);
    }
  }

  /** `process_images`, from the directory listing (None when the folder is missing) to the report. */
  function ProcessImages(cfg: Config, listing: Option<seq<Listed>>, fullDirNames: seq<string>, backgrounds: seq<Manifest.Entry>): (r: Report)
    requires ValidConfig(cfg)
    ensures r.FolderMissing? <==> listing.None?
    ensures r.NoImages? <==> listing.Some? && SelectImages(listing.value) == []
    ensures r.Processed? ==> r.startId == ImageIds.NextId(fullDirNames, Manifest.Ids(backgrounds))
    ensures r.Processed? ==>
      && |r.added| == Successes(cfg, SelectImages(listing.value))
      && r.added == Manifest.Block(cfg.baseUrl, r.startId, |r.added|)
    ensures r.Processed? ==>
      && (r.saved.Some? <==> |r.added| > 0)
      && (r.saved.Some? ==> r.saved.value == backgrounds + r.added)
  {
    match listing
    case None => FolderMissing
    case Some(entries) =>
      var files := SelectImages(entries);
      if files == [] then NoImages
      else
        var start := ImageIds.NextId(fullDirNames, Manifest.Ids(backgrounds));
        var q := Loop(cfg, Progress(start, [], backgrounds), files);
        assert q.added == Manifest.Block(cfg.baseUrl, start, Successes(cfg, files));
        Processed(start, q.added, if |q.added| > 0 then Some(q.backgrounds) else None)
  }
}
