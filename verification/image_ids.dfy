/**
 Id allocation: the leftmost-match search for `image-(\d+)`, the glob that
 lists existing full-size files, and "largest id seen plus one".
 */
module ImageIds {
  import opened Wrappers
  import Decimal

  const Prefix: string := "image-"
  const FullExtension: string := ".webp"

  /** The pattern `image-\d` matches at position `i` of `s`. */
  predicate MatchAt(s: string, i: nat) {
    i + |Prefix| < |s| && s[i..i + |Prefix|] == Prefix && Decimal.IsDigit(s[i + |Prefix|])
  }

  /** The leftmost position at or after `from` where the pattern matches. */
  function FindFrom(s: string, from: nat): (r: Option<nat>)
    ensures r.Some? ==> from <= r.value && MatchAt(s, r.value)
    ensures r.Some? ==> forall j :: from <= j < r.value ==> !MatchAt(s, j)
    ensures r.None? ==> forall j :: from <= j ==> !MatchAt(s, j)
    decreases |s| - from
  {
    if from + |Prefix| >= |s| then None
    else if MatchAt(s, from) then Some(from)
    else FindFrom(s, from + 1)
  }

  /** The end of the longest run of digits that starts at `i` (greedy `\d+`). */
  function RunEnd(s: string, i: nat): (e: nat)
    requires i <= |s|
    ensures i <= e <= |s|
    ensures forall k :: i <= k < e ==> Decimal.IsDigit(s[k])
    ensures e == |s| || !Decimal.IsDigit(s[e])
    decreases |s| - i
  {
    if i < |s| && Decimal.IsDigit(s[i]) then RunEnd(s, i + 1) else i
  }

  /** `int(re.search(r'image-(\d+)', s).group(1))`, or None when the search fails. */
  function ExtractId(s: string): Option<nat> {
    match FindFrom(s, 0)
    case None => None
    case Some(i) =>
      var e := RunEnd(s, i + |Prefix|);
      assert Decimal.AllDigits(s[i + |Prefix|..e]);
      Some(Decimal.Value(s[i + |Prefix|..e]))
  }

  /** The id string the tool writes for number `n`: `f"image-{n}"`. */
  function FormatId(n: nat): string {
    Prefix + Decimal.Render(n)
  }

  /** The name of the full-size file written for number `n`. */
  function FullFileName(n: nat): string {
    FormatId(n) + FullExtension
  }

  /** `FULL_DIR.glob("image-*.webp")`: a case-sensitive match of prefix and suffix. */
  predicate GlobMatch(name: string) {
    |name| >= |Prefix| + |FullExtension|
    && name[..|Prefix|] == Prefix
    && name[|name| - |FullExtension|..] == FullExtension
  }

  /**
   The value extracted from a string is the value of the maximal digit run that
   follows the leftmost `image-` which is followed by at least one digit.
   */
  lemma ExtractLeftmost(s: string, i: nat, e: nat)
    requires MatchAt(s, i)
    requires forall j :: 0 <= j < i ==> !MatchAt(s, j)
    requires i + |Prefix| < e <= |s|
    requires Decimal.AllDigits(s[i + |Prefix|..e])
    requires e == |s| || !Decimal.IsDigit(s[e])
    ensures ExtractId(s) == Some(Decimal.Value(s[i + |Prefix|..e]))
  {
    var d := i + |Prefix|;
    forall k | d <= k < e
      ensures Decimal.IsDigit(s[k])
    {
      assert s[k] == s[d..e][k - d];
    }
    RunEndUnique(s, d, e);
    FindFromUnique(s, 0, i);
  }

  /** The maximal digit run from `d` is determined by where it ends. */
  lemma {:induction false} RunEndUnique(s: string, d: nat, e: nat)
    requires d <= e <= |s|
    requires forall k :: d <= k < e ==> Decimal.IsDigit(s[k])
    requires e == |s| || !Decimal.IsDigit(s[e])
    ensures RunEnd(s, d) == e
    decreases e - d
  {
    if d < e {
      RunEndUnique(s, d + 1, e);
    }
  }

  /** The search from `from` finds a match at `i` when none lies between them. */
  lemma {:induction false} FindFromUnique(s: string, from: nat, i: nat)
    requires from <= i && MatchAt(s, i)
    requires forall j :: from <= j < i ==> !MatchAt(s, j)
    ensures FindFrom(s, from) == Some(i)
    decreases i - from
  {
    if from < i {
      FindFromUnique(s, from + 1, i);
    }
  }

  /** A string contributes nothing exactly when the pattern matches nowhere in it. */
  lemma ExtractNone(s: string)
    ensures ExtractId(s).None? <==> forall j :: 0 <= j < |s| ==> !MatchAt(s, j)
  {
  }

  /** Every id the tool writes is read back as the number it was written for. */
  lemma ExtractFormatted(n: nat)
    ensures ExtractId(FormatId(n)) == Some(n)
    ensures ExtractId(FullFileName(n)) == Some(n)
  {
    Decimal.ValueOfRender(n);
    var d := Decimal.Render(n);
    var s := FormatId(n);
    assert s[..|Prefix|] == Prefix;
    assert s[|Prefix|..|s|] == d;
    ExtractLeftmost(s, 0, |s|);
    var f := FullFileName(n);
    assert f[..|Prefix|] == Prefix;
    assert f[|Prefix|..|s|] == d;
    assert f[|s|] == '.';
    ExtractLeftmost(f, 0, |s|);
  }

  /** The glob of the next run lists every full-size file a run writes. */
  lemma FullFileNameGlobbed(n: nat)
    ensures GlobMatch(FullFileName(n))
  {
    var f := FullFileName(n);
    assert f[..|Prefix|] == Prefix;
    assert f[|f| - |FullExtension|..] == FullExtension;
  }

  /** `FormatId` is one-to-one, so ids written for different numbers differ. */
  lemma FormatIdInjective(m: nat, n: nat)
    requires FormatId(m) == FormatId(n)
    ensures m == n
  {
    ExtractFormatted(m);
    ExtractFormatted(n);
  }

  /** The numbers the strings of `strs` yield, in order; strings without a match yield none. */
  function Found(strs: seq<string>): seq<nat>
    decreases |strs|
  {
    if |strs| == 0 then []
    else
      match ExtractId(strs[0])
      case None => Found(strs[1..])
      case Some(v) => [v] + Found(strs[1..])
  }

  /** A number is found in `strs` exactly when some string of `strs` yields it. */
  lemma {:induction false} FoundMembers(strs: seq<string>, v: nat)
    ensures v in Found(strs) <==> exists s :: s in strs && ExtractId(s) == Some(v)
    decreases |strs|
  {
    if |strs| > 0 {
      FoundMembers(strs[1..], v);
      assert forall s :: s in strs <==> s == strs[0] || s in strs[1..];
    }
  }

  /** One more than the largest number of `vs`, or 1 when `vs` is empty. */
  function MaxPlusOne(vs: seq<nat>): (r: nat)
    ensures r >= 1
    ensures forall v :: v in vs ==> v < r
    ensures |vs| == 0 ==> r == 1
    ensures |vs| > 0 ==> r - 1 in vs
    decreases |vs|
  {
    if |vs| == 0 then 1
    else
      var r0 := MaxPlusOne(vs[1..]);
      assert forall v :: v in vs ==> v == vs[0] || v in vs[1..];
      if vs[0] + 1 >= r0 then vs[0] + 1 else r0
  }

  /** The file names of `names` the glob lists, in order. */
  function Globbed(names: seq<string>): (r: seq<string>)
    ensures forall s :: s in r <==> s in names && GlobMatch(s)
    decreases |names|
  {
    if |names| == 0 then []
    else if GlobMatch(names[0]) then [names[0]] + Globbed(names[1..])
    else Globbed(names[1..])
  }

  /**
   `v` is in `existing_ids` of `get_next_image_id`: some full-size file name the glob
   lists, or some manifest id, yields it.
   */
  ghost predicate Existing(fileNames: seq<string>, manifestIds: seq<string>, v: nat) {
    || (exists s :: s in Globbed(fileNames) && ExtractId(s) == Some(v))
    || (exists s :: s in manifestIds && ExtractId(s) == Some(v))
  }

  /**
   `get_next_image_id`: one more than the largest id found in either source,
   or 1 when neither source holds an id.
   */
  function NextId(fileNames: seq<string>, manifestIds: seq<string>): (r: nat)
    ensures r >= 1
    ensures forall v :: v in Found(Globbed(fileNames)) + Found(manifestIds) ==> v < r
    ensures r == 1 || r - 1 in Found(Globbed(fileNames)) + Found(manifestIds)
  {
    MaxPlusOne(Found(Globbed(fileNames)) + Found(manifestIds))
  }

  /** Every id found in either source is among the values the allocator maximises over. */
  lemma ExistingIsFound(fileNames: seq<string>, manifestIds: seq<string>, v: nat)
    requires Existing(fileNames, manifestIds, v)
    ensures v in Found(Globbed(fileNames)) + Found(manifestIds)
  {
    FoundMembers(Globbed(fileNames), v);
    FoundMembers(manifestIds, v);
  }

  /** Every value the allocator maximises over is an id found in one of the sources. */
  lemma FoundIsExisting(fileNames: seq<string>, manifestIds: seq<string>, v: nat)
    requires v in Found(Globbed(fileNames)) + Found(manifestIds)
    ensures Existing(fileNames, manifestIds, v)
  {
    FoundMembers(Globbed(fileNames), v);
    FoundMembers(manifestIds, v);
  }

  /** The next id is greater than every id found in a globbed full-size file name or a manifest id. */
  lemma NextIdAboveExisting(fileNames: seq<string>, manifestIds: seq<string>, v: nat)
    requires Existing(fileNames, manifestIds, v)
    ensures v < NextId(fileNames, manifestIds)
  {
    ExistingIsFound(fileNames, manifestIds, v);
  }

  /** The next id is 1, or one more than an id found: together with the lemma above, exactly max + 1. */
  lemma NextIdAfterExisting(fileNames: seq<string>, manifestIds: seq<string>)
    ensures var r := NextId(fileNames, manifestIds);
      r == 1 || Existing(fileNames, manifestIds, r - 1)
  {
    var r := NextId(fileNames, manifestIds);
    if r > 1 {
      FoundIsExisting(fileNames, manifestIds, r - 1);
    }
  }

  /** When no string yields a number above `m`, the next id is at most `m + 1`: nothing larger than max + 1 is chosen. */
  lemma NextIdAtMost(fileNames: seq<string>, manifestIds: seq<string>, m: nat)
    requires forall s :: s in Globbed(fileNames) && ExtractId(s).Some? ==> ExtractId(s).value <= m
    requires forall s :: s in manifestIds && ExtractId(s).Some? ==> ExtractId(s).value <= m
    ensures NextId(fileNames, manifestIds) <= m + 1
  {
    var r := NextId(fileNames, manifestIds);
    NextIdAfterExisting(fileNames, manifestIds);
    if r > 1 {
      var v: nat := r - 1;
      if s :| s in Globbed(fileNames) && ExtractId(s) == Some(v) {
        assert v <= m;
      } else {
        var s :| s in manifestIds && ExtractId(s) == Some(v);
        assert v <= m;
      }
    }
  }

  /** A full-size file left in the directory keeps its number taken. */
  lemma FileKeepsIdTaken(fileNames: seq<string>, manifestIds: seq<string>, n: nat)
    requires FullFileName(n) in fileNames
    ensures NextId(fileNames, manifestIds) > n
  {
    ExtractFormatted(n);
    FullFileNameGlobbed(n);
    assert FullFileName(n) in Globbed(fileNames);
    NextIdAboveExisting(fileNames, manifestIds, n);
  }

  /** A manifest entry keeps its number taken. */
  lemma ManifestKeepsIdTaken(fileNames: seq<string>, manifestIds: seq<string>, n: nat)
    requires FormatId(n) in manifestIds
    ensures NextId(fileNames, manifestIds) > n
  {
    ExtractFormatted(n);
    assert FormatId(n) in manifestIds;
    NextIdAboveExisting(fileNames, manifestIds, n);
  }

  /** Whatever a manifest id yields lies below the next id. */
  lemma ManifestIdBelowNext(fileNames: seq<string>, manifestIds: seq<string>, s: string)
    requires s in manifestIds
    ensures ExtractId(s).None? || ExtractId(s).value < NextId(fileNames, manifestIds)
  {
    if ExtractId(s).Some? {
      NextIdAboveExisting(fileNames, manifestIds, ExtractId(s).value);
    }
  }

  /** With no full-size file and no manifest entry, numbering starts at 1. */
  lemma NextIdOfEmptyStore()
    ensures NextId([], []) == 1
  {
    assert Globbed([]) == [];
    assert Found([]) == [];
  }

  lemma GapNotFilled()
    ensures NextId([], ["image-1", "image-3"]) == 4
  {
    var ids := ["image-1", "image-3"];
    assert Decimal.Render(1) == "1" && Decimal.Render(3) == "3";
    assert FormatId(1) == ids[0] && FormatId(3) == ids[1];
    ExtractFormatted(1);
    ExtractFormatted(3);
    ManifestKeepsIdTaken([], ids, 3);
    assert Globbed([]) == [];
    NextIdAtMost([], ids, 3);
  }
}
