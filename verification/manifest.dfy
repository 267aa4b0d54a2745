/**
 The manifest record `process_images` builds for each converted image, and the
 block of records a run appends.
 */
module Manifest {
  import opened Wrappers
  import ImageIds

  /** `BASE_URL`. */
  const BaseUrl: string := "https://raw.githubusercontent.com/BetterSEQTA/BetterSEQTA-Themes/main/store/backgrounds"

  const ThumbDir: string := "/images/thumb/"
  const FullDir: string := "/images/full/"

  const PlaceholderCategory: string := "Uncategorized"
  const ImageType: string := "image"
  const PlaceholderName: string := "No Tags"

  /**
   One element of the manifest's `backgrounds` list. `entryType` is the JSON
   key `type`. An existing entry without an `id` key reads as the empty id.
   */
  datatype Entry = Entry(
    id: string,
    category: string,
    entryType: string,
    lowResUrl: string,
    highResUrl: string,
    name: string,
    featured: bool)

  /** The placeholder fields every new entry starts with, for the maintainer to fill in later. */
  predicate IsPlaceholder(e: Entry) {
    && e.category == PlaceholderCategory
    && e.entryType == ImageType
    && e.name == PlaceholderName
    && !e.featured
  }

  /** The thumbnail and full-size URLs point at the files written for the entry's id. */
  predicate HasImageUrls(baseUrl: string, e: Entry) {
    && e.lowResUrl == baseUrl + ThumbDir + e.id + ImageIds.FullExtension
    && e.highResUrl == baseUrl + FullDir + e.id + ImageIds.FullExtension
  }

  /** The entry written for the image that received number `n`. */
  function NewEntry(baseUrl: string, n: nat): (e: Entry)
    ensures IsPlaceholder(e) && HasImageUrls(baseUrl, e)
    ensures e.id + ImageIds.FullExtension == ImageIds.FullFileName(n)
  {
    var id := ImageIds.FormatId(n);
    Entry(
      id,
      PlaceholderCategory,
      ImageType,
      baseUrl + ThumbDir + id + ImageIds.FullExtension,
      baseUrl + FullDir + id + ImageIds.FullExtension,
      PlaceholderName,
      false)
  }

  /** The id of the entry for `n` reads back as `n`. */
  lemma NewEntryReadsBack(baseUrl: string, n: nat)
    ensures ImageIds.ExtractId(NewEntry(baseUrl, n).id) == Some(n)
  {
    ImageIds.ExtractFormatted(n);
  }

  /** The entries for the numbers `start`, `start + 1`, ..., `start + count - 1`, in order. */
  function Block(baseUrl: string, start: nat, count: nat): seq<Entry> {
    seq(count, k requires 0 <= k < count => NewEntry(baseUrl, start + k))
  }

  /** Indexing a block of `count` entries: the `k`-th is the entry for `start + k`. */
  lemma BlockAt(baseUrl: string, start: nat, count: nat, k: nat)
    requires k < count
    ensures |Block(baseUrl, start, count)| == count
    ensures Block(baseUrl, start, count)[k] == NewEntry(baseUrl, start + k)
  {
  }

  /** A block of one followed by the block after it is the longer block. */
  lemma BlockCons(baseUrl: string, start: nat, count: nat)
    ensures [NewEntry(baseUrl, start)] + Block(baseUrl, start + 1, count) == Block(baseUrl, start, count + 1)
  {
  }

  /** The manifest ids of a list of entries, in order. */
  function Ids(entries: seq<Entry>): seq<string> {
    seq(|entries|, k requires 0 <= k < |entries| => entries[k].id)
  }

  /**
   Every entry of a block is a placeholder with the URLs of its own image, and
   the `k`-th id reads back as `start + k`.
   */
  lemma BlockReadsBack(baseUrl: string, start: nat, count: nat, k: nat)
    requires k < count
    ensures IsPlaceholder(Block(baseUrl, start, count)[k])
    ensures HasImageUrls(baseUrl, Block(baseUrl, start, count)[k])
    ensures ImageIds.ExtractId(Block(baseUrl, start, count)[k].id) == Some(start + k)
  {
    NewEntryReadsBack(baseUrl, start + k);
  }

  /** The ids in a block are pairwise distinct. */
  lemma BlockIdsDistinct(baseUrl: string, start: nat, count: nat, j: nat, k: nat)
    requires j < k < count
    ensures Block(baseUrl, start, count)[j].id != Block(baseUrl, start, count)[k].id
  {
    BlockReadsBack(baseUrl, start, count, j);
    BlockReadsBack(baseUrl, start, count, k);
  }
}
