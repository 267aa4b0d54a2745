# Background ingest tool — verified model

`generate/add_backgrounds.py` adds background images to a static gallery store. It lists an input
folder and keeps the files whose extension is an image extension. It allocates the next free
`image-<n>` id from the full-size image directory and from the `backgrounds.json` manifest. Each
image is converted to WebP at full size and as a centred 340×170 thumbnail. Each converted image
gets a placeholder manifest entry, and the manifest is saved when at least one image was added.

This project models the logic of that script in Dafny and proves properties of it:

- `Decimal` (`decimal.dfy`): digit runs read with `int(...)` and numbers written with `str(...)`.
- `ImageIds` (`image_ids.dfy`): the leftmost-match search `re.search(r'image-(\d+)', s)`, the
  `image-*.webp` glob, and `get_next_image_id` ("largest id in either source plus one, else 1").
- `Thumbnail` (`thumbnail.dfy`): the crop window and output size of `create_thumbnail`. The float
  ratio comparison is replaced by integer cross-multiplication, and `int(...)` of a positive
  quotient by floor division.
- `Manifest` (`manifest.dfy`): the entry record, its placeholder fields and URLs, and the block of
  entries a run appends.
- `Batch` (`batch.dfy`): the extension filter (`PurePath.suffix`, `str.lower`) and the loop of
  `process_images` as a fold over the selected files. The run's report says whether the folder was
  missing, whether no image was selected, or which entries were added and what was saved.
- `Runs` (`runs.dfy`): whole-run properties. Selection keeps listing order. The converting file
  with k converting files before it is processed with id `start + k`. A failed file leaves no trace
  in the loop, and leaves the report unchanged as long as another file is selected. New ids never
  collide with existing ones, within a run or across runs.
- `Wrappers` (`wrappers.dfy`): the `Option` type.

The inputs the script reads from disk are parameters:
- the input directory listing: name, whether it is a regular file, and the per-file image outcome;
- the names in the full-size directory;
- the loaded manifest entries.

Pillow's work on one file is reduced to an outcome. Either the image cannot be opened or
converted, or it has a pixel size and both WebP saves succeed or fail. The thumbnail step is
modelled, so a zero-height image fails exactly where the script divides by zero (line 29).

## Model

| member | source | states |
|---|---|---|
| Thumbnail.CropBox | generate/add_backgrounds.py:27-39 | The crop window lies inside the source. A wider source keeps full height; its window width is the largest width not above the target ratio, and it is centred (margin before ≤ margin after ≤ margin before + 1). Any other source keeps full width, with the analogous height and vertical centring. |
| Thumbnail.CreateThumbnail | generate/add_backgrounds.py:27-41 | A zero-height source fails (division by zero in the aspect ratio). Otherwise the crop window is inside the source and the result is exactly the target size, whatever the source's aspect ratio. |
| Thumbnail.CropBoxUnique | generate/add_backgrounds.py:32-39 | Any box with the properties above is the computed crop window. Those properties are a complete specification of the crop. |
| Thumbnail.DefaultCrop | generate/add_backgrounds.py:25-39 | With 340×170 the ratio is exactly 2. The wide branch is taken iff width > 2·height and then keeps a 2·height-wide window. The tall branch keeps width/2 (floor) rows. |
| Decimal.Render | generate/add_backgrounds.py:138 | The rendered id number is canonical decimal: non-empty digits, with no leading zero except for 0 itself. |
| Decimal.ValueOfRender | generate/add_backgrounds.py:50 | Reading back a rendered number with `int` gives the number. |
| Decimal.RenderOfValue | generate/add_backgrounds.py:50 | Rendering the value of a canonical digit string gives the string back. |
| Decimal.LeadingZeroIgnored | generate/add_backgrounds.py:50 | A leading zero does not change the value `int` reads. |
| ImageIds.FindFrom | generate/add_backgrounds.py:48 | The search returns the leftmost position from which `image-` followed by a digit matches, and reports no match only when there is none. |
| ImageIds.RunEnd | generate/add_backgrounds.py:48 | Greedy `\d+`: the run from the start position is all digits and is followed by a non-digit or the end of the string. |
| ImageIds.RunEndUnique | generate/add_backgrounds.py:48 | Any end position with all digits before it and a non-digit (or the end) at it is the end of the greedy digit run. |
| ImageIds.FindFromUnique | generate/add_backgrounds.py:48 | A match with no match before it is the one the search returns. |
| ImageIds.ExtractLeftmost | generate/add_backgrounds.py:48-50 | A string yields the value of the maximal digit run after its leftmost `image-` that is followed by at least one digit. |
| ImageIds.ExtractNone | generate/add_backgrounds.py:49 | A string yields nothing exactly when the pattern matches nowhere in it. |
| ImageIds.ExtractFormatted | generate/add_backgrounds.py:138-140 | The id `image-<n>` and the file name `image-<n>.webp` written for number n are both read back as n. |
| ImageIds.FullFileNameGlobbed | generate/add_backgrounds.py:47 | Every full-size file name the tool writes is listed by the next run's `image-*.webp` glob. |
| ImageIds.FormatIdInjective | generate/add_backgrounds.py:138 | Different numbers give different id strings. |
| ImageIds.FoundMembers | generate/add_backgrounds.py:56-60 | A number is among the values found in a list of strings iff some string of the list yields it. |
| ImageIds.Globbed | generate/add_backgrounds.py:47 | A name is globbed iff it is in the directory and has the `image-` prefix and the `.webp` suffix. |
| ImageIds.MaxPlusOne | generate/add_backgrounds.py:64-67 | The result is greater than every value. It is 1 for no values; otherwise it is one more than a value present, i.e. max + 1. |
| ImageIds.NextId | generate/add_backgrounds.py:64-69 | The next id is at least 1 and above every number found in the globbed file names and the manifest ids. It is 1, or one more than a number found. |
| ImageIds.NextIdAboveExisting | generate/add_backgrounds.py:43-69 | The next id is strictly greater than every id found in a globbed full-size file name or in a manifest id. |
| ImageIds.NextIdAfterExisting | generate/add_backgrounds.py:64-67 | The next id is 1, or one more than an id found. With the lemma above, it is exactly max + 1, or 1 when nothing was found. |
| ImageIds.NextIdAtMost | generate/add_backgrounds.py:64-67 | When no string yields a number above m, the next id is at most m + 1: the allocator never skips past max + 1. |
| ImageIds.ManifestIdBelowNext | generate/add_backgrounds.py:56-65 | Whatever number a manifest id yields lies below the next id. |
| ImageIds.FileKeepsIdTaken | generate/add_backgrounds.py:46-50 | A full-size file left in the directory keeps its number taken, even without a manifest entry. |
| ImageIds.ManifestKeepsIdTaken | generate/add_backgrounds.py:56-60 | A manifest entry keeps its number taken, even without a file. |
| ImageIds.GapNotFilled | generate/add_backgrounds.py:64-65 | With `image-1` and `image-3` present, the next id is 4, not 2. |
| Manifest.NewEntry | generate/add_backgrounds.py:157-165 | A new entry has category "Uncategorized", type "image", name "No Tags" and featured false. Its URLs are the base URL + `/images/thumb/` or `/images/full/` + id + `.webp`. Its id plus `.webp` is the name of the full-size file written for its number. |
| Manifest.NewEntryReadsBack | generate/add_backgrounds.py:138 | The id written for number n is read back as n by the id search of the next run. |
| Manifest.BlockReadsBack | generate/add_backgrounds.py:157-170 | Every entry a run adds is a placeholder carrying the URLs of its own image, and the k-th one of the run has an id that reads back as start + k. |
| Manifest.BlockIdsDistinct | generate/add_backgrounds.py:138-170 | Entries of one run have pairwise distinct ids. |
| Batch.Suffix | generate/add_backgrounds.py:106 | The suffix is empty, or a dot-led tail of the name of length ≥ 2 that holds no further dot and leaves a non-empty stem. |
| Batch.SuffixNonEmpty | generate/add_backgrounds.py:106 | The suffix is non-empty exactly when the name has a last dot that is neither its first nor its last character. |
| Batch.LowerAt | generate/add_backgrounds.py:106 | Lowering keeps the length and leaves no upper-case ASCII letter. Each upper-case letter becomes its lower-case partner, and every other character is unchanged. |
| Batch.ExtensionsLowered | generate/add_backgrounds.py:103 | Every allowed extension is already lower-case, so lowering maps it to itself. |
| Batch.SelectedByEnding | generate/add_backgrounds.py:103-106 | A name passes the extension filter iff, after at least one character, it ends in one of `.jpg .jpeg .png .gif .bmp .webp .tiff .tif` in any letter case. |
| Batch.SelectImagesMembers | generate/add_backgrounds.py:105-106 | A listed entry is selected iff it is a regular file passing the extension filter. |
| Batch.NothingSelected | generate/add_backgrounds.py:105-111 | The run stops with "no image files" exactly when no listed entry is a regular file passing the filter. |
| Batch.Loop | generate/add_backgrounds.py:123-174 | After the loop, the counter has advanced by the number of successes and by nothing else. Both the new-entry list and the manifest list have gained the same block of entries for consecutive ids from the starting one, after their old contents. |
| Batch.LoopSnoc | generate/add_backgrounds.py:125-174 | The loop handles the files one at a time in listing order: the loop over a list followed by one more file is the loop over the list, then one step for that file. |
| Batch.ProcessImages | generate/add_backgrounds.py:98-189 | A missing folder, or a listing with no selected image, stops the run before ids are allocated or anything is written. Otherwise ids start at the allocator's next id. One entry is added per success, in a contiguous id block. The manifest is saved iff at least one entry was added, and then as the old entries followed by the new ones. |
| Runs.SelectImagesAppend | generate/add_backgrounds.py:105-106 | Selection keeps listing order: it distributes over concatenation of listings. |
| Runs.SuccessesBefore | generate/add_backgrounds.py:170 | A converting file has fewer converting files before it than the whole list has, so its id lies inside the run's block. |
| Runs.KthSuccessGetsStartPlusK | generate/add_backgrounds.py:120-170 | For the converting file at position i with k converting files before it: after the files before it, the counter stands at start + k. Its own step advances the counter by one and appends exactly the entry for start + k, which is the k-th new entry of the whole loop. |
| Runs.FailureIsSkipped | generate/add_backgrounds.py:172-174 | A failing file changes nothing in the loop. The loop runs as if the file had not been listed. |
| Runs.FailureIsSkippedInRun | generate/add_backgrounds.py:105-174 | When some other listed file is selected, a failing file leaves the whole run's report unchanged: start id, added entries and saved manifest. With no other selected file the run would stop early instead. |
| Runs.NewIdsAreFresh | generate/add_backgrounds.py:120-168 | No new entry reuses the id of an entry already in the manifest. |
| Runs.NextRunStartsPastThisRun | generate/add_backgrounds.py:46-50 | If the full-size files written by a run that added entries remain, the next run starts past every id handed out, even if the manifest lost the entries. |
| Runs.NextRunAfterSave | generate/add_backgrounds.py:52-60 | After a save, the saved manifest alone makes the next run start past every id handed out. |
| Runs.EmptyStoreNumbersFromOne | generate/add_backgrounds.py:64-67 | With no existing files or entries, the k-th new entry (from 0) is `image-<k+1>`. |

## Left out

- Pillow's image work is reduced to the per-file outcome described above. That covers colour-mode flattening onto white (lines 128-136), LANCZOS resampling (line 41) and WebP encoding at quality 85 / method 6 (lines 141-155).
- Files written by a failing file before its exception are not modelled. A full-size file saved before a thumbnail error is one example. The next success reuses the id and overwrites it.
- Filesystem access (`exists`, `glob`, `iterdir`, `mkdir`, opens) is not modelled. The listing, the full-size directory's names and the loaded entries are parameters. The glob is modelled as a case-sensitive prefix/suffix match, as on POSIX systems. `iterdir` order is whatever order the listing parameter has.
- JSON load and dump are not modelled, and neither are the parse-failure fallbacks (lines 61-62, 76-78) or the trailing newline (lines 87-88). The allocator reads the manifest file again (lines 52-60). The model takes its ids from the same loaded entries, with a missing `id` read as "".
- Batch.ProcessImages assumes the loaded manifest is a JSON object with a `backgrounds` list. Consider an object without that key. `get_next_image_id` reads it without error, because `data.get` at line 56 supplies an empty list. Line 168 then raises a KeyError inside the per-file `try` (lines 126-174). At that point line 167 has already appended the entry to `new_entries`, and line 170 never advances `current_id`. Every later converting file then reuses `image-<start>` and overwrites the same files. Lines 176-177 save a manifest that gained nothing, and each converting file is still reported as added. The model does not cover this path.
- ImageIds.NextId always returns a number. `get_next_image_id` raises exceptions it does not catch, because line 61 catches only JSONDecodeError and KeyError. The run then stops at line 120, before any file is processed:
  - a manifest whose top level is not a JSON object (a list, say) makes `data.get` raise AttributeError (line 56);
  - a `backgrounds` value of `null` or a number makes the `for` raise TypeError (line 56);
  - a manifest entry that is not a JSON object makes `bg.get` raise AttributeError (line 57). A `backgrounds` value that is a string or an object also does this, because iterating it yields strings;
  - a manifest `id` that is not a string makes `re.search` raise TypeError (line 58);
  - a digit run longer than 4300 digits makes `int` raise ValueError on Python 3.11 and later (lines 50 and 60).
  The model has none of these failures: the manifest is a list of records, ids are strings, and integers are unbounded.
- ImageIds.ExtractLeftmost: Python's `\d` and `int` also accept non-ASCII Unicode decimal digits; only '0'..'9' are modelled.
- Batch.Lower: only ASCII letters are lowered. No other character lowercases to a single character that occurs in an allowed extension, so the filter's verdict is unaffected.
- Batch.Suffix follows `PurePath.suffix` as it rfinds the last dot and drops a leading or trailing dot; path separators are not modelled, since the names are final components.
- Thumbnail.CropBox: the script compares and divides floats (lines 29-30, 33, 37); the model uses exact rational arithmetic. The two agree whenever the float rounding does not cross an integer, which covers every realistic size and is exact for 340×170, where the ratio is 2.0.
- Thumbnail.CreateThumbnail succeeds for every source of positive height, even when the crop window is empty. For a target of tw×th, the window is empty when the cropped extent rounds down to zero: width·th < tw in the tall branch, or height·tw < th in the wide branch. With 340×170 that is any source of width 0 or 1. What Pillow does when resizing an empty crop is not modelled; the model counts the file as a success.
- The thumbnail size is a positive configuration value; it is a constant in `generate/add_backgrounds.py`, so the model requires both dimensions positive.
- CLI path resolution, `tqdm` progress and all printed output (lines 91-96, 99-100, 109-110, 113, 121, 178-189, 191-207) are not modelled.
