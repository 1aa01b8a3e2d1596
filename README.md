# nova-media-field `MediaHandler`, modelled in Dafny

`MediaHandler` is the ingestion pipeline of the nova-media-field Laravel package. The model covers these steps:

- It takes an upload description or a local file path and validates it (`validateFileInput`).
- It builds the year/month upload directory (`getUploadPath`).
- It normalises the original name into a URL-friendly base (`normalizeFileName`).
- It allocates a free name on the storage disk by probing `base.ext`, `base-1.ext`, `base-2.ext`, … (`createUniqueFilename`).
- It stores the file:
  - an image is decoded, resized to fit within the configured bound when one is set (an image smaller than the bound is enlarged), and re-encoded at quality 80 under a coerced extension, with a separately allocated `.webp` sibling;
  - anything else is copied byte for byte.
- For an image with thumbnails requested, it writes one rendition per configured size profile (`generateImageSizes`).
- It assembles the `Media` record.
- `createFromUrl` lets a downloaded file into the same pipeline only when its MIME type starts with `image`.

The modules follow the pipeline:

| module | file | models |
|---|---|---|
| `Wrappers` | wrappers.dfy | `Option` and `Result` |
| `Text` | text.dfy | lower-casing and PHP's integer-to-string conversion |
| `Paths` | paths.dfy | `rtrim`, `ltrim`, `basename`, `dirname` and `pathinfo` on POSIX paths |
| `FileNames` | filenames.dfy | `normalizeFileName` and the extension coercion of the image branch |
| `Storage` | storage.dfy | the storage disk: a class whose `files` map and `dirs` set are updated by `put` and `makeDirectory` |
| `Allocator` | allocator.dfy | `createUniqueFilename`: a loop that reads the disk, proved against the predicate `AllocatedIn` |
| `Imaging` | imaging.dfy | the image library as an abstract codec, and the five-way profile dispatch |
| `Renditions` | renditions.dfy | `generateImageSizes`: a loop proved against the recursive functions `Entries` (the result) and `Written` (the disk) |
| `Input` | input.dfy | `validateFileInput` as a total function to `Result` |
| `Ingestion` | ingestion.dfy | `getUploadPath`, `storeFile`, `createFromFile` and `createFromUrl` |

These are parameters of the model:

- the configuration values (`storage_path`, `webp_enabled`, `max_original_image_dimensions`, the size-profile table);
- the clock's year and month;
- the local-filesystem probes (`file_exists`, `mime_content_type`, `exif_imagetype`, `file_get_contents`);
- the disk's MIME lookup;
- the image codec.

The codec is a value of four functions: decode, resize, fit and encode. The handler relies on a few laws, for example that an aspect-ratio resize to a width yields that width. Those laws are the predicate `Imaging.Lawful`, a hypothesis of the lemmas that need it. No method requires it.

`normalizeFileName` replaces every run of characters outside `[a-z0-9]` by one hyphen, a trailing run included, so the trailing `!` of `My Photo!` becomes `-` and `My Photo!.JPG` is stored as `my-photo-.jpg`, not `my-photo.jpg`. `FileNames.NormalizeExample` proves this example, and `FileNames.NormalizeTrailingRun` states it for every name whose last character is not a letter or a digit.

## Model

| member | source | states |
|---|---|---|
| `Text.NatToString` | src/Classes/MediaHandler.php:300 | the suffix `$i` is written as a non-empty string of decimal digits |
| `Text.ParseNatToString` | src/Classes/MediaHandler.php:300 | the written suffix reads back as the number it came from |
| `Text.NatToStringInjective` | src/Classes/MediaHandler.php:300 | distinct suffix numbers are written differently |
| `Text.LowerChar` | src/Classes/MediaHandler.php:94 | `strtolower` on one character: an upper-case ASCII letter becomes the lower-case letter at the same alphabet position, and every other character is kept |
| `Text.Lower` | src/Classes/MediaHandler.php:94 | `strtolower` keeps the length, turns each upper-case ASCII letter into its own lower-case letter, and keeps every other character where it was |
| `Text.StartsWith` | src/Classes/MediaHandler.php:69 | `Str::startsWith`: the string begins with the prefix |
| `Paths.RTrim` | src/Classes/MediaHandler.php:202 | `rtrim` keeps a prefix, drops only trailing copies of the character, and leaves none at the end |
| `Paths.LTrim` | src/Classes/MediaHandler.php:232 | `ltrim` keeps a suffix, drops only leading copies of the character, and leaves none at the start |
| `Paths.Basename` | src/Classes/MediaHandler.php:200-207 | `basename`: what follows the last `/` once trailing slashes are dropped; its properties are `AfterLastChars`, `DirnameBasename` and `BasenameUnder` |
| `Paths.Dirname` | src/Classes/MediaHandler.php:202-209 | `dirname`: `.` for a bare name, `/` for the root, otherwise the part before the last separator without its trailing slashes; `DirnameBasename` states it for `dir/name` |
| `Paths.PathFilename` | src/Classes/MediaHandler.php:233 | `pathinfo(…, PATHINFO_FILENAME)`: the base name up to its last dot; `FilenameExtension` gives it back for `scope/stem.ext` |
| `Paths.PathExtension` | src/Classes/MediaHandler.php:234 | `pathinfo(…, PATHINFO_EXTENSION)`: what follows the base name's last dot, or empty; `FilenameExtension` and `PathExtensionPlain` state its properties |
| `Paths.AfterLastChars` | src/Classes/MediaHandler.php:200 | what `basename` keeps after the last separator holds no separator and only characters of the path |
| `Paths.DirnameBasename` | src/Classes/MediaHandler.php:200-202 | for `dir/name`, `basename` gives `name` and `dirname` gives `dir` |
| `Paths.BasenameUnder` | src/Classes/MediaHandler.php:200 | a plain name under a directory prefix ending in `/` is its own `basename` |
| `Paths.FilenameExtension` | src/Classes/MediaHandler.php:106-107 | `pathinfo` of `scope/stem.ext` gives back `stem` and `ext` when `ext` has no dot |
| `Paths.PathExtensionPlain` | src/Classes/MediaHandler.php:234 | a `pathinfo` extension never contains a dot or a slash |
| `FileNames.Normalize` | src/Classes/MediaHandler.php:92-95 | `strtolower` followed by the run replacement; the lemmas below state its shape, idempotence, fixpoints and what it keeps |
| `FileNames.Collapse` | src/Classes/MediaHandler.php:94 | `preg_replace('/[^a-z0-9]+/', '-', …)`: each maximal run outside `[a-z0-9]` becomes one hyphen; `CollapseRun` states where the hyphens go, and `CollapseNormal`, `CollapseFixesNormal` and `CollapseKeepsAlnums` state its other properties |
| `FileNames.CollapseNormal` | src/Classes/MediaHandler.php:94 | collapsing runs yields only `[a-z0-9-]` with no two adjacent hyphens, and keeps a leading alphanumeric |
| `FileNames.NormalizeIsNormal` | src/Classes/MediaHandler.php:92-95 | every normalised name has only `[a-z0-9-]` and never two adjacent hyphens |
| `FileNames.CollapseFixesNormal` | src/Classes/MediaHandler.php:94 | collapsing leaves a string of that shape unchanged |
| `FileNames.NormalizeIdempotent` | src/Classes/MediaHandler.php:92-95 | normalising twice is the same as normalising once |
| `FileNames.NormalizeFixpoints` | src/Classes/MediaHandler.php:92-95 | a name is left unchanged by normalisation exactly when it has the normal shape |
| `FileNames.CollapseKeepsAlnums` | src/Classes/MediaHandler.php:94 | collapsing keeps every alphanumeric character, in order |
| `FileNames.NormalizeKeepsAlnums` | src/Classes/MediaHandler.php:92-95 | the alphanumerics of the normalised name are those of the lower-cased name, in order |
| `FileNames.NormalizeTrailingRun` | src/Classes/MediaHandler.php:92-95 | a name ending in a non-alphanumeric normalises to a name ending in `-` |
| `FileNames.CollapseAppend` | src/Classes/MediaHandler.php:94 | after an alphanumeric, the collapse of a concatenation is the concatenation of the collapses |
| `FileNames.CollapseRun` | src/Classes/MediaHandler.php:94 | a run outside `[a-z0-9]` after an alphanumeric, and before an alphanumeric or the end, becomes exactly one hyphen in its place: `Collapse(a + run + b) == Collapse(a) + "-" + Collapse(b)` |
| `FileNames.NormalizeExample` | src/Classes/MediaHandler.php:92-95 | `My Photo!` normalises to `my-photo-` |
| `FileNames.CoerceExtension` | src/Classes/MediaHandler.php:240-243 | the stored image extension is in {jpg, jpeg, png, gif}; `webp` becomes `png`; anything else outside the set, upper case included, becomes `jpg`; the four are kept |
| `FileNames.CoerceExtensionIdempotent` | src/Classes/MediaHandler.php:240-243 | coercing twice changes nothing |
| `Storage.Disk.constructor` | src/Classes/MediaHandler.php:175-178 | a disk holds exactly the given files and directories |
| `Storage.Disk.Exists` | src/Classes/MediaHandler.php:166 | `$disk->exists`: a stored file or a made directory |
| `Storage.Disk.Size` | src/Classes/MediaHandler.php:278-280 | `$disk->size`: the byte length of a stored file |
| `Storage.Disk.Put` | src/Classes/MediaHandler.php:260 | `put` sets one path's contents, leaves every other file and the directories as they were, and adds the path |
| `Storage.Disk.MakeDirectory` | src/Classes/MediaHandler.php:166 | `makeDirectory` adds one directory and changes no file |
| `Allocator.CandidateInjective` | src/Classes/MediaHandler.php:297-300 | the probe names `base.ext`, `base-1.ext`, … are pairwise distinct |
| `Allocator.Candidate` | src/Classes/MediaHandler.php:297-300 | the `k`-th probe: `base.ext` for the first, `base-k.ext` after it; `CandidateInjective` states that no two coincide |
| `Allocator.AllocatedIn` | src/Classes/MediaHandler.php:295-304 | the name `createUniqueFilename` must return against the disk's paths: the first probe not on the disk; `AllocationUnique` and `AllocationFree` state its properties |
| `Allocator.ProbesDistinct` | src/Classes/MediaHandler.php:299-300 | the probed paths under the storage prefix are pairwise distinct |
| `Allocator.AllocationUnique` | src/Classes/MediaHandler.php:295-304 | the disk contents determine the allocated name: at most one name satisfies the allocation |
| `Allocator.AllocationFree` | src/Classes/MediaHandler.php:295-304 | the allocated path is not on the disk, and it is `base.ext` whenever that is free |
| `Allocator.AllocationExample` | src/Classes/MediaHandler.php:295-304 | with `photo.jpg` and `photo-1.jpg` taken, `photo`/`jpg` gets `photo-2.jpg` |
| `Allocator.ProbeIsNew` | src/Classes/MediaHandler.php:299-301 | the loop never probes a path twice, so the finite disk bounds it |
| `Allocator.CreateUniqueFilename` | src/Classes/MediaHandler.php:295-304 | the result is the first probe not on the disk: every earlier probe is taken and the result is free; `base.ext` when free; the disk is only read |
| `Imaging.ActionOf` | src/Classes/MediaHandler.php:113-127 | the five-row dispatch, each row an if-and-only-if: width only, height only, both with crop (fit), both without crop (exact resize), neither (unchanged); each action carries the profile's own width and height |
| `Imaging.ProfileDimensions` | src/Classes/MediaHandler.php:111-127 | under a lawful codec a profile's image has the width and height it names, and is the fresh source when it names neither |
| `Imaging.ApplyAction` | src/Classes/MediaHandler.php:113-127 | the codec call each dispatch row makes on a fresh decode: aspect resize to one side, `fit`, exact resize, or nothing; `ProfileDimensions` states what it yields |
| `Imaging.ProfileImage` | src/Classes/MediaHandler.php:111-127 | the image a profile yields from a fresh decode of the source: its dispatch row applied; `ProfileDimensions` states its size |
| `Imaging.FitToBound` | src/Classes/MediaHandler.php:252-257 | the stored original: an aspect-ratio resize into the square bound when `max_original_image_dimensions` is not empty, else the decoded image; `FitToBoundWithin` states its effect |
| `Imaging.FitToBoundWithin` | src/Classes/MediaHandler.php:252-257 | under a lawful codec the stored original fits within a non-empty bound on both sides; an empty bound (null or 0) leaves the decoded image unchanged |
| `Renditions.EntryFor` | src/Classes/MediaHandler.php:129-151 | a profile has an entry exactly when its original-format encode succeeds; the entry records the produced width, height and size, and names the file `{origName}-{W}px-{H}px.{ext}`; the webp pair is present exactly when webp is enabled and its encode succeeds, and is named `….webp` |
| `Renditions.JobFor` | src/Classes/MediaHandler.php:105-107 | what every profile of one call shares: the `dirname`, `pathinfo` filename and extension of the stored original's path |
| `Renditions.SizedBase` | src/Classes/MediaHandler.php:130 | `{origName}-{W}px-{H}px`, the rendition name without its extension |
| `Renditions.RenderProfile` | src/Classes/MediaHandler.php:111-151 | one iteration returns the profile's specified entry and leaves the disk as the profile's writes describe; an unsupported encode ends the iteration but keeps what was already written and recorded |
| `Renditions.WritesFor` | src/Classes/MediaHandler.php:132-143 | the disk after one profile: its original-format file, then its webp file when enabled, each only when its encode succeeds; `RenderProfile` is proved to leave exactly this |
| `Renditions.Entries` | src/Classes/MediaHandler.php:110-154 | the map the loop builds, profile by profile, a later profile replacing an earlier one's key; `EntriesKeys`, `EntriesExact` and `EntriesConsistent` state its properties |
| `Renditions.Written` | src/Classes/MediaHandler.php:110-154 | the disk after all profiles in order; `WrittenGrows`, `EntriesOnDisk` and `WrittenFrame` state its properties |
| `Renditions.EntriesKeys` | src/Classes/MediaHandler.php:110-154 | the keys of the result are profile names |
| `Renditions.EntriesExact` | src/Classes/MediaHandler.php:110-154 | with distinct profile names, a profile has an entry exactly when its encode succeeds, and that entry is its own; a skipped profile does not stop the later ones |
| `Renditions.EntriesConsistent` | src/Classes/MediaHandler.php:130-147 | every entry's file name spells its recorded width and height; webp fields appear only when webp is enabled and are named after the same dimensions |
| `Renditions.WrittenGrows` | src/Classes/MediaHandler.php:132-143 | generating renditions never removes a file from the disk |
| `Renditions.EntriesOnDisk` | src/Classes/MediaHandler.php:132-146 | every recorded rendition file, and every recorded webp sibling, is on the disk afterwards |
| `Renditions.WrittenFrame` | src/Classes/MediaHandler.php:132-143 | a path that no profile targets keeps its contents |
| `Renditions.RenditionDimensions` | src/Classes/MediaHandler.php:111-139 | under a lawful codec each entry has the width and height its profile names |
| `Renditions.GenerateImageSizes` | src/Classes/MediaHandler.php:103-155 | the loop returns `Entries` and leaves the disk as `Written` describes; an undecodable source fails unless there are no profiles; directories are unchanged |
| `Input.ValidateFileInput` | src/Classes/MediaHandler.php:187-216 | fails exactly for an upload without name or path, or a local path that does not exist, and says which; `tmpName` is the `basename` of the given path and `tmpPath` its `dirname` without trailing slashes plus `/`; a local path is stored under its own `basename` with empty collection and alt, thumbnails on and the probed MIME type; an upload's fields are carried over with their defaults |
| `Input.ValidatedSourceIsInput` | src/Classes/MediaHandler.php:200-209 | for `dir/name`, `tmpPath` is `dir/`, `tmpName` is `name`, a local path's file name is `name`, and the file the pipeline reads afterwards is the path it was given |
| `Input.SourcePath` | src/Classes/MediaHandler.php:235 | the file the pipeline reads: `$tmpPath . $tmpName` |
| `Input.TrimFilterSpace` | src/Classes/MediaHandler.php:205 | the whitespace `filter_var` ignores is dropped from both ends: the result starts and ends with a non-blank character or is empty |
| `Input.TrimFilterSpaceTrims` | src/Classes/MediaHandler.php:205 | the trimmed text is a contiguous part of the input, and every character dropped before or after it is blank |
| `Input.FilterBool` | src/Classes/MediaHandler.php:205 | `FILTER_VALIDATE_BOOLEAN`: a boolean is itself; text is true only for `1`, `true`, `on` or `yes` after trimming and lower-casing |
| `Input.FilterBoolExamples` | src/Classes/MediaHandler.php:205 | ` Yes` followed by a newline is true, `off` is false, and a boolean is itself |
| `Ingestion.StoragePathEndsInSlash` | src/Classes/MediaHandler.php:165-232 | the storage prefix is empty or ends in `/` |
| `Ingestion.UploadPath` | src/Classes/MediaHandler.php:165 | the sub-path: the configured root, the year, `/`, the month, `/` |
| `Ingestion.StoragePath` | src/Classes/MediaHandler.php:232 | the upload path with its leading slashes dropped; `StoragePathEndsInSlash` and `StoragePathDirectory` state its shape |
| `Ingestion.StoragePathDirectory` | src/Classes/MediaHandler.php:165-232 | with a month that ends in a digit, as `date('m')` does, the storage prefix is a non-empty directory followed by exactly one slash |
| `Ingestion.Truthy` | src/Classes/MediaHandler.php:277 | PHP truthiness of the validated MIME type: everything but `""` and `"0"` |
| `Ingestion.IsImageMime` | src/Classes/MediaHandler.php:69 | `Str::startsWith($mimeType, 'image')` |
| `Ingestion.OrigFilename` | src/Classes/MediaHandler.php:233 | the base every allocation starts from is normalised: `[a-z0-9-]` only, no two adjacent hyphens |
| `Ingestion.GetUploadPath` | src/Classes/MediaHandler.php:163-168 | the sub-path is root, year, `/`, month, `/`; the directory is made only when missing; no file changes |
| `Ingestion.StoreImage` | src/Classes/MediaHandler.php:238-266 | `ImageStored`: undecodable input fails; otherwise failure happens exactly when the original's encode or, with webp enabled, the webp encode is unsupported; on success the original has a name allocated with the coerced extension, and the webp sibling is present exactly when enabled, with a name allocated against the disk that already holds the original. `ImageWritten`: nothing is written on a decode or original-encode failure; the original alone is added when the webp encode fails; on success exactly the original and its sibling are added, every other file unchanged |
| `Ingestion.StoredFiles` | src/Classes/MediaHandler.php:259-265 | the files once the original and, when it has one, its webp sibling are put |
| `Ingestion.ImageStored` | src/Classes/MediaHandler.php:238-266 | the outcome of the image branch (see `StoreImage`) |
| `Ingestion.ImageWritten` | src/Classes/MediaHandler.php:248-265 | the files the image branch leaves (see `StoreImage`) |
| `Ingestion.StoreOther` | src/Classes/MediaHandler.php:267-270 | the bytes are written unchanged under a name allocated with the original extension, and nothing else changes |
| `Ingestion.StoreFile` | src/Classes/MediaHandler.php:226-293 | invalid input fails with nothing written; otherwise everything `StoredValid` lists holds for the record and the disk, including the exact files and directories the disk holds afterwards |
| `Ingestion.RecordFor` | src/Classes/MediaHandler.php:272-283 | what every stored record holds (see below) |
| `Ingestion.OtherStored` | src/Classes/MediaHandler.php:267-270 | a stored non-image (see below) |
| `Ingestion.ImageOutcome` | src/Classes/MediaHandler.php:238-288 | the record of a stored image (see below) |
| `Ingestion.ImageDisk` | src/Classes/MediaHandler.php:248-288 | the disk a stored image leaves (see below) |
| `Ingestion.StoredValid` | src/Classes/MediaHandler.php:226-293 | everything `storeFile` promises for a validated input, the directories included (see below) |
| `Ingestion.StoredNameSplits` | src/Classes/MediaHandler.php:245-300 | an allocated name splits back, under `pathinfo`, into its probe stem and its extension |
| `Ingestion.StoredImageNames` | src/Classes/MediaHandler.php:238-288 | a stored image takes a path that was free, keeps the coerced extension, has a webp sibling of its own when enabled, and names every rendition after itself |
| `Ingestion.StoredOtherNames` | src/Classes/MediaHandler.php:267-270 | a stored non-image takes a path that was free, so no existing file is overwritten, and keeps the uploaded extension |
| `Ingestion.Thumbnails` | src/Classes/MediaHandler.php:285-288 | once the original has decoded, the generated map is `Entries` and the disk is exactly `Written` from the disk before |
| `Ingestion.NewRecord` | src/Classes/MediaHandler.php:272-283 | the record carries the stored name, size and webp pair, with empty `image_sizes` and `data` |
| `Ingestion.StoreImageFile` | src/Classes/MediaHandler.php:238-288 | the image branch of `storeFile` and its renditions, stated as `ImageOutcome`, `ImageDisk` and `RecordFor` |
| `Ingestion.LiftImageOutcome` | src/Classes/MediaHandler.php:272-288 | a record built from the image branch's outcome, its stored name, size and webp pair, meets `ImageOutcome` |
| `Ingestion.LiftImageDisk` | src/Classes/MediaHandler.php:248-288 | the files the image branch leaves, followed by the renditions' writes when requested, meet `ImageDisk` |
| `Ingestion.StoredRenditionsOnDisk` | src/Classes/MediaHandler.php:285-288 | every file named in a stored image's `image_sizes`, and its webp sibling, is on the disk `storeFile` leaves, beside the original |
| `Ingestion.StoredImageFrame` | src/Classes/MediaHandler.php:238-288 | a file the disk had before an image is stored keeps its contents unless some profile targets its path (`Renditions.Targets`, which includes the webp rendition path even when nothing is written there); the original and its sibling only take free paths |
| `Ingestion.OriginalNotTargeted` | src/Classes/MediaHandler.php:130-143 | no rendition is written to the path of the original it is made from |
| `Ingestion.StoredOriginalKept` | src/Classes/MediaHandler.php:259-288 | after `storeFile` the stored original's file holds its re-encoded bytes, renditions notwithstanding |
| `Ingestion.StoreValidated` | src/Classes/MediaHandler.php:231-292 | `storeFile` after validation satisfies `StoredValid`: only the upload directory may be added, and the files are as the branch taken describes |
| `Ingestion.CreateFromFile` | src/Classes/MediaHandler.php:56-61 | a missing path fails with nothing written; an existing path is stored as `storeFile` stores it (`StoredValid` of its validation); a stored record has empty collection and alt |
| `Ingestion.CreateFromUrl` | src/Classes/MediaHandler.php:63-75 | a failed fetch, or a MIME type not starting with `image`, gives no record and leaves the disk unchanged; otherwise the file is stored as `storeFile` stores it (`StoredValid`), its record returned on success and no record on any failure |

`StoredValid` (ingestion.dfy) holds what `storeFile` promises for a validated input. The directories are the old ones plus the upload directory when it did not exist, and nothing else. It combines these predicates:

- `RecordFor` applies to every record:
  - collection and alt come from the input, and `path` is the storage prefix;
  - the MIME type is the given one when truthy, else the disk's;
  - the webp pair is set exactly for an image with webp enabled;
  - `image_sizes` is non-empty only for an image with thumbnails;
  - the stored files are on the disk.
- `OtherStored` applies to a non-image. It is stored byte for byte under a name allocated with the original extension, with no webp pair and empty `image_sizes`.
- `ImageOutcome` applies to an image:
  - failure happens exactly when decoding or a stored encode fails;
  - the name is allocated with the coerced extension;
  - the webp sibling gets its own allocation against the disk that already holds the original;
  - `image_sizes` is `Entries` of the stored original under `withThumbnails`, and empty otherwise.
- `ImageDisk` gives the disk an image leaves:
  - no file changes when decoding or the original's encode fails;
  - only the original is added when the webp encode fails;
  - on success the original and its sibling are added, and then, on request, the renditions' writes (`Written`) over that disk.

## Left out

- HTTP: `createFromRequest` (src/Classes/MediaHandler.php:34-46) and the Guzzle download of `createFromUrl`. `CreateFromUrl` takes the downloaded temporary file, or None for a request that threw.
- Logging of `createFromUrl` failures.
- The filesystem and format probes are oracle parameters of the model, not modelled: `tempnam`, `file_exists`, `mime_content_type` (its `false` is the empty string), `exif_imagetype` (`isReadableImage`) and `file_get_contents`.
- The disk MIME lookup at src/Classes/MediaHandler.php:277 is the parameter `probeMime`. `getClientMimeType` is a method of Laravel's uploaded-file class; a filesystem disk offers `mimeType` instead. On a stock disk the falsy-MIME branch therefore throws after the files are written. The model instead lets the lookup succeed, so it does not capture that failure.
- Pixels: the codec is abstract.
  - Only the dimensions it reports, whether decoding succeeds and whether encoding to a format succeeds are modelled.
  - Encode qualities are passed on: 80 for originals and original-format renditions, the library default 90 for rendition webp.
  - `Image::make` of the already encoded original at src/Classes/MediaHandler.php:264 is modelled as the same in-memory image, which is what the library returns for an image object.
- Ambient state is passed in as explicit parameters: `config(...)`, `date('Y')`/`date('m')`, `Storage::disk` and `app()->make`.
- Persistence: `Media::save` and `json_encode` are not modelled.
  - `image_sizes` and `data` are kept as maps, empty where the source writes `'{}'`.
  - The source serialises an empty generated map as `[]` rather than `{}`; the model does not distinguish the two.
- Directory semantics: the disk is a flat map of paths plus a set of directory paths. Implicit creation of parent directories by `put` and `makeDirectory` is not modelled. Paths are raw strings: the real filesystem layer normalises them (dropping empty and `.` segments), so `a//b` and `a/b` name the same file there but two different keys in the model.
- `Storage.Disk.Put`, `Storage.Disk.Size` and `Storage.Disk.MakeDirectory` always succeed in the model. In the source the results of `put` (src/Classes/MediaHandler.php:132, 143, 260, 265, 269) are discarded, and the `size` calls that follow (:136, 146, 278, 280) read a file that may be missing. On a storage failure such as a full disk or a permission error, `storeFile` therefore throws after its earlier writes and `createFromUrl` returns null. The model has no such failure, so `StoredValid`'s success of the non-image branch and its exact file maps hold only for a disk that does not fail.
- Concurrency: the disk is sequential. The race between the existence probe and the write when two ingestions allocate the same name is not modelled.
- `Text.NatToString`: the probe counter is an unbounded natural, so PHP integer overflow after 2^63 probes is not modelled.
- `Renditions.GenerateImageSizes`: rendition paths are written without an existence check, as in the source. The model states what is overwritten (`Written`) but does not claim freedom from collisions.
- `Ingestion.StoreImage`: when the webp encode of the original fails, the already written original stays on the disk. `ImageWritten` states this, but the record-level result carries no name for that orphan file.
- `Ingestion.StoredOriginalKept`: it assumes a month that ends in a digit, as `date('m')` gives. For an arbitrary slash-ending month the rendition paths' `dirname` could collapse slashes, and the lemma does not cover that case.
- `Imaging.ProfileDimensions` and `Renditions.RenditionDimensions`: aspect-preserving resizes are stated only for the side the profile names. The other side depends on pixel arithmetic, which the abstract codec does not carry.
