/**
 * `storeFile` and its callers: validate the input, store the original (re-encoded, and with a
 * webp sibling, when it is an image), generate renditions, and assemble the media record.
 */
module Ingestion {
  import opened Wrappers
  import opened Text
  import opened Paths
  import opened FileNames
  import opened Storage
  import opened Allocator
  import opened Imaging
  import opened Renditions
  import opened Input

  /** The configuration the handler reads, and the clock's year and month, as values. */
  datatype Settings = Settings(
    storagePath: string,          // nova-media-field.storage_path
    year: string,                 // date('Y')
    month: string,                // date('m')
    webpEnabled: bool,            // nova-media-field.webp_enabled
    maxDimension: Option<nat>,    // nova-media-field.max_original_image_dimensions
    profiles: seq<SizeProfile>)   // NovaMediaLibrary::getImageSizes()

  /**
   * The local filesystem the input lives on: `file_exists`, `mime_content_type`,
   * `isReadableImage` (the `exif_imagetype` probe) and `file_get_contents`.
   */
  datatype LocalFiles = LocalFiles(
    fileExists: string -> bool,
    mimeContentType: string -> string,
    isReadableImage: string -> bool,
    contents: string -> seq<byte>)

  /** The `Media` row, before `json_encode` of `image_sizes` and `data`. */
  datatype MediaRecord = MediaRecord(
    collectionName: string,
    path: string,
    fileName: string,
    alt: string,
    mimeType: string,
    fileSize: nat,
    webp: Option<Sibling>,
    imageSizes: map<string, Rendition>,
    data: map<string, string>)

  /** Why `storeFile` throws. */
  datatype IngestError =
    | InvalidInput(reason: InputError)   // validateFileInput
    | UnreadableImage                    // Image::make
    | EncodingNotSupported               // encode of the original or of its webp sibling

  /** `getUploadPath`'s sub-path: the storage root, the year and the month. */
  function UploadPath(cfg: Settings): string {
    cfg.storagePath + cfg.year + "/" + cfg.month + "/"
  }

  /** The prefix files are written under: the upload path without leading slashes. */
  function StoragePath(cfg: Settings): string {
    LTrim(UploadPath(cfg), '/')
  }

  /** PHP truthiness of a string: everything but "" and "0". */
  predicate Truthy(s: string) {
    s != "" && s != "0"
  }

  /** `Str::startsWith($mimeType, 'image')`, the gate of `createFromUrl`. */
  predicate IsImageMime(mimeType: string) {
    StartsWith(mimeType, "image")
  }

  /** `$origFilename`: the normalised stem every allocation for this input starts from. */
  function OrigFilename(v: ValidInput): (base: string)
    ensures Normal(base)
  {
    NormalizeIsNormal(PathFilename(v.fileName));
    Normalize(PathFilename(v.fileName))
  }

  /** The storage prefix ends in `/` (or is empty), so a stored name is its own `basename`. */
  lemma StoragePathEndsInSlash(cfg: Settings)
    ensures var sp := StoragePath(cfg); sp == [] || sp[|sp| - 1] == '/'
  {
    var u := UploadPath(cfg);
    var sp := StoragePath(cfg);
    assert u[|u| - 1] == '/';
    if sp != [] {
      assert sp[|sp| - 1] == u[|u| - 1];
    }
  }

  /** `getUploadPath($disk)`: makes the directory when the disk does not have it. */
  method GetUploadPath(disk: Disk, cfg: Settings) returns (subPath: string)
    modifies disk
    ensures subPath == UploadPath(cfg)
    ensures disk.files == old(disk.files)
    ensures disk.dirs == if old(disk.Exists(subPath)) then old(disk.dirs) else old(disk.dirs) + {subPath}
    ensures disk.Paths() == old(disk.Paths()) + {subPath}
  {
    subPath := cfg.storagePath + cfg.year + "/" + cfg.month + "/";
    if !disk.Exists(subPath) {
      disk.MakeDirectory(subPath);
    }
  }

  /** What `storeFile` has written for the original: its name, its size and its webp sibling. */
  datatype Stored = Stored(name: string, size: nat, webp: Option<Sibling>)

  /**
   * What the image branch of `storeFile` yields against the paths `taken` before it: it fails
   * exactly when decoding or a stored encode fails; otherwise the original has a name allocated
   * with the coerced extension, and the webp sibling, present exactly when enabled, a name
   * allocated once the original is on the disk.
   */
  ghost predicate ImageStored(sp: string, base: string, origExtension: string, bytes: seq<byte>, codec: Codec,
                              maxDimension: Option<nat>, webpEnabled: bool, taken: set<string>,
                              r: Result<Stored, IngestError>)
  {
    var decoded := codec.decode(bytes);
    var ext := CoerceExtension(origExtension);
    && (decoded.None? ==> r == Failure(UnreadableImage))
    && (decoded.Some? ==>
          var img := FitToBound(codec, decoded.value, maxDimension);
          var original, sibling := codec.encode(img, ext, StoredQuality), codec.encode(img, "webp", StoredQuality);
          && (r.Failure? <==> original.Failure? || (webpEnabled && sibling.Failure?))
          && (r.Failure? ==> r.error == EncodingNotSupported)
          && (r.Success? ==>
                && original.Success?
                && AllocatedIn(taken, sp, base, ext, r.value.name)
                && r.value.size == |original.value|
                && (r.value.webp.Some? <==> webpEnabled)
                && (webpEnabled ==>
                      && sibling.Success?
                      && AllocatedIn(taken + {sp + r.value.name}, sp, base, "webp", r.value.webp.value.name)
                      && r.value.webp.value.size == |sibling.value|)))
  }

  /** The files once the original, and its webp sibling when it has one, are written. */
  function StoredFiles(files0: map<string, seq<byte>>, sp: string, stored: Stored, original: seq<byte>,
                       sibling: Result<seq<byte>, Unsupported>): map<string, seq<byte>>
  {
    var withOriginal := files0[sp + stored.name := original];
    if stored.webp.Some? && sibling.Success? then withOriginal[sp + stored.webp.value.name := sibling.value]
    else withOriginal
  }

  /**
   * The files the image branch leaves, from `files0` before it: nothing is written until the
   * original encodes; then the original is written, and the webp sibling after it. When the
   * sibling cannot be encoded the original stays on the disk.
   */
  ghost predicate ImageWritten(sp: string, base: string, origExtension: string, bytes: seq<byte>, codec: Codec,
                               maxDimension: Option<nat>, webpEnabled: bool, taken: set<string>,
                               files0: map<string, seq<byte>>, r: Result<Stored, IngestError>,
                               files: map<string, seq<byte>>)
  {
    var decoded := codec.decode(bytes);
    var ext := CoerceExtension(origExtension);
    && (decoded.None? ==> files == files0)
    && (decoded.Some? ==>
          var img := FitToBound(codec, decoded.value, maxDimension);
          var original, sibling := codec.encode(img, ext, StoredQuality), codec.encode(img, "webp", StoredQuality);
          && (original.Failure? ==> files == files0)
          && (original.Success? && r.Failure? ==>
                exists name :: AllocatedIn(taken, sp, base, ext, name) && files == files0[sp + name := original.value])
          && (original.Success? && r.Success? ==> files == StoredFiles(files0, sp, r.value, original.value, sibling)))
  }

  /**
   * The image branch of `storeFile`: coerce the extension, allocate a name, decode, fit to the
   * bound, re-encode at the stored quality and write; then the same for the webp sibling when
   * enabled.
   */
  method StoreImage(disk: Disk, sp: string, base: string, origExtension: string, bytes: seq<byte>,
                    codec: Codec, maxDimension: Option<nat>, webpEnabled: bool)
    returns (r: Result<Stored, IngestError>)
    modifies disk
    ensures disk.dirs == old(disk.dirs)
    ensures old(disk.Paths()) <= disk.Paths()
    ensures ImageStored(sp, base, origExtension, bytes, codec, maxDimension, webpEnabled, old(disk.Paths()), r)
    ensures ImageWritten(sp, base, origExtension, bytes, codec, maxDimension, webpEnabled, old(disk.Paths()),
                         old(disk.files), r, disk.files)
  {
    ghost var taken, files0 := disk.Paths(), disk.files;
    var ext := CoerceExtension(origExtension);
    var newFilename := CreateUniqueFilename(disk, sp, base, ext);
    var decoded := codec.decode(bytes);
    if decoded.None? {
      return Failure(UnreadableImage);
    }
    var image := decoded.value;
    if maxDimension.Some? && maxDimension.value != 0 {
      image := ResizeWithin(codec, image, maxDimension.value, maxDimension.value);
    }
    var file := codec.encode(image, ext, StoredQuality);
    if file.Failure? {
      return Failure(EncodingNotSupported);
    }
    disk.Put(sp + newFilename, file.value);
    var webp: Option<Sibling> := None;
    if webpEnabled {
      var name := CreateUniqueFilename(disk, sp, base, "webp");
      var webpImg := codec.encode(image, "webp", StoredQuality);
      if webpImg.Failure? {
        assert AllocatedIn(taken, sp, base, ext, newFilename) && disk.files == files0[sp + newFilename := file.value];
        return Failure(EncodingNotSupported);
      }
      disk.Put(sp + name, webpImg.value);
      webp := Some(Sibling(name, disk.Size(sp + name)));
    }
    return Success(Stored(newFilename, disk.Size(sp + newFilename), webp));
  }

  /** The other branch of `storeFile`: allocate a name that keeps the extension and copy the bytes. */
  method StoreOther(disk: Disk, sp: string, base: string, ext: string, bytes: seq<byte>)
    returns (s: Stored)
    modifies disk
    ensures AllocatedIn(old(disk.Paths()), sp, base, ext, s.name)
    ensures disk.files == old(disk.files)[sp + s.name := bytes]
    ensures disk.dirs == old(disk.dirs)
    ensures s.size == |bytes| && s.webp.None?
  {
    var newFilename := CreateUniqueFilename(disk, sp, base, ext);
    disk.Put(sp + newFilename, bytes);
    s := Stored(newFilename, disk.Size(sp + newFilename), None);
  }

  /**
   * `storeFile($fileData, $disk)`. `probeMime` stands for the disk's MIME lookup used when the
   * validated MIME type is falsy.
   */
  method StoreFile(input: FileInput, disk: Disk, cfg: Settings, local: LocalFiles, codec: Codec,
                   probeMime: string -> string)
    returns (r: Result<MediaRecord, IngestError>)
    modifies disk
    // Invalid input fails before anything is written.
    ensures var v := ValidateFileInput(input, local.fileExists, local.mimeContentType);
      v.Failure? ==>
        && r == Failure(InvalidInput(v.error))
        && disk.files == old(disk.files) && disk.dirs == old(disk.dirs)
    ensures var v := ValidateFileInput(input, local.fileExists, local.mimeContentType);
      v.Success? ==> StoredValid(v.value, old(disk.files), old(disk.dirs), old(disk.Paths()), disk, cfg, local, codec, probeMime, r)
  {
    var v := ValidateFileInput(input, local.fileExists, local.mimeContentType);
    if v.Failure? {
      return Failure(InvalidInput(v.error));
    }
    r := StoreValidated(v.value, disk, cfg, local, codec, probeMime);
  }

  /** What every stored record holds, whatever kind of file it came from. */
  ghost predicate RecordFor(v: ValidInput, cfg: Settings, local: LocalFiles, probeMime: string -> string,
                            disk: Disk, rec: MediaRecord)
    reads disk
  {
    var sp, isImage := StoragePath(cfg), local.isReadableImage(SourcePath(v));
    && rec.collectionName == v.collection && rec.alt == v.alt
    && rec.path == sp && rec.data == map[]
    && rec.mimeType == (if Truthy(v.mimeType) then v.mimeType else probeMime(sp + rec.fileName))
    && (rec.webp.Some? <==> cfg.webpEnabled && isImage)
    && (rec.imageSizes != map[] ==> isImage && v.withThumbnails)
    && sp + rec.fileName in disk.files
    && (rec.webp.Some? ==> sp + rec.webp.value.name in disk.files)
  }

  /** A non-image is copied byte for byte under a name that keeps its extension. */
  ghost predicate OtherStored(v: ValidInput, files0: map<string, seq<byte>>, taken: set<string>, cfg: Settings,
                              local: LocalFiles, disk: Disk, rec: MediaRecord)
    reads disk
  {
    var sp, bytes := StoragePath(cfg), local.contents(SourcePath(v));
    && AllocatedIn(taken, sp, OrigFilename(v), PathExtension(v.fileName), rec.fileName)
    && disk.files == files0[sp + rec.fileName := bytes]
    && rec.fileSize == |bytes|
    && rec.webp.None? && rec.imageSizes == map[]
  }

  /**
   * `ImageOutcome` and `ImageDisk` restate `ImageStored` and `ImageWritten` for the record
   * `storeFile` returns, with the renditions added. The branch-level pair is what `StoreImage`
   * can promise before any record exists; the record-level pair is what callers of `storeFile`
   * see, stated without a `Stored` value. `LiftImageOutcome` and `LiftImageDisk` prove that the
   * first pair, on the record's projection `Stored(fileName, fileSize, webp)`, gives the second.
   *
   * An image fails exactly when the codec cannot decode it or cannot encode what is stored; once
   * stored it has the coerced extension, a separately allocated webp sibling and, on request,
   * its renditions.
   */
  ghost predicate ImageOutcome(v: ValidInput, taken: set<string>, cfg: Settings, local: LocalFiles, codec: Codec,
                               r: Result<MediaRecord, IngestError>)
  {
    var sp := StoragePath(cfg);
    var decoded := codec.decode(local.contents(SourcePath(v)));
    var ext := CoerceExtension(PathExtension(v.fileName));
    && (decoded.None? ==> r == Failure(UnreadableImage))
    && (decoded.Some? ==>
          var img := FitToBound(codec, decoded.value, cfg.maxDimension);
          var original, sibling := codec.encode(img, ext, StoredQuality), codec.encode(img, "webp", StoredQuality);
          && (r.Failure? <==> original.Failure? || (cfg.webpEnabled && sibling.Failure?))
          && (r.Failure? ==> r.error == EncodingNotSupported)
          && (r.Success? ==>
                var rec := r.value;
                && original.Success?
                && AllocatedIn(taken, sp, OrigFilename(v), ext, rec.fileName)
                && rec.fileSize == |original.value|
                && (rec.webp.Some? <==> cfg.webpEnabled)
                && (cfg.webpEnabled ==>
                      && sibling.Success? && rec.webp.Some?
                      && AllocatedIn(taken + {sp + rec.fileName}, sp, OrigFilename(v), "webp", rec.webp.value.name)
                      && rec.webp.value.size == |sibling.value|)
                && rec.imageSizes ==
                     if v.withThumbnails
                     then Entries(JobFor(codec, decoded.value, sp + rec.fileName, cfg.webpEnabled), cfg.profiles)
                     else map[]))
  }

  /**
   * The files an image leaves, from `files0` before `storeFile`: none until the original
   * encodes, then the original and its webp sibling, then the renditions' writes on request.
   */
  ghost predicate ImageDisk(v: ValidInput, files0: map<string, seq<byte>>, taken: set<string>, cfg: Settings,
                            local: LocalFiles, codec: Codec, r: Result<MediaRecord, IngestError>,
                            files: map<string, seq<byte>>)
  {
    var sp := StoragePath(cfg);
    var decoded := codec.decode(local.contents(SourcePath(v)));
    var ext := CoerceExtension(PathExtension(v.fileName));
    && (decoded.None? ==> files == files0)
    && (decoded.Some? ==>
          var img := FitToBound(codec, decoded.value, cfg.maxDimension);
          var original, sibling := codec.encode(img, ext, StoredQuality), codec.encode(img, "webp", StoredQuality);
          && (original.Failure? ==> files == files0)
          && (original.Success? && r.Failure? ==>
                exists name :: AllocatedIn(taken, sp, OrigFilename(v), ext, name) && files == files0[sp + name := original.value])
          && (original.Success? && r.Success? ==>
                var rec := r.value;
                var stored := StoredFiles(files0, sp, Stored(rec.fileName, rec.fileSize, rec.webp), original.value, sibling);
                files ==
                  if v.withThumbnails
                  then Written(JobFor(codec, decoded.value, sp + rec.fileName, cfg.webpEnabled), stored, cfg.profiles)
                  else stored))
  }

  /** Everything `storeFile` promises for a validated input, against the disk as it was before. */
  ghost predicate StoredValid(v: ValidInput, files0: map<string, seq<byte>>, dirs0: set<string>, taken0: set<string>,
                              disk: Disk, cfg: Settings, local: LocalFiles, codec: Codec, probeMime: string -> string,
                              r: Result<MediaRecord, IngestError>)
    reads disk
  {
    var taken := taken0 + {UploadPath(cfg)};
    var isImage := local.isReadableImage(SourcePath(v));
    && taken <= disk.Paths()
    && disk.dirs == (if UploadPath(cfg) in taken0 then dirs0 else dirs0 + {UploadPath(cfg)})
    && (r.Success? ==> RecordFor(v, cfg, local, probeMime, disk, r.value))
    && (!isImage ==> r.Success? && OtherStored(v, files0, taken, cfg, local, disk, r.value))
    && (isImage ==> ImageOutcome(v, taken, cfg, local, codec, r) && ImageDisk(v, files0, taken, cfg, local, codec, r, disk.files))
  }

  /** An allocated name splits back, under `pathinfo`, into its probe stem and its extension. */
  lemma StoredNameSplits(sp: string, base: string, k: nat, ext: string)
    requires sp == [] || sp[|sp| - 1] == '/'
    requires Normal(base) && '.' !in ext && '/' !in ext
    ensures PathFilename(sp + Candidate(base, k, ext)) == if k == 0 then base else base + "-" + NatToString(k)
    ensures PathExtension(sp + Candidate(base, k, ext)) == ext
  {
    var stem := if k == 0 then base else base + "-" + NatToString(k);
    assert Candidate(base, k, ext) == stem + "." + ext;
    StemPlain(base, k);
    assert sp + Candidate(base, k, ext) == sp + stem + "." + ext;
    FilenameExtension(sp, stem, ext);
  }

  /** A probe stem, a normalised base and an optional numeric suffix, has no slash. */
  lemma StemPlain(base: string, k: nat)
    requires Normal(base)
    ensures '/' !in if k == 0 then base else base + "-" + NatToString(k)
  {
    if k != 0 {
      var digits := NatToString(k);
      var stem := base + "-" + digits;
      forall i | 0 <= i < |stem| ensures stem[i] != '/' {
        if i < |base| {
          assert stem[i] == base[i];
        } else if i > |base| {
          assert stem[i] == digits[i - |base| - 1];
        }
      }
    }
  }

  /**
   * A stored image never takes a path the disk had, keeps the coerced extension, has a webp
   * sibling of its own, and names every rendition after itself with that extension.
   */
  lemma StoredImageNames(v: ValidInput, taken: set<string>, cfg: Settings, local: LocalFiles, codec: Codec,
                         r: Result<MediaRecord, IngestError>)
    requires ImageOutcome(v, taken, cfg, local, codec, r) && r.Success?
    ensures var sp, rec, ext := StoragePath(cfg), r.value, CoerceExtension(PathExtension(v.fileName));
      && sp + rec.fileName !in taken
      && PathExtension(sp + rec.fileName) == ext
      && (cfg.webpEnabled ==>
            && rec.webp.Some?
            && sp + rec.webp.value.name !in taken
            && rec.webp.value.name != rec.fileName)
      && (forall key | key in rec.imageSizes ::
            rec.imageSizes[key].fileName
              == SizedBase(PathFilename(sp + rec.fileName), rec.imageSizes[key].width, rec.imageSizes[key].height)
                 + "." + ext)
  {
    var sp, rec, ext := StoragePath(cfg), r.value, CoerceExtension(PathExtension(v.fileName));
    var base := OrigFilename(v);
    var k: nat :| FirstFree(taken, sp, base, ext, k) && rec.fileName == Candidate(base, k, ext);
    NormalizeIsNormal(PathFilename(v.fileName));
    ImageExtensionsPlain(ext);
    StoragePathEndsInSlash(cfg);
    StoredNameSplits(sp, base, k, ext);
    AllocationFree(taken, sp, base, ext, rec.fileName);
    if cfg.webpEnabled {
      AllocationFree(taken + {sp + rec.fileName}, sp, base, "webp", rec.webp.value.name);
    }
    if v.withThumbnails {
      var decoded := codec.decode(local.contents(SourcePath(v)));
      EntriesConsistent(JobFor(codec, decoded.value, sp + rec.fileName, cfg.webpEnabled), cfg.profiles);
    }
  }

  /**
   * A stored non-image never takes a path the disk had, so every file already there keeps its
   * contents; its name keeps the uploaded extension.
   */
  lemma StoredOtherNames(v: ValidInput, files0: map<string, seq<byte>>, taken: set<string>, cfg: Settings,
                         local: LocalFiles, disk: Disk, rec: MediaRecord)
    requires files0.Keys <= taken
    requires OtherStored(v, files0, taken, cfg, local, disk, rec)
    ensures var sp := StoragePath(cfg);
      && sp + rec.fileName !in taken
      && PathExtension(sp + rec.fileName) == PathExtension(v.fileName)
      && (forall p | p in files0 :: p in disk.files && disk.files[p] == files0[p])
  {
    var sp, ext, base := StoragePath(cfg), PathExtension(v.fileName), OrigFilename(v);
    var k: nat :| FirstFree(taken, sp, base, ext, k) && rec.fileName == Candidate(base, k, ext);
    NormalizeIsNormal(PathFilename(v.fileName));
    PathExtensionPlain(v.fileName);
    StoragePathEndsInSlash(cfg);
    StoredNameSplits(sp, base, k, ext);
    AllocationFree(taken, sp, base, ext, rec.fileName);
  }

  /** The `generateImageSizes` call of `storeFile`, made only once the original has decoded. */
  method Thumbnails(file: seq<byte>, path: string, disk: Disk, codec: Codec, profiles: seq<SizeProfile>,
                    webpEnabled: bool)
    returns (sizes: map<string, Rendition>)
    requires codec.decode(file).Some?
    modifies disk
    ensures sizes == Entries(JobFor(codec, codec.decode(file).value, path, webpEnabled), profiles)
    ensures disk.dirs == old(disk.dirs)
    ensures disk.files == Written(JobFor(codec, codec.decode(file).value, path, webpEnabled), old(disk.files), profiles)
    ensures old(disk.files).Keys <= disk.files.Keys
  {
    ghost var before := disk.files;
    var generated := GenerateImageSizes(file, path, disk, codec, profiles, webpEnabled);
    WrittenGrows(JobFor(codec, codec.decode(file).value, path, webpEnabled), before, profiles);
    sizes := generated.value;
  }

  /** The record `storeFile` saves, before any renditions. */
  function NewRecord(v: ValidInput, sp: string, stored: Stored, probeMime: string -> string): (rec: MediaRecord)
    ensures rec.fileName == stored.name && rec.fileSize == stored.size && rec.webp == stored.webp
    ensures rec.imageSizes == map[] && rec.data == map[]
  {
    var mimeType := if Truthy(v.mimeType) then v.mimeType else probeMime(sp + stored.name);
    MediaRecord(v.collection, sp, stored.name, v.alt, mimeType, stored.size, stored.webp, map[], map[])
  }

  /** `storeFile` for a validated image, once the upload directory exists. */
  method StoreImageFile(vi: ValidInput, disk: Disk, cfg: Settings, local: LocalFiles, codec: Codec,
                        probeMime: string -> string)
    returns (r: Result<MediaRecord, IngestError>)
    requires local.isReadableImage(SourcePath(vi))
    modifies disk
    ensures old(disk.Paths()) <= disk.Paths()
    ensures r.Success? ==> RecordFor(vi, cfg, local, probeMime, disk, r.value)
    ensures ImageOutcome(vi, old(disk.Paths()), cfg, local, codec, r)
    ensures ImageDisk(vi, old(disk.files), old(disk.Paths()), cfg, local, codec, r, disk.files)
    ensures disk.dirs == old(disk.dirs)
  {
    var storagePath := StoragePath(cfg);
    var source := SourcePath(vi);
    ghost var taken, files0 := disk.Paths(), disk.files;
    var attempt := StoreImage(disk, storagePath, OrigFilename(vi), PathExtension(vi.fileName), local.contents(source),
                              codec, cfg.maxDimension, cfg.webpEnabled);
    ghost var files1 := disk.files;
    if attempt.Failure? {
      r := Failure(attempt.error);
      LiftImageOutcome(vi, taken, cfg, local, codec, attempt, r);
      LiftImageDisk(vi, taken, files0, files1, cfg, local, codec, attempt, r, disk.files);
      return;
    }
    var stored := attempt.value;
    var model := NewRecord(vi, storagePath, stored, probeMime);
    if vi.withThumbnails {
      var sizes := Thumbnails(local.contents(source), storagePath + stored.name, disk, codec, cfg.profiles,
                              cfg.webpEnabled);
      model := model.(imageSizes := sizes);
    }
    r := Success(model);
    LiftImageOutcome(vi, taken, cfg, local, codec, attempt, r);
    LiftImageDisk(vi, taken, files0, files1, cfg, local, codec, attempt, r, disk.files);
  }

  /** The record built from the image branch's outcome meets `ImageOutcome`. */
  lemma LiftImageOutcome(vi: ValidInput, taken: set<string>, cfg: Settings, local: LocalFiles, codec: Codec,
                         attempt: Result<Stored, IngestError>, r: Result<MediaRecord, IngestError>)
    requires ImageStored(StoragePath(cfg), OrigFilename(vi), PathExtension(vi.fileName), local.contents(SourcePath(vi)),
                         codec, cfg.maxDimension, cfg.webpEnabled, taken, attempt)
    requires attempt.Failure? ==> r == Failure(attempt.error)
    requires attempt.Success? ==>
      && r.Success?
      && r.value.fileName == attempt.value.name && r.value.fileSize == attempt.value.size
      && r.value.webp == attempt.value.webp
      && r.value.imageSizes ==
           if vi.withThumbnails
           then Entries(JobFor(codec, codec.decode(local.contents(SourcePath(vi))).value,
                               StoragePath(cfg) + attempt.value.name, cfg.webpEnabled), cfg.profiles)
           else map[]
    ensures ImageOutcome(vi, taken, cfg, local, codec, r)
  {
  }

  /** The files the image branch and the renditions after it leave meet `ImageDisk`. */
  lemma LiftImageDisk(vi: ValidInput, taken: set<string>, files0: map<string, seq<byte>>,
                      files1: map<string, seq<byte>>, cfg: Settings, local: LocalFiles, codec: Codec,
                      attempt: Result<Stored, IngestError>, r: Result<MediaRecord, IngestError>,
                      files: map<string, seq<byte>>)
    requires ImageStored(StoragePath(cfg), OrigFilename(vi), PathExtension(vi.fileName), local.contents(SourcePath(vi)),
                         codec, cfg.maxDimension, cfg.webpEnabled, taken, attempt)
    requires ImageWritten(StoragePath(cfg), OrigFilename(vi), PathExtension(vi.fileName), local.contents(SourcePath(vi)),
                          codec, cfg.maxDimension, cfg.webpEnabled, taken, files0, attempt, files1)
    requires attempt.Failure? ==> r == Failure(attempt.error) && files == files1
    requires attempt.Success? ==>
      && r.Success?
      && r.value.fileName == attempt.value.name && r.value.fileSize == attempt.value.size
      && r.value.webp == attempt.value.webp
      && files ==
           if vi.withThumbnails
           then Written(JobFor(codec, codec.decode(local.contents(SourcePath(vi))).value,
                               StoragePath(cfg) + attempt.value.name, cfg.webpEnabled), files1, cfg.profiles)
           else files1
    ensures ImageDisk(vi, files0, taken, cfg, local, codec, r, files)
  {
    if attempt.Success? {
      assert Stored(r.value.fileName, r.value.fileSize, r.value.webp) == attempt.value;
    }
  }

  /** `storeFile` after validation. */
  method StoreValidated(vi: ValidInput, disk: Disk, cfg: Settings, local: LocalFiles, codec: Codec,
                        probeMime: string -> string)
    returns (r: Result<MediaRecord, IngestError>)
    modifies disk
    ensures StoredValid(vi, old(disk.files), old(disk.dirs), old(disk.Paths()), disk, cfg, local, codec, probeMime, r)
  {
    var uploadPath := GetUploadPath(disk, cfg);
    var storagePath := LTrim(uploadPath, '/');
    var source := SourcePath(vi);
    if local.isReadableImage(source) {
      r := StoreImageFile(vi, disk, cfg, local, codec, probeMime);
    } else {
      var stored := StoreOther(disk, storagePath, OrigFilename(vi), PathExtension(vi.fileName), local.contents(source));
      r := Success(NewRecord(vi, storagePath, stored, probeMime));
    }
  }

  /**
   * Every file in the rendition map, and its webp sibling, is on the disk `storeFile` leaves,
   * beside the stored original.
   */
  lemma StoredRenditionsOnDisk(v: ValidInput, files0: map<string, seq<byte>>, taken: set<string>, cfg: Settings,
                               local: LocalFiles, codec: Codec, r: Result<MediaRecord, IngestError>,
                               files: map<string, seq<byte>>)
    requires ImageOutcome(v, taken, cfg, local, codec, r) && ImageDisk(v, files0, taken, cfg, local, codec, r, files)
    requires r.Success?
    ensures var dir := Dirname(StoragePath(cfg) + r.value.fileName);
      forall key | key in r.value.imageSizes ::
        && dir + "/" + r.value.imageSizes[key].fileName in files
        && (r.value.imageSizes[key].webp.Some? ==> dir + "/" + r.value.imageSizes[key].webp.value.name in files)
  {
    if v.withThumbnails {
      var sp, rec := StoragePath(cfg), r.value;
      var decoded := codec.decode(local.contents(SourcePath(v)));
      var img := FitToBound(codec, decoded.value, cfg.maxDimension);
      var ext := CoerceExtension(PathExtension(v.fileName));
      var stored := StoredFiles(files0, sp, Stored(rec.fileName, rec.fileSize, rec.webp),
                                codec.encode(img, ext, StoredQuality).value, codec.encode(img, "webp", StoredQuality));
      EntriesOnDisk(JobFor(codec, decoded.value, sp + rec.fileName, cfg.webpEnabled), stored, cfg.profiles);
    }
  }

  /**
   * A file the disk had before `storeFile` stored an image keeps its contents, unless some
   * profile targets its path (`Targets`): the original and its sibling only take free paths.
   */
  lemma StoredImageFrame(v: ValidInput, files0: map<string, seq<byte>>, taken: set<string>, cfg: Settings,
                         local: LocalFiles, codec: Codec, r: Result<MediaRecord, IngestError>,
                         files: map<string, seq<byte>>, path: string)
    requires ImageOutcome(v, taken, cfg, local, codec, r) && ImageDisk(v, files0, taken, cfg, local, codec, r, files)
    requires r.Success? && files0.Keys <= taken && path in files0
    requires v.withThumbnails ==>
      var job := JobFor(codec, codec.decode(local.contents(SourcePath(v))).value, StoragePath(cfg) + r.value.fileName,
                        cfg.webpEnabled);
      forall p | p in cfg.profiles :: path !in Targets(job, p)
    ensures path in files && files[path] == files0[path]
  {
    var sp, rec := StoragePath(cfg), r.value;
    var decoded := codec.decode(local.contents(SourcePath(v)));
    var img := FitToBound(codec, decoded.value, cfg.maxDimension);
    var ext := CoerceExtension(PathExtension(v.fileName));
    var stored := StoredFiles(files0, sp, Stored(rec.fileName, rec.fileSize, rec.webp),
                              codec.encode(img, ext, StoredQuality).value, codec.encode(img, "webp", StoredQuality));
    AllocationFree(taken, sp, OrigFilename(v), ext, rec.fileName);
    if cfg.webpEnabled {
      AllocationFree(taken + {sp + rec.fileName}, sp, OrigFilename(v), "webp", rec.webp.value.name);
    }
    assert path in stored && stored[path] == files0[path];
    if v.withThumbnails {
      WrittenFrame(JobFor(codec, decoded.value, sp + rec.fileName, cfg.webpEnabled), stored, cfg.profiles, path);
    }
  }

  /**
   * With a month such as `date('m')` gives, the storage prefix is a directory followed by one
   * slash.
   */
  lemma StoragePathDirectory(cfg: Settings)
    requires cfg.month != [] && cfg.month[|cfg.month| - 1] != '/'
    ensures var sp := StoragePath(cfg);
      |sp| >= 2 && sp[|sp| - 1] == '/' && sp[|sp| - 2] != '/'
  {
    var u, sp := UploadPath(cfg), StoragePath(cfg);
    assert u[|u| - 1] == '/' && u[|u| - 2] == cfg.month[|cfg.month| - 1];
    assert |u| - |sp| <= |u| - 2;
    assert sp[|sp| - 2] == u[|u| - 2];
  }

  /** A rendition's path differs from the original's where the original's stem ends. */
  lemma RenditionPathDiffers(d: string, stem: string, ext: string, w: nat, h: nat)
    ensures d + "/" + stem + "." + ext != d + "/" + SizedBase(stem, w, h) + "." + ext
    ensures d + "/" + stem + "." + ext != d + "/" + SizedBase(stem, w, h) + ".webp"
  {
    var i := |d| + 1 + |stem|;
    assert (d + "/" + stem + "." + ext)[i] == '.';
    assert (d + "/" + SizedBase(stem, w, h) + "." + ext)[i] == '-';
    assert (d + "/" + SizedBase(stem, w, h) + ".webp")[i] == '-';
  }

  /**
   * Under a directory `d` and one slash, a stored image's path is `d`, a slash, the probe stem,
   * a dot and the extension, and `dirname`/`pathinfo` give those parts back.
   */
  lemma StoredPathParts(d: string, base: string, k: nat, ext: string)
    requires d != [] && d[|d| - 1] != '/'
    requires Normal(base) && ext in ImageExtensions
    ensures var stem, path := if k == 0 then base else base + "-" + NatToString(k), d + "/" + Candidate(base, k, ext);
      && Candidate(base, k, ext) == stem + "." + ext
      && Dirname(path) == d && PathFilename(path) == stem && PathExtension(path) == ext
  {
    var name := Candidate(base, k, ext);
    var stem := if k == 0 then base else base + "-" + NatToString(k);
    ImageExtensionsPlain(ext);
    StemPlain(base, k);
    assert name == stem + "." + ext;
    DirnameBasename(d, name);
    StoredNameSplits(d + "/", base, k, ext);
  }

  /** A profile of a job for `d/stem.ext` does not write to `d/stem.ext`. */
  lemma NotTarget(job: Job, p: SizeProfile, d: string, stem: string, ext: string)
    requires job.dir == d && job.origName == stem && job.origExt == ext
    ensures d + "/" + stem + "." + ext !in Targets(job, p)
  {
    var img := ProfileImage(job.codec, job.src, p);
    RenditionPathDiffers(d, stem, ext, img.width, img.height);
  }

  /** No profile writes to the path an image original is stored at under the directory `d`. */
  lemma OriginalNotTargeted(d: string, base: string, k: nat, ext: string, codec: Codec, src: Bitmap,
                            webpEnabled: bool, profiles: seq<SizeProfile>)
    requires d != [] && d[|d| - 1] != '/'
    requires Normal(base) && ext in ImageExtensions
    ensures var path := d + "/" + Candidate(base, k, ext);
      forall p | p in profiles :: path !in Targets(JobFor(codec, src, path, webpEnabled), p)
  {
    var path := d + "/" + Candidate(base, k, ext);
    var stem := if k == 0 then base else base + "-" + NatToString(k);
    StoredPathParts(d, base, k, ext);
    assert path == d + "/" + stem + "." + ext;
    var job := JobFor(codec, src, path, webpEnabled);
    forall p | p in profiles ensures path !in Targets(job, p) {
      NotTarget(job, p, d, stem, ext);
    }
  }

  /**
   * The stored original keeps its re-encoded bytes on the disk `storeFile` leaves: no rendition
   * is written to its path.
   */
  lemma StoredOriginalKept(v: ValidInput, files0: map<string, seq<byte>>, taken: set<string>, cfg: Settings,
                           local: LocalFiles, codec: Codec, r: Result<MediaRecord, IngestError>,
                           files: map<string, seq<byte>>)
    requires ImageOutcome(v, taken, cfg, local, codec, r) && ImageDisk(v, files0, taken, cfg, local, codec, r, files)
    requires r.Success?
    requires cfg.month != [] && cfg.month[|cfg.month| - 1] != '/'
    ensures var decoded := codec.decode(local.contents(SourcePath(v)));
      var img := FitToBound(codec, decoded.value, cfg.maxDimension);
      var original := codec.encode(img, CoerceExtension(PathExtension(v.fileName)), StoredQuality);
      && StoragePath(cfg) + r.value.fileName in files
      && files[StoragePath(cfg) + r.value.fileName] == original.value
  {
    var sp, rec, base := StoragePath(cfg), r.value, OrigFilename(v);
    var decoded := codec.decode(local.contents(SourcePath(v)));
    var img := FitToBound(codec, decoded.value, cfg.maxDimension);
    var ext := CoerceExtension(PathExtension(v.fileName));
    var original := codec.encode(img, ext, StoredQuality);
    var path := sp + rec.fileName;
    var stored := StoredFiles(files0, sp, Stored(rec.fileName, rec.fileSize, rec.webp),
                              original.value, codec.encode(img, "webp", StoredQuality));
    if cfg.webpEnabled {
      AllocationFree(taken + {path}, sp, base, "webp", rec.webp.value.name);
    }
    assert path in stored && stored[path] == original.value;
    if v.withThumbnails {
      var k: nat :| FirstFree(taken, sp, base, ext, k) && rec.fileName == Candidate(base, k, ext);
      RenditionsKeepOriginal(cfg, base, k, ext, codec, decoded.value, cfg.webpEnabled, cfg.profiles, stored);
    }
  }

  /** Writing the renditions of an image stored under the storage prefix leaves its file as it was. */
  lemma RenditionsKeepOriginal(cfg: Settings, base: string, k: nat, ext: string, codec: Codec, src: Bitmap,
                               webpEnabled: bool, profiles: seq<SizeProfile>, files: map<string, seq<byte>>)
    requires Normal(base) && ext in ImageExtensions
    requires cfg.month != [] && cfg.month[|cfg.month| - 1] != '/'
    requires StoragePath(cfg) + Candidate(base, k, ext) in files
    ensures var path := StoragePath(cfg) + Candidate(base, k, ext);
      var written := Written(JobFor(codec, src, path, webpEnabled), files, profiles);
      path in written && written[path] == files[path]
  {
    var sp := StoragePath(cfg);
    StoragePathDirectory(cfg);
    var d := sp[..|sp| - 1];
    var path := sp + Candidate(base, k, ext);
    assert path == d + "/" + Candidate(base, k, ext);
    OriginalNotTargeted(d, base, k, ext, codec, src, webpEnabled, profiles);
    WrittenFrame(JobFor(codec, src, path, webpEnabled), files, profiles, path);
  }

  /** `createFromFile($filepath)`: `storeFile` on a local path. */
  method CreateFromFile(filePath: string, disk: Disk, cfg: Settings, local: LocalFiles, codec: Codec,
                        probeMime: string -> string)
    returns (r: Result<MediaRecord, IngestError>)
    modifies disk
    ensures local.fileExists(filePath) ==>
      StoredValid(ValidateFileInput(LocalPath(filePath), local.fileExists, local.mimeContentType).value,
                  old(disk.files), old(disk.dirs), old(disk.Paths()), disk, cfg, local, codec, probeMime, r)
    ensures !local.fileExists(filePath) ==> r == Failure(InvalidInput(InvalidPath)) && disk.files == old(disk.files) && disk.dirs == old(disk.dirs)
    ensures r.Success? ==> r.value.collectionName == "" && r.value.alt == ""
  {
    r := StoreFile(LocalPath(filePath), disk, cfg, local, codec, probeMime);
  }

  /**
   * `createFromUrl($fileUrl)` after the download: `fetched` is the temporary file the body was
   * written to, or None when the request threw. Every failure becomes a null result.
   */
  method CreateFromUrl(fetched: Option<string>, disk: Disk, cfg: Settings, local: LocalFiles, codec: Codec,
                       probeMime: string -> string)
    returns (r: Option<MediaRecord>)
    modifies disk
    ensures fetched.None? ==> r.None? && disk.files == old(disk.files) && disk.dirs == old(disk.dirs)
    ensures fetched.Some? && !IsImageMime(local.mimeContentType(fetched.value)) ==>
      r.None? && disk.files == old(disk.files) && disk.dirs == old(disk.dirs)
    ensures fetched.Some? && IsImageMime(local.mimeContentType(fetched.value)) ==>
      var v := ValidateFileInput(LocalPath(fetched.value), local.fileExists, local.mimeContentType);
      && (v.Failure? ==> r.None? && disk.files == old(disk.files) && disk.dirs == old(disk.dirs))
      && (v.Success? ==>
            exists stored ::
              && StoredValid(v.value, old(disk.files), old(disk.dirs), old(disk.Paths()), disk, cfg, local, codec, probeMime, stored)
              && r == if stored.Success? then Some(stored.value) else None)
    ensures r.Some? ==>
      && fetched.Some? && IsImageMime(local.mimeContentType(fetched.value))
      && r.value.collectionName == "" && r.value.alt == ""
  {
    if fetched.None? {
      return None;
    }
    var tmpPath := fetched.value;
    var mimeType := local.mimeContentType(tmpPath);
    if !IsImageMime(mimeType) {
      return None;
    }
    var stored := StoreFile(LocalPath(tmpPath), disk, cfg, local, codec, probeMime);
    r := if stored.Success? then Some(stored.value) else None;
    assert r == if stored.Success? then Some(stored.value) else None;
  }
}
