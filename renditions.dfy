/**
 * `generateImageSizes`: one resized rendition per size profile, written next to the stored
 * original, plus a webp sibling when webp output is enabled; a profile the codec cannot encode
 * is skipped.
 */
module Renditions {
  import opened Wrappers
  import opened Text
  import opened Paths
  import opened Storage
  import opened Imaging

  /** A webp file written beside another: `webp_name` and `webp_size`, set together or not at all. */
  datatype Sibling = Sibling(name: string, size: nat)

  /** One entry of `image_sizes`. */
  datatype Rendition = Rendition(fileName: string, fileSize: nat, width: nat, height: nat, webp: Option<Sibling>)

  /** What every profile of one call shares: the decoded source and the stored original's path parts. */
  datatype Job = Job(codec: Codec, src: Bitmap, dir: string, origName: string, origExt: string, webpEnabled: bool)

  /** The job for the stored original at `path`. */
  function JobFor(codec: Codec, src: Bitmap, path: string, webpEnabled: bool): Job {
    Job(codec, src, Dirname(path), PathFilename(path), PathExtension(path), webpEnabled)
  }

  /** `{origName}-{W}px-{H}px`, the rendition name without its extension. */
  function SizedBase(origName: string, w: nat, h: nat): string {
    origName + "-" + NatToString(w) + "px-" + NatToString(h) + "px"
  }

  /** The entry a profile contributes, or None when the original-format encode is unsupported. */
  function EntryFor(job: Job, p: SizeProfile): (r: Option<Rendition>)
    ensures var img := ProfileImage(job.codec, job.src, p);
      && (r.None? <==> job.codec.encode(img, job.origExt, StoredQuality).Failure?)
      && (r.Some? ==>
            && r.value.width == img.width && r.value.height == img.height
            && r.value.fileName == SizedBase(job.origName, img.width, img.height) + "." + job.origExt
            && r.value.fileSize == |job.codec.encode(img, job.origExt, StoredQuality).value|
            && (r.value.webp.Some? <==> job.webpEnabled && job.codec.encode(img, "webp", DefaultQuality).Success?)
            && (r.value.webp.Some? ==>
                  && r.value.webp.value.name == SizedBase(job.origName, img.width, img.height) + ".webp"
                  && r.value.webp.value.size == |job.codec.encode(img, "webp", DefaultQuality).value|))
  {
    var img := ProfileImage(job.codec, job.src, p);
    var base := SizedBase(job.origName, img.width, img.height);
    match job.codec.encode(img, job.origExt, StoredQuality)
    case Failure(_) => None
    case Success(bytes) =>
      var webp :=
        if !job.webpEnabled then None
        else match job.codec.encode(img, "webp", DefaultQuality)
          case Failure(_) => None
          case Success(wb) => Some(Sibling(base + ".webp", |wb|));
      Some(Rendition(base + "." + job.origExt, |bytes|, img.width, img.height, webp))
  }

  /** The disk after one profile's writes. */
  function WritesFor(job: Job, files: map<string, seq<byte>>, p: SizeProfile): map<string, seq<byte>> {
    var img := ProfileImage(job.codec, job.src, p);
    var base := SizedBase(job.origName, img.width, img.height);
    match job.codec.encode(img, job.origExt, StoredQuality)
    case Failure(_) => files
    case Success(bytes) =>
      var f := files[job.dir + "/" + base + "." + job.origExt := bytes];
      if !job.webpEnabled then f
      else match job.codec.encode(img, "webp", DefaultQuality)
        case Failure(_) => f
        case Success(wb) => f[job.dir + "/" + base + ".webp" := wb]
  }

  /** The map the loop has built after the given profiles, in order; a later entry replaces an earlier one. */
  function Entries(job: Job, ps: seq<SizeProfile>): map<string, Rendition>
    decreases |ps|
  {
    if ps == [] then map[]
    else
      var m := Entries(job, ps[..|ps| - 1]);
      var p := ps[|ps| - 1];
      match EntryFor(job, p)
      case None => m
      case Some(e) => m[p.name := e]
  }

  /** The disk files after the given profiles, in order. */
  function Written(job: Job, files: map<string, seq<byte>>, ps: seq<SizeProfile>): map<string, seq<byte>>
    decreases |ps|
  {
    if ps == [] then files else WritesFor(job, Written(job, files, ps[..|ps| - 1]), ps[|ps| - 1])
  }

  function Names(ps: seq<SizeProfile>): set<string> {
    set p | p in ps :: p.name
  }

  /** Profile names are keys of an associative array in the configuration, hence distinct. */
  predicate DistinctNames(ps: seq<SizeProfile>) {
    forall i, j :: 0 <= i < j < |ps| ==> ps[i].name != ps[j].name
  }

  /** The paths one profile may write. */
  function Targets(job: Job, p: SizeProfile): set<string> {
    var img := ProfileImage(job.codec, job.src, p);
    var base := SizedBase(job.origName, img.width, img.height);
    {job.dir + "/" + base + "." + job.origExt, job.dir + "/" + base + ".webp"}
  }

  /** The file names and webp fields of an entry agree with its recorded dimensions. */
  predicate Consistent(job: Job, e: Rendition) {
    && e.fileName == SizedBase(job.origName, e.width, e.height) + "." + job.origExt
    && (e.webp.Some? ==> job.webpEnabled && e.webp.value.name == SizedBase(job.origName, e.width, e.height) + ".webp")
  }

  /** Every key of the result is the name of a configured profile. */
  lemma {:induction false} EntriesKeys(job: Job, ps: seq<SizeProfile>)
    ensures Entries(job, ps).Keys <= Names(ps)
    decreases |ps|
  {
    if ps != [] {
      var init := ps[..|ps| - 1];
      EntriesKeys(job, init);
      assert Names(init) <= Names(ps) by {
        forall n | n in Names(init) ensures n in Names(ps) {
          var p :| p in init && p.name == n;
          assert p in ps;
        }
      }
      assert ps[|ps| - 1] in ps;
    }
  }

  /**
   * With distinct profile names the result is exactly the successful profiles: a profile has an
   * entry if and only if its original-format encode is supported, and that entry is its own.
   * A skipped profile does not stop the later ones.
   */
  lemma {:induction false} EntriesExact(job: Job, ps: seq<SizeProfile>)
    requires DistinctNames(ps)
    ensures forall i :: 0 <= i < |ps| ==>
      && (ps[i].name in Entries(job, ps) <==> EntryFor(job, ps[i]).Some?)
      && (EntryFor(job, ps[i]).Some? ==> Entries(job, ps)[ps[i].name] == EntryFor(job, ps[i]).value)
    decreases |ps|
  {
    if ps != [] {
      var n := |ps| - 1;
      var init, last := ps[..n], ps[n];
      assert DistinctNames(init);
      EntriesExact(job, init);
      EntriesStep(job, ps);
      var m, m' := Entries(job, init), Entries(job, ps);
      forall i | 0 <= i < |ps|
        ensures ps[i].name in m' <==> EntryFor(job, ps[i]).Some?
        ensures EntryFor(job, ps[i]).Some? ==> m'[ps[i].name] == EntryFor(job, ps[i]).value
      {
        if i < n {
          var p := ps[i];
          assert init[i] == p;
          assert p.name != last.name;
          assert p.name in m' <==> p.name in m;
          assert p.name in m ==> m'[p.name] == m[p.name];
        } else if EntryFor(job, last).None? {
          EntriesKeys(job, init);
          assert last.name !in Names(init) by {
            forall q | q in init ensures q.name != last.name {
              var j :| 0 <= j < n && init[j] == q;
            }
          }
        }
      }
    }
  }

  /** One more profile adds its entry, when it has one, over what the earlier profiles built. */
  lemma EntriesStep(job: Job, ps: seq<SizeProfile>)
    requires ps != []
    ensures var init, last := ps[..|ps| - 1], ps[|ps| - 1];
      Entries(job, ps) ==
        if EntryFor(job, last).Some? then Entries(job, init)[last.name := EntryFor(job, last).value]
        else Entries(job, init)
  {
  }

  /** Every entry is consistent: `file_name` spells its width and height, webp only when enabled. */
  lemma {:induction false} EntriesConsistent(job: Job, ps: seq<SizeProfile>)
    ensures forall k | k in Entries(job, ps) :: Consistent(job, Entries(job, ps)[k])
    decreases |ps|
  {
    if ps != [] {
      EntriesConsistent(job, ps[..|ps| - 1]);
    }
  }

  lemma WritesForGrows(job: Job, files: map<string, seq<byte>>, p: SizeProfile)
    ensures files.Keys <= WritesFor(job, files, p).Keys
  {
  }

  /** Files are only ever added or replaced, never removed. */
  lemma {:induction false} WrittenGrows(job: Job, files: map<string, seq<byte>>, ps: seq<SizeProfile>)
    ensures files.Keys <= Written(job, files, ps).Keys
    decreases |ps|
  {
    if ps != [] {
      WrittenGrows(job, files, ps[..|ps| - 1]);
      WritesForGrows(job, Written(job, files, ps[..|ps| - 1]), ps[|ps| - 1]);
    }
  }

  /** A profile that yields an entry has written the entry's files. */
  lemma EntryForOnDisk(job: Job, files: map<string, seq<byte>>, p: SizeProfile)
    requires EntryFor(job, p).Some?
    ensures var e := EntryFor(job, p).value;
      var w := WritesFor(job, files, p);
      && job.dir + "/" + e.fileName in w
      && (e.webp.Some? ==> job.dir + "/" + e.webp.value.name in w)
  {
    var img := ProfileImage(job.codec, job.src, p);
    var base := SizedBase(job.origName, img.width, img.height);
    assert job.dir + "/" + (base + "." + job.origExt) == job.dir + "/" + base + "." + job.origExt;
    assert job.dir + "/" + (base + ".webp") == job.dir + "/" + base + ".webp";
  }

  /** Every entry's file, and its webp sibling when it has one, exists on the disk afterwards. */
  lemma {:induction false} EntriesOnDisk(job: Job, files: map<string, seq<byte>>, ps: seq<SizeProfile>)
    ensures forall k | k in Entries(job, ps) ::
      var e := Entries(job, ps)[k];
      var w := Written(job, files, ps);
      && job.dir + "/" + e.fileName in w
      && (e.webp.Some? ==> job.dir + "/" + e.webp.value.name in w)
    decreases |ps|
  {
    if ps != [] {
      var init := ps[..|ps| - 1];
      var p := ps[|ps| - 1];
      var w0 := Written(job, files, init);
      EntriesOnDisk(job, files, init);
      WritesForGrows(job, w0, p);
      if EntryFor(job, p).Some? {
        EntryForOnDisk(job, w0, p);
      }
    }
  }

  /** Nothing outside the profiles' target paths changes. */
  lemma {:induction false} WrittenFrame(job: Job, files: map<string, seq<byte>>, ps: seq<SizeProfile>, path: string)
    requires forall p | p in ps :: path !in Targets(job, p)
    ensures path in Written(job, files, ps) <==> path in files
    ensures path in files ==> Written(job, files, ps)[path] == files[path]
    decreases |ps|
  {
    if ps != [] {
      var init := ps[..|ps| - 1];
      assert forall p | p in init :: p in ps;
      assert ps[|ps| - 1] in ps;
      WrittenFrame(job, files, init, path);
    }
  }

  /**
   * Under a lawful codec, a profile that sets a width (height) gets an entry of exactly that width
   * (height); with crop or without, a box profile's entry is the box.
   */
  lemma RenditionDimensions(job: Job, ps: seq<SizeProfile>, i: nat)
    requires Lawful(job.codec) && DistinctNames(ps) && i < |ps|
    requires ps[i].name in Entries(job, ps)
    ensures var e := Entries(job, ps)[ps[i].name];
      && (ps[i].width.Some? ==> e.width == ps[i].width.value)
      && (ps[i].height.Some? ==> e.height == ps[i].height.value)
      && (ps[i].width.None? && ps[i].height.None? ==> e.width == job.src.width && e.height == job.src.height)
  {
    EntriesExact(job, ps);
    ProfileDimensions(job.codec, job.src, ps[i]);
  }

  /** `generateImageSizes($file, $path, $disk)` with the profile table and the webp switch passed in. */
  method GenerateImageSizes(file: seq<byte>, path: string, disk: Disk, codec: Codec,
                            profiles: seq<SizeProfile>, webpEnabled: bool)
    returns (r: Result<map<string, Rendition>, Unreadable>)
    modifies disk
    ensures disk.dirs == old(disk.dirs)
    ensures codec.decode(file).None? ==>
      && disk.files == old(disk.files)
      && r == if profiles == [] then Success(map[]) else Failure(NotReadable)
    ensures codec.decode(file).Some? ==>
      var job := JobFor(codec, codec.decode(file).value, path, webpEnabled);
      && r == Success(Entries(job, profiles))
      && disk.files == Written(job, old(disk.files), profiles)
  {
    var dir := Dirname(path);
    var origName := PathFilename(path);
    var origExt := PathExtension(path);
    ghost var job := if codec.decode(file).Some? then JobFor(codec, codec.decode(file).value, path, webpEnabled)
                     else JobFor(codec, Bitmap(0, 0, []), path, webpEnabled);
    var sizes: map<string, Rendition> := map[];
    for i := 0 to |profiles|
      invariant disk.dirs == old(disk.dirs)
      invariant i > 0 ==> codec.decode(file).Some?
      invariant sizes == Entries(job, profiles[..i])
      invariant disk.files == Written(job, old(disk.files), profiles[..i])
    {
      var decoded := codec.decode(file);
      if decoded.None? {
        return Failure(NotReadable);
      }
      var entry := RenderProfile(disk, codec, decoded.value, dir, origName, origExt, webpEnabled, profiles[i]);
      if entry.Some? {
        sizes := sizes[profiles[i].name := entry.value];
      }
      assert profiles[..i + 1][..i] == profiles[..i];
    }
    assert profiles[..|profiles|] == profiles;
    return Success(sizes);
  }

  /**
   * One iteration of `generateImageSizes`: resize a fresh copy of the source, write the
   * original-format file, and then the webp sibling when enabled. An unsupported encode ends the
   * iteration but keeps what was already written and recorded.
   */
  method RenderProfile(disk: Disk, codec: Codec, src: Bitmap, dir: string, origName: string, origExt: string,
                       webpEnabled: bool, p: SizeProfile)
    returns (entry: Option<Rendition>)
    modifies disk
    ensures var job := Job(codec, src, dir, origName, origExt, webpEnabled);
      && entry == EntryFor(job, p)
      && disk.files == WritesFor(job, old(disk.files), p)
      && disk.dirs == old(disk.dirs)
  {
    var img := ApplyAction(codec, src, ActionOf(p));
    var sizedFilename := SizedBase(origName, img.width, img.height);
    var origFormatFilename := sizedFilename + "." + origExt;
    var encoded := codec.encode(img, origExt, StoredQuality);
    assert dir + "/" + origFormatFilename == dir + "/" + sizedFilename + "." + origExt;
    assert dir + "/" + (sizedFilename + ".webp") == dir + "/" + sizedFilename + ".webp";
    if encoded.Failure? {
      return None;
    }
    disk.Put(dir + "/" + origFormatFilename, encoded.value);
    var rendition := Rendition(origFormatFilename, disk.Size(dir + "/" + origFormatFilename), img.width, img.height, None);
    if webpEnabled {
      var webpFilename := sizedFilename + ".webp";
      var webp := codec.encode(img, "webp", DefaultQuality);
      if webp.Success? {
        disk.Put(dir + "/" + webpFilename, webp.value);
        rendition := rendition.(webp := Some(Sibling(webpFilename, disk.Size(dir + "/" + webpFilename))));
      }
    }
    return Some(rendition);
  }
}
