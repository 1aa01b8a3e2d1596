/**
 * `validateFileInput`: the handler accepts either an upload description (an associative array)
 * or the path of a file already on the local filesystem, and extracts the seven values the
 * rest of the pipeline uses.
 */
module Input {
  import opened Wrappers
  import opened Text
  import opened Paths

  /** A `withThumbnails` value: a PHP boolean, or text from a form field. */
  datatype Flag = BoolFlag(b: bool) | TextFlag(s: string)

  /** The source of a file: an upload array (a missing or null key is None) or a local path. */
  datatype FileInput =
    | Upload(name: Option<string>, path: Option<string>, mimeType: string,
             collection: Option<string>, alt: Option<string>, withThumbnails: Option<Flag>)
    | LocalPath(file: string)

  /** `[$filename, $tmpName, $tmpPath, $collection, $alt, $mimeType, $withThumbnails]`. */
  datatype ValidInput = ValidInput(fileName: string, tmpName: string, tmpPath: string,
                                   collection: string, alt: string, mimeType: string, withThumbnails: bool)

  /** The two exceptions `validateFileInput` throws. */
  datatype InputError = MissingNameOrPath | InvalidPath

  predicate IsFilterSpace(c: char) {
    c == ' ' || c == '\t' || c == '\r' || c == '\n' || c == '\U{000B}'
  }

  /** The whitespace `filter_var` ignores around a boolean word. */
  function TrimFilterSpace(s: string): (r: string)
    ensures |r| <= |s|
    ensures r == [] || (!IsFilterSpace(r[0]) && !IsFilterSpace(r[|r| - 1]))
    decreases |s|
  {
    if s == [] then []
    else if IsFilterSpace(s[0]) then TrimFilterSpace(s[1..])
    else if IsFilterSpace(s[|s| - 1]) then TrimFilterSpace(s[..|s| - 1])
    else s
  }

  /** `r` is `s` with `i` blank characters dropped in front and the rest dropped behind. */
  predicate TrimmedAt(s: string, r: string, i: nat) {
    && i + |r| <= |s| && r == s[i..i + |r|]
    && (forall k :: 0 <= k < i ==> IsFilterSpace(s[k]))
    && (forall k :: i + |r| <= k < |s| ==> IsFilterSpace(s[k]))
  }

  /** The trim keeps a contiguous part of the text and drops only blank characters around it. */
  lemma {:induction false} TrimFilterSpaceTrims(s: string)
    ensures exists i: nat :: TrimmedAt(s, TrimFilterSpace(s), i)
    decreases |s|
  {
    var r := TrimFilterSpace(s);
    if s == [] {
      assert TrimmedAt(s, r, 0);
    } else if IsFilterSpace(s[0]) {
      TrimFilterSpaceTrims(s[1..]);
      var i: nat :| TrimmedAt(s[1..], r, i);
      TrimmedAtFront(s, r, i);
    } else if IsFilterSpace(s[|s| - 1]) {
      TrimFilterSpaceTrims(s[..|s| - 1]);
      var i: nat :| TrimmedAt(s[..|s| - 1], r, i);
      TrimmedAtBack(s, r, i);
    } else {
      assert TrimmedAt(s, r, 0);
    }
  }

  /** One more blank in front keeps the trim a trim. */
  lemma TrimmedAtFront(s: string, r: string, i: nat)
    requires s != [] && IsFilterSpace(s[0]) && TrimmedAt(s[1..], r, i)
    ensures TrimmedAt(s, r, i + 1)
  {
    assert s[i + 1..i + 1 + |r|] == s[1..][i..i + |r|];
    forall k | i + 1 + |r| <= k < |s| ensures IsFilterSpace(s[k]) {
      assert s[k] == s[1..][k - 1];
    }
  }

  /** One more blank behind keeps the trim a trim. */
  lemma TrimmedAtBack(s: string, r: string, i: nat)
    requires s != [] && IsFilterSpace(s[|s| - 1]) && TrimmedAt(s[..|s| - 1], r, i)
    ensures TrimmedAt(s, r, i)
  {
    assert s[i..i + |r|] == s[..|s| - 1][i..i + |r|];
  }

  /** `filter_var($v, FILTER_VALIDATE_BOOLEAN)`: true only for 1, true, on and yes, in any case. */
  function FilterBool(f: Flag): bool {
    match f
    case BoolFlag(b) => b
    case TextFlag(s) => Lower(TrimFilterSpace(s)) in {"1", "true", "on", "yes"}
  }

  /** Surrounding blanks and case do not matter to the boolean filter, and `off` is false. */
  lemma FilterBoolExamples()
    ensures FilterBool(TextFlag(" Yes\n"))
    ensures !FilterBool(TextFlag("off"))
    ensures !FilterBool(BoolFlag(false)) && FilterBool(BoolFlag(true))
  {
    TrimExamples();
    LowerExamples();
  }

  lemma TrimExamples()
    ensures TrimFilterSpace(" Yes\n") == "Yes"
    ensures TrimFilterSpace("off") == "off"
  {
    assert " Yes\n"[1..] == "Yes\n";
    assert "Yes\n"[..3] == "Yes";
  }

  lemma LowerExamples()
    ensures Lower("Yes") == "yes"
    ensures Lower("off") == "off"
  {
    var y, o := Lower("Yes"), Lower("off");
    assert y[0] == 'y' && y[1] == 'e' && y[2] == 's';
    assert o[0] == 'o' && o[1] == 'f' && o[2] == 'f';
  }

  /**
   * `validateFileInput($fileData)`. `fileExists` is PHP's `file_exists` and `mimeContentType`
   * is `mime_content_type` (its `false` is the empty string), both on the local filesystem.
   */
  function ValidateFileInput(input: FileInput, fileExists: string -> bool, mimeContentType: string -> string)
    : (r: Result<ValidInput, InputError>)
    ensures r.Failure? <==>
      || (input.Upload? && (input.name.None? || input.path.None?))
      || (input.LocalPath? && !fileExists(input.file))
    ensures r.Failure? ==> r.error == if input.Upload? then MissingNameOrPath else InvalidPath
    ensures r.Success? ==> r.value.tmpPath != [] && r.value.tmpPath[|r.value.tmpPath| - 1] == '/'
    ensures r.Success? && input.LocalPath? ==>
      && r.value.collection == "" && r.value.alt == "" && r.value.withThumbnails
      && r.value.fileName == r.value.tmpName
      && r.value.mimeType == mimeContentType(input.file)
    ensures r.Success? ==>
      var path := if input.Upload? then input.path.value else input.file;
      r.value.tmpName == Basename(path) && r.value.tmpPath == RTrim(Dirname(path), '/') + "/"
    ensures r.Success? && input.Upload? ==>
      && r.value.fileName == input.name.value
      && r.value.mimeType == input.mimeType
      && r.value.collection == input.collection.GetOr("")
      && r.value.alt == input.alt.GetOr("")
      && r.value.withThumbnails == FilterBool(input.withThumbnails.GetOr(BoolFlag(true)))
  {
    match input
    case Upload(name, path, mimeType, collection, alt, withThumbnails) =>
      if name.None? || path.None? then Failure(MissingNameOrPath)
      else
        Success(ValidInput(
          name.value,
          Basename(path.value),
          RTrim(Dirname(path.value), '/') + "/",
          collection.GetOr(""),
          alt.GetOr(""),
          mimeType,
          FilterBool(withThumbnails.GetOr(BoolFlag(true)))))
    case LocalPath(file) =>
      if !fileExists(file) then Failure(InvalidPath)
      else
        var filename := Basename(file);
        Success(ValidInput(filename, filename, RTrim(Dirname(file), '/') + "/", "", "", mimeContentType(file), true))
  }

  /** The file the pipeline reads: the validated directory followed by the validated name. */
  function SourcePath(v: ValidInput): string {
    v.tmpPath + v.tmpName
  }

  /**
   * For a path made of a directory and a plain file name, the location the pipeline reads is
   * the path it was given, whichever form the input takes.
   */
  lemma ValidatedSourceIsInput(input: FileInput, fileExists: string -> bool, mimeContentType: string -> string,
                               d: string, n: string)
    requires ValidateFileInput(input, fileExists, mimeContentType).Success?
    requires input.Upload? ==> input.path == Some(d + "/" + n)
    requires input.LocalPath? ==> input.file == d + "/" + n
    requires n != [] && '/' !in n && d != [] && d[|d| - 1] != '/'
    ensures var v := ValidateFileInput(input, fileExists, mimeContentType).value;
      && v.tmpPath == d + "/" && v.tmpName == n
      && (input.LocalPath? ==> v.fileName == n)
      && SourcePath(v) == d + "/" + n
  {
    DirnameBasename(d, n);
  }
}
