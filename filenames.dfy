/**
 * URL-friendly names (`normalizeFileName`) and the extension coercion applied to images
 * before they are stored.
 */
module FileNames {
  import opened Text

  /** Drops the leading run of characters outside `[a-z0-9]`. */
  function SkipRun(s: string): (r: string)
    ensures |r| <= |s| && r == s[|s| - |r|..]
    ensures r == [] || IsAlnum(r[0])
    ensures forall i :: 0 <= i < |s| - |r| ==> !IsAlnum(s[i])
  {
    if s == [] || IsAlnum(s[0]) then s else SkipRun(s[1..])
  }

  /** `preg_replace('/[^a-z0-9]+/', '-', s)`: every maximal run outside the class becomes one `-`. */
  function Collapse(s: string): string
    decreases |s|
  {
    if s == [] then []
    else if IsAlnum(s[0]) then [s[0]] + Collapse(s[1..])
    else ['-'] + Collapse(SkipRun(s[1..]))
  }

  /** `normalizeFileName`: lower-case, then collapse. */
  function Normalize(name: string): string {
    Collapse(Lower(name))
  }

  /** The shape of every normalised name: only `[a-z0-9-]`, and never two `-` in a row. */
  predicate Normal(s: string) {
    && (forall i :: 0 <= i < |s| ==> IsAlnum(s[i]) || s[i] == '-')
    && (forall i :: 0 <= i < |s| - 1 ==> s[i] == '-' ==> s[i + 1] != '-')
  }

  /** The characters of `[a-z0-9]` in `s`, in order. */
  function Alnums(s: string): string {
    if s == [] then []
    else (if IsAlnum(s[0]) then [s[0]] else []) + Alnums(s[1..])
  }

  /** Putting one allowed character in front of a normal string keeps it normal unless it doubles a hyphen. */
  lemma NormalCons(c: char, t: string)
    requires IsAlnum(c) || c == '-'
    requires Normal(t)
    requires c == '-' ==> t == [] || t[0] != '-'
    ensures Normal([c] + t)
  {
    var r := [c] + t;
    forall i | 0 <= i < |r| ensures IsAlnum(r[i]) || r[i] == '-' {
      if i > 0 {
        assert r[i] == t[i - 1];
      }
    }
    forall i | 0 <= i < |r| - 1 && r[i] == '-' ensures r[i + 1] != '-' {
      assert r[i + 1] == t[i];
      if i > 0 {
        assert r[i] == t[i - 1];
      }
    }
  }

  lemma {:induction false} CollapseNormal(s: string)
    ensures Normal(Collapse(s))
    ensures s != [] && IsAlnum(s[0]) ==> Collapse(s) != [] && Collapse(s)[0] == s[0]
    decreases |s|
  {
    if s != [] {
      if IsAlnum(s[0]) {
        CollapseNormal(s[1..]);
        NormalCons(s[0], Collapse(s[1..]));
      } else {
        var t := SkipRun(s[1..]);
        CollapseNormal(t);
        NormalCons('-', Collapse(t));
      }
    }
  }

  /** `normalizeFileName` yields only `[a-z0-9-]` and never two adjacent hyphens. */
  lemma NormalizeIsNormal(name: string)
    ensures Normal(Normalize(name))
  {
    CollapseNormal(Lower(name));
  }

  lemma {:induction false} CollapseFixesNormal(s: string)
    requires Normal(s)
    ensures Collapse(s) == s
    decreases |s|
  {
    if s != [] {
      assert Normal(s[1..]) by {
        assert forall i :: 0 <= i < |s| - 1 ==> s[1..][i] == s[i + 1];
      }
      if IsAlnum(s[0]) {
        CollapseFixesNormal(s[1..]);
      } else {
        assert s[1..] == [] || IsAlnum(s[1]);
        assert SkipRun(s[1..]) == s[1..];
        CollapseFixesNormal(s[1..]);
      }
    }
  }

  lemma LowerFixesNormal(s: string)
    requires Normal(s)
    ensures Lower(s) == s
  {
  }

  /** Normalising an already normalised name changes nothing. */
  lemma NormalizeIdempotent(name: string)
    ensures Normalize(Normalize(name)) == Normalize(name)
  {
    var r := Normalize(name);
    NormalizeIsNormal(name);
    LowerFixesNormal(r);
    CollapseFixesNormal(r);
  }

  /** The names `normalizeFileName` leaves alone are exactly the normal ones. */
  lemma NormalizeFixpoints(name: string)
    ensures Normalize(name) == name <==> Normal(name)
  {
    if Normal(name) {
      LowerFixesNormal(name);
      CollapseFixesNormal(name);
    }
    NormalizeIsNormal(name);
  }

  lemma {:induction false} AlnumsSkipRun(s: string)
    ensures Alnums(SkipRun(s)) == Alnums(s)
  {
    if s != [] && !IsAlnum(s[0]) {
      AlnumsSkipRun(s[1..]);
    }
  }

  lemma {:induction false} CollapseKeepsAlnums(s: string)
    ensures Alnums(Collapse(s)) == Alnums(s)
    decreases |s|
  {
    if s != [] {
      var r := Collapse(s);
      if IsAlnum(s[0]) {
        assert r[1..] == Collapse(s[1..]);
        CollapseKeepsAlnums(s[1..]);
      } else {
        var t := SkipRun(s[1..]);
        assert r[1..] == Collapse(t);
        CollapseKeepsAlnums(t);
        AlnumsSkipRun(s[1..]);
      }
    }
  }

  /** The lower-cased letters and digits of the name survive, in order. */
  lemma NormalizeKeepsAlnums(name: string)
    ensures Alnums(Normalize(name)) == Alnums(Lower(name))
  {
    CollapseKeepsAlnums(Lower(name));
  }

  lemma NormalizeUnfold(name: string)
    ensures Normalize(name) == Collapse(Lower(name))
  {
  }

  lemma {:induction false} CollapseTrailingRun(s: string)
    requires s != [] && !IsAlnum(s[|s| - 1])
    ensures var r := Collapse(s); r != [] && r[|r| - 1] == '-'
    decreases |s|
  {
    if IsAlnum(s[0]) {
      CollapseTrailingRun(s[1..]);
    } else {
      var t := SkipRun(s[1..]);
      if t != [] {
        assert t[|t| - 1] == s[|s| - 1];
        CollapseTrailingRun(t);
      }
    }
  }

  /**
   * A name that ends in a character outside `[a-zA-Z0-9]` normalises to one ending in `-`:
   * nothing strips the hyphen a trailing run turns into (`My Photo!` gives `my-photo-`).
   */
  lemma NormalizeTrailingRun(name: string)
    requires name != [] && !IsAlnum(LowerChar(name[|name| - 1]))
    ensures var r := Normalize(name); r != [] && r[|r| - 1] == '-'
  {
    var l := Lower(name);
    NormalizeUnfold(name);
    assert l != [] && !IsAlnum(l[|l| - 1]) by {
      assert l[|l| - 1] == LowerChar(name[|name| - 1]);
    }
    CollapseTrailingRun(l);
  }

  /** Skipping a run that ends before an alphanumeric ignores what follows it. */
  lemma {:induction false} SkipRunAppend(t: string, x: string)
    requires t != [] && IsAlnum(t[|t| - 1])
    ensures SkipRun(t + x) == SkipRun(t) + x
    decreases |t|
  {
    if !IsAlnum(t[0]) {
      assert (t + x)[1..] == t[1..] + x;
      SkipRunAppend(t[1..], x);
    }
  }

  /** A run with nothing alphanumeric in it is skipped entirely. */
  lemma {:induction false} SkipRunOver(run: string, b: string)
    requires forall i :: 0 <= i < |run| ==> !IsAlnum(run[i])
    requires b == [] || IsAlnum(b[0])
    ensures SkipRun(run + b) == b
    decreases |run|
  {
    if run != [] {
      assert (run + b)[1..] == run[1..] + b;
      SkipRunOver(run[1..], b);
    }
  }

  /** After an alphanumeric the collapse of a concatenation is the concatenation of the collapses. */
  lemma {:induction false} CollapseAppend(a: string, x: string)
    requires a != [] && IsAlnum(a[|a| - 1])
    ensures Collapse(a + x) == Collapse(a) + Collapse(x)
    decreases |a|
  {
    var ax := a + x;
    assert ax[0] == a[0];
    assert ax[1..] == a[1..] + x;
    if IsAlnum(a[0]) {
      if |a| > 1 {
        CollapseAppend(a[1..], x);
        ConcatAssoc([a[0]], Collapse(a[1..]), Collapse(x));
      } else {
        assert a[1..] + x == x;
      }
    } else {
      var t := a[1..];
      SkipRunAppend(t, x);
      var u := SkipRun(t);
      assert u != [] && u[|u| - 1] == t[|t| - 1];
      CollapseAppend(u, x);
      ConcatAssoc(['-'], Collapse(u), Collapse(x));
    }
  }

  /** A run followed by nothing or an alphanumeric collapses to one hyphen. */
  lemma CollapseRunAlone(run: string, b: string)
    requires run != [] && forall i :: 0 <= i < |run| ==> !IsAlnum(run[i])
    requires b == [] || IsAlnum(b[0])
    ensures Collapse(run + b) == "-" + Collapse(b)
  {
    var rb := run + b;
    assert rb[0] == run[0] && !IsAlnum(run[0]);
    assert rb[1..] == run[1..] + b;
    SkipRunOver(run[1..], b);
    assert Collapse(rb) == ['-'] + Collapse(SkipRun(rb[1..]));
  }

  /**
   * The rule the regex encodes: a run of characters outside `[a-z0-9]` after an alphanumeric,
   * and before an alphanumeric or the end, becomes exactly one hyphen in its place, and the
   * text around it collapses on its own.
   */
  lemma CollapseRun(a: string, run: string, b: string)
    requires a != [] && IsAlnum(a[|a| - 1])
    requires run != [] && forall i :: 0 <= i < |run| ==> !IsAlnum(run[i])
    requires b == [] || IsAlnum(b[0])
    ensures Collapse(a + run + b) == Collapse(a) + "-" + Collapse(b)
  {
    var x := run + b;
    ConcatAssoc(a, run, b);
    CollapseAppend(a, x);
    CollapseRunAlone(run, b);
    ConcatAssoc(Collapse(a), "-", Collapse(b));
  }

  lemma ConcatAssoc(a: string, b: string, c: string)
    ensures a + b + c == a + (b + c)
  {
  }

  lemma CollapseMyExample()
    ensures Collapse("my") == "my"
  {
    CollapseFixesNormal("my");
  }

  lemma CollapsePhotoExample()
    ensures Collapse("photo!") == "photo-"
  {
    CollapseFixesNormal("photo");
    CollapseRun("photo", "!", "");
    PhotoPieces();
  }

  lemma PhotoPieces()
    ensures "photo" + "!" + "" == "photo!"
    ensures "photo" + "-" + "" == "photo-"
  {
  }

  lemma CollapseExample()
    ensures Collapse("my photo!") == "my-photo-"
  {
    assert Collapse("my" + " " + "photo!") == Collapse("my") + "-" + Collapse("photo!") by {
      CollapseRun("my", " ", "photo!");
    }
    assert Collapse("my") + "-" + Collapse("photo!") == "my-photo-" by {
      CollapseMyExample();
      CollapsePhotoExample();
      MyPhotoPieces();
    }
    MyPhotoPieces();
  }

  lemma MyPhotoPieces()
    ensures "my" + " " + "photo!" == "my photo!"
    ensures "my" + "-" + "photo-" == "my-photo-"
  {
  }

  /** `My Photo!` normalises to `my-photo-`: the space and the trailing `!` each become a hyphen. */
  lemma NormalizeExample()
    ensures Normalize("My Photo!") == "my-photo-"
  {
    var l := Lower("My Photo!");
    assert |l| == 9;
    assert l[0] == 'm' && l[1] == 'y' && l[2] == ' ' && l[3] == 'p' && l[4] == 'h';
    assert l[5] == 'o' && l[6] == 't' && l[7] == 'o' && l[8] == '!';
    assert l == "my photo!";
    CollapseExample();
  }

  /** The extensions an image is stored under. */
  const ImageExtensions: set<string> := {"jpg", "jpeg", "png", "gif"}

  /**
   * The two in-place rewrites of `$origExtension` in the image branch: `webp` becomes `png`,
   * then anything outside the four common formats (upper case included) becomes `jpg`.
   */
  function CoerceExtension(ext: string): (r: string)
    ensures r in ImageExtensions
    ensures ext in ImageExtensions ==> r == ext
    ensures ext == "webp" ==> r == "png"
    ensures ext !in ImageExtensions && ext != "webp" ==> r == "jpg"
  {
    var e := if ext == "webp" then "png" else ext;
    if e !in ImageExtensions then "jpg" else e
  }

  lemma CoerceExtensionIdempotent(ext: string)
    ensures CoerceExtension(CoerceExtension(ext)) == CoerceExtension(ext)
  {
  }

  /** No stored image extension contains a dot or a slash, nor equals `webp`. */
  lemma ImageExtensionsPlain(ext: string)
    requires ext in ImageExtensions
    ensures '.' !in ext && '/' !in ext && ext != "webp"
  {
  }
}
