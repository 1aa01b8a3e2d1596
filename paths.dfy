/**
 * PHP's POSIX path helpers as the handler uses them: `rtrim`/`ltrim` with one character,
 * `basename`, `dirname` and the `PATHINFO_FILENAME` / `PATHINFO_EXTENSION` parts of `pathinfo`.
 */
module Paths {

  /** `rtrim(s, c)`: drop every trailing `c`. */
  function RTrim(s: string, c: char): (r: string)
    ensures |r| <= |s| && r == s[..|r|]
    ensures r == [] || r[|r| - 1] != c
    ensures forall i :: |r| <= i < |s| ==> s[i] == c
  {
    if s == [] then [] else if s[|s| - 1] == c then RTrim(s[..|s| - 1], c) else s
  }

  /** `ltrim(s, c)`: drop every leading `c`. */
  function LTrim(s: string, c: char): (r: string)
    ensures |r| <= |s| && r == s[|s| - |r|..]
    ensures r == [] || r[0] != c
    ensures forall i :: 0 <= i < |s| - |r| ==> s[i] == c
  {
    if s == [] || s[0] != c then s else LTrim(s[1..], c)
  }

  /** What follows the last `c` (all of `s` when there is none). */
  function AfterLast(s: string, c: char): string {
    if s == [] then []
    else if s[|s| - 1] == c then []
    else AfterLast(s[..|s| - 1], c) + [s[|s| - 1]]
  }

  /** What precedes the last `c` (empty when there is none). */
  function BeforeLast(s: string, c: char): string {
    if s == [] then []
    else if s[|s| - 1] == c then s[..|s| - 1]
    else BeforeLast(s[..|s| - 1], c)
  }

  lemma {:induction false} AfterLastAbsent(s: string, c: char)
    requires c !in s
    ensures AfterLast(s, c) == s
  {
    if s != [] {
      AfterLastAbsent(s[..|s| - 1], c);
    }
  }

  /** The last separator of `d + [c] + n` is the one between `d` and `n` when `n` has none. */
  lemma {:induction false} SplitAtLast(d: string, c: char, n: string)
    requires c !in n
    ensures AfterLast(d + [c] + n, c) == n
    ensures BeforeLast(d + [c] + n, c) == d
  {
    var s := d + [c] + n;
    if n == [] {
      assert s[..|s| - 1] == d;
    } else {
      var n' := n[..|n| - 1];
      assert s[..|s| - 1] == d + [c] + n';
      assert n == n' + [n[|n| - 1]];
      SplitAtLast(d, c, n');
    }
  }

  /** What follows the last `c` has no `c` and only characters of `s`. */
  lemma {:induction false} AfterLastChars(s: string, c: char)
    ensures c !in AfterLast(s, c)
    ensures forall x | x in AfterLast(s, c) :: x in s
  {
    if s != [] && s[|s| - 1] != c {
      AfterLastChars(s[..|s| - 1], c);
      forall x | x in AfterLast(s[..|s| - 1], c) ensures x in s {
        var i :| 0 <= i < |s| - 1 && s[..|s| - 1][i] == x;
        assert s[i] == x;
      }
    }
  }

  /** `basename($p)`. */
  function Basename(p: string): string {
    AfterLast(RTrim(p, '/'), '/')
  }

  /** `dirname($p)`. */
  function Dirname(p: string): string {
    if p == [] then []
    else
      var t := RTrim(p, '/');
      if t == [] then "/"
      else if '/' !in t then "."
      else
        var u := RTrim(BeforeLast(t, '/'), '/');
        if u == [] then "/" else u
  }

  /** `pathinfo($p, PATHINFO_FILENAME)`: the base name up to its last dot. */
  function PathFilename(p: string): string {
    var b := Basename(p);
    if '.' in b then BeforeLast(b, '.') else b
  }

  /** `pathinfo($p, PATHINFO_EXTENSION)`: what follows the last dot of the base name, or "". */
  function PathExtension(p: string): string {
    var b := Basename(p);
    if '.' in b then AfterLast(b, '.') else ""
  }

  /** An extension never contains a dot or a slash. */
  lemma PathExtensionPlain(p: string)
    ensures '.' !in PathExtension(p) && '/' !in PathExtension(p)
  {
    var b := Basename(p);
    AfterLastChars(RTrim(p, '/'), '/');
    if '.' in b {
      AfterLastChars(b, '.');
    }
  }

  /** A path made of a directory and a plain name splits back into the two. */
  lemma DirnameBasename(d: string, n: string)
    requires n != [] && '/' !in n
    requires d != [] && d[|d| - 1] != '/'
    ensures Dirname(d + "/" + n) == d
    ensures Basename(d + "/" + n) == n
  {
    var p := d + "/" + n;
    assert p[|p| - 1] == n[|n| - 1];
    assert RTrim(p, '/') == p;
    SplitAtLast(d, '/', n);
    assert p[|d|] == '/';
  }

  /** A plain name under a directory prefix ending in `/` (or under none) is its own base name. */
  lemma BasenameUnder(scope: string, name: string)
    requires scope == [] || scope[|scope| - 1] == '/'
    requires name != [] && '/' !in name
    ensures Basename(scope + name) == name
  {
    var p := scope + name;
    assert p[|p| - 1] == name[|name| - 1];
    assert RTrim(p, '/') == p;
    if scope == [] {
      assert p == name;
      AfterLastAbsent(name, '/');
    } else {
      var d := scope[..|scope| - 1];
      assert p == d + "/" + name;
      SplitAtLast(d, '/', name);
    }
  }

  /** `pathinfo` splits `stem.ext` at the dot when the extension has none. */
  lemma FilenameExtension(scope: string, stem: string, ext: string)
    requires scope == [] || scope[|scope| - 1] == '/'
    requires '/' !in stem && '/' !in ext && '.' !in ext
    ensures PathFilename(scope + stem + "." + ext) == stem
    ensures PathExtension(scope + stem + "." + ext) == ext
  {
    var name := stem + "." + ext;
    assert '/' !in name by {
      forall i | 0 <= i < |name| ensures name[i] != '/' {
        if i < |stem| { assert name[i] == stem[i]; }
        else if i > |stem| { assert name[i] == ext[i - |stem| - 1]; }
      }
    }
    assert scope + stem + "." + ext == scope + name;
    BasenameUnder(scope, name);
    assert name[|stem|] == '.';
    SplitAtLast(stem, '.', ext);
  }
}
