/**
 * `createUniqueFilename`: probe `base.ext`, then `base-1.ext`, `base-2.ext`, ... under a
 * directory prefix until the disk has no such path.
 */
module Allocator {
  import opened Text
  import opened Storage

  /** The k-th name probed: `base.ext` for k = 0, `base-k.ext` after that. */
  function Candidate(base: string, k: nat, ext: string): string {
    if k == 0 then base + "." + ext else base + "-" + NatToString(k) + "." + ext
  }

  /** Different probe indices give different names, so the loop never probes a name twice. */
  lemma CandidateInjective(base: string, ext: string, j: nat, k: nat)
    ensures Candidate(base, j, ext) == Candidate(base, k, ext) <==> j == k
  {
    var cj, ck := Candidate(base, j, ext), Candidate(base, k, ext);
    assert cj[|base|] == (if j == 0 then '.' else '-');
    assert ck[|base|] == (if k == 0 then '.' else '-');
    if j != 0 && k != 0 && cj == ck {
      var dj, dk := NatToString(j), NatToString(k);
      var a := |base| + 1;
      assert |dj| == |dk|;
      assert cj[a..a + |dj|] == dj;
      assert ck[a..a + |dk|] == dk;
      NatToStringInjective(j, k);
    }
  }

  /** The same holds for the full paths probed under one directory prefix. */
  lemma ProbesDistinct(scope: string, base: string, ext: string, j: nat, k: nat)
    ensures scope + Candidate(base, j, ext) == scope + Candidate(base, k, ext) <==> j == k
  {
    var cj, ck := Candidate(base, j, ext), Candidate(base, k, ext);
    assert (scope + cj)[|scope|..] == cj;
    assert (scope + ck)[|scope|..] == ck;
    CandidateInjective(base, ext, j, k);
  }

  /** Index k is the first free probe: name k is not taken and every earlier one is. */
  ghost predicate FirstFree(taken: set<string>, scope: string, base: string, ext: string, k: nat) {
    && scope + Candidate(base, k, ext) !in taken
    && forall j: nat :: j < k ==> scope + Candidate(base, j, ext) in taken
  }

  /** `name` is what `createUniqueFilename` must return when the disk holds `taken`. */
  ghost predicate AllocatedIn(taken: set<string>, scope: string, base: string, ext: string, name: string) {
    exists k: nat :: FirstFree(taken, scope, base, ext, k) && name == Candidate(base, k, ext)
  }

  /** The allocation is determined by the disk: at most one name satisfies it. */
  lemma AllocationUnique(taken: set<string>, scope: string, base: string, ext: string, n1: string, n2: string)
    requires AllocatedIn(taken, scope, base, ext, n1)
    requires AllocatedIn(taken, scope, base, ext, n2)
    ensures n1 == n2
  {
    var k1: nat :| FirstFree(taken, scope, base, ext, k1) && n1 == Candidate(base, k1, ext);
    var k2: nat :| FirstFree(taken, scope, base, ext, k2) && n2 == Candidate(base, k2, ext);
  }

  /** An allocated name is free, and is `base.ext` whenever that is free. */
  lemma AllocationFree(taken: set<string>, scope: string, base: string, ext: string, name: string)
    requires AllocatedIn(taken, scope, base, ext, name)
    ensures scope + name !in taken
    ensures scope + base + "." + ext !in taken ==> name == base + "." + ext
  {
    var k: nat :| FirstFree(taken, scope, base, ext, k) && name == Candidate(base, k, ext);
    assert scope + base + "." + ext == scope + Candidate(base, 0, ext);
  }

  /** With `photo.jpg` and `photo-1.jpg` on the disk, `photo` with `jpg` gets `photo-2.jpg`. */
  lemma AllocationExample(name: string)
    requires AllocatedIn({"photo.jpg", "photo-1.jpg"}, "", "photo", "jpg", name)
    ensures name == "photo-2.jpg"
  {
    var taken: set<string> := {"photo.jpg", "photo-1.jpg"};
    var k: nat :| FirstFree(taken, "", "photo", "jpg", k) && name == Candidate("photo", k, "jpg");
    assert NatToString(1) == "1" && NatToString(2) == "2";
    assert "" + Candidate("photo", 0, "jpg") == "photo.jpg";
    assert "" + Candidate("photo", 1, "jpg") == "photo-1.jpg";
    assert "" + Candidate("photo", 2, "jpg") == "photo-2.jpg";
  }

  /** The paths probed before probe k. */
  ghost function Probed(scope: string, base: string, ext: string, k: nat): set<string> {
    if k == 0 then {} else Probed(scope, base, ext, k - 1) + {scope + Candidate(base, k - 1, ext)}
  }

  /** Probe k has not been probed before. */
  lemma {:induction false} ProbeIsNew(scope: string, base: string, ext: string, k: nat, n: nat)
    requires n <= k
    ensures scope + Candidate(base, k, ext) !in Probed(scope, base, ext, n)
  {
    if n > 0 {
      ProbeIsNew(scope, base, ext, k, n - 1);
      ProbesDistinct(scope, base, ext, n - 1, k);
    }
  }

  /** `createUniqueFilename($disk, $storagePath, $filename, $extension)`; reads the disk only. */
  method CreateUniqueFilename(disk: Disk, scope: string, base: string, ext: string) returns (r: string)
    ensures AllocatedIn(disk.Paths(), scope, base, ext, r)
    ensures !disk.Exists(scope + r)
    ensures !disk.Exists(scope + base + "." + ext) ==> r == base + "." + ext
  {
    r := base + "." + ext;
    var i: nat := 1;
    ghost var taken := disk.Paths();
    ghost var k: nat := 0;
    while disk.Exists(scope + r)
      invariant i == k + 1
      invariant r == Candidate(base, k, ext)
      invariant forall j: nat :: j < k ==> scope + Candidate(base, j, ext) in taken
      invariant Probed(scope, base, ext, k) <= taken
      decreases |taken - Probed(scope, base, ext, k)|
    {
      var cur := scope + r;
      assert cur in taken;
      ProbeIsNew(scope, base, ext, k, k);
      assert taken - Probed(scope, base, ext, k) == (taken - Probed(scope, base, ext, k + 1)) + {cur};
      forall j: nat | j < k + 1 ensures scope + Candidate(base, j, ext) in taken {
        if j == k {
          assert scope + Candidate(base, j, ext) == cur;
        }
      }
      r := base + "-" + NatToString(i) + "." + ext;
      k := k + 1;
      i := i + 1;
    }
    assert FirstFree(taken, scope, base, ext, k);
    assert scope + base + "." + ext == scope + Candidate(base, 0, ext);
  }
}
