/**
 * Reassembly: concatenating the part files into the destination file in
 * ascending chunk order, and removing the part files afterwards.
 */
module Merger {
  import opened Wrappers
  import opened FileStore

  /** Part files 0 .. k-1 of a download to `dest` all exist. */
  ghost predicate PartsPresent(files: map<Path, Bytes>, dest: Path, k: nat)
  {
    forall i :: 0 <= i < k ==> PartPath(dest, i) in files
  }

  /** The contents of part files 0 .. k-1, joined in ascending index order. */
  ghost function ConcatParts(files: map<Path, Bytes>, dest: Path, k: nat): Bytes
    requires PartsPresent(files, dest, k)
  {
    if k == 0 then [] else ConcatParts(files, dest, k - 1) + files[PartPath(dest, k - 1)]
  }

  /** The lowest index among 0 .. n-1 whose part file is missing, or `n` when none is. */
  ghost function FirstMissing(files: map<Path, Bytes>, dest: Path, n: nat): (k: nat)
    ensures k <= n && PartsPresent(files, dest, k)
    ensures k < n ==> PartPath(dest, k) !in files
  {
    if n == 0 then 0
    else
      var k := FirstMissing(files, dest, n - 1);
      if k < n - 1 || PartPath(dest, n - 1) !in files then k else n
  }

  /** The part paths of chunks 0 .. n-1. */
  ghost function PartPaths(dest: Path, n: nat): set<Path>
  {
    set i | 0 <= i < n :: PartPath(dest, i)
  }

  /** Outcome of a merge: done, or a part file that could not be read. */
  datatype MergeResult = Merged | PartNotFound(path: Path)

  /**
   * Creates (or truncates) the destination, then appends part files 0 .. n-1
   * in ascending order. When part k is the first one missing, reading it fails
   * and the destination keeps exactly parts 0 .. k-1.
   */
  method MergeChunkFiles(fs: FileSystem, dest: Path, n: nat) returns (r: MergeResult)
    modifies fs
    ensures var k := FirstMissing(old(fs.files), dest, n);
      fs.files == old(fs.files)[dest := ConcatParts(old(fs.files), dest, k)]
      && r == (if k == n then Merged else PartNotFound(PartPath(dest, k)))
  {
    ghost var before := fs.files;
    fs.Create(dest);
    for i := 0 to n
      invariant PartsPresent(before, dest, i)
      invariant fs.files == before[dest := ConcatParts(before, dest, i)]
    {
      var chunkFilePath := PartPath(dest, i);
      var chunkBytes := fs.ReadAllBytes(chunkFilePath);
      if chunkBytes.None? {
        FirstMissingIs(before, dest, n, i);
        return PartNotFound(chunkFilePath);
      }
      fs.Append(dest, chunkBytes.value);
    }
    FirstMissingIs(before, dest, n, n);
    return Merged;
  }

  /** `FirstMissing` is the only index with its two defining properties. */
  lemma FirstMissingIs(files: map<Path, Bytes>, dest: Path, n: nat, k: nat)
    requires k <= n && PartsPresent(files, dest, k)
    requires k < n ==> PartPath(dest, k) !in files
    ensures FirstMissing(files, dest, n) == k
  {
  }

  /** Removes the part files of chunks 0 .. n-1 and nothing else. */
  method DeleteChunkFiles(fs: FileSystem, dest: Path, n: nat)
    modifies fs
    ensures fs.files == old(fs.files) - PartPaths(dest, n)
  {
    for i := 0 to n
      invariant fs.files == old(fs.files) - PartPaths(dest, i)
    {
      fs.Delete(PartPath(dest, i));
      assert PartPaths(dest, i + 1) == PartPaths(dest, i) + {PartPath(dest, i)};
    }
  }

  /**
   * After a merge of n parts the destination holds as many bytes as all the
   * parts together, and the bytes of part i start where the parts before it end.
   */
  lemma {:induction false} ConcatPartsLayout(files: map<Path, Bytes>, dest: Path, k: nat, i: nat)
    requires PartsPresent(files, dest, k) && i < k
    ensures var whole, prefix := ConcatParts(files, dest, k), ConcatParts(files, dest, i);
      var part := files[PartPath(dest, i)];
      |prefix| + |part| <= |whole| && whole[|prefix|..|prefix| + |part|] == part
  {
    if i < k - 1 {
      ConcatPartsLayout(files, dest, k - 1, i);
    }
  }

  /** The destination is never one of its own part files, so deleting the parts keeps it. */
  lemma DeleteKeepsDestination(files: map<Path, Bytes>, dest: Path, n: nat)
    requires dest in files
    ensures dest in files - PartPaths(dest, n) && (files - PartPaths(dest, n))[dest] == files[dest]
  {
  }

  /** Distinct indices give distinct paths, so a delete removes exactly n part paths. */
  lemma {:induction false} PartPathsCount(dest: Path, n: nat)
    ensures |PartPaths(dest, n)| == n
  {
    if n > 0 {
      PartPathsCount(dest, n - 1);
      assert PartPaths(dest, n) == PartPaths(dest, n - 1) + {PartPath(dest, n - 1)};
      forall i | 0 <= i < n - 1
        ensures PartPath(dest, i) != PartPath(dest, n - 1)
      {
        PartPathInjective(dest, i, n - 1);
      }
    } else {
      assert PartPaths(dest, n) == {};
    }
  }
}
