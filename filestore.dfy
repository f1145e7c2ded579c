/**
 * The file store the downloader works against: a map from path to file content,
 * and the naming scheme for the per-chunk part files.
 */
module FileStore {
  import opened Wrappers

  /** One byte of file content. */
  newtype byte = x: int | 0 <= x < 256

  type Bytes = seq<byte>

  type Path = string

  /** True when every character of `s` is a decimal digit. */
  predicate AllDigits(s: string)
  {
    forall k :: 0 <= k < |s| ==> '0' <= s[k] <= '9'
  }

  function DigitChar(d: nat): (c: char)
    requires d < 10
  {
    ('0' as int + d) as char
  }

  function DigitValue(c: char): nat
    requires '0' <= c <= '9'
  {
    c as int - '0' as int
  }

  /**
   * The decimal text of a non-negative integer, most significant digit first,
   * as string interpolation prints a non-negative `int`: at least one digit,
   * and no leading zero except for zero itself.
   */
  function Decimal(n: nat): (s: string)
    ensures |s| >= 1 && AllDigits(s)
    ensures s[0] == '0' <==> n == 0
  {
    if n < 10 then [DigitChar(n)] else Decimal(n / 10) + [DigitChar(n % 10)]
  }

  /** Reads decimal text back as a number; the inverse of `Decimal`. */
  function ParseDecimal(s: string): nat
    requires AllDigits(s)
  {
    if s == [] then 0 else ParseDecimal(s[..|s| - 1]) * 10 + DigitValue(s[|s| - 1])
  }

  lemma {:induction false} ParseDecimalOfDecimal(n: nat)
    ensures ParseDecimal(Decimal(n)) == n
  {
    var s := Decimal(n);
    if n >= 10 {
      assert s[..|s| - 1] == Decimal(n / 10);
      ParseDecimalOfDecimal(n / 10);
    } else {
      assert s[..|s| - 1] == [];
    }
  }

  /** The part file that chunk `i` of a download to `dest` is written to, read from and deleted from. */
  function PartPath(dest: Path, i: nat): (p: Path)
    ensures p != dest
  {
    dest + ".part" + Decimal(i)
  }

  /** Distinct chunk indices never share a part file. */
  lemma PartPathInjective(dest: Path, i: nat, j: nat)
    ensures PartPath(dest, i) == PartPath(dest, j) <==> i == j
  {
    if PartPath(dest, i) == PartPath(dest, j) {
      var p, q := PartPath(dest, i), PartPath(dest, j);
      assert p[|dest| + 5..] == Decimal(i);
      assert q[|dest| + 5..] == Decimal(j);
      ParseDecimalOfDecimal(i);
      ParseDecimalOfDecimal(j);
    }
  }

  /**
   * The file system as the downloader sees it: every file is a path with its
   * content. Each method is one file operation the downloader performs.
   */
  class FileSystem {
    var files: map<Path, Bytes>

    constructor (initial: map<Path, Bytes>)
      ensures files == initial
    {
      files := initial;
    }

    /** Creates the file, or replaces its content when it exists. */
    method WriteAllBytes(p: Path, content: Bytes)
      modifies this
      ensures files == old(files)[p := content]
    {
      files := files[p := content];
    }

    /** The whole content of the file; `None` stands for the file-not-found exception. */
    method ReadAllBytes(p: Path) returns (content: Option<Bytes>)
      ensures content.Some? <==> p in files
      ensures content.Some? ==> content.value == files[p]
    {
      if p in files {
        content := Some(files[p]);
      } else {
        content := None;
      }
    }

    /** Opening with create mode: an existing file is truncated, a missing one created empty. */
    method Create(p: Path)
      modifies this
      ensures files == old(files)[p := []]
    {
      files := files[p := []];
    }

    /** Writes `content` at the end of an open file. */
    method Append(p: Path, content: Bytes)
      requires p in files
      modifies this
      ensures files == old(files)[p := old(files)[p] + content]
    {
      files := files[p := files[p] + content];
    }

    /** Removes the file; deleting a file that does not exist is not an error. */
    method Delete(p: Path)
      modifies this
      ensures files == old(files) - {p}
    {
      files := files - {p};
    }
  }
}
