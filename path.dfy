/**
 * Absolute-path validation of src/vfs/path.cpp. A path is the character content of a
 * NUL-terminated C string: it holds no NUL itself, and reading one past its last
 * character yields the terminator.
 */
module Path {

  const Nul: char := '\0'

  /** The characters of a C string: no terminator inside. */
  predicate IsCString(p: seq<char>) {
    forall k :: 0 <= k < |p| ==> p[k] != Nul
  }

  /** Character k of the C string, the terminator at index |p| and beyond. */
  function At(p: seq<char>, k: nat): (c: char)
    ensures IsCString(p) ==> (c == Nul <==> k >= |p|)
  {
    if k < |p| then p[k] else Nul
  }

  /** Position i (after the leading slash) repeats a slash. */
  predicate DoubleSlashAt(p: seq<char>, i: nat)
    requires 1 <= i < |p|
  {
    p[i] == '/' && p[i - 1] == '/'
  }

  /** Position i is a space that starts or ends a component, or ends the path. */
  predicate StraySpaceAt(p: seq<char>, i: nat)
    requires 1 <= i < |p|
  {
    p[i] == ' ' && (p[i - 1] == '/' || i + 1 == |p| || p[i + 1] == '/')
  }

  /**
   * An absolute path: it starts with a slash, never has two slashes in a row, and no
   * space sits right after a slash, right before one, or at the end.
   */
  predicate ValidAbsPath(p: seq<char>) {
    && |p| > 0 && p[0] == '/'
    && forall i :: 1 <= i < |p| ==> !DoubleSlashAt(p, i) && !StraySpaceAt(p, i)
  }

  /** The length without a trailing slash, the root "/" kept whole. */
  function TrimmedLength(p: seq<char>): (n: nat)
    ensures |p| > 0 ==> 1 <= n <= |p|
    ensures |p| > 0 ==> n == |p| || n == |p| - 1
  {
    if |p| > 1 && p[|p| - 1] == '/' then |p| - 1 else |p|
  }

  /** What check_abs_path returns: the trimmed length of a valid path, 0 otherwise. */
  function AbsPathLength(p: seq<char>): (r: nat)
    ensures r <= |p|
    ensures r > 0 <==> ValidAbsPath(p)
  {
    if ValidAbsPath(p) then TrimmedLength(p) else 0
  }

  /**
   * check_abs_path: scans the string up to its terminator, rejecting at the first
   * double slash or stray space, then drops one trailing slash.
   */
  method CheckAbsPath(path: seq<char>) returns (r: nat)
    requires IsCString(path)
    ensures r == AbsPathLength(path)
  {
    if At(path, 0) != '/' {
      return 0;
    }
    var length := 1;
    while At(path, length) != Nul
      invariant 1 <= length <= |path|
      invariant forall i :: 1 <= i < length ==> !DoubleSlashAt(path, i) && !StraySpaceAt(path, i)
      decreases |path| - length
    {
      if path[length] == '/' && path[length - 1] == '/' {
        assert DoubleSlashAt(path, length);
        return 0;
      }
      if path[length] == ' ' && (path[length - 1] == '/' || At(path, length + 1) == '/' || At(path, length + 1) == Nul) {
        assert StraySpaceAt(path, length);
        return 0;
      }
      length := length + 1;
    }
    if length > 1 && path[length - 1] == '/' {
      length := length - 1;
    }
    r := length;
  }

  // ---------------------------------------------------------------------------
  // Properties

  /** The root "/" is accepted with length 1. */
  lemma RootAccepted()
    ensures AbsPathLength("/") == 1
  {
  }

  /**
   * The cases check_abs_path rejects: no leading slash, a double slash, and a space
   * right after a slash, right before one or at the end.
   */
  lemma Rejected(p: seq<char>, i: nat)
    ensures |p| == 0 || p[0] != '/' ==> AbsPathLength(p) == 0
    ensures 1 <= i < |p| && p[i] == '/' && p[i - 1] == '/' ==> AbsPathLength(p) == 0
    ensures 1 <= i < |p| && p[i] == ' ' && p[i - 1] == '/' ==> AbsPathLength(p) == 0
    ensures 1 <= i && i + 1 < |p| && p[i] == ' ' && p[i + 1] == '/' ==> AbsPathLength(p) == 0
    ensures 1 <= i && i + 1 == |p| && p[i] == ' ' ==> AbsPathLength(p) == 0
  {
    if 1 <= i < |p| && ValidAbsPath(p) {
      assert !DoubleSlashAt(p, i) && !StraySpaceAt(p, i);
    }
  }

  /**
   * A valid path yields its length, one less exactly when it ends in a slash after
   * something else.
   */
  lemma AcceptedLength(p: seq<char>)
    requires ValidAbsPath(p)
    ensures 1 <= AbsPathLength(p) <= |p|
    ensures AbsPathLength(p) == |p| - 1 <==> |p| > 1 && p[|p| - 1] == '/'
    ensures !(|p| > 1 && p[|p| - 1] == '/') ==> AbsPathLength(p) == |p|
  {
  }

  /**
   * The prefix of the returned length is itself valid and returned whole: trimming
   * is done once and for all.
   */
  lemma PrefixStable(p: seq<char>)
    requires AbsPathLength(p) > 0
    ensures var r := AbsPathLength(p);
            ValidAbsPath(p[..r]) && AbsPathLength(p[..r]) == r
  {
    var r := AbsPathLength(p);
    var q := p[..r];
    forall i | 1 <= i < |q|
      ensures !DoubleSlashAt(q, i) && !StraySpaceAt(q, i)
    {
      assert !DoubleSlashAt(p, i) && !StraySpaceAt(p, i);
      if i + 1 == |q| && r < |p| {
        assert p[i + 1] == '/';
      }
    }
    if r > 1 && r < |p| {
      assert !DoubleSlashAt(p, r);
    }
  }
}
