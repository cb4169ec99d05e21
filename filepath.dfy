/**
  Go's filepath.Base on a Unix system, as used by sendDocument to name the
  uploaded document (cmd/pipe2Tel/main.go, line 120): the last element of
  the path, after trailing slashes are removed; "." for the empty path and
  "/" for a path made only of slashes.
*/
module FilePath {

  const Separator: char := '/'

  /** The path with every trailing separator removed. */
  function TrimTrailingSeparators(p: string): (r: string)
    ensures r <= p
    ensures r == [] || r[|r| - 1] != Separator
    ensures forall i :: |r| <= i < |p| ==> p[i] == Separator
  {
    if p == [] || p[|p| - 1] != Separator then p
    else TrimTrailingSeparators(p[..|p| - 1])
  }

  /** The part of p after its last separator (all of p if it has none). */
  function LastElement(p: string): (r: string)
    ensures Separator !in r
    ensures |r| <= |p| && r == p[|p| - |r|..]
    ensures |r| < |p| ==> p[|p| - |r| - 1] == Separator
  {
    if p == [] || p[|p| - 1] == Separator then []
    else LastElement(p[..|p| - 1]) + [p[|p| - 1]]
  }

  /** filepath.Base(p). */
  function Base(p: string): (r: string)
    ensures r != []
    ensures Separator in r ==> r == [Separator]
  {
    if p == [] then "."
    else
      var e := LastElement(TrimTrailingSeparators(p));
      if e == [] then [Separator] else e
  }

  /** The base name is never empty and holds a separator only when it is "/". */
  lemma BaseIsOneElement(p: string)
    ensures Base(p) != []
    ensures Separator in Base(p) ==> Base(p) == [Separator]
    ensures Base(p) == [Separator] <==> p != [] && forall i :: 0 <= i < |p| ==> p[i] == Separator
  {
  }

  /** A name without separators, such as a relative file name given with -msg, is its own base name. */
  lemma BaseOfPlainName(p: string)
    requires p != [] && Separator !in p
    ensures Base(p) == p
  {
  }

  /** A plain name under any directory has that name as its base name. */
  lemma BaseInDirectory(dir: string, name: string)
    requires name != [] && Separator !in name
    ensures Base(dir + [Separator] + name) == name
  {
    var p := dir + [Separator] + name;
    assert p[..|p| - 1] == dir + [Separator] + name[..|name| - 1];
    LastElementAfterSeparator(dir, name);
  }

  lemma {:induction false} LastElementAfterSeparator(dir: string, name: string)
    requires Separator !in name
    ensures LastElement(dir + [Separator] + name) == name
  {
    var p := dir + [Separator] + name;
    if name == [] {
    } else {
      assert p[..|p| - 1] == dir + [Separator] + name[..|name| - 1];
      LastElementAfterSeparator(dir, name[..|name| - 1]);
      assert name == name[..|name| - 1] + [name[|name| - 1]];
    }
  }
}
