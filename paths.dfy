/** The path operations the browser applies to the current directory:
    `os.path.isabs`, `os.path.splitdrive`, `os.path.dirname` and `os.sep`,
    for the two flavours Python selects by platform (posixpath elsewhere,
    ntpath on Windows, following CPython 3.12), and the "go up" link of
    the browsing page built from them. */
module Paths {
  import opened Strings

  datatype Flavor = Posix | Nt

  /** `os.sep`. */
  function Sep(f: Flavor): char
  {
    if f.Posix? then '/' else '\\'
  }

  /** The characters the flavour accepts as separators. */
  function Seps(f: Flavor): set<char>
  {
    if f.Posix? then {'/'} else {'\\', '/'}
  }

  /** `os.path.isabs(p)`. On Windows only the first three characters are
      looked at, with '/' read as '\\': a leading separator, or ":\\" at
      position 1. */
  predicate IsAbs(f: Flavor, p: string)
  {
    match f
    case Posix => |p| > 0 && p[0] == '/'
    case Nt => (|p| > 0 && p[0] in Seps(Nt)) || (|p| >= 3 && p[1] == ':' && p[2] in Seps(Nt))
  }

  /** The three parts ntpath.splitroot cuts a path into. */
  datatype Parts = Parts(drive: string, root: string, tail: string)

  const UncPrefix: string := "\\\\?\\UNC\\"

  /** ntpath.splitroot: a UNC or device drive (`\\server\share`,
      `\\?\UNC\server\share`), a drive letter (`X:`), or no drive; then the
      root separator if present; then the rest. */
  function NtSplitRoot(p: string): (parts: Parts)
    ensures parts.drive + parts.root + parts.tail == p
    ensures parts.drive <= p
    ensures |parts.root| <= 1
    ensures parts.root == [] || (|parts.root| == 1 && parts.root[0] in Seps(Nt))
    ensures IsAbs(Nt, p) ==> IsAbs(Nt, parts.drive + parts.root)
  {
    var n := ReplaceChar(p, '/', '\\');
    if |n| >= 1 && n[0] == '\\' then
      if |n| >= 2 && n[1] == '\\' then UncSplitRoot(p, n)
      else
        SplitAround(p, 0);
        Parts([], p[..1], p[1..])
    else if |n| >= 2 && n[1] == ':' then
      if |n| >= 3 && n[2] == '\\' then
        SplitAround(p, 2);
        Parts(p[..2], p[2..3], p[3..])
      else
        assert p == p[..2] + p[2..];
        Parts(p[..2], [], p[2..])
    else Parts([], [], p)
  }

  /** The UNC branch of ntpath.splitroot: the drive runs up to the separator
      after the share name; without one the whole path is the drive. `n` is
      `p` with '/' read as '\\'. */
  function UncSplitRoot(p: string, n: string): (parts: Parts)
    requires |p| >= 2 && n == ReplaceChar(p, '/', '\\')
    ensures parts.drive + parts.root + parts.tail == p
    ensures parts.drive <= p
    ensures |parts.root| <= 1
    ensures parts.root == [] || (|parts.root| == 1 && parts.root[0] in Seps(Nt))
    ensures |parts.drive| >= 2
  {
    var start := if Upper(Take(n, 8)) == UncPrefix then 8 else 2;
    var i := Find(n, '\\', start);
    if i < 0 then Parts(p, [], [])
    else
      var j := Find(n, '\\', i + 1);
      if j < 0 then Parts(p, [], [])
      else
        SplitAround(p, j);
        Parts(p[..j], p[j..j + 1], p[j + 1..])
  }

  lemma SplitAround(p: string, j: nat)
    requires j < |p|
    ensures p == p[..j] + p[j..j + 1] + p[j + 1..]
  {
    assert p[..j + 1] == p[..j] + p[j..j + 1];
    assert p == p[..j + 1] + p[j + 1..];
  }

  /** `os.path.splitdrive(p)[0]`. */
  function Drive(f: Flavor, p: string): (d: string)
    ensures d <= p
    ensures f.Posix? ==> d == []
  {
    match f
    case Posix => []
    case Nt =>
      NtSplitRoot(p).drive
  }

  /** `os.path.dirname(p)`: everything up to the last separator, with the
      separators that end it stripped (posixpath keeps a head made only of
      separators; ntpath never strips into its drive and root). */
  function Dirname(f: Flavor, p: string): (r: string)
  {
    match f
    case Posix =>
      var head := p[..AfterLastSep(p, {'/'})];
      if head != [] && !AllIn(head, {'/'}) then RStrip(head, {'/'}) else head
    case Nt =>
      var parts := NtSplitRoot(p);
      var q := parts.tail;
      parts.drive + parts.root + RStrip(q[..AfterLastSep(q, Seps(Nt))], Seps(Nt))
  }

  /** The directory name is always a prefix of the path. */
  lemma DirnameIsPrefix(f: Flavor, p: string)
    ensures Dirname(f, p) <= p
  {
    if f.Nt? {
      var parts := NtSplitRoot(p);
      var q := parts.tail;
      var h := q[..AfterLastSep(q, Seps(Nt))];
      var s := RStrip(h, Seps(Nt));
      assert s <= q;
      assert p == parts.drive + parts.root + q;
    }
  }

  /** Going to the directory name of an absolute path stays absolute. */
  lemma DirnameKeepsAbsolute(f: Flavor, p: string)
    requires IsAbs(f, p)
    ensures IsAbs(f, Dirname(f, p))
  {
    if f.Posix? {
      PosixDirnameKeepsAbsolute(p);
    } else {
      NtDirnameKeepsAbsolute(p);
    }
  }

  lemma PosixDirnameKeepsAbsolute(p: string)
    requires IsAbs(Posix, p)
    ensures IsAbs(Posix, Dirname(Posix, p))
  {
    var i := AfterLastSep(p, {'/'});
    assert i > 0;
    var head := p[..i];
    if head != [] && !AllIn(head, {'/'}) {
      var m :| 0 <= m < |head| && head[m] !in {'/'};
      var r := RStrip(head, {'/'});
      assert m < |r|;
      assert r[0] == head[0] == p[0];
    }
  }

  lemma NtDirnameKeepsAbsolute(p: string)
    requires IsAbs(Nt, p)
    ensures IsAbs(Nt, Dirname(Nt, p))
  {
    var parts := NtSplitRoot(p);
    var q := parts.tail;
    AbsoluteExtends(Nt, parts.drive + parts.root, RStrip(q[..AfterLastSep(q, Seps(Nt))], Seps(Nt)));
  }

  /** Whether a path is absolute depends only on how it starts. */
  lemma AbsoluteExtends(f: Flavor, a: string, b: string)
    requires IsAbs(f, a)
    ensures IsAbs(f, a + b)
  {
    if |a| >= 3 {
      assert (a + b)[..3] == a[..3];
    }
  }

  // ---------------------------------------------------------------------------
  // The "go up" link of the browsing page
  // ---------------------------------------------------------------------------

  /** The page's parent link as written: none exactly when the path is its
      own drive followed by `os.sep` (`/`, `C:\`), else its directory name. */
  function Parent(f: Flavor, p: string): (r: Option<string>)
    ensures r.None? <==> p == Drive(f, p) + [Sep(f)]
    ensures r.Some? ==> r.value == Dirname(f, p) && r.value <= p
  {
    DirnameIsPrefix(f, p);
    if p != Drive(f, p) + [Sep(f)] then Some(Dirname(f, p)) else None
  }

  /** A volume root of the form `X:\` has no parent link. */
  lemma DriveRootHasNoParent(d: string)
    requires |d| == 3 && d[1] == ':' && d[2] == '\\' && d[0] !in Seps(Nt)
    ensures Parent(Nt, d) == None
  {
    var n := ReplaceChar(d, '/', '\\');
    assert n[0] != '\\' && n[1] == ':' && n[2] == '\\';
    assert d[..2] + [Sep(Nt)] == d;
  }

  /** The POSIX root `//` links to itself as its own parent. */
  lemma DoubleSlashIsItsOwnParent()
    ensures IsAbs(Posix, "//")
    ensures Parent(Posix, "//") == Some("//")
  {
    assert "//"[..AfterLastSep("//", {'/'})] == "//";
    assert AllIn("//", {'/'});
  }

  /** A UNC share written without a trailing separator links to itself too. */
  lemma UncShareIsItsOwnParent()
    ensures IsAbs(Nt, "\\\\srv\\share")
    ensures Parent(Nt, "\\\\srv\\share") == Some("\\\\srv\\share")
  {
    var p := "\\\\srv\\share";
    UncShareIsOneDrive();
    assert Dirname(Nt, p) == p + [] + RStrip([], Seps(Nt));
  }

  /** ntpath.splitroot reads `\\srv\share` as a drive with no root and no tail. */
  lemma UncShareIsOneDrive()
    ensures NtSplitRoot("\\\\srv\\share") == Parts("\\\\srv\\share", [], [])
  {
    var p := "\\\\srv\\share";
    UncShareHasNoSlash();
    UncShareSplit();
  }

  lemma UncShareHasNoSlash()
    ensures ReplaceChar("\\\\srv\\share", '/', '\\') == "\\\\srv\\share"
  {
  }

  lemma UncShareSplit()
    ensures UncSplitRoot("\\\\srv\\share", "\\\\srv\\share") == Parts("\\\\srv\\share", [], [])
  {
    UncShareHasNoSlash();
    UncShareScan();
  }

  /** `\\srv\share` is not a `\\?\UNC\` path, and has no separator after its share name. */
  lemma UncShareScan()
    ensures Upper(Take("\\\\srv\\share", 8)) != UncPrefix
    ensures Find("\\\\srv\\share", '\\', 2) == 5
    ensures Find("\\\\srv\\share", '\\', 6) == -1
  {
    var p := "\\\\srv\\share";
    assert Upper(Take(p, 8))[2] == 'S';
  }

  /** The parent link with self-links removed: also none when the directory
      name is the path itself, so every link leads strictly upward. */
  function UpLink(f: Flavor, p: string): (r: Option<string>)
    ensures r.Some? ==> r.value < p
    ensures r.Some? ==> r == Parent(f, p)
    ensures Dirname(f, p) != p ==> r == Parent(f, p)
  {
    DirnameIsPrefix(f, p);
    if p == Drive(f, p) + [Sep(f)] || Dirname(f, p) == p then None else Some(Dirname(f, p))
  }

  /** The link as written and the corrected one differ only where the link
      as written leads back to the path itself. */
  lemma ParentIsUpLinkOrSelf(f: Flavor, p: string)
    ensures Parent(f, p) == UpLink(f, p) || Parent(f, p) == Some(p)
    ensures UpLink(f, p) != Parent(f, p) ==> Dirname(f, p) == p
  {
  }

  /** Under ntpath, `/` alone is absolute and links to itself as well. */
  lemma NtSlashIsItsOwnParent()
    ensures IsAbs(Nt, "/")
    ensures Parent(Nt, "/") == Some("/")
  {
    assert ReplaceChar("/", '/', '\\') == "\\";
    assert NtSplitRoot("/") == Parts([], "/", []);
  }

  /** The chain of directories reached by following the up link from `p`,
      `p` first; it ends at a directory with no up link. */
  function Ancestors(f: Flavor, p: string): (chain: seq<string>)
    ensures 1 <= |chain| <= |p| + 1
    ensures chain[0] == p
    ensures UpLink(f, chain[|chain| - 1]).None?
    ensures forall i :: 0 < i < |chain| ==> chain[i] < chain[i - 1]
    ensures forall i :: 0 < i < |chain| ==> UpLink(f, chain[i - 1]) == Some(chain[i])
    decreases |p|
  {
    match UpLink(f, p)
    case None => [p]
    case Some(q) => [p] + Ancestors(f, q)
  }

  /** From an absolute path every directory up the chain is absolute. */
  lemma {:induction false} AncestorsAbsolute(f: Flavor, p: string)
    requires IsAbs(f, p)
    ensures forall i :: 0 <= i < |Ancestors(f, p)| ==> IsAbs(f, Ancestors(f, p)[i])
    decreases |p|
  {
    match UpLink(f, p)
    case None =>
    case Some(q) =>
      DirnameKeepsAbsolute(f, p);
      AncestorsAbsolute(f, q);
  }
}
