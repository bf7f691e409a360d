/** The local replica a backend yields: a directory tree under a root path, with
    `os.path.join`, the outcome of opening a path, and the listing `os.walk` produces. */
module Fs {
  import opened Common
  import opened PyStr

  /** A root-relative path: non-empty names separated by single slashes. */
  predicate ValidRelPath(p: string)
  {
    p != [] && forall j :: 0 <= j < |p| && p[j] == '/' ==> 0 < j < |p| - 1 && p[j + 1] != '/'
  }

  /** One entry name of a directory. */
  predicate ValidName(n: string)
  {
    n != [] && forall j :: 0 <= j < |n| ==> n[j] != '/'
  }

  /** A replica: the root path the backend yields, the files below it by
      root-relative path, and its sub-directories (including empty ones). */
  datatype Replica = Replica(root: string, files: map<string, Bytes>, dirs: set<string>)

  /** The index of the last slash of `p`, or -1. */
  function LastSlash(p: string): (i: int)
    ensures -1 <= i < |p|
    ensures i >= 0 ==> p[i] == '/'
    ensures forall j :: i < j < |p| ==> p[j] != '/'
  {
    if p == [] then -1
    else if p[|p| - 1] == '/' then |p| - 1
    else LastSlash(p[..|p| - 1])
  }

  /** `os.path.dirname` of a relative path (the empty string at top level). */
  function DirOf(p: string): string
  {
    var i := LastSlash(p);
    if i < 0 then [] else p[..i]
  }

  /** `os.path.basename` */
  function BaseOf(p: string): string
  {
    p[LastSlash(p) + 1..]
  }

  /** `os.path.join(a, b)` on POSIX. */
  function PathJoin(a: string, b: string): string
  {
    if b != [] && b[0] == '/' then b
    else if a == [] || a[|a| - 1] == '/' then a + b
    else a + "/" + b
  }

  /** A directory is the root (`""`) or a valid relative path. */
  predicate ValidDir(d: string) { d == [] || ValidRelPath(d) }

  /** What a real directory tree guarantees: every file and directory sits in
      the root or in a listed directory, and no path is both. */
  predicate ValidReplica(r: Replica)
  {
    && r.root != []
    && (forall p :: p in r.files ==> ValidRelPath(p) && (DirOf(p) == [] || DirOf(p) in r.dirs))
    && (forall d :: d in r.dirs ==> ValidRelPath(d) && (DirOf(d) == [] || DirOf(d) in r.dirs))
    && r.files.Keys !! r.dirs
  }

  lemma DirBaseOfValidPath(p: string)
    requires ValidRelPath(p)
    ensures ValidDir(DirOf(p)) && ValidName(BaseOf(p))
    ensures PathJoin(DirOf(p), BaseOf(p)) == p
  {
    var i := LastSlash(p);
    if i >= 0 {
      assert 0 < i < |p| - 1;
      var d := p[..i];
      assert d[|d| - 1] != '/' by { assert p[i - 1] != '/'; }
      assert ValidRelPath(d) by {
        forall j | 0 <= j < |d| && d[j] == '/' ensures 0 < j < |d| - 1 && d[j + 1] != '/' {
          assert p[j] == '/';
          assert j + 1 != i;
        }
      }
      assert p == d + "/" + p[i + 1..];
    } else {
      assert p[0] != '/';
    }
  }

  lemma DirBaseOfJoin(d: string, n: string)
    requires ValidDir(d) && ValidName(n)
    ensures ValidRelPath(PathJoin(d, n))
    ensures DirOf(PathJoin(d, n)) == d && BaseOf(PathJoin(d, n)) == n
  {
    var p := PathJoin(d, n);
    if d == [] {
      assert p == n;
      LastSlashNone(n);
    } else {
      assert p == d + "/" + n;
      LastSlashOfAppend(d, n);
      forall j | 0 <= j < |p| && p[j] == '/' ensures 0 < j < |p| - 1 && p[j + 1] != '/' {
        if j < |d| {
          assert d[j] == '/';
          if j + 1 < |d| { assert p[j + 1] == d[j + 1]; } else { assert false; }
        } else {
          assert j == |d|;
          assert p[j + 1] == n[0];
        }
      }
      assert p[..|d|] == d;
      assert p[|d| + 1..] == n;
    }
  }

  lemma LastSlashNone(n: string)
    requires forall j :: 0 <= j < |n| ==> n[j] != '/'
    ensures LastSlash(n) == -1
  {
    if n != [] { LastSlashNone(n[..|n| - 1]); }
  }

  lemma {:induction false} LastSlashOfAppend(d: string, n: string)
    requires forall j :: 0 <= j < |n| ==> n[j] != '/'
    ensures LastSlash(d + "/" + n) == |d|
    decreases |n|
  {
    var p := d + "/" + n;
    if n != [] {
      assert p[..|p| - 1] == d + "/" + n[..|n| - 1];
      LastSlashOfAppend(d, n[..|n| - 1]);
    }
  }

  /** The outcome of opening the file at `os.path.join(root, p)`. */
  datatype Entry = File(content: Bytes) | IsADirectory | NotADirectory | NotFound

  function Lookup(r: Replica, p: string): (e: Entry)
    ensures e.File? <==> p in r.files
    ensures e.File? ==> e.content == r.files[p]
  {
    if p in r.files then File(r.files[p])
    else if p in r.dirs then IsADirectory
    else if exists j :: 0 < j < |p| && p[j] == '/' && p[..j] in r.files then NotADirectory
    else NotFound
  }

  /** One triple `os.walk(root)` yields: the directory's path and the names of
      the files directly inside it. */
  datatype WalkEntry = WalkEntry(dirPath: string, fileNames: set<string>)

  /** The path `os.walk` gives for the directory at relative path `d`. */
  function DirPath(root: string, d: string): string
  {
    if d == [] then root else PathJoin(root, d)
  }

  /** The names of the files directly inside directory `d`. */
  function FilesIn(r: Replica, d: string): set<string>
  {
    set p | p in r.files && DirOf(p) == d :: BaseOf(p)
  }

  /** Everything `os.walk(root)` yields, by relative directory. It always
      descends into every sub-directory: nothing is pruned. */
  function OsWalk(r: Replica): (listing: map<string, WalkEntry>)
    ensures listing.Keys == {[]} + r.dirs
  {
    map d | d in {[]} + r.dirs :: WalkEntry(DirPath(r.root, d), FilesIn(r, d))
  }

  /** A name listed in directory `d` is the base name of the file `d/name`. */
  lemma FileInDirectory(r: Replica, d: string, n: string)
    requires ValidReplica(r) && ValidDir(d) && n in FilesIn(r, d)
    ensures PathJoin(d, n) in r.files && DirOf(PathJoin(d, n)) == d && BaseOf(PathJoin(d, n)) == n
  {
    var p :| p in r.files && DirOf(p) == d && BaseOf(p) == n;
    DirBaseOfValidPath(p);
  }

  /** The root-relative path of a directory `os.walk` yielded, obtained by
      removing the root prefix and any slashes after it. */
  function RelativeDir(dirPath: string, root: string): string
    requires StartsWith(dirPath, root)
  {
    LStripSlashes(dirPath[|root|..])
  }

  lemma RelativeDirOfDirPath(root: string, d: string)
    requires root != [] && ValidDir(d)
    ensures StartsWith(DirPath(root, d), root)
    ensures RelativeDir(DirPath(root, d), root) == d
  {
    var dp := DirPath(root, d);
    if d != [] {
      assert d[0] != '/';
      if root[|root| - 1] == '/' {
        assert dp == root + d;
        assert dp[|root|..] == d;
      } else {
        assert dp == root + "/" + d;
        assert dp[|root|..] == "/" + d;
        assert ("/" + d)[1..] == d;
      }
      assert dp[..|root|] == root;
    }
  }

  /** `path.split(root)[1].lstrip('/')`, as `DataSource._walk` computes the
      relative path: the text between the first and the second occurrence of
      the root string, slashes stripped. */
  function RelativeDirAsWritten(dirPath: string, root: string): string
    requires root != [] && StartsWith(dirPath, root)
  {
    assert OccursAt(dirPath, root, 0);
    assert Find(dirPath, root) == 0;
    var parts := Split(dirPath, root);
    assert |parts| >= 2;
    LStripSlashes(parts[1])
  }

  /** The two agree while the root string does not occur again after the root. */
  lemma AsWrittenAgreesWithoutRecurrence(dirPath: string, root: string)
    requires root != [] && StartsWith(dirPath, root)
    requires Find(dirPath[|root|..], root) < 0
    ensures RelativeDirAsWritten(dirPath, root) == RelativeDir(dirPath, root)
  {
    SplitAtFront(dirPath, root);
    SplitFirstPiece(dirPath[|root|..], root);
  }

  lemma FindRecurringRoot(rest: string, root: string)
    requires rest == "/x/dd" && root == "/d"
    ensures Find(rest, root) == 2
  {
    assert !OccursAt(rest, root, 0) by { assert rest[0..2] == "/x"; }
    assert !OccursAt(rest, root, 1) by { assert rest[1..3] == "x/"; }
    assert OccursAt(rest, root, 2) by { assert rest[2..4] == "/d"; }
    var i := Find(rest, root);
    assert i >= 0;
    assert !(i < 2) && !(i > 2);
  }

  /** When the text after the root starts with the root again, the first two
      pieces of the split are empty, so the code takes the root itself. */
  lemma AsWrittenOfDoubledRoot(root: string, tail: string)
    requires root != [] && StartsWith(tail, root)
    ensures StartsWith(root + tail, root) && RelativeDirAsWritten(root + tail, root) == []
  {
    var s := root + tail;
    assert s[..|root|] == root;
    assert OccursAt(s, root, 0);
    SplitAtFront(s, root);
    assert s[|root|..] == tail;
    assert OccursAt(tail, root, 0);
    SplitAtFront(tail, root);
  }

  /** After the root, the code keeps the text up to the next occurrence of
      the root, without its leading slashes. */
  lemma AsWrittenOfRootThenRest(root: string, rest: string)
    requires root != [] && Find(rest, root) >= 0
    ensures StartsWith(root + rest, root)
    ensures RelativeDirAsWritten(root + rest, root) == LStripSlashes(rest[..Find(rest, root)])
  {
    var s := root + rest;
    assert s[..|root|] == root;
    assert OccursAt(s, root, 0);
    SplitAtFront(s, root);
    assert s[|root|..] == rest;
    SplitFirstPiece(rest, root);
  }

  lemma AsWrittenOfRecurringRoot(dirPath: string, root: string)
    requires dirPath == "/d/x/dd" && root == "/d"
    ensures RelativeDirAsWritten(dirPath, root) == "x"
  {
    var rest := dirPath[2..];
    assert root + rest == dirPath;
    FindRecurringRoot(rest, root);
    AsWrittenOfRootThenRest(root, rest);
    var piece := rest[..2];
    assert piece[0] == '/' && piece[1..] == "x";
    assert LStripSlashes(piece[1..]) == piece[1..];
  }

  lemma CorrectedOfRecurringRoot()
    ensures DirPath("/d", "x/dd") == "/d/x/dd"
    ensures RelativeDir("/d/x/dd", "/d") == "x/dd"
  {
    assert PathJoin("/d", "x/dd") == "/d/x/dd";
    assert ValidRelPath("x/dd") by {
      forall j | 0 <= j < 4 && "x/dd"[j] == '/' ensures 0 < j < 3 && "x/dd"[j + 1] != '/' {
        assert j == 1;
      }
    }
    RelativeDirOfDirPath("/d", "x/dd");
  }

  /** With root `/d`, the directory `x/dd` is walked as `/d/x/dd`; the root
      string occurs again inside `/dd`, so the code takes `x` for its relative
      path, and the file `x/dd/f` is walked as `x/f`. */
  lemma AsWrittenLosesNestedDirectory()
    ensures DirPath("/d", "x/dd") == "/d/x/dd"
    ensures RelativeDir("/d/x/dd", "/d") == "x/dd"
    ensures RelativeDirAsWritten("/d/x/dd", "/d") == "x"
  {
    CorrectedOfRecurringRoot();
    AsWrittenOfRecurringRoot("/d/x/dd", "/d");
  }
}
