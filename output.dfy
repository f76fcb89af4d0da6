/**
 * Where prepared posts go: the output directory tree
 * `root/<category>/<label>/<id>/<n>.txt`, the directories created on the way,
 * and the post files themselves.
 */
module Output {
  import opened Wrappers
  import opened Text
  import opened Metadata
  import opened Partition

  /**
   * A snapshot of the file system: directories (named without a trailing
   * separator) and regular files with their text.
   */
  datatype FsState = FsState(dirs: set<string>, files: map<string, string>)

  /** How `os.mkdir` fails. */
  datatype DirError =
    | AlreadyExists(path: string)       // FileExistsError: a directory or a regular file has the name
    | ParentNotDirectory(path: string)  // NotADirectoryError or FileNotFoundError: the parent is a regular file or missing

  /** The file system after one or more `os.mkdir` calls, and the exception the last one raised, if any. */
  datatype Made = Made(state: FsState, error: Option<DirError>)

  /** A path without its trailing separator. */
  function Bare(p: string): string {
    if p != [] && p[|p| - 1] == '/' then p[..|p| - 1] else p
  }

  /** The directory a path without a trailing separator is in: everything before its last separator. */
  function ParentOf(b: string): string
    decreases |b|
  {
    if b == [] then [] else if b[|b| - 1] == '/' then b[..|b| - 1] else ParentOf(b[..|b| - 1])
  }

  /** `os.path.exists`: a path with a trailing separator names a directory only. */
  predicate ExistsIn(st: FsState, p: string) {
    if p != [] && p[|p| - 1] == '/' then Bare(p) in st.dirs else p in st.dirs || p in st.files
  }

  /** `os.mkdir`: the name must be free and its parent a directory. */
  function Mkdir(st: FsState, p: string): Made {
    var b := Bare(p);
    if b in st.dirs || b in st.files then Made(st, Some(AlreadyExists(p)))
    else if ParentOf(b) !in st.dirs then Made(st, Some(ParentNotDirectory(p)))
    else Made(st.(dirs := st.dirs + {b}), None)
  }

  /** The file system the script reads from and writes to, keyed by path strings as the script spells them. */
  class FileSystem {
    var dirs: set<string>
    var files: map<string, string>

    constructor (dirs0: set<string>, files0: map<string, string>)
      ensures dirs == dirs0 && files == files0
    {
      dirs := dirs0;
      files := files0;
    }

    function State(): FsState
      reads this
    {
      FsState(dirs, files)
    }

    /** `os.path.exists`. */
    predicate Exists(p: string)
      reads this
    {
      ExistsIn(State(), p)
    }

    /** `os.mkdir`. */
    method MakeDir(p: string) returns (error: Option<DirError>)
      modifies this
      ensures Made(State(), error) == Mkdir(old(State()), p)
    {
      var b := Bare(p);
      if b in dirs || b in files {
        return Some(AlreadyExists(p));
      }
      if ParentOf(b) !in dirs {
        return Some(ParentNotDirectory(p));
      }
      dirs := dirs + {b};
      return None;
    }

    /** `f.read()` on a file opened for reading. */
    method ReadFile(p: string) returns (text: string)
      requires p in files
      ensures text == files[p]
    {
      text := files[p];
    }

    /** Opening a file for writing and writing `text` into it; an existing file is overwritten. */
    method WriteFile(p: string, text: string)
      modifies this
      ensures files == old(files)[p := text] && dirs == old(dirs)
    {
      files := files[p := text];
    }
  }

  // ---------------------------------------------------------------------------
  // Paths
  // ---------------------------------------------------------------------------

  function CategoryDir(root: string, c: DataCategory): string {
    root + "/" + c.DirName()
  }

  function LabelDir(root: string, c: DataCategory, l: AgeLabel): string {
    CategoryDir(root, c) + "/" + l.Name()
  }

  /** The author's directory as the file system names it. */
  function AuthorDirName(root: string, c: DataCategory, l: AgeLabel, id: int): string {
    LabelDir(root, c, l) + "/" + IntToString(id)
  }

  /** `idTargetFilePath`, with its trailing separator. */
  function AuthorDir(root: string, c: DataCategory, l: AgeLabel, id: int): string {
    AuthorDirName(root, c, l, id) + "/"
  }

  /** The file of post number `k` inside an author directory. */
  function PostFile(dir: string, k: nat): string {
    dir + NatToString(k) + ".txt"
  }

  function PostPath(root: string, c: DataCategory, l: AgeLabel, id: int, k: nat): string {
    PostFile(AuthorDir(root, c, l, id), k)
  }

  /** Within one author directory, distinct post numbers give distinct files. */
  lemma PostFileInjective(dir: string, j: nat, k: nat)
    requires PostFile(dir, j) == PostFile(dir, k)
    ensures j == k
  {
    var a, b := NatToString(j), NatToString(k);
    assert PostFile(dir, j)[|dir|..] == a + ".txt";
    assert PostFile(dir, k)[|dir|..] == b + ".txt";
    assert |a| == |b|;
    assert a == (a + ".txt")[..|a|];
    assert b == (b + ".txt")[..|b|];
    NatToStringInjective(j, k);
  }

  /** The four names below the root. */
  function PathParts(c: DataCategory, l: AgeLabel, id: int, k: nat): seq<string> {
    [c.DirName(), l.Name(), IntToString(id), NatToString(k) + ".txt"]
  }

  lemma JoinFour(a: string, b: string, c: string, d: string)
    ensures Join([a, b, c, d], '/') == a + "/" + b + "/" + c + "/" + d
  {
    var parts := [a, b, c, d];
    assert parts[1..] == [b, c, d] && parts[1..][1..] == [c, d] && parts[1..][1..][1..] == [d];
    assert Join([d], '/') == d;
    assert Join([c, d], '/') == c + "/" + d;
    assert Join([b, c, d], '/') == b + "/" + (c + "/" + d);
  }

  /** Below the root, a post path is its four names joined by `/`. */
  lemma PostPathJoin(root: string, c: DataCategory, l: AgeLabel, id: int, k: nat)
    ensures PostPath(root, c, l, id, k) == root + "/" + Join(PathParts(c, l, id, k), '/')
  {
    var a, b, i, n := c.DirName(), l.Name(), IntToString(id), NatToString(k);
    JoinFour(a, b, i, n + ".txt");
    assert PostPath(root, c, l, id, k) == root + "/" + a + "/" + b + "/" + i + "/" + n + ".txt";
  }

  /** None of the four names of a post path holds a `/`. */
  lemma PathPartsNoSlash(c: DataCategory, l: AgeLabel, id: int, k: nat)
    ensures forall i :: 0 <= i < 4 ==> '/' !in PathParts(c, l, id, k)[i]
  {
    CategoryNames(c, c);
    LabelNames(l, l);
    IntToStringChars(id);
    assert '/' !in NatToString(k) + ".txt";
  }

  /** Distinct (category, label, id, post number) give distinct output files. */
  lemma PostPathInjective(root: string, c: DataCategory, l: AgeLabel, id: int, k: nat,
                                        d: DataCategory, m: AgeLabel, jd: int, n: nat)
    requires PostPath(root, c, l, id, k) == PostPath(root, d, m, jd, n)
    ensures c == d && l == m && id == jd && k == n
  {
    var ps, qs := PathParts(c, l, id, k), PathParts(d, m, jd, n);
    PostPathJoin(root, c, l, id, k);
    PostPathJoin(root, d, m, jd, n);
    PathPartsNoSlash(c, l, id, k);
    PathPartsNoSlash(d, m, jd, n);
    var cut := |root| + 1;
    assert Join(ps, '/') == PostPath(root, c, l, id, k)[cut..];
    assert Join(qs, '/') == PostPath(root, d, m, jd, n)[cut..];
    JoinInjective(ps, qs, '/');
    assert ps[0] == qs[0] && ps[1] == qs[1] && ps[2] == qs[2] && ps[3] == qs[3];
    CategoryNames(c, d);
    LabelNames(l, m);
    IntToStringInjective(id, jd);
    assert PostFile("", k) == ps[3] && PostFile("", n) == qs[3];
    PostFileInjective("", k, n);
  }

  // ---------------------------------------------------------------------------
  // Directories
  // ---------------------------------------------------------------------------

  /** `if not os.path.exists(p): os.mkdir(p)`. */
  function MkdirIfMissing(st: FsState, p: string): Made {
    if ExistsIn(st, p) then Made(st, None) else Mkdir(st, p)
  }

  /** The three directory levels of an author, parent first; the first exception stops the rest. */
  function AuthorDirs(st: FsState, root: string, c: DataCategory, l: AgeLabel, id: int): Made {
    var m1 := MkdirIfMissing(st, CategoryDir(root, c));
    if m1.error.Some? then m1
    else
      var m2 := MkdirIfMissing(m1.state, LabelDir(root, c, l));
      if m2.error.Some? then m2
      else MkdirIfMissing(m2.state, AuthorDir(root, c, l, id))
  }

  lemma {:induction false} ParentOfChild(a: string, n: string)
    requires '/' !in n
    ensures ParentOf(a + "/" + n) == a
    decreases |n|
  {
    var s := a + "/" + n;
    if n == [] {
      assert s[..|s| - 1] == a;
    } else {
      assert s[|s| - 1] == n[|n| - 1];
      assert s[..|s| - 1] == a + "/" + n[..|n| - 1];
      ParentOfChild(a, n[..|n| - 1]);
    }
  }

  /** A name of the tree ends in that name, which is not empty and holds no separator. */
  lemma ChildName(a: string, n: string)
    requires n != [] && '/' !in n
    ensures var s := a + "/" + n; s != [] && s[|s| - 1] != '/' && Bare(s) == s && ParentOf(s) == a
  {
    var s := a + "/" + n;
    assert s[|s| - 1] == n[|n| - 1];
    ParentOfChild(a, n);
  }

  /**
   * How the three levels are named: each is in the one before it, only the
   * author's path has a trailing separator, and they are distinct.
   */
  lemma Levels(root: string, c: DataCategory, l: AgeLabel, id: int)
    ensures var cat, lab, dir := CategoryDir(root, c), LabelDir(root, c, l), AuthorDir(root, c, l, id);
            && cat != [] && cat[|cat| - 1] != '/' && Bare(cat) == cat && ParentOf(cat) == root
            && lab != [] && lab[|lab| - 1] != '/' && Bare(lab) == lab && ParentOf(lab) == cat
            && dir != [] && dir[|dir| - 1] == '/' && Bare(dir) == AuthorDirName(root, c, l, id)
            && ParentOf(AuthorDirName(root, c, l, id)) == lab
            && |cat| < |lab| < |AuthorDirName(root, c, l, id)|
  {
    CategoryNames(c, c);
    LabelNames(l, l);
    IntToStringChars(id);
    assert '/' !in IntToString(id);
    ChildName(root, c.DirName());
    ChildName(CategoryDir(root, c), l.Name());
    ChildName(LabelDir(root, c, l), IntToString(id));
    var dir := AuthorDir(root, c, l, id);
    assert dir[..|dir| - 1] == AuthorDirName(root, c, l, id);
  }

  /** Making an author's directories never touches a regular file. */
  lemma AuthorDirsKeepsFiles(st: FsState, root: string, c: DataCategory, l: AgeLabel, id: int)
    ensures AuthorDirs(st, root, c, l, id).state.files == st.files
  {
    var m1 := MkdirIfMissing(st, CategoryDir(root, c));
    MkdirKeepsFiles(st, CategoryDir(root, c));
    MkdirKeepsFiles(m1.state, LabelDir(root, c, l));
    var m2 := MkdirIfMissing(m1.state, LabelDir(root, c, l));
    MkdirKeepsFiles(m2.state, AuthorDir(root, c, l, id));
  }

  lemma MkdirKeepsFiles(st: FsState, p: string)
    ensures MkdirIfMissing(st, p).state.files == st.files
  {
  }

  /**
   * When the step goes through, exactly the missing levels are added (a
   * regular file of the same name stands in for the two upper levels), the
   * author's directory exists, and repeating the step changes nothing.
   */
  lemma AuthorDirsEffect(st: FsState, root: string, c: DataCategory, l: AgeLabel, id: int)
    requires AuthorDirs(st, root, c, l, id).error.None?
    ensures var s := AuthorDirs(st, root, c, l, id).state;
            && s.dirs == st.dirs + (set p | p in {CategoryDir(root, c), LabelDir(root, c, l), AuthorDirName(root, c, l, id)} && p !in st.files)
            && AuthorDirName(root, c, l, id) in s.dirs
            && AuthorDirs(s, root, c, l, id) == Made(s, None)
  {
    Levels(root, c, l, id);
    var cat, lab, dir := CategoryDir(root, c), LabelDir(root, c, l), AuthorDir(root, c, l, id);
    var m1 := MkdirIfMissing(st, cat);
    MkdirIfMissingEffect(st, cat);
    var m2 := MkdirIfMissing(m1.state, lab);
    MkdirIfMissingEffect(m1.state, lab);
    var m3 := MkdirIfMissing(m2.state, dir);
    MkdirIfMissingEffect(m2.state, dir);
    var s := m3.state;
    LevelsMissing(st.files, cat, lab, Bare(dir));
    MkdirIfMissingAgain(s, cat);
    MkdirIfMissingAgain(s, lab);
    MkdirIfMissingAgain(s, dir);
  }

  /**
   * A level that goes through is there afterwards: added as a directory
   * unless a regular file of its name stands in for it, and only then.
   */
  lemma MkdirIfMissingEffect(st: FsState, p: string)
    requires MkdirIfMissing(st, p).error.None?
    ensures var s := MkdirIfMissing(st, p).state;
            && s.files == st.files
            && s.dirs == st.dirs + (if Bare(p) in st.files then {} else {Bare(p)})
            && (Bare(p) in s.dirs || (p == Bare(p) && p in st.files))
  {
  }

  /** A level that is there already is left as it is. */
  lemma MkdirIfMissingAgain(st: FsState, p: string)
    requires Bare(p) in st.dirs || (p == Bare(p) && p in st.files)
    ensures MkdirIfMissing(st, p) == Made(st, None)
  {
  }

  /** The levels added, one at a time, are those of the three not taken by a regular file. */
  lemma LevelsMissing(files: map<string, string>, a: string, b: string, c: string)
    ensures (set p | p in {a, b, c} && p !in files)
            == (if a in files then {} else {a}) + (if b in files then {} else {b}) + (if c in files then {} else {c})
  {
  }

  /** From a directory root, with no regular file in the way, the step goes through. */
  lemma AuthorDirsSucceeds(st: FsState, root: string, c: DataCategory, l: AgeLabel, id: int)
    requires root in st.dirs
    requires CategoryDir(root, c) !in st.files && LabelDir(root, c, l) !in st.files
    requires AuthorDirName(root, c, l, id) !in st.files
    ensures AuthorDirs(st, root, c, l, id).error.None?
  {
    Levels(root, c, l, id);
  }

  /**
   * A regular file where a directory should be raises: at the category level
   * the label directory cannot be made in it, at the label level the author
   * directory cannot, and at the author level the existence check (which asks
   * for a directory) fails and the name is taken.
   */
  lemma AuthorDirsBlocked(st: FsState, root: string, c: DataCategory, l: AgeLabel, id: int)
    ensures var cat, lab, name := CategoryDir(root, c), LabelDir(root, c, l), AuthorDirName(root, c, l, id);
            cat in st.files && cat !in st.dirs && lab !in st.dirs && lab !in st.files
            ==> AuthorDirs(st, root, c, l, id) == Made(st, Some(ParentNotDirectory(lab)))
    ensures var cat, lab, name := CategoryDir(root, c), LabelDir(root, c, l), AuthorDirName(root, c, l, id);
            cat in st.dirs && lab in st.files && lab !in st.dirs && name !in st.dirs && name !in st.files
            ==> AuthorDirs(st, root, c, l, id) == Made(st, Some(ParentNotDirectory(AuthorDir(root, c, l, id))))
    ensures var cat, lab, name := CategoryDir(root, c), LabelDir(root, c, l), AuthorDirName(root, c, l, id);
            cat in st.dirs && lab in st.dirs && name in st.files && name !in st.dirs
            ==> AuthorDirs(st, root, c, l, id) == Made(st, Some(AlreadyExists(AuthorDir(root, c, l, id))))
  {
    Levels(root, c, l, id);
  }

  /** Lines making sure the author's directory exists. */
  method EnsureAuthorDirs(fs: FileSystem, root: string, c: DataCategory, l: AgeLabel, id: int)
    returns (error: Option<DirError>)
    modifies fs
    ensures Made(fs.State(), error) == AuthorDirs(old(fs.State()), root, c, l, id)
  {
    error := None;
    if !fs.Exists(CategoryDir(root, c)) {
      error := fs.MakeDir(CategoryDir(root, c));
      if error.Some? {
        return;
      }
    }
    if !fs.Exists(LabelDir(root, c, l)) {
      error := fs.MakeDir(LabelDir(root, c, l));
      if error.Some? {
        return;
      }
    }
    if !fs.Exists(AuthorDir(root, c, l, id)) {
      error := fs.MakeDir(AuthorDir(root, c, l, id));
    }
  }

  // ---------------------------------------------------------------------------
  // Post files
  // ---------------------------------------------------------------------------

  /** Every post has text (ElementTree gives no text for an empty element). */
  predicate AllTexts(posts: seq<Option<string>>) {
    forall i :: 0 <= i < |posts| ==> posts[i].Some?
  }

  /**
   * The files after writing `posts` numbered from `k` on. A post without text
   * is opened for writing (an empty file) and then the write raises, so
   * nothing after it is written.
   */
  function PostsWritten(files: map<string, string>, dir: string, posts: seq<Option<string>>, k: nat): (r: map<string, string>)
    ensures files.Keys <= r.Keys
    decreases |posts|
  {
    if posts == [] then files
    else
      match posts[0]
      case None => files[PostFile(dir, k) := ""]
      case Some(text) => PostsWritten(files[PostFile(dir, k) := text], dir, posts[1..], k + 1)
  }

  /** The files of posts `k` to `k + n - 1`. */
  function PostFiles(dir: string, k: nat, n: nat): set<string> {
    set j | k <= j < k + n :: PostFile(dir, j)
  }

  /** The first of a run of post files, and the rest of the run. */
  lemma PostFilesSplit(dir: string, k: nat, n: nat)
    requires n > 0
    ensures PostFiles(dir, k, n) == {PostFile(dir, k)} + PostFiles(dir, k + 1, n - 1)
    ensures PostFile(dir, k) !in PostFiles(dir, k + 1, n - 1)
  {
    forall j | k + 1 <= j < k + n ensures PostFile(dir, j) != PostFile(dir, k) {
      if PostFile(dir, j) == PostFile(dir, k) {
        PostFileInjective(dir, j, k);
      }
    }
  }

  /** The posts after the first all have text too. */
  lemma AllTextsTail(posts: seq<Option<string>>)
    requires posts != [] && AllTexts(posts)
    ensures posts[0].Some? && AllTexts(posts[1..])
  {
    forall i | 0 <= i < |posts| - 1 ensures posts[1..][i].Some? {
      assert posts[1..][i] == posts[i + 1];
    }
  }

  /** Writing posts adds exactly their files. */
  lemma {:induction false} PostsWrittenKeys(files: map<string, string>, dir: string, posts: seq<Option<string>>, k: nat)
    requires AllTexts(posts)
    ensures PostsWritten(files, dir, posts, k).Keys == files.Keys + PostFiles(dir, k, |posts|)
    decreases |posts|
  {
    if posts == [] {
      assert PostFiles(dir, k, 0) == {};
    } else {
      AllTextsTail(posts);
      var files' := files[PostFile(dir, k) := posts[0].value];
      PostsWrittenKeys(files', dir, posts[1..], k + 1);
      PostFilesSplit(dir, k, |posts|);
    }
  }

  /** Post `j` lands in file `k + j`. */
  lemma {:induction false} PostsWrittenAt(files: map<string, string>, dir: string, posts: seq<Option<string>>, k: nat)
    requires AllTexts(posts)
    ensures forall j :: 0 <= j < |posts| ==>
              PostFile(dir, k + j) in PostsWritten(files, dir, posts, k)
              && PostsWritten(files, dir, posts, k)[PostFile(dir, k + j)] == posts[j].value
    decreases |posts|
  {
    if posts != [] {
      AllTextsTail(posts);
      var files' := files[PostFile(dir, k) := posts[0].value];
      var rest := posts[1..];
      PostsWrittenAt(files', dir, rest, k + 1);
      PostsWrittenKeys(files', dir, rest, k + 1);
      PostFilesSplit(dir, k, |posts|);
      var r := PostsWritten(files', dir, rest, k + 1);
      forall j | 0 <= j < |posts|
        ensures PostFile(dir, k + j) in r && r[PostFile(dir, k + j)] == posts[j].value
      {
        if j > 0 {
          assert rest[j - 1] == posts[j];
          assert PostFile(dir, k + 1 + (j - 1)) == PostFile(dir, k + j);
        } else {
          PostsWrittenElsewhere(files', dir, rest, k + 1);
        }
      }
    }
  }

  /** Files other than the posts' own keep their contents. */
  lemma {:induction false} PostsWrittenElsewhere(files: map<string, string>, dir: string, posts: seq<Option<string>>, k: nat)
    requires AllTexts(posts)
    ensures forall p :: p in files && p !in PostFiles(dir, k, |posts|) ==>
              p in PostsWritten(files, dir, posts, k) && PostsWritten(files, dir, posts, k)[p] == files[p]
    decreases |posts|
  {
    if posts != [] {
      AllTextsTail(posts);
      var files' := files[PostFile(dir, k) := posts[0].value];
      PostsWrittenElsewhere(files', dir, posts[1..], k + 1);
      PostFilesSplit(dir, k, |posts|);
    }
  }

  /** Post `j` is written to its own file, numbered from `k`, and nothing else changes. */
  lemma PostsWrittenContents(files: map<string, string>, dir: string, posts: seq<Option<string>>, k: nat)
    requires AllTexts(posts)
    ensures PostsWritten(files, dir, posts, k).Keys == files.Keys + PostFiles(dir, k, |posts|)
    ensures forall j :: 0 <= j < |posts| ==> PostsWritten(files, dir, posts, k)[PostFile(dir, k + j)] == posts[j].value
    ensures forall p :: p in files && p !in PostFiles(dir, k, |posts|) ==> PostsWritten(files, dir, posts, k)[p] == files[p]
  {
    PostsWrittenKeys(files, dir, posts, k);
    PostsWrittenAt(files, dir, posts, k);
    PostsWrittenElsewhere(files, dir, posts, k);
  }

  /** File number `k` under an author's directory holds the author's `k`-th post. */
  lemma PostsAtTheirPaths(files: map<string, string>, root: string, c: DataCategory, l: AgeLabel, id: int,
                          posts: seq<Option<string>>)
    requires AllTexts(posts)
    ensures forall k :: 1 <= k <= |posts| ==>
              PostPath(root, c, l, id, k) in PostsWritten(files, AuthorDir(root, c, l, id), posts, 1)
              && PostsWritten(files, AuthorDir(root, c, l, id), posts, 1)[PostPath(root, c, l, id, k)] == posts[k - 1].value
  {
    var dir := AuthorDir(root, c, l, id);
    PostsWrittenContents(files, dir, posts, 1);
    forall k | 1 <= k <= |posts|
      ensures PostPath(root, c, l, id, k) in PostsWritten(files, dir, posts, 1)
      ensures PostsWritten(files, dir, posts, 1)[PostPath(root, c, l, id, k)] == posts[k - 1].value
    {
      assert PostPath(root, c, l, id, k) == PostFile(dir, 1 + (k - 1));
    }
  }

  /** `n` posts take exactly `n` distinct files: numbering has no gap and no repeat. */
  lemma {:induction false} PostFilesCount(dir: string, k: nat, n: nat)
    ensures |PostFiles(dir, k, n)| == n
    decreases n
  {
    if n > 0 {
      PostFilesSplit(dir, k, n);
      PostFilesCount(dir, k + 1, n - 1);
    }
  }

  /**
   * When post `m` is the first without text, the posts before it are written,
   * its own file is left empty, and nothing after it is touched.
   */
  lemma {:induction false} PostsWrittenStopsAtMissingText(files: map<string, string>, dir: string,
                                                          posts: seq<Option<string>>, k: nat, m: nat)
    requires m < |posts| && posts[m].None? && AllTexts(posts[..m])
    ensures PostsWritten(files, dir, posts, k) == PostsWritten(files, dir, posts[..m], k)[PostFile(dir, k + m) := ""]
    decreases m
  {
    if m > 0 {
      assert posts[0] == posts[..m][0];
      var files' := files[PostFile(dir, k) := posts[0].value];
      assert posts[1..][..m - 1] == posts[..m][1..];
      PostsWrittenStopsAtMissingText(files', dir, posts[1..], k + 1, m - 1);
    }
  }

  /** The post loop: number the posts from 1 and write each to its file. */
  method WritePosts(fs: FileSystem, dir: string, posts: seq<Option<string>>) returns (ok: bool)
    modifies fs
    ensures fs.files == PostsWritten(old(fs.files), dir, posts, 1)
    ensures fs.dirs == old(fs.dirs)
    ensures ok <==> AllTexts(posts)
  {
    var blogNumber := 1;
    for i := 0 to |posts|
      invariant blogNumber == i + 1
      invariant fs.dirs == old(fs.dirs)
      invariant AllTexts(posts[..i])
      invariant PostsWritten(fs.files, dir, posts[i..], blogNumber) == PostsWritten(old(fs.files), dir, posts, 1)
    {
      var path := PostFile(dir, blogNumber);
      match posts[i]
      case None =>
        // open(path, "w") has created the file; writing None then raises
        fs.WriteFile(path, "");
        return false;
      case Some(text) =>
        fs.WriteFile(path, text);
      assert posts[i..][1..] == posts[i + 1..];
      assert posts[..i + 1] == posts[..i] + [posts[i]];
      blogNumber := blogNumber + 1;
    }
    assert posts[..|posts|] == posts;
    return true;
  }
}
