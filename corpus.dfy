/**
 * The preparation run: for every file the directory walk yields, decode its
 * name, pick its label and split, make its output directories, sanitize its
 * content in place, parse it and write one text file per post.
 */
module Corpus {
  import opened Wrappers
  import opened Text
  import opened ControlChars
  import opened Sanitizer
  import opened Metadata
  import opened Partition
  import opened Output

  /** A file yielded by the walk: the directory it was found in and its name. */
  datatype Visit = Visit(dir: string, name: string)

  /** `filepath`, the path the file is read from and rewritten to. */
  function SourcePath(v: Visit): string {
    v.dir + "/" + v.name
  }

  /** Where an author's posts went. */
  datatype Assignment = Assignment(category: DataCategory, ageLabel: AgeLabel, id: int)

  /** Where the author of a decoded file goes, for the draw `r`. */
  function Place(author: AuthorRecord, r: real): (a: Assignment)
    ensures a.category.Covers(r) && a.ageLabel.Covers(author.age) && a.id == author.id
  {
    Assignment(ChooseCategory(r), LabelOf(author.age), author.id)
  }

  /** The exceptions that end a run. */
  datatype RunError =
    | BadFilename(path: string, reason: DecodeError)  // split/unpack or int() raised
    | DirectoryFailed(failure: DirError)               // os.mkdir raised
    | Unreadable(path: string)                         // open() found no such file
    | ParseError(path: string)                         // ElementTree could not parse the content
    | MissingPostText(path: string)                    // f.write(None) for a post without text

  /**
   * ElementTree's `parse` followed by `findall("./post")`: the text of each post
   * element in document order (None for an element without text), or None
   * when the content is not well-formed.
   */
  type PostParser = string -> Option<seq<Option<string>>>

  /** The file system, the outcome and the generator position after one file. */
  datatype Step = Step(state: FsState, outcome: Result<Assignment, RunError>, taken: nat)

  /** What the loop body leaves once an author is placed: the file system and the exception raised, if any. */
  datatype Written = Written(state: FsState, error: Option<RunError>)

  /**
   * The loop body after the draw, for the file at `path` placed at `a`: the
   * author's directories, the content sanitized in place, the parse and the posts.
   */
  function PrepareAuthor(st: FsState, root: string, path: string, a: Assignment, parse: PostParser): Written {
    var made := AuthorDirs(st, root, a.category, a.ageLabel, a.id);
    if made.error.Some? then Written(made.state, Some(DirectoryFailed(made.error.value)))
    else
    var st1 := made.state;
    if path !in st1.files then Written(st1, Some(Unreadable(path)))
    else
      var content := Sanitize(st1.files[path]);
      var st2 := st1.(files := st1.files[path := content]);
      match parse(content)
      case None => Written(st2, Some(ParseError(path)))
      case Some(posts) =>
        Written(st2.(files := PostsWritten(st2.files, AuthorDir(root, a.category, a.ageLabel, a.id), posts, 1)),
                if AllTexts(posts) then None else Some(MissingPostText(path)))
  }

  /** One pass of the loop body, for the file system `st` and the generator at draw `n`. */
  function ProcessFile(st: FsState, root: string, v: Visit, draws: nat -> real, n: nat, parse: PostParser): Step {
    match DecodeFilename(v.name)
    case Failure(e) => Step(st, Failure(BadFilename(SourcePath(v), e)), n)
    case Success(author) =>
      var a := Place(author, draws(n));
      var w := PrepareAuthor(st, root, SourcePath(v), a, parse);
      Step(w.state, if w.error.None? then Success(a) else Failure(w.error.value), n + 1)
  }

  /** The outcome of a whole run, and the generator position after it. */
  datatype RunResult = RunResult(state: FsState, outcome: Result<seq<Assignment>, RunError>, taken: nat)

  /** Put the authors already placed in front of the result of the rest of a run. */
  function After(done: seq<Assignment>, r: RunResult): RunResult {
    match r.outcome
    case Success(rest) => r.(outcome := Success(done + rest))
    case Failure(_) => r
  }

  /**
   * A completed run placed every file by its own draw (file `i` takes draw
   * `n + i`) and took exactly one draw per file.
   */
  predicate Placed(r: RunResult, visits: seq<Visit>, draws: nat -> real, n: nat) {
    r.outcome.Success? ==>
      && r.taken == n + |visits|
      && |r.outcome.value| == |visits|
      && forall i :: 0 <= i < |visits| ==>
           DecodeFilename(visits[i].name).Success?
           && r.outcome.value[i] == Place(DecodeFilename(visits[i].name).value, draws(n + i))
  }

  /** Placing the first file in front of a placed rest places the whole run. */
  lemma {:induction false} PlacedCons(a: Assignment, rest: RunResult, visits: seq<Visit>, draws: nat -> real, n: nat)
    requires visits != [] && DecodeFilename(visits[0].name).Success?
    requires a == Place(DecodeFilename(visits[0].name).value, draws(n))
    requires Placed(rest, visits[1..], draws, n + 1)
    ensures Placed(After([a], rest), visits, draws, n)
  {
    if rest.outcome.Success? {
      var r := After([a], rest);
      assert r.outcome.value == [a] + rest.outcome.value;
      forall i | 0 <= i < |visits|
        ensures DecodeFilename(visits[i].name).Success?
        ensures r.outcome.value[i] == Place(DecodeFilename(visits[i].name).value, draws(n + i))
      {
        if i > 0 {
          assert visits[1..][i - 1] == visits[i];
          assert n + 1 + (i - 1) == n + i;
        }
      }
    }
  }

  /**
   * The files in walk order; the first exception ends the run. A run that
   * completes places every file by its own draw: the category that draw
   * picks, the label of its author's age and its author's id.
   */
  function Run(st: FsState, root: string, visits: seq<Visit>, draws: nat -> real, n: nat, parse: PostParser): (r: RunResult)
    ensures Placed(r, visits, draws, n)
    decreases |visits|
  {
    if visits == [] then RunResult(st, Success([]), n)
    else
      var step := ProcessFile(st, root, visits[0], draws, n, parse);
      ProcessFileSucceeds(st, root, visits[0], draws, n, parse);
      match step.outcome
      case Failure(e) => RunResult(step.state, Failure(e), step.taken)
      case Success(a) =>
        var rest := Run(step.state, root, visits[1..], draws, step.taken, parse);
        PlacedCons(a, rest, visits, draws, n);
        After([a], rest)
  }

  // ---------------------------------------------------------------------------
  // What a run promises
  // ---------------------------------------------------------------------------

  /** A badly named file raises before any directory is made, any draw is taken or anything is written. */
  lemma BadNameChangesNothing(st: FsState, root: string, v: Visit, draws: nat -> real, n: nat, parse: PostParser)
    requires DecodeFilename(v.name).Failure?
    ensures ProcessFile(st, root, v, draws, n, parse)
         == Step(st, Failure(BadFilename(SourcePath(v), DecodeFilename(v.name).error)), n)
  {
  }

  /** The post texts the parser finds in the sanitized content of the file at `path`. */
  function ParsedPosts(st: FsState, path: string, parse: PostParser): Option<seq<Option<string>>>
    requires path in st.files
  {
    parse(Sanitize(st.files[path]))
  }

  /**
   * An author's output is complete exactly when the author's directories can
   * be made, the file exists, the parser accepts its sanitized content and
   * every post has text.
   */
  lemma PrepareAuthorCompletes(st: FsState, root: string, path: string, a: Assignment, parse: PostParser)
    ensures PrepareAuthor(st, root, path, a, parse).error.None?
            <==> AuthorDirs(st, root, a.category, a.ageLabel, a.id).error.None?
                 && path in st.files && ParsedPosts(st, path, parse).Some? && AllTexts(ParsedPosts(st, path, parse).value)
  {
    AuthorDirsKeepsFiles(st, root, a.category, a.ageLabel, a.id);
  }

  /**
   * A complete author's posts, numbered from 1, are in their files under the
   * author's directory, and the file itself holds the sanitized content
   * unless a post file has the same path.
   */
  lemma PrepareAuthorPosts(st: FsState, root: string, path: string, a: Assignment, parse: PostParser)
    requires PrepareAuthor(st, root, path, a, parse).error.None?
    ensures path in st.files && ParsedPosts(st, path, parse).Some? && AllTexts(ParsedPosts(st, path, parse).value)
    ensures var files := PrepareAuthor(st, root, path, a, parse).state.files;
            var posts := ParsedPosts(st, path, parse).value;
            forall k :: 1 <= k <= |posts| ==>
              PostPath(root, a.category, a.ageLabel, a.id, k) in files
              && files[PostPath(root, a.category, a.ageLabel, a.id, k)] == posts[k - 1].value
    ensures var files := PrepareAuthor(st, root, path, a, parse).state.files;
            var posts := ParsedPosts(st, path, parse).value;
            && path in files
            && (path !in PostFiles(AuthorDir(root, a.category, a.ageLabel, a.id), 1, |posts|) ==>
                  files[path] == Sanitize(st.files[path]))
  {
    PrepareAuthorCompletes(st, root, path, a, parse);
    var dir := AuthorDir(root, a.category, a.ageLabel, a.id);
    var files2 := st.files[path := Sanitize(st.files[path])];
    var posts := ParsedPosts(st, path, parse).value;
    var files := PrepareAuthor(st, root, path, a, parse).state.files;
    assert files == PostsWritten(files2, dir, posts, 1) by {
      AuthorDirsKeepsFiles(st, root, a.category, a.ageLabel, a.id);
    }
    PostsWrittenContents(files2, dir, posts, 1);
    PostsAtTheirPaths(files2, root, a.category, a.ageLabel, a.id, posts);
  }

  /**
   * A file goes through exactly when its name decodes, its author's
   * directories can be made and its author's output is complete; it then takes exactly one draw and is placed under the
   * category that draw picks, the label of the author's age and the author's id.
   */
  lemma ProcessFileSucceeds(st: FsState, root: string, v: Visit, draws: nat -> real, n: nat, parse: PostParser)
    ensures var r := ProcessFile(st, root, v, draws, n, parse);
            r.outcome.Success?
            <==> DecodeFilename(v.name).Success?
                 && (var a := Place(DecodeFilename(v.name).value, draws(n)); AuthorDirs(st, root, a.category, a.ageLabel, a.id).error.None?)
                 && SourcePath(v) in st.files && ParsedPosts(st, SourcePath(v), parse).Some?
                 && AllTexts(ParsedPosts(st, SourcePath(v), parse).value)
    ensures var r := ProcessFile(st, root, v, draws, n, parse);
            r.outcome.Success? ==>
              var author := DecodeFilename(v.name).value;
              && r.taken == n + 1
              && r.outcome.value == Place(author, draws(n))
              && r.state == PrepareAuthor(st, root, SourcePath(v), r.outcome.value, parse).state
  {
    if DecodeFilename(v.name).Success? {
      var author := DecodeFilename(v.name).value;
      PrepareAuthorCompletes(st, root, SourcePath(v), Place(author, draws(n)), parse);
    }
  }

  /** The run from file `i` on: file `i`, then the rest of the run after it. */
  lemma RunFrom(st: FsState, root: string, visits: seq<Visit>, i: nat, draws: nat -> real, n: nat, parse: PostParser)
    requires i < |visits|
    ensures var step := ProcessFile(st, root, visits[i], draws, n, parse);
            Run(st, root, visits[i..], draws, n, parse)
            == if step.outcome.Failure? then RunResult(step.state, Failure(step.outcome.error), step.taken)
               else After([step.outcome.value], Run(step.state, root, visits[i + 1..], draws, step.taken, parse))
  {
    assert visits[i..][0] == visits[i] && visits[i..][1..] == visits[i + 1..];
  }

  /** Placing authors in two batches is placing them in one. */
  lemma AfterAfter(first: seq<Assignment>, second: seq<Assignment>, r: RunResult)
    ensures After(first, After(second, r)) == After(first + second, r)
  {
    if r.outcome.Success? {
      assert first + (second + r.outcome.value) == (first + second) + r.outcome.value;
    }
  }

  /** The tail of a prefix is a prefix of the tail. */
  lemma PrefixTail<T>(s: seq<T>, m: nat)
    requires 0 < m <= |s|
    ensures s[..m][0..] == s[..m] && s[..m][0] == s[0] && s[..m][1..] == s[1..][..m - 1]
  {
  }

  /** A run stops at the first badly named file, leaving the state of the files before it. */
  lemma {:induction false} RunStopsAtBadName(st: FsState, root: string, visits: seq<Visit>, draws: nat -> real, n: nat,
                                             parse: PostParser, m: nat)
    requires m < |visits| && DecodeFilename(visits[m].name).Failure?
    requires Run(st, root, visits[..m], draws, n, parse).outcome.Success?
    ensures Run(st, root, visits, draws, n, parse)
         == RunResult(Run(st, root, visits[..m], draws, n, parse).state,
                      Failure(BadFilename(SourcePath(visits[m]), DecodeFilename(visits[m].name).error)),
                      n + m)
    decreases m
  {
    var pre := visits[..m];
    var bad := RunResult(Run(st, root, pre, draws, n, parse).state,
                         Failure(BadFilename(SourcePath(visits[m]), DecodeFilename(visits[m].name).error)), n + m);
    RunFrom(st, root, visits, 0, draws, n, parse);
    assert visits[0..] == visits;
    if m == 0 {
      BadNameChangesNothing(st, root, visits[0], draws, n, parse);
      assert pre == [];
    } else {
      var step := ProcessFile(st, root, visits[0], draws, n, parse);
      RunFrom(st, root, pre, 0, draws, n, parse);
      PrefixTail(visits, m);
      assert step.outcome.Success?;
      ProcessFileSucceeds(st, root, visits[0], draws, n, parse);
      var a := step.outcome.value;
      var done := Run(step.state, root, pre[1..], draws, n + 1, parse);
      assert Run(st, root, pre, draws, n, parse) == After([a], done);
      assert done.outcome.Success?;
      RunStopsAtBadName(step.state, root, visits[1..], draws, n + 1, parse, m - 1);
      assert visits[1..][m - 1] == visits[m];
      var tail := Run(step.state, root, visits[1..], draws, n + 1, parse);
      assert tail == RunResult(done.state, Failure(BadFilename(SourcePath(visits[m]), DecodeFilename(visits[m].name).error)), n + m);
      assert Run(st, root, visits, draws, n, parse) == After([a], tail);
    }
  }

  // ---------------------------------------------------------------------------
  // What a completed run leaves behind
  // ---------------------------------------------------------------------------

  /** The texts of the posts of the file a visit names, as the parser finds them in its sanitized content. */
  function PostsOf(st: FsState, v: Visit, parse: PostParser): seq<Option<string>> {
    if SourcePath(v) in st.files then
      match ParsedPosts(st, SourcePath(v), parse)
      case Some(posts) => posts
      case None => []
    else []
  }

  /** The file of post number `k` of an author placed at `a`. */
  function PostPathOf(root: string, a: Assignment, k: nat): string {
    PostPath(root, a.category, a.ageLabel, a.id, k)
  }

  /** A path outside the output tree under `root`. */
  predicate Outside(root: string, p: string) {
    !(root + "/" <= p)
  }

  /** Every post file is inside the output tree. */
  lemma PostPathInside(root: string, a: Assignment, k: nat)
    ensures !Outside(root, PostPathOf(root, a, k))
  {
    PostPathJoin(root, a.category, a.ageLabel, a.id, k);
    var below := Join(PathParts(a.category, a.ageLabel, a.id, k), '/');
    assert (root + "/" + below)[..|root| + 1] == root + "/";
  }

  /** A path outside the output tree is none of an author's post files. */
  lemma OutsideNoPost(root: string, a: Assignment, m: nat, p: string)
    requires Outside(root, p)
    ensures p !in PostFiles(AuthorDir(root, a.category, a.ageLabel, a.id), 1, m)
  {
    forall k | 1 <= k < 1 + m ensures PostFile(AuthorDir(root, a.category, a.ageLabel, a.id), k) != p {
      PostPathInside(root, a, k);
      assert PostFile(AuthorDir(root, a.category, a.ageLabel, a.id), k) == PostPathOf(root, a, k);
    }
  }

  /** Each of an author's post files is one of the author's post paths. */
  lemma PostFilesOf(root: string, a: Assignment, m: nat, p: string)
    requires p in PostFiles(AuthorDir(root, a.category, a.ageLabel, a.id), 1, m)
    ensures exists k :: 1 <= k <= m && p == PostPathOf(root, a, k)
  {
    var k :| 1 <= k < 1 + m && p == PostFile(AuthorDir(root, a.category, a.ageLabel, a.id), k);
    assert p == PostPathOf(root, a, k);
  }

  /** The file a visit names was there, parsed, and had text in every post. */
  predicate Found(st: FsState, v: Visit, parse: PostParser) {
    SourcePath(v) in st.files && ParsedPosts(st, SourcePath(v), parse).Some? && AllTexts(PostsOf(st, v, parse))
  }

  /** The files of the posts of the file `v`, placed at `a`. */
  function PostFilesFor(st: FsState, root: string, v: Visit, a: Assignment, parse: PostParser): set<string> {
    PostFiles(AuthorDir(root, a.category, a.ageLabel, a.id), 1, |PostsOf(st, v, parse)|)
  }

  /** A step from `st` to `mid` added exactly the post files of `v`. */
  ghost predicate StepKeys(st: FsState, mid: FsState, root: string, v: Visit, a: Assignment, parse: PostParser) {
    mid.files.Keys == st.files.Keys + PostFilesFor(st, root, v, a, parse)
  }

  /** After a step, post `k` of `v` is in its file. */
  ghost predicate StepPosts(st: FsState, mid: FsState, root: string, v: Visit, a: Assignment, parse: PostParser) {
    forall k :: 1 <= k <= |PostsOf(st, v, parse)| ==>
      PostPathOf(root, a, k) in mid.files && Some(mid.files[PostPathOf(root, a, k)]) == PostsOf(st, v, parse)[k - 1]
  }

  /** A step left every file inside the output tree but the post files of `v` as it was. */
  ghost predicate StepFrame(st: FsState, mid: FsState, root: string, v: Visit, a: Assignment, parse: PostParser) {
    forall p {:trigger Outside(root, p)} :: p in st.files && !Outside(root, p) && p !in PostFilesFor(st, root, v, a, parse) ==>
      p in mid.files && mid.files[p] == st.files[p]
  }

  /**
   * Outside the output tree a step made no file appear or vanish, and every
   * file there sanitizes, and so parses, as before.
   */
  ghost predicate StepOutside(st: FsState, mid: FsState, root: string) {
    && (forall p {:trigger Outside(root, p)} :: Outside(root, p) ==> (p in mid.files <==> p in st.files))
    && (forall p {:trigger Outside(root, p)} :: p in st.files && Outside(root, p) ==> Sanitize(mid.files[p]) == Sanitize(st.files[p]))
  }

  /** A step outside the output tree leaves what the parser finds in each file there as it was. */
  lemma PostsOfOutside(st: FsState, mid: FsState, root: string, w: Visit, parse: PostParser)
    requires StepOutside(st, mid, root) && Outside(root, SourcePath(w))
    ensures PostsOf(mid, w, parse) == PostsOf(st, w, parse)
  {
  }

  /**
   * What one file that goes through does to the files: it rewrites itself
   * sanitized, adds its author's post files holding its posts, and leaves
   * every other file as it was.
   */
  lemma ProcessFileFiles(st: FsState, root: string, v: Visit, draws: nat -> real, n: nat, parse: PostParser)
    requires ProcessFile(st, root, v, draws, n, parse).outcome.Success?
    requires Outside(root, SourcePath(v))
    ensures var step := ProcessFile(st, root, v, draws, n, parse);
            && Found(st, v, parse)
            && StepKeys(st, step.state, root, v, step.outcome.value, parse)
            && StepPosts(st, step.state, root, v, step.outcome.value, parse)
            && StepFrame(st, step.state, root, v, step.outcome.value, parse)
            && StepOutside(st, step.state, root)
  {
    var path := SourcePath(v);
    ProcessFileSucceeds(st, root, v, draws, n, parse);
    var step := ProcessFile(st, root, v, draws, n, parse);
    var a := step.outcome.value;
    PrepareAuthorPosts(st, root, path, a, parse);
    var posts := ParsedPosts(st, path, parse).value;
    var dir := AuthorDir(root, a.category, a.ageLabel, a.id);
    var files2 := st.files[path := Sanitize(st.files[path])];
    assert step.state.files == PostsWritten(files2, dir, posts, 1) by {
      AuthorDirsKeepsFiles(st, root, a.category, a.ageLabel, a.id);
    }
    assert PostsOf(st, v, parse) == posts;
    WrittenContents(st, step.state, root, v, a, parse);
    WrittenOutside(st, step.state, root, v, a, parse);
  }

  /** The files a step writes, from the file's content and its posts. */
  predicate WritesFor(st: FsState, mid: FsState, root: string, v: Visit, a: Assignment, parse: PostParser) {
    && SourcePath(v) in st.files && ParsedPosts(st, SourcePath(v), parse).Some?
    && AllTexts(ParsedPosts(st, SourcePath(v), parse).value)
    && mid.files == PostsWritten(st.files[SourcePath(v) := Sanitize(st.files[SourcePath(v)])],
                                 AuthorDir(root, a.category, a.ageLabel, a.id), ParsedPosts(st, SourcePath(v), parse).value, 1)
  }

  /** Inside the output tree, a step adds the posts' files and keeps the rest. */
  lemma WrittenContents(st: FsState, mid: FsState, root: string, v: Visit, a: Assignment, parse: PostParser)
    requires Outside(root, SourcePath(v)) && WritesFor(st, mid, root, v, a, parse)
    ensures Found(st, v, parse)
    ensures StepKeys(st, mid, root, v, a, parse) && StepPosts(st, mid, root, v, a, parse) && StepFrame(st, mid, root, v, a, parse)
  {
    var path := SourcePath(v);
    var posts := ParsedPosts(st, path, parse).value;
    assert PostsOf(st, v, parse) == posts;
    var dir := AuthorDir(root, a.category, a.ageLabel, a.id);
    var files2 := st.files[path := Sanitize(st.files[path])];
    PostsWrittenContents(files2, dir, posts, 1);
    PostsAtTheirPaths(files2, root, a.category, a.ageLabel, a.id, posts);
    OutsideNoPost(root, a, |posts|, path);
  }

  /** Outside the output tree, a step only rewrites its file sanitized. */
  lemma WrittenOutside(st: FsState, mid: FsState, root: string, v: Visit, a: Assignment, parse: PostParser)
    requires Outside(root, SourcePath(v)) && WritesFor(st, mid, root, v, a, parse)
    ensures StepOutside(st, mid, root)
  {
    var path := SourcePath(v);
    var posts := ParsedPosts(st, path, parse).value;
    var dir := AuthorDir(root, a.category, a.ageLabel, a.id);
    var files2 := st.files[path := Sanitize(st.files[path])];
    PostsWrittenContents(files2, dir, posts, 1);
    forall p | Outside(root, p) ensures p !in PostFiles(dir, 1, |posts|) {
      OutsideNoPost(root, a, |posts|, p);
    }
    SanitizeIdempotent(st.files[path]);
  }

  /** A completed run is its first file followed by the completed run of the rest. */
  lemma RunStep(st: FsState, root: string, visits: seq<Visit>, draws: nat -> real, n: nat, parse: PostParser)
    returns (a: Assignment, mid: FsState, taken: nat)
    requires Run(st, root, visits, draws, n, parse).outcome.Success?
    requires visits != [] && Outside(root, SourcePath(visits[0]))
    ensures Run(mid, root, visits[1..], draws, taken, parse).outcome.Success?
    ensures Run(st, root, visits, draws, n, parse).state == Run(mid, root, visits[1..], draws, taken, parse).state
    ensures Run(st, root, visits, draws, n, parse).outcome.value == [a] + Run(mid, root, visits[1..], draws, taken, parse).outcome.value
    ensures Found(st, visits[0], parse)
    ensures StepKeys(st, mid, root, visits[0], a, parse) && StepPosts(st, mid, root, visits[0], a, parse)
    ensures StepFrame(st, mid, root, visits[0], a, parse) && StepOutside(st, mid, root)
  {
    RunFrom(st, root, visits, 0, draws, n, parse);
    assert visits[0..] == visits;
    var step := ProcessFile(st, root, visits[0], draws, n, parse);
    ProcessFileFiles(st, root, visits[0], draws, n, parse);
    a, mid, taken := step.outcome.value, step.state, step.taken;
  }

  /** The files of the rest of a run lie outside the output tree when the run's do. */
  lemma OutsideTail(root: string, visits: seq<Visit>)
    requires visits != [] && forall i :: 0 <= i < |visits| ==> Outside(root, SourcePath(visits[i]))
    ensures forall i :: 0 <= i < |visits[1..]| ==> Outside(root, SourcePath(visits[1..][i]))
  {
    forall i | 0 <= i < |visits[1..]| ensures Outside(root, SourcePath(visits[1..][i])) {
      assert visits[1..][i] == visits[i + 1];
    }
  }

  /**
   * A completed run found every file, parsed it and found text in every post;
   * it keeps every file that was there, and the files outside the output tree
   * sanitize to what they did before the run.
   */
  lemma {:induction false} RunSources(st: FsState, root: string, visits: seq<Visit>, draws: nat -> real, n: nat, parse: PostParser)
    requires Run(st, root, visits, draws, n, parse).outcome.Success?
    requires forall i :: 0 <= i < |visits| ==> Outside(root, SourcePath(visits[i]))
    ensures forall i :: 0 <= i < |visits| ==> Found(st, visits[i], parse)
    ensures var files := Run(st, root, visits, draws, n, parse).state.files;
            && st.files.Keys <= files.Keys
            && forall p :: p in st.files && Outside(root, p) ==> Sanitize(files[p]) == Sanitize(st.files[p])
    decreases |visits|
  {
    if visits != [] {
      var a, mid, taken := RunStep(st, root, visits, draws, n, parse);
      OutsideTail(root, visits);
      RunSources(mid, root, visits[1..], draws, taken, parse);
      StepKeysGrow(st, mid, root, visits[0], a, parse);
      SourcesStep(st, mid, root, visits, a, parse, Run(st, root, visits, draws, n, parse).state.files);
    }
  }

  /** One step of `RunSources`: what holds from the second file on holds from the first. */
  lemma SourcesStep(st: FsState, mid: FsState, root: string, visits: seq<Visit>, a: Assignment, parse: PostParser,
                    final: map<string, string>)
    requires visits != [] && forall i :: 0 <= i < |visits| ==> Outside(root, SourcePath(visits[i]))
    requires Found(st, visits[0], parse) && st.files.Keys <= mid.files.Keys && StepOutside(st, mid, root)
    requires forall i :: 0 <= i < |visits[1..]| ==> Found(mid, visits[1..][i], parse)
    requires mid.files.Keys <= final.Keys
    requires forall p :: p in mid.files && Outside(root, p) ==> Sanitize(final[p]) == Sanitize(mid.files[p])
    ensures forall i :: 0 <= i < |visits| ==> Found(st, visits[i], parse)
    ensures st.files.Keys <= final.Keys
    ensures forall p :: p in st.files && Outside(root, p) ==> Sanitize(final[p]) == Sanitize(st.files[p])
  {
    FoundBefore(st, mid, root, visits, parse);
    TextsKept(st, mid, root, final);
  }

  /** A step loses no file. */
  lemma StepKeysGrow(st: FsState, mid: FsState, root: string, v: Visit, a: Assignment, parse: PostParser)
    requires StepKeys(st, mid, root, v, a, parse)
    ensures st.files.Keys <= mid.files.Keys
  {
  }

  /** Outside the output tree, what a step and the rest of the run leave sanitizes as before both. */
  lemma TextsKept(st: FsState, mid: FsState, root: string, final: map<string, string>)
    requires StepOutside(st, mid, root) && mid.files.Keys <= final.Keys
    requires forall p :: p in mid.files && Outside(root, p) ==> Sanitize(final[p]) == Sanitize(mid.files[p])
    ensures forall p :: p in st.files && Outside(root, p) ==> Sanitize(final[p]) == Sanitize(st.files[p])
  {
    forall p | p in st.files && Outside(root, p) ensures Sanitize(final[p]) == Sanitize(st.files[p]) {
      assert p in mid.files;
    }
  }

  /** The files the rest of the run finds after a step were found before it. */
  lemma FoundBefore(st: FsState, mid: FsState, root: string, visits: seq<Visit>, parse: PostParser)
    requires visits != [] && forall i :: 0 <= i < |visits| ==> Outside(root, SourcePath(visits[i]))
    requires StepOutside(st, mid, root)
    requires forall i :: 0 <= i < |visits[1..]| ==> Found(mid, visits[1..][i], parse)
    ensures forall i :: 1 <= i < |visits| ==> Found(st, visits[i], parse)
  {
    forall i | 1 <= i < |visits| ensures Found(st, visits[i], parse) {
      assert visits[1..][i - 1] == visits[i];
      FoundAfter(st, mid, root, visits[i], parse);
    }
  }

  /** A file outside the output tree that a step leaves found was found before it. */
  lemma FoundAfter(st: FsState, mid: FsState, root: string, w: Visit, parse: PostParser)
    requires StepOutside(st, mid, root) && Outside(root, SourcePath(w)) && Found(mid, w, parse)
    ensures Found(st, w, parse)
  {
    PostsOfOutside(st, mid, root, w, parse);
  }

  /**
   * A completed run creates no file but post files: every file it leaves was
   * there before or is the file of one of the posts of one of the files.
   */
  lemma {:induction false} RunKeys(st: FsState, root: string, visits: seq<Visit>, draws: nat -> real, n: nat, parse: PostParser)
    requires Run(st, root, visits, draws, n, parse).outcome.Success?
    requires forall i :: 0 <= i < |visits| ==> Outside(root, SourcePath(visits[i]))
    ensures var r := Run(st, root, visits, draws, n, parse);
            forall p :: p in r.state.files ==>
              p in st.files
              || exists i, k :: 0 <= i < |visits| && 1 <= k <= |PostsOf(st, visits[i], parse)|
                                && p == PostPathOf(root, r.outcome.value[i], k)
    decreases |visits|
  {
    if visits != [] {
      var a, mid, taken := RunStep(st, root, visits, draws, n, parse);
      OutsideTail(root, visits);
      RunKeys(mid, root, visits[1..], draws, taken, parse);
      KeysStep(st, mid, root, visits, a, parse, Run(st, root, visits, draws, n, parse).state.files,
               Run(mid, root, visits[1..], draws, taken, parse).outcome.value);
    }
  }

  /** One step of `RunKeys`. */
  lemma KeysStep(st: FsState, mid: FsState, root: string, visits: seq<Visit>, a: Assignment, parse: PostParser,
                 final: map<string, string>, later: seq<Assignment>)
    requires visits != [] && |later| == |visits| - 1
    requires forall i :: 0 <= i < |visits| ==> Outside(root, SourcePath(visits[i]))
    requires StepKeys(st, mid, root, visits[0], a, parse) && StepOutside(st, mid, root)
    requires forall p :: p in final ==>
               p in mid.files
               || exists i, k :: 0 <= i < |visits[1..]| && 1 <= k <= |PostsOf(mid, visits[1..][i], parse)|
                                 && p == PostPathOf(root, later[i], k)
    ensures forall p :: p in final ==>
              p in st.files
              || exists i, k :: 0 <= i < |visits| && 1 <= k <= |PostsOf(st, visits[i], parse)|
                                && p == PostPathOf(root, ([a] + later)[i], k)
  {
    forall p | p in final
      ensures p in st.files
              || exists i, k :: 0 <= i < |visits| && 1 <= k <= |PostsOf(st, visits[i], parse)|
                                && p == PostPathOf(root, ([a] + later)[i], k)
    {
      if p in mid.files {
        KeysFromStep(st, mid, root, visits, a, parse, later, p);
      } else {
        var i, k :| 0 <= i < |visits[1..]| && 1 <= k <= |PostsOf(mid, visits[1..][i], parse)|
                    && p == PostPathOf(root, later[i], k);
        KeysFromRest(st, mid, root, visits, a, parse, later, i, k);
        assert 0 <= i + 1 < |visits| && 1 <= k <= |PostsOf(st, visits[i + 1], parse)|
               && p == PostPathOf(root, ([a] + later)[i + 1], k);
      }
    }
  }

  /** A file the first step leaves was there before or is one of its post files. */
  lemma KeysFromStep(st: FsState, mid: FsState, root: string, visits: seq<Visit>, a: Assignment, parse: PostParser,
                     later: seq<Assignment>, p: string)
    requires visits != [] && |later| == |visits| - 1
    requires StepKeys(st, mid, root, visits[0], a, parse) && p in mid.files
    ensures p in st.files
            || exists i, k :: 0 <= i < |visits| && 1 <= k <= |PostsOf(st, visits[i], parse)|
                              && p == PostPathOf(root, ([a] + later)[i], k)
  {
    if p !in st.files {
      PostFilesOf(root, a, |PostsOf(st, visits[0], parse)|, p);
      assert ([a] + later)[0] == a;
    }
  }

  /** A post file of a later file is a post file of the same file, counted from the first. */
  lemma KeysFromRest(st: FsState, mid: FsState, root: string, visits: seq<Visit>, a: Assignment, parse: PostParser,
                     later: seq<Assignment>, i: nat, k: nat)
    requires |later| == |visits| - 1 && i < |later|
    requires Outside(root, SourcePath(visits[i + 1]))
    requires StepOutside(st, mid, root)
    requires 1 <= k <= |PostsOf(mid, visits[1..][i], parse)|
    ensures 1 <= k <= |PostsOf(st, visits[i + 1], parse)|
    ensures PostPathOf(root, later[i], k) == PostPathOf(root, ([a] + later)[i + 1], k)
  {
    assert visits[1..][i] == visits[i + 1];
    PostsOfOutside(st, mid, root, visits[i + 1], parse);
  }

  /**
   * A file inside the output tree that is none of the run's post files keeps
   * its contents through a completed run.
   */
  lemma {:induction false} RunFrame(st: FsState, root: string, visits: seq<Visit>, draws: nat -> real, n: nat,
                                    parse: PostParser, p: string)
    requires Run(st, root, visits, draws, n, parse).outcome.Success?
    requires forall i :: 0 <= i < |visits| ==> Outside(root, SourcePath(visits[i]))
    requires p in st.files && !Outside(root, p)
    requires forall j, k :: 0 <= j < |visits| ==> p != PostPathOf(root, Run(st, root, visits, draws, n, parse).outcome.value[j], k)
    ensures p in Run(st, root, visits, draws, n, parse).state.files
    ensures Run(st, root, visits, draws, n, parse).state.files[p] == st.files[p]
    decreases |visits|
  {
    if visits != [] {
      var a, mid, taken := RunStep(st, root, visits, draws, n, parse);
      OutsideTail(root, visits);
      FrameStep(st, mid, root, visits[0], a, parse, p, Run(mid, root, visits[1..], draws, taken, parse).outcome.value);
      RunFrame(mid, root, visits[1..], draws, taken, parse, p);
    }
  }

  /** One step of `RunFrame`. */
  lemma FrameStep(st: FsState, mid: FsState, root: string, v: Visit, a: Assignment, parse: PostParser,
                  p: string, later: seq<Assignment>)
    requires StepFrame(st, mid, root, v, a, parse) && StepKeys(st, mid, root, v, a, parse)
    requires p in st.files && !Outside(root, p)
    requires forall j, k :: 0 <= j < |[a] + later| ==> p != PostPathOf(root, ([a] + later)[j], k)
    ensures p in mid.files && mid.files[p] == st.files[p]
    ensures forall j, k :: 0 <= j < |later| ==> p != PostPathOf(root, later[j], k)
  {
    NoPostOfAny(root, p, a, later);
    var dir := AuthorDir(root, a.category, a.ageLabel, a.id);
    forall k | 1 <= k < 1 + |PostsOf(st, v, parse)| ensures PostFile(dir, k) != p {
      assert PostFile(dir, k) == PostPathOf(root, a, k);
    }
  }

  /** A path that is no post path of the first author or the rest is none of either. */
  lemma NoPostOfAny(root: string, p: string, a: Assignment, later: seq<Assignment>)
    requires forall j, k :: 0 <= j < |[a] + later| ==> p != PostPathOf(root, ([a] + later)[j], k)
    ensures forall k :: p != PostPathOf(root, a, k)
    ensures forall j, k :: 0 <= j < |later| ==> p != PostPathOf(root, later[j], k)
  {
    assert ([a] + later)[0] == a;
    forall j, k | 0 <= j < |later| ensures p != PostPathOf(root, later[j], k) {
      assert later[j] == ([a] + later)[j + 1];
    }
  }

  /**
   * After a completed run, post `k` of each file is in the file numbered `k`
   * under the directory of the file's author, unless a later file was placed
   * at the same category, label and id and wrote over it.
   */
  lemma {:induction false} RunWritesPosts(st: FsState, root: string, visits: seq<Visit>, draws: nat -> real, n: nat,
                                          parse: PostParser)
    requires Run(st, root, visits, draws, n, parse).outcome.Success?
    requires forall i :: 0 <= i < |visits| ==> Outside(root, SourcePath(visits[i]))
    ensures var r := Run(st, root, visits, draws, n, parse);
            var placed := r.outcome.value;
            forall i, k :: 0 <= i < |visits| && 1 <= k <= |PostsOf(st, visits[i], parse)|
                           && (forall j :: i < j < |visits| ==> placed[j] != placed[i]) ==>
              PostPathOf(root, placed[i], k) in r.state.files
              && Some(r.state.files[PostPathOf(root, placed[i], k)]) == PostsOf(st, visits[i], parse)[k - 1]
    decreases |visits|
  {
    if visits != [] {
      var a, mid, taken := RunStep(st, root, visits, draws, n, parse);
      OutsideTail(root, visits);
      RunWritesPosts(mid, root, visits[1..], draws, taken, parse);
      var later := Run(mid, root, visits[1..], draws, taken, parse).outcome.value;
      if forall j :: 0 <= j < |later| ==> later[j] != a {
        FirstPostsKept(st, root, visits, draws, n, parse);
      }
      WritesStep(st, mid, root, visits, a, parse, Run(st, root, visits, draws, n, parse).state.files, later);
    }
  }

  /** One step of `RunWritesPosts`. */
  lemma WritesStep(st: FsState, mid: FsState, root: string, visits: seq<Visit>, a: Assignment, parse: PostParser,
                   final: map<string, string>, later: seq<Assignment>)
    requires visits != [] && |later| == |visits| - 1
    requires forall i :: 0 <= i < |visits| ==> Outside(root, SourcePath(visits[i]))
    requires StepOutside(st, mid, root)
    requires (forall j :: 0 <= j < |later| ==> later[j] != a) ==>
               forall k :: 1 <= k <= |PostsOf(st, visits[0], parse)| ==>
                 PostPathOf(root, a, k) in final && Some(final[PostPathOf(root, a, k)]) == PostsOf(st, visits[0], parse)[k - 1]
    requires forall i, k :: 0 <= i < |visits[1..]| && 1 <= k <= |PostsOf(mid, visits[1..][i], parse)|
                            && (forall j :: i < j < |visits[1..]| ==> later[j] != later[i]) ==>
               PostPathOf(root, later[i], k) in final
               && Some(final[PostPathOf(root, later[i], k)]) == PostsOf(mid, visits[1..][i], parse)[k - 1]
    ensures var placed := [a] + later;
            forall i, k :: 0 <= i < |visits| && 1 <= k <= |PostsOf(st, visits[i], parse)|
                           && (forall j :: i < j < |visits| ==> placed[j] != placed[i]) ==>
              PostPathOf(root, placed[i], k) in final
              && Some(final[PostPathOf(root, placed[i], k)]) == PostsOf(st, visits[i], parse)[k - 1]
  {
    var placed := [a] + later;
    forall i, k | 0 <= i < |visits| && 1 <= k <= |PostsOf(st, visits[i], parse)|
                  && (forall j :: i < j < |visits| ==> placed[j] != placed[i])
      ensures PostPathOf(root, placed[i], k) in final
      ensures Some(final[PostPathOf(root, placed[i], k)]) == PostsOf(st, visits[i], parse)[k - 1]
    {
      if i == 0 {
        LaterDiffer(a, later);
      } else {
        LaterUnique(a, later, i);
        WritesLater(st, mid, root, visits, a, parse, later, i, k);
      }
    }
  }

  /** Post `k` of file `i` of the run is post `k` of file `i - 1` of the rest. */
  lemma WritesLater(st: FsState, mid: FsState, root: string, visits: seq<Visit>, a: Assignment, parse: PostParser,
                    later: seq<Assignment>, i: nat, k: nat)
    requires |later| == |visits| - 1 && 0 < i < |visits|
    requires Outside(root, SourcePath(visits[i])) && StepOutside(st, mid, root)
    requires 1 <= k <= |PostsOf(st, visits[i], parse)|
    ensures 0 <= i - 1 < |visits[1..]| && 1 <= k <= |PostsOf(mid, visits[1..][i - 1], parse)|
    ensures later[i - 1] == ([a] + later)[i]
    ensures PostsOf(mid, visits[1..][i - 1], parse)[k - 1] == PostsOf(st, visits[i], parse)[k - 1]
  {
    assert visits[1..][i - 1] == visits[i];
    PostsOfOutside(st, mid, root, visits[i], parse);
  }

  /** When no later author shares the first one's place, the rest differ from it. */
  lemma LaterDiffer(a: Assignment, later: seq<Assignment>)
    requires forall j :: 0 < j < |[a] + later| ==> ([a] + later)[j] != ([a] + later)[0]
    ensures forall j :: 0 <= j < |later| ==> later[j] != a
  {
    forall j | 0 <= j < |later| ensures later[j] != a {
      assert later[j] == ([a] + later)[j + 1];
    }
  }

  /** An author no later one shares a place with, counted from the second. */
  lemma LaterUnique(a: Assignment, later: seq<Assignment>, i: nat)
    requires 0 < i <= |later|
    requires forall j :: i < j < |[a] + later| ==> ([a] + later)[j] != ([a] + later)[i]
    ensures forall j :: i - 1 < j < |later| ==> later[j] != later[i - 1]
  {
    forall j | i - 1 < j < |later| ensures later[j] != later[i - 1] {
      assert later[j] == ([a] + later)[j + 1] && later[i - 1] == ([a] + later)[i];
    }
  }

  /** The posts of the first file survive the rest of the run when no later file shares its directory. */
  lemma FirstPostsKept(st: FsState, root: string, visits: seq<Visit>, draws: nat -> real, n: nat, parse: PostParser)
    requires Run(st, root, visits, draws, n, parse).outcome.Success?
    requires forall i :: 0 <= i < |visits| ==> Outside(root, SourcePath(visits[i]))
    requires visits != []
    requires var placed := Run(st, root, visits, draws, n, parse).outcome.value;
             forall j :: 1 <= j < |placed| ==> placed[j] != placed[0]
    ensures var r := Run(st, root, visits, draws, n, parse);
            forall k :: 1 <= k <= |PostsOf(st, visits[0], parse)| ==>
              PostPathOf(root, r.outcome.value[0], k) in r.state.files
              && Some(r.state.files[PostPathOf(root, r.outcome.value[0], k)]) == PostsOf(st, visits[0], parse)[k - 1]
  {
    var a, mid, taken := RunStep(st, root, visits, draws, n, parse);
    OutsideTail(root, visits);
    var later := Run(mid, root, visits[1..], draws, taken, parse).outcome.value;
    FirstStep(st, mid, root, visits[0], a, parse, later);
    forall k | 1 <= k <= |PostsOf(st, visits[0], parse)|
      ensures PostPathOf(root, a, k) in Run(mid, root, visits[1..], draws, taken, parse).state.files
      ensures Run(mid, root, visits[1..], draws, taken, parse).state.files[PostPathOf(root, a, k)] == mid.files[PostPathOf(root, a, k)]
    {
      RunFrame(mid, root, visits[1..], draws, taken, parse, PostPathOf(root, a, k));
    }
  }

  /** One step of `FirstPostsKept`: the first file's posts, and no later file writes over them. */
  lemma FirstStep(st: FsState, mid: FsState, root: string, v: Visit, a: Assignment, parse: PostParser, later: seq<Assignment>)
    requires StepPosts(st, mid, root, v, a, parse)
    requires forall j :: 1 <= j < |[a] + later| ==> ([a] + later)[j] != ([a] + later)[0]
    ensures forall k :: 1 <= k <= |PostsOf(st, v, parse)| ==>
              && PostPathOf(root, a, k) in mid.files && !Outside(root, PostPathOf(root, a, k))
              && forall j, k' :: 0 <= j < |later| ==> PostPathOf(root, a, k) != PostPathOf(root, later[j], k')
  {
    var placed := [a] + later;
    forall k, j, k' | 1 <= k <= |PostsOf(st, v, parse)| && 0 <= j < |later|
      ensures PostPathOf(root, a, k) != PostPathOf(root, later[j], k')
    {
      var b := later[j];
      assert b == placed[j + 1] && placed[0] == a;
      if PostPathOf(root, a, k) == PostPathOf(root, b, k') {
        PostPathInjective(root, a.category, a.ageLabel, a.id, k, b.category, b.ageLabel, b.id, k');
      }
    }
    forall k | 1 <= k <= |PostsOf(st, v, parse)| ensures !Outside(root, PostPathOf(root, a, k)) {
      PostPathInside(root, a, k);
    }
  }

  // ---------------------------------------------------------------------------
  // The imperative run
  // ---------------------------------------------------------------------------

  /** The body of the loop over `files`, for one file. */
  method PrepareFile(fs: FileSystem, gen: Generator, root: string, v: Visit, parse: PostParser)
    returns (outcome: Result<Assignment, RunError>)
    modifies fs, gen
    ensures Step(fs.State(), outcome, gen.taken) == ProcessFile(old(fs.State()), root, v, gen.stream, old(gen.taken), parse)
  {
    var decoded := DecodeFilename(v.name);
    if decoded.Failure? {
      return Failure(BadFilename(SourcePath(v), decoded.error));
    }
    var author := decoded.value;
    var ageLabel := LabelOf(author.age);
    var randomNumber := gen.Random();
    var category := ChooseCategory(randomNumber);

    var filepath := SourcePath(v);
    var idTargetFilePath := AuthorDir(root, category, ageLabel, author.id);
    ghost var st0 := fs.State();
    var dirError := EnsureAuthorDirs(fs, root, category, ageLabel, author.id);
    if dirError.Some? {
      return Failure(DirectoryFailed(dirError.value));
    }
    AuthorDirsKeepsFiles(st0, root, category, ageLabel, author.id);

    if filepath !in fs.files {
      return Failure(Unreadable(filepath));
    }
    var content := fs.ReadFile(filepath);
    ghost var raw := content;
    content := ReplaceAll(content, "<Blog>", "awuiegsnuirjsaa");
    content := ReplaceAll(content, "</Blog>", "asjdiofawjosijfeos");
    content := ReplaceAll(content, "<post>", "asdjkfaokeslrjaspolk");
    content := ReplaceAll(content, "</post>", "iaosfiuahjsahgnjnsvu");
    content := ReplaceAll(content, "<date>", "asfgoiaegsnvsjlaje");
    content := ReplaceAll(content, "</date>", "asdyboijwnisdjas");
    ReplaceEachSix(raw, ProtectSteps);
    ghost var protected := content;
    assert protected == Protect(raw);

    content := ReplaceAll(content, "<", "(");
    content := ReplaceAll(content, ">", ")");
    content := ReplaceAll(content, "&nbsp", " ");
    content := ReplaceAll(content, "&", "");
    content := StripControlChars(content);
    ghost var stripped := content;

    content := ReplaceAll(content, "awuiegsnuirjsaa", "<Blog>");
    content := ReplaceAll(content, "asjdiofawjosijfeos", "</Blog>");
    content := ReplaceAll(content, "asdjkfaokeslrjaspolk", "<post>");
    content := ReplaceAll(content, "iaosfiuahjsahgnjnsvu", "</post>");
    content := ReplaceAll(content, "asfgoiaegsnvsjlaje", "<date>");
    content := ReplaceAll(content, "asdyboijwnisdjas", "</date>");
    ReplaceEachSix(stripped, RestoreSteps);
    assert content == Sanitize(raw);

    fs.WriteFile(filepath, content);

    var parsed := parse(content);
    if parsed.None? {
      return Failure(ParseError(filepath));
    }
    var ok := WritePosts(fs, idTargetFilePath, parsed.value);
    if !ok {
      return Failure(MissingPostText(filepath));
    }
    return Success(Assignment(category, ageLabel, author.id));
  }

  /** The walk over every file, in walk order, stopping at the first exception. */
  method PrepareDataset(fs: FileSystem, gen: Generator, root: string, visits: seq<Visit>, parse: PostParser)
    returns (result: Result<seq<Assignment>, RunError>)
    modifies fs, gen
    ensures RunResult(fs.State(), result, gen.taken) == Run(old(fs.State()), root, visits, gen.stream, old(gen.taken), parse)
  {
    var authors: seq<Assignment> := [];
    ghost var whole := Run(fs.State(), root, visits, gen.stream, gen.taken, parse);
    assert visits[0..] == visits;
    assert whole.outcome.Success? ==> [] + whole.outcome.value == whole.outcome.value;
    for i := 0 to |visits|
      invariant After(authors, Run(fs.State(), root, visits[i..], gen.stream, gen.taken, parse))
             == Run(old(fs.State()), root, visits, gen.stream, old(gen.taken), parse)
    {
      ghost var st := fs.State();
      ghost var n := gen.taken;
      var outcome := PrepareFile(fs, gen, root, visits[i], parse);
      RunFrom(st, root, visits, i, gen.stream, n, parse);
      if outcome.Failure? {
        assert Run(st, root, visits[i..], gen.stream, n, parse) == RunResult(fs.State(), Failure(outcome.error), gen.taken);
        return Failure(outcome.error);
      }
      AfterAfter(authors, [outcome.value], Run(fs.State(), root, visits[i + 1..], gen.stream, gen.taken, parse));
      authors := authors + [outcome.value];
    }
    assert visits[|visits|..] == [];
    assert authors + [] == authors;
    return Success(authors);
  }
}
