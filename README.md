# BlogClassification dataset preparation, in Dafny

This project models the corpus-preparation script `PrepareDataset.py` of the
BlogClassification repository. The script turns the raw blog-authorship
corpus into a directory tree that a text-classification loader can read.
Each raw file is named `id.gender.age.industry.sign.xml` and holds one
author's posts. For every file the script does the following:

1. It decodes the file name. The `id` and `age` fields must parse as integers.
2. It buckets the age into `10s`, `20s` or `30s`.
3. It takes one draw of the seeded generator. The draw sends the author to
   `training_ds` (below 0.8), `validation_ds` (below 0.9) or `test_ds`.
4. It creates the missing levels of `target/<category>/<label>/<id>/`.
5. It sanitizes the file's content in place, with twelve whole-string
   replacements and a control-character filter.
6. It parses the result and writes the text of the k-th `<post>` element to
   `target/<category>/<label>/<id>/k.txt`, counting from 1.

The model is one module per concern:

| module | file | models |
|---|---|---|
| `Wrappers` | `wrappers.dfy` | `Option` and `Result` |
| `Text` | `text.dfy` | Python's `str.replace` (`ReplaceAll`), `str.split`/`join`, `int()` and `str()` on integers |
| `ControlChars` | `control_chars.dfy` | `stripControlChars` |
| `Sanitizer` | `sanitizer.dfy` | the replace chain of lines 101–122 as a pure function, and what it guarantees |
| `Metadata` | `metadata.dfy` | file-name decoding and the age label |
| `Partition` | `partition.dfy` | `DataCategory`, the split choice, and the seeded generator as a class |
| `Output` | `output.dfy` | the file system as a class, output paths, directory creation and the post-writing loop |
| `Corpus` | `corpus.dfy` | the loop over the files, as a specification function `Run` and as methods |
| `Documents` | `documents.dfy` | blog documents as tags and text pieces, and what the sanitizing pass does to them |

The loop over the files has two forms, and each is proved against the other:

- **Imperative.** `Corpus.PrepareDataset` and `Corpus.PrepareFile` are
  methods on an `Output.FileSystem` object and a `Partition.Generator` object.
  They rebind `content` through the twelve replace lines. They also call the
  methods `Output.EnsureAuthorDirs` and `Output.WritePosts`, which hold the
  mkdir checks and the `blogNumber` loop.
- **Functional.** `Corpus.Run` is a function over a file-system snapshot
  `FsState`. Each method's postcondition states that it leaves exactly the
  state and result that `Run` (or `ProcessFile`) computes. The properties of
  the run are proved about `Run`.

An exception in the source ends the whole run. The model returns it as a
`RunError` in a `Failure`, together with the file-system state at that point:

- a bad file name;
- a directory level that `os.mkdir` cannot make;
- a file that cannot be opened;
- content the XML parser refuses;
- a post element without text.

What the code does in the cases worth spelling out:

- **Posts without text.** An empty `<post></post>` element has no text
  (ElementTree gives `None`). Line 155 creates the post file and line 156
  raises on `None`, which ends the run. `Output.PostsWritten` and
  `Corpus.PrepareAuthor` do the same: the file is left empty, later posts are
  not written, and the error is `MissingPostText`.
- **A second pass.** Sanitizing sanitized content changes nothing
  (`Sanitizer.SanitizeIdempotent`).
- **Tags.** Take a document made of the six tags and of text pieces that
  hold no tag. The tags come out as they went in. Each text piece is
  flattened and loses its control characters (`Documents.SanitizeDocument`).
  This needs two more things of each flattened piece: it holds no placeholder
  word, and it neither begins nor ends with a lower-case letter. Line breaks
  and indentation between tags are text pieces made only of control
  characters, so they vanish (`Documents.LayoutPlain`). For example,
  `<Blog>`, a line break, `<post>Hello <world></post>`, a line break and
  `</Blog>` come out as `<Blog><post>Hello (world)</post></Blog>`
  (`Documents.SampleLinesSanitized`).
- **Placeholders.** The placeholder words are not a faithful escape, so text
  can turn into a tag in three ways:
  - a placeholder word written in a post (`Sanitizer.PlaceholderInTextBecomesTag`);
  - a deleted `&` that joins two halves of one
    (`Sanitizer.DeletedAmpersandFormsTag`);
  - lower-case text right before a tag, which completes a placeholder word
    across the tag's own placeholder. `awuiegsnuirjsa</date>` comes out as
    `<Blog>sdyboijwnisdjas`, so the `</date>` is lost and a `<Blog>` appears
    (`Sanitizer.ConcatenatedPlaceholderFormsTag`).
- **Directory creation.** Lines 88–93 check `os.path.exists` and then call
  `os.mkdir` on three levels, parent first. Only the author's path ends in
  `/`, and for a path with a trailing `/` the check asks for a directory. So
  a regular file in the way raises before anything is read or written:
  - at the category level, `NotADirectoryError` at line 91;
  - at the label level, `NotADirectoryError` at line 93;
  - at the author's id, `FileExistsError` at line 93.

  `Output.AuthorDirs` stops at the first such error and
  `Output.AuthorDirsBlocked` states the three cases. `Corpus.PrepareAuthor`
  then ends the run with `DirectoryFailed`.

The lemmas about a whole run (`Corpus.RunWritesPosts`, `RunKeys`, `RunFrame`
and `RunSources`) take every raw file to lie outside the output tree. Lines
30–42 put `unprocessedBlogs` and `preparedDataset` side by side, which makes
this hold.

## Model

| member | source | states |
|---|---|---|
| ControlChars.StripControlChars | PrepareDataset.py:18-19 | the result holds no character of category Cc (U+0000–U+001F, U+007F–U+009F), is no longer than the input and is a subsequence of it (order kept) |
| ControlChars.StripCounts | PrepareDataset.py:18-19 | every non-control character survives exactly as often as it occurs in the input, and every control character is gone |
| ControlChars.StripIdentity | PrepareDataset.py:18-19 | text without control characters comes back unchanged |
| ControlChars.StripChars | PrepareDataset.py:18-19 | the filter introduces no character that was not in the input |
| ControlChars.StripAppend | PrepareDataset.py:18-19 | the filter works character by character: filtering two texts joined is joining the two filtered texts |
| Text.ReplaceAllAbsent | PrepareDataset.py:101-122 | `str.replace` with a pattern that does not occur returns the text unchanged |
| Text.ReplaceAll | PrepareDataset.py:101-122 | `str.replace` with a non-empty pattern: scanning left to right, each occurrence that does not overlap an earlier replaced one is replaced. Its partners are `ReplaceAllAbsent`, `ReplaceAllSkip`, `ReplaceAllOneChar` and `ReplaceAllDelete` |
| Text.ReplaceAllSkip | PrepareDataset.py:101-122 | `str.replace` copies a prefix in which no occurrence starts and continues on the rest |
| Text.ReplaceAllOneChar | PrepareDataset.py:109-110 | replacing one character by another is the pointwise character map |
| Text.ReplaceAllDelete | PrepareDataset.py:112 | replacing one character by the empty string deletes every occurrence of it, keeping the rest in order |
| Text.ReplaceAllRemovesChar | PrepareDataset.py:109-112 | after replacing a character by text without it, the character no longer occurs |
| Text.ReplaceAllChars | PrepareDataset.py:101-122 | every character of a replace result comes from the text or from the substitute |
| Text.SplitJoin | PrepareDataset.py:59 | no piece of `split('.')` holds a `.`, and joining the pieces with `.` gives the name back |
| Text.JoinSplit | PrepareDataset.py:59 | splitting a `.`-join of dot-free pieces gives the pieces back |
| Text.Split | PrepareDataset.py:59 | `str.split('.')` gives at least one piece; `SplitJoin` and `JoinSplit` make it the inverse of joining with `.` |
| Text.ParseInt | PrepareDataset.py:60-61 | `int()` on an optional sign and ASCII digits, `None` where Python raises `ValueError`; `IntRoundTrip` makes it the inverse of `IntToString` |
| Text.IntToString | PrepareDataset.py:85 | `str()` of an integer is never empty; `IntRoundTrip` and `IntToStringInjective` state what it means |
| Text.IntRoundTrip | PrepareDataset.py:60-61 | `int(str(i)) == i` for every integer |
| Text.IntToStringInjective | PrepareDataset.py:85 | distinct ids have distinct `str()` forms |
| Sanitizer.ReplaceEachSix | PrepareDataset.py:101-106 | a table of six replace lines applied in order is the six `content.replace` lines written out |
| Sanitizer.TableShape | PrepareDataset.py:101-122 | the protect lines map tag k to placeholder k and the restore lines map it back; placeholders are lower-case words of 8 or more letters; tags are bracketed, at most 7 long and free of `&` and control characters |
| Sanitizer.Protect | PrepareDataset.py:101-106 | the six protect lines; `ReplaceEachSix` ties the table to the lines, and `ProtectAbsent` and `ProtectRestore` state its effect |
| Sanitizer.Cleanup | PrepareDataset.py:109-112 | the four cleanup lines; `CleanupFlattens` proves them equal to the one-pass reading `FlattenMarkup` |
| Sanitizer.Restore | PrepareDataset.py:117-122 | the six restore lines; `RestoreAbsent`, `RestoreWellTagged` and `RestoreKeepsClean` state their effect |
| Sanitizer.Sanitize | PrepareDataset.py:101-122 | the whole pass: protect, clean up, filter control characters, restore. Its partners are `SanitizeOutput`, `SanitizeIdempotent`, `SanitizeIdentity`, `SanitizePlainText` and `Documents.SanitizeDocument` |
| Sanitizer.SanitizeOutput | PrepareDataset.py:100-122 | for every input the sanitized content holds no `&` and no control character, and every `<` or `>` in it lies inside one of `<Blog>`, `</Blog>`, `<post>`, `</post>`, `<date>`, `</date>` |
| Sanitizer.SanitizeIdempotent | PrepareDataset.py:101-122 | sanitizing content that is already sanitized changes nothing |
| Sanitizer.RestoreWellTagged | PrepareDataset.py:117-122 | if every angle bracket of the text sits in a whole tag, the same holds after the restore lines |
| Sanitizer.RestoreKeepsClean | PrepareDataset.py:117-122 | the restore lines bring back no `&` and no control character |
| Sanitizer.WellTaggedInTag | PrepareDataset.py:117-122 | in text made of tags and non-bracket characters, every angle bracket is inside an occurrence of a tag |
| Sanitizer.SanitizeIdentity | PrepareDataset.py:100-122 | text without `<`, `>`, `&`, control characters and placeholder words comes out of the pass unchanged |
| Sanitizer.ProtectAbsent | PrepareDataset.py:101-106 | text free of the six tags is unchanged by the protect lines |
| Sanitizer.RestoreAbsent | PrepareDataset.py:117-122 | text free of the six placeholders is unchanged by the restore lines |
| Sanitizer.CleanupFlattens | PrepareDataset.py:109-112 | the four cleanup lines equal a one-pass reading: `&nbsp` gives one space, any other `&` is dropped, `<` gives `(` and `>` gives `)` |
| Sanitizer.FlattenAppend | PrepareDataset.py:109-112 | flattening a prefix without `&` and the rest separately gives the flattening of the whole |
| Sanitizer.SanitizePlainText | PrepareDataset.py:100-122 | on text without tags or control characters whose flattened form holds no placeholder, the whole pass is the one-pass flattening |
| Sanitizer.ExampleAngleBrackets | PrepareDataset.py:109-110 | `Hello <world>` becomes `Hello (world)` |
| Sanitizer.ExampleAmpersand | PrepareDataset.py:111-112 | `A & B` becomes `A  B` (a lone `&` is deleted and both spaces stay) |
| Sanitizer.PlaceholderInTextBecomesTag | PrepareDataset.py:101-122 | the placeholder word `awuiegsnuirjsaa` written in a post comes out as the tag `<Blog>` |
| Sanitizer.DeletedAmpersandFormsTag | PrepareDataset.py:112-117 | deleting `&` in `awuiegsnuir&jsaa` forms a placeholder word, which comes out as `<Blog>` |
| Sanitizer.ConcatenatedPlaceholderFormsTag | PrepareDataset.py:101-122 | lower-case text before a tag completes a placeholder word across the tag's own placeholder: `awuiegsnuirjsa</date>` comes out as `<Blog>sdyboijwnisdjas` |
| Documents.SanitizeDocument | PrepareDataset.py:101-122 | a document of tags and text pieces comes out with every tag kept in place. Each text piece is flattened as `FlattenMarkup` reads it and then loses its control characters. The text pieces may hold line breaks |
| Documents.StripDocument | PrepareDataset.py:18-19 | filtering control characters out of the flattened document removes them from each text piece and leaves every placeholder word as it is |
| Documents.SanitizeAroundTag | PrepareDataset.py:101-122 | one tag between two text pieces comes out as that tag between the two pieces, each flattened and stripped of control characters |
| Documents.LayoutPlain | PrepareDataset.py:18-19 | text made only of control characters, such as the line breaks between tags, is a valid text piece and the pass removes it entirely |
| Documents.SampleLinesSanitized | PrepareDataset.py:101-122 | `<Blog>`, a line break, `<post>Hello <world></post>`, a line break and `</Blog>` come out as `<Blog><post>Hello (world)</post></Blog>` |
| Documents.SampleBlogSanitized | PrepareDataset.py:101-122 | `<Blog><post>Hello <world></post><post></post></Blog>` comes out as `<Blog><post>Hello (world)</post><post></post></Blog>` |
| Metadata.DecodeFilename | PrepareDataset.py:59-61 | a decoded record's fields are pieces 1–5 of the name split on `.`, the name has exactly six pieces, and `id` and `age` are the integer values of pieces 1 and 3 |
| Metadata.DecodeSucceedsExactly | PrepareDataset.py:59-61 | decoding succeeds if and only if the name splits into six pieces whose first and third parse as integers |
| Metadata.DecodeEncode | PrepareDataset.py:59-61 | a record whose text fields hold no `.` is recovered from its own file name, whatever the extension |
| Metadata.WrongShapeRefused | PrepareDataset.py:59 | a name with other than six pieces is refused with the number of fields found before the extension |
| Metadata.LabelOf | PrepareDataset.py:64-69 | the chosen label covers the age: below 20, 20 to 29, or 30 and above |
| Metadata.BucketsPartition | PrepareDataset.py:64-69 | a label covers an age if and only if it is the label chosen for that age |
| Metadata.LabelMonotone | PrepareDataset.py:64-69 | an older author never gets a younger bucket |
| Metadata.LabelNames | PrepareDataset.py:65-69 | the label names `10s`, `20s`, `30s` are distinct and hold no `/` |
| Partition.ChooseCategory | PrepareDataset.py:72-81 | the chosen category covers the draw: below 0.8 training, from 0.8 to below 0.9 validation, from 0.9 test |
| Partition.CategoriesPartition | PrepareDataset.py:72-81 | a category covers a draw if and only if it is the category chosen for that draw |
| Partition.ChooseMonotone | PrepareDataset.py:72-81 | a larger draw never picks an earlier category |
| Partition.CategoryNames | PrepareDataset.py:75-81 | `training_ds`, `validation_ds` and `test_ds` are distinct and hold no `/` |
| Partition.Generator.constructor | PrepareDataset.py:25 | a seeded generator starts at the first draw of its stream |
| Partition.Generator.Random | PrepareDataset.py:72 | `random.random()` returns the next draw of the stream and advances the position by one |
| Output.FileSystem.MakeDir | PrepareDataset.py:89-93 | `os.mkdir` raises `FileExistsError` when a directory or a regular file has the name, and raises when the parent is not a directory; in both cases nothing changes. Otherwise it adds exactly that directory |
| Output.FileSystem.ReadFile | PrepareDataset.py:96-98 | reading a file gives its current text |
| Output.FileSystem.WriteFile | PrepareDataset.py:142-144 | writing a file sets its text to exactly the new text, whether or not it existed, and changes nothing else |
| Output.PostFileInjective | PrepareDataset.py:154 | within one author directory, distinct post numbers give distinct file names |
| Output.PostPathJoin | PrepareDataset.py:85 | a post path is the root, then category, label, id and `k.txt` joined by `/` |
| Output.PathPartsNoSlash | PrepareDataset.py:85 | none of the four names below the root holds a `/` |
| Output.PostPathInjective | PrepareDataset.py:85 | distinct (category, label, id, post number) give distinct output paths |
| Output.PostPath | PrepareDataset.py:85 | the file of post `k` under `target/C/L/id/`; `PostPathJoin` and `PostPathInjective` state its shape and that it is one-to-one |
| Output.AuthorDir | PrepareDataset.py:85 | `idTargetFilePath`, with its trailing `/`; `Levels` states how it sits below the label directory |
| Output.AuthorDirs | PrepareDataset.py:88-93 | the three exists-then-mkdir steps, parent first, stopping at the first error; its partners are `AuthorDirsEffect`, `AuthorDirsSucceeds` and `AuthorDirsBlocked` |
| Output.MkdirIfMissing | PrepareDataset.py:88-93 | one exists-then-mkdir step; `MkdirIfMissingEffect` and `MkdirIfMissingAgain` state its effect |
| Output.MkdirIfMissingEffect | PrepareDataset.py:88-93 | a level that goes through leaves the files alone and adds its directory exactly when no regular file has the name; afterwards the level exists |
| Output.MkdirIfMissingAgain | PrepareDataset.py:88-93 | a level that exists already is left as it is, with no error |
| Output.AuthorDirsEffect | PrepareDataset.py:88-93 | when no level raises, exactly the levels that no regular file names are added as directories, the author's directory exists, and doing it again changes nothing and raises nothing |
| Output.AuthorDirsSucceeds | PrepareDataset.py:88-93 | from an existing root, with no regular file named like a level, no level raises |
| Output.AuthorDirsBlocked | PrepareDataset.py:88-93 | a regular file at the category level makes line 91 raise, one at the label level makes line 93 raise, and one named like the author's id makes line 93 raise `FileExistsError`; nothing changes |
| Output.EnsureAuthorDirs | PrepareDataset.py:88-93 | the three exists-then-mkdir steps, parent first, leave the state `AuthorDirs` describes |
| Output.PostsWrittenContents | PrepareDataset.py:151-158 | when every post has text: exactly the post files are added, post j is in file number k + j, and every other file keeps its text |
| Output.PostsWritten | PrepareDataset.py:151-158 | the `blogNumber` loop as a function; it keeps every existing file name, and `PostsWrittenContents` and `PostsWrittenStopsAtMissingText` state the rest |
| Output.PostsAtTheirPaths | PrepareDataset.py:151-158 | the k-th post of an author (from 1) is in `target/C/L/id/k.txt` |
| Output.PostFilesCount | PrepareDataset.py:151-158 | n posts take exactly n distinct files (no gap, no repeat in the numbering) |
| Output.PostsWrittenStopsAtMissingText | PrepareDataset.py:154-156 | at the first post without text, the posts before it are written, its file is created empty, and nothing after it is touched |
| Output.WritePosts | PrepareDataset.py:151-158 | the `blogNumber` loop leaves the files `PostsWritten` describes, makes no directory, and reports success exactly when every post has text |
| Corpus.Place | PrepareDataset.py:63-81 | an author is placed under the category its draw picks, the label covering its age and its own id |
| Corpus.PrepareAuthor | PrepareDataset.py:88-158 | directories, the in-place rewrite and the post files of one author; `PrepareAuthorCompletes` and `PrepareAuthorPosts` state its effect |
| Corpus.PrepareAuthorCompletes | PrepareDataset.py:88-158 | an author's output is complete if and only if all three directory levels are created without error, the file exists, the parser accepts its sanitized content and every post has text |
| Corpus.PrepareAuthorPosts | PrepareDataset.py:96-158 | for a complete author, post k is in `target/C/L/id/k.txt`, and the source file holds its sanitized content unless a post file has the same path |
| Corpus.ProcessFileSucceeds | PrepareDataset.py:56-158 | a file goes through if and only if its name decodes and its author's output is complete; it then takes exactly one draw and is placed by that draw |
| Corpus.ProcessFile | PrepareDataset.py:56-158 | one pass of the loop body; `ProcessFileSucceeds`, `BadNameChangesNothing` and `ProcessFileFiles` state its effect |
| Corpus.ProcessFileFiles | PrepareDataset.py:88-158 | a file that goes through was found and parsed, with text in every post. Afterwards its author's post files exist, post k is in file k, no other file in the output tree changes, and files outside the tree keep their names and what they sanitize to |
| Corpus.BadNameChangesNothing | PrepareDataset.py:59-61 | a badly named file raises before any directory is made, any draw is taken or anything is written |
| Corpus.Run | PrepareDataset.py:56-158 | a run that completes takes exactly one draw per file, and places file i by draw n + i under its author's label and id |
| Corpus.RunStopsAtBadName | PrepareDataset.py:56-61 | a run stops at the first badly named file, with the file system the files before it left and one draw per file before it |
| Corpus.RunWritesPosts | PrepareDataset.py:56-158 | after a completed run, post k of file i is in `target/C/L/id/k.txt` for its author's place, unless a later file is placed at the same category, label and id |
| Corpus.RunKeys | PrepareDataset.py:56-158 | a completed run leaves no file but those there before and the post files of the files it visited |
| Corpus.RunFrame | PrepareDataset.py:56-158 | a file inside the output tree that is no post path of any visited file keeps its text |
| Corpus.RunSources | PrepareDataset.py:56-158 | a completed run found, parsed and found text in every file it visited, kept every file name, and left every file outside the output tree sanitizing to what it did before |
| Corpus.PrepareFile | PrepareDataset.py:56-158 | the loop body, with the twelve replace lines written out, leaves the state, result and generator position `ProcessFile` describes |
| Corpus.PrepareDataset | PrepareDataset.py:56-158 | the loop over the files, stopping at the first exception, leaves the state, result and generator position `Run` describes |

## Left out

- Path discovery, creation of the target root and the `os.walk` traversal (lines 32–50) are left out. The files the walk yields are an input sequence of `Corpus.Visit` values, in walk order.
- The per-directory counter `filenumber` and the progress printing (lines 52–54, 160–166) are left out. They are console output only.
- Reading with `encoding="utf-8", errors="ignore"` is not modelled. File contents are already-decoded strings, so dropping undecodable bytes is not modelled.
- The in-place rewrite through `seek`, `truncate` and `write` (lines 142–144) is one `WriteFile` that replaces the text.
- `ET.parse` and `findall("./post")` (lines 147–152) are left out as foreign code. They are the parameter `Corpus.PostParser`, which gives the post texts in document order (`None` for an element without text) or `None` for content that does not parse.
- The Mersenne Twister behind `random.seed(1337)` and `random.random()` is left out. The stream of draws is a parameter of `Partition.Generator`, and the model does not constrain the values to [0, 1).
- Floating point: the thresholds are compared as the exact reals 0.8 and 0.9. In the source, `trainingSplit + validationSplit` evaluates to the same double as `0.9`. The doubles nearest 0.8 and 0.9 both lie just above those reals, with no double in between. So for every double the exact-real comparisons give the same answer as the source's.
- Text.ParseInt: `int()` is modelled on an optional sign followed by ASCII digits. Surrounding whitespace, underscores and non-ASCII digits, which Python also accepts, are refused.
- Output.PostsWritten: if a post path already names a directory, `open(postFilePath, "w")` at line 155 raises `IsADirectoryError` and the run ends. The model writes a file under that name and carries on. `Output.WritePosts` and `Corpus.PrepareAuthor` share this gap. Write failures from the operating system, such as a missing permission or a full disk, are not modelled either.
- Output.FileSystem.WriteFile: writing always succeeds. Failures of `open` and `write` at lines 142–144 and 155 are not modelled: a name that is a directory, a missing permission, a full disk.
- Output.FileSystem.MakeDir: permission errors and other operating-system failures of `os.mkdir` are not modelled; only a taken name and a parent that is not a directory are.
- The commented-out replace lines (124–140) are dead code and are left out.
- `BlogClassification.py` (loading, training and evaluating the Keras model) is not part of this model.
- The script runs on one thread. The model has no concurrency to leave out, and no floating-point arithmetic apart from the thresholds above.
