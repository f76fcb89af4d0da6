/**
 * Whole blog documents: text between tags. The sanitizing pass keeps every
 * tag of a document, and flattens the text between them and strips its
 * control characters. This needs three things of each text piece. It holds
 * no tag of its own. Once cleaned, it holds no placeholder word. And once
 * cleaned, it neither begins nor ends with a lower-case letter, since a
 * placeholder word could otherwise form across the edge of a tag (see
 * `Sanitizer.ConcatenatedPlaceholderFormsTag`).
 */
module Documents {
  import opened Text
  import opened ControlChars
  import opened Sanitizer

  type TagIndex = k: nat | k < 6

  /** A document is a sequence of text pieces and tags. */
  datatype Piece = Plain(w: string) | Tag(k: TagIndex)

  /**
   * How a piece looks partway through the pass. Going forward (`restoring`
   * false), the text is as written and the tags below `m` have been turned
   * into placeholder words. Coming back (`restoring` true), the text is
   * cleaned and the tags below `m` have been restored.
   */
  function Shown(p: Piece, m: nat, restoring: bool): string {
    match p
    case Plain(w) => if restoring then Cleaned(w) else w
    case Tag(k) => if (k < m) == restoring then Tags[k] else Placeholders[k]
  }

  function Render(ps: seq<Piece>, m: nat, restoring: bool): string
    decreases |ps|
  {
    if ps == [] then [] else Shown(ps[0], m, restoring) + Render(ps[1..], m, restoring)
  }

  /** The document as written. */
  function Source(ps: seq<Piece>): string {
    Render(ps, 0, false)
  }

  /** The document with its text cleaned and its tags kept. */
  function Flattened(ps: seq<Piece>): string {
    Render(ps, 6, true)
  }

  /** A text piece flattened and stripped of its control characters. */
  function Cleaned(w: string): string {
    StripControlChars(FlattenMarkup(w))
  }

  /** The document after the cleanup lines: text flattened, every tag a placeholder word. */
  function FlatRender(ps: seq<Piece>): string
    decreases |ps|
  {
    if ps == [] then []
    else (match ps[0] case Plain(w) => FlattenMarkup(w) case Tag(k) => Placeholders[k]) + FlatRender(ps[1..])
  }

  /** A text piece the pass can only clean. */
  predicate PlainText(w: string) {
    var f := Cleaned(w);
    (forall k :: 0 <= k < 6 ==> !Contains(w, Tags[k]))
    && (forall k :: 0 <= k < 6 ==> !Contains(f, Placeholders[k]))
    && (f == [] || !IsLower(f[0]))
    && (f == [] || !IsLower(f[|f| - 1]))
  }

  /** Text pieces are plain, and a tag (or the end) follows each of them. */
  predicate Document(ps: seq<Piece>) {
    forall i :: 0 <= i < |ps| && ps[i].Plain? ==> PlainText(ps[i].w) && (i + 1 < |ps| ==> ps[i + 1].Tag?)
  }

  lemma DocumentTail(ps: seq<Piece>)
    requires Document(ps) && ps != []
    ensures Document(ps[1..])
    ensures ps[0].Plain? ==> PlainText(ps[0].w) && (ps[1..] == [] || ps[1..][0].Tag?)
  {
    assert forall i :: 0 <= i < |ps| - 1 ==> ps[1..][i] == ps[i + 1];
  }

  // ---------------------------------------------------------------------------
  // The protect lines
  // ---------------------------------------------------------------------------

  /** What follows text on the way forward: nothing, a tag, or a placeholder word. */
  predicate ProtectSafe(r: string) {
    r == [] || r[0] == '<' || forall i :: 0 <= i < |r| && i < 6 ==> r[i] != '>'
  }

  lemma RenderProtectSafe(ps: seq<Piece>, m: nat)
    requires ps == [] || ps[0].Tag?
    ensures ProtectSafe(Render(ps, m, false))
  {
    if ps != [] {
      var k := ps[0].k;
      var r := Render(ps[1..], m, false);
      TagFront(k);
      PlaceholderShapes();
      assert forall i :: 0 <= i < 6 ==> (Placeholders[k] + r)[i] == Placeholders[k][i];
    }
  }

  /** Protect line `m` steps over a text piece that holds no tag. */
  lemma ProtectSkipsText(w: string, r: string, m: nat)
    requires m < 6 && !Contains(w, Tags[m]) && ProtectSafe(r)
    ensures ReplaceAll(w + r, Tags[m], Placeholders[m]) == w + ReplaceAll(r, Tags[m], Placeholders[m])
  {
    var t, s := Tags[m], w + r;
    TagFront(m);
    TagInteriors();
    TagShapes();
    forall i | 0 <= i < |w| ensures !(t <= s[i..]) {
      if i + |t| <= |w| {
        assert !(t <= w[i..]);
        assert w[i..][..|t|] == s[i..][..|t|];
      } else if i + |t| <= |s| {
        var j := |w| - i;
        assert s[i + j] == r[0];
        assert s[i + |t| - 1] == r[|t| - 1 - j];
      }
    }
    ReplaceAllSkip(w, r, t, Placeholders[m]);
  }

  /** Protect line `m` steps over a placeholder word. */
  lemma ProtectSkipsPlaceholder(k: nat, r: string, m: nat)
    requires k < 6 && m < 6
    ensures ReplaceAll(Placeholders[k] + r, Tags[m], Placeholders[m])
         == Placeholders[k] + ReplaceAll(r, Tags[m], Placeholders[m])
  {
    var p, s := Placeholders[k], Placeholders[k] + r;
    TagFront(m);
    TagFront(k);
    forall i | 0 <= i < |p| ensures !(Tags[m] <= s[i..]) {
      assert s[i..][0] == p[i];
    }
    ReplaceAllSkip(p, r, Tags[m], Placeholders[m]);
  }

  /** Protect line `m` turns exactly the tags of index `m` into placeholder words. */
  lemma {:induction false} ProtectDocumentLine(ps: seq<Piece>, m: nat)
    requires Document(ps) && m < 6
    ensures ReplaceAll(Render(ps, m, false), Tags[m], Placeholders[m]) == Render(ps, m + 1, false)
    decreases |ps|
  {
    if ps != [] {
      DocumentTail(ps);
      ProtectDocumentLine(ps[1..], m);
      var r := Render(ps[1..], m, false);
      match ps[0]
      case Plain(w) =>
        RenderProtectSafe(ps[1..], m);
        ProtectSkipsText(w, r, m);
      case Tag(k) =>
        if k < m {
          ProtectSkipsPlaceholder(k, r, m);
        } else if k == m {
          TagFront(m);
          assert (Tags[m] + r)[|Tags[m]|..] == r;
        } else {
          ProtectSkipsTag(m, k, r);
        }
    }
  }

  lemma {:induction false} ProtectDocumentFrom(ps: seq<Piece>, m: nat)
    requires Document(ps) && m <= 6
    ensures ReplaceEach(Render(ps, m, false), ProtectSteps[m..]) == Render(ps, 6, false)
    decreases 6 - m
  {
    StepTables();
    if m < 6 {
      var steps := ProtectSteps[m..];
      assert steps[0] == Replacement(Tags[m], Placeholders[m]);
      assert steps[1..] == ProtectSteps[m + 1..];
      ProtectDocumentLine(ps, m);
      ProtectDocumentFrom(ps, m + 1);
    }
  }

  // ---------------------------------------------------------------------------
  // The cleanup lines and the control-character filter
  // ---------------------------------------------------------------------------

  /** With every tag hidden, cleanup flattens each text piece and keeps each placeholder word. */
  lemma {:induction false} CleanupDocument(ps: seq<Piece>)
    requires Document(ps)
    ensures FlattenMarkup(Render(ps, 6, false)) == FlatRender(ps)
    decreases |ps|
  {
    if ps != [] {
      DocumentTail(ps);
      CleanupDocument(ps[1..]);
      var r := Render(ps[1..], 6, false);
      PlaceholderShapes();
      match ps[0]
      case Plain(w) =>
        if ps[1..] != [] {
          var k := ps[1..][0].k;
          assert r == Placeholders[k] + Render(ps[2..], 6, false) by {
            assert ps[1..][1..] == ps[2..];
          }
          assert r[0] == Placeholders[k][0] && IsLower(r[0]);
          PlaceholderFirstLetter(k);
        }
        FlattenAppendAt(w, r);
      case Tag(k) =>
        var p := Placeholders[k];
        LowerText(p);
        FlattenAppend(p, r);
        FlattenIdentity(p);
    }
  }

  /** Every placeholder word begins with `a` or `i`. */
  lemma PlaceholderFirstLetter(k: nat)
    requires k < 6
    ensures Placeholders[k] != [] && (Placeholders[k][0] == 'a' || Placeholders[k][0] == 'i')
  {
  }

  /** The filter strips the control characters of each text piece and keeps each placeholder word. */
  lemma {:induction false} StripDocument(ps: seq<Piece>)
    ensures StripControlChars(FlatRender(ps)) == Render(ps, 0, true)
    decreases |ps|
  {
    if ps != [] {
      StripDocument(ps[1..]);
      var a := match ps[0] case Plain(w) => FlattenMarkup(w) case Tag(k) => Placeholders[k];
      StripAppend(a, FlatRender(ps[1..]));
      if ps[0].Tag? {
        PlaceholderShapes();
        LowerText(Placeholders[ps[0].k]);
        StripIdentity(Placeholders[ps[0].k]);
      }
    }
  }

  // ---------------------------------------------------------------------------
  // The restore lines
  // ---------------------------------------------------------------------------

  /** What may follow a placeholder word without completing another one. */
  predicate RestoreSafe(r: string) {
    r == [] || !IsLower(r[0]) || r[0] == 'a' || r[0] == 'i'
  }

  lemma {:induction false} RenderRestoreSafe(ps: seq<Piece>, m: nat)
    requires Document(ps)
    ensures RestoreSafe(Render(ps, m, true))
    decreases |ps|
  {
    if ps != [] {
      DocumentTail(ps);
      RenderRestoreSafe(ps[1..], m);
      var a, r := Shown(ps[0], m, true), Render(ps[1..], m, true);
      match ps[0]
      case Plain(w) =>
        if a == [] {
          assert a + r == r;
        } else {
          assert (a + r)[0] == a[0];
        }
      case Tag(k) =>
        TagFront(k);
        PlaceholderFirstLetter(k);
        assert (a + r)[0] == a[0];
    }
  }

  /** `s` at `i` reads like the first three letters of some placeholder word. */
  predicate WordStart(s: string, i: nat)
    requires i + 3 <= |s|
  {
    (s[i] == 'a' && s[i + 1] == 'w' && s[i + 2] == 'u')
    || (s[i] == 'a' && s[i + 1] == 's' && (s[i + 2] == 'j' || s[i + 2] == 'd' || s[i + 2] == 'f'))
    || (s[i] == 'i' && s[i + 1] == 'a' && s[i + 2] == 'o')
  }

  lemma PlaceholderWordStart(m: nat)
    requires m < 6
    ensures |Placeholders[m]| >= 8 && WordStart(Placeholders[m], 0)
  {
  }

  /** Inside a placeholder word no other word starts. */
  lemma InnerWordStarts(a: nat)
    requires a < 6
    ensures forall i :: 1 <= i && i + 3 <= |Placeholders[a]| ==> !WordStart(Placeholders[a], i)
  {
    if a == 0 {
    } else if a == 1 {
    } else if a == 2 {
    } else if a == 3 {
    } else if a == 4 {
    } else {
    }
  }

  /** Nor does one start in the last two letters of a word, before safe text. */
  lemma EdgeWordStarts(a: nat, r: string)
    requires a < 6 && RestoreSafe(r) && |r| >= 2
    ensures !WordStart(Placeholders[a] + r, |Placeholders[a]| - 2)
    ensures !WordStart(Placeholders[a] + r, |Placeholders[a]| - 1)
  {
    PlaceholderShapes();
    var p := Placeholders[a];
    var s := p + r;
    assert s[|p| - 2] == p[|p| - 2] && s[|p| - 1] == p[|p| - 1] && s[|p|] == r[0];
  }

  /** Distinct placeholder words differ within their first four letters. */
  lemma PlaceholderHeads(a: nat, m: nat)
    requires a < 6 && m < 6 && a != m
    ensures |Placeholders[a]| >= 4 && |Placeholders[m]| >= 4
    ensures exists j :: 0 <= j < 4 && Placeholders[a][j] != Placeholders[m][j]
  {
    var p, q := Placeholders[a], Placeholders[m];
    if p[0] != q[0] {
    } else if p[1] != q[1] {
      assert 0 <= 1 < 4 && p[1] != q[1];
    } else if p[2] != q[2] {
      assert 0 <= 2 < 4 && p[2] != q[2];
    } else {
      assert 0 <= 3 < 4 && p[3] != q[3];
    }
  }

  /** No placeholder word starts inside another one followed by safe text. */
  lemma NoWordInside(a: nat, r: string, i: nat)
    requires a < 6 && RestoreSafe(r) && 0 < i < |Placeholders[a]| && i + 8 <= |Placeholders[a] + r|
    ensures !WordStart(Placeholders[a] + r, i)
  {
    var p, s := Placeholders[a], Placeholders[a] + r;
    if i + 3 <= |p| {
      InnerWordStarts(a);
      assert s[i] == p[i] && s[i + 1] == p[i + 1] && s[i + 2] == p[i + 2];
    } else {
      EdgeWordStarts(a, r);
    }
  }

  /** A word cannot occur where its first three letters do not. */
  lemma WordMismatch(q: string, s: string, i: nat)
    requires |q| >= 3 && WordStart(q, 0) && i + 3 <= |s| && !WordStart(s, i)
    ensures !(q <= s[i..])
  {
    if |q| <= |s[i..]| {
      assert s[i..][0] == s[i] && s[i..][1] == s[i + 1] && s[i..][2] == s[i + 2];
    }
  }

  /** Restore line `m` steps over a placeholder word of a later line. */
  lemma PlaceholderSkipsPlaceholder(a: nat, m: nat, r: string)
    requires a < 6 && m < 6 && a != m && RestoreSafe(r)
    ensures ReplaceAll(Placeholders[a] + r, Placeholders[m], Tags[m])
         == Placeholders[a] + ReplaceAll(r, Placeholders[m], Tags[m])
  {
    var p, q, s := Placeholders[a], Placeholders[m], Placeholders[a] + r;
    PlaceholderWordStart(m);
    PlaceholderWordStart(a);
    forall i | 0 <= i < |p| ensures !(q <= s[i..]) {
      if i + |q| <= |s| {
        if i == 0 {
          PlaceholderHeads(a, m);
          var j :| 0 <= j < 4 && p[j] != q[j];
          assert s[j] == p[j];
        } else {
          NoWordInside(a, r, i);
          WordMismatch(q, s, i);
        }
      }
    }
    ReplaceAllSkip(p, r, q, Tags[m]);
  }

  /** Restore line `m` steps over a flattened text piece. */
  lemma RestoreSkipsText(f: string, r: string, m: nat)
    requires m < 6 && !Contains(f, Placeholders[m]) && (f == [] || !IsLower(f[|f| - 1]))
    ensures ReplaceAll(f + r, Placeholders[m], Tags[m]) == f + ReplaceAll(r, Placeholders[m], Tags[m])
  {
    var q, s := Placeholders[m], f + r;
    PlaceholderShapes();
    forall i | 0 <= i < |f| ensures !(q <= s[i..]) {
      if i + |q| <= |f| {
        assert !(q <= f[i..]);
        assert f[i..][..|q|] == s[i..][..|q|];
      } else if i + |q| <= |s| {
        assert s[|f| - 1] == f[|f| - 1];
        assert IsLower(q[|f| - 1 - i]);
      }
    }
    ReplaceAllSkip(f, r, q, Tags[m]);
  }

  /** Restore line `m` turns exactly the placeholder words of index `m` back into tags. */
  lemma {:induction false} RestoreDocumentLine(ps: seq<Piece>, m: nat)
    requires Document(ps) && m < 6
    ensures ReplaceAll(Render(ps, m, true), Placeholders[m], Tags[m]) == Render(ps, m + 1, true)
    decreases |ps|
  {
    if ps != [] {
      DocumentTail(ps);
      RestoreDocumentLine(ps[1..], m);
      var r := Render(ps[1..], m, true);
      match ps[0]
      case Plain(w) =>
        RestoreSkipsText(Cleaned(w), r, m);
      case Tag(k) =>
        if k < m {
          PlaceholderShapes();
          PlaceholderSkipsTag(k, r, Placeholders[m], Tags[m]);
        } else if k == m {
          PlaceholderShapes();
          assert (Placeholders[m] + r)[|Placeholders[m]|..] == r;
        } else {
          RenderRestoreSafe(ps[1..], m);
          PlaceholderSkipsPlaceholder(k, m, r);
        }
    }
  }

  lemma {:induction false} RestoreDocumentFrom(ps: seq<Piece>, m: nat)
    requires Document(ps) && m <= 6
    ensures ReplaceEach(Render(ps, m, true), RestoreSteps[m..]) == Render(ps, 6, true)
    decreases 6 - m
  {
    StepTables();
    if m < 6 {
      var steps := RestoreSteps[m..];
      assert steps[0] == Replacement(Placeholders[m], Tags[m]);
      assert steps[1..] == RestoreSteps[m + 1..];
      RestoreDocumentLine(ps, m);
      RestoreDocumentFrom(ps, m + 1);
    }
  }

  // ---------------------------------------------------------------------------
  // The whole pass
  // ---------------------------------------------------------------------------

  /** The pass keeps every tag of a document and flattens the text between them. */
  lemma SanitizeDocument(ps: seq<Piece>)
    requires Document(ps)
    ensures Sanitize(Source(ps)) == Flattened(ps)
  {
    assert ProtectSteps[0..] == ProtectSteps && RestoreSteps[0..] == RestoreSteps;
    ProtectDocumentFrom(ps, 0);
    CleanupFlattens(Render(ps, 6, false));
    CleanupDocument(ps);
    StripDocument(ps);
    RestoreDocumentFrom(ps, 0);
  }

  /** One tag between two plain pieces of text comes through as that tag. */
  lemma SanitizeAroundTag(a: string, k: nat, b: string)
    requires k < 6 && PlainText(a) && PlainText(b)
    ensures Sanitize(a + Tags[k] + b) == Cleaned(a) + Tags[k] + Cleaned(b)
  {
    var ps := [Plain(a), Tag(k), Plain(b)];
    ThreeIsDocument(a, k, b);
    SanitizeDocument(ps);
    RenderThree(Plain(a), Tag(k), Plain(b), 0, false);
    RenderThree(Plain(a), Tag(k), Plain(b), 6, true);
  }

  lemma ThreeIsDocument(a: string, k: nat, b: string)
    requires k < 6 && PlainText(a) && PlainText(b)
    ensures Document([Plain(a), Tag(k), Plain(b)])
  {
    var ps := [Plain(a), Tag(k), Plain(b)];
    forall i | 0 <= i < |ps| && ps[i].Plain?
      ensures PlainText(ps[i].w) && (i + 1 < |ps| ==> ps[i + 1].Tag?)
    {
      if i == 0 {
        assert ps[i].w == a;
      } else {
        assert i == 2 && ps[i].w == b;
      }
    }
  }

  lemma RenderThree(a: Piece, b: Piece, c: Piece, m: nat, restoring: bool)
    ensures Render([a, b, c], m, restoring) == Shown(a, m, restoring) + Shown(b, m, restoring) + Shown(c, m, restoring)
  {
    assert Render([c], m, restoring) == Shown(c, m, restoring) by {
      assert [c][1..] == [];
    }
    assert Render([b, c], m, restoring) == Shown(b, m, restoring) + Render([c], m, restoring) by {
      assert [b, c][1..] == [c];
    }
    assert Render([a, b, c], m, restoring) == Shown(a, m, restoring) + Render([b, c], m, restoring) by {
      assert [a, b, c][1..] == [b, c];
    }
  }

  lemma RenderFour(a: Piece, b: Piece, c: Piece, d: Piece, m: nat, restoring: bool)
    ensures Render([a, b, c, d], m, restoring)
         == Shown(a, m, restoring) + Shown(b, m, restoring) + Shown(c, m, restoring) + Shown(d, m, restoring)
  {
    assert [a, b, c, d][1..] == [b, c, d];
    RenderThree(b, c, d, m, restoring);
  }

  lemma {:induction false} RenderSplit(ps: seq<Piece>, qs: seq<Piece>, m: nat, restoring: bool)
    ensures Render(ps + qs, m, restoring) == Render(ps, m, restoring) + Render(qs, m, restoring)
    decreases |ps|
  {
    if ps == [] {
      assert ps + qs == qs;
    } else {
      assert (ps + qs)[0] == ps[0];
      assert (ps + qs)[1..] == ps[1..] + qs;
      RenderSplit(ps[1..], qs, m, restoring);
    }
  }

  // ---------------------------------------------------------------------------
  // A worked document
  // ---------------------------------------------------------------------------

  /** The pieces of a blog with one post holding the text w and one empty post. */
  function SampleBlog(w: string): seq<Piece> {
    [Tag(0), Tag(2), Plain(w), Tag(3), Tag(2), Tag(3), Tag(1)]
  }

  /**
   * A whole blog document: the tags stay, and the stray angle brackets in the
   * post text become parentheses.
   */
  lemma SampleBlogSanitized(s: string)
    requires s == "<Blog>" + "<post>" + "Hello <world>" + "</post>" + "<post>" + "</post>" + "</Blog>"
    ensures Sanitize(s) == "<Blog>" + "<post>" + "Hello (world)" + "</post>" + "<post>" + "</post>" + "</Blog>"
  {
    SampleBlogWith(s, "Hello <world>", "Hello (world)");
  }

  lemma SampleBlogWith(s: string, w: string, f: string)
    requires w == "Hello <world>" && f == "Hello (world)"
    requires s == "<Blog>" + "<post>" + w + "</post>" + "<post>" + "</post>" + "</Blog>"
    ensures Sanitize(s) == "<Blog>" + "<post>" + f + "</post>" + "<post>" + "</post>" + "</Blog>"
  {
    HelloPlain(w);
    HelloCleaned(w);
    SampleBlogIsDocument(w);
    SanitizeDocument(SampleBlog(w));
    SampleBlogSource(w);
    SampleBlogFlattened(w, f);
    assert Tags[0] == "<Blog>" && Tags[1] == "</Blog>" && Tags[2] == "<post>" && Tags[3] == "</post>";
  }

  lemma HelloPlain(w: string)
    requires w == "Hello <world>"
    ensures PlainText(w)
  {
    forall k | 0 <= k < 6 ensures !Contains(w, Tags[k]) {
      HelloHasNoTag(k);
    }
    HelloCleaned(w);
    var f := Cleaned(w);
    forall k | 0 <= k < 6 ensures !Contains(f, Placeholders[k]) {
      AbsentByLength(f, Placeholders[k]);
    }
    assert f[0] == 'H' && f[|f| - 1] == ')';
  }

  lemma HelloCleaned(w: string)
    requires w == "Hello <world>"
    ensures Cleaned(w) == "Hello (world)"
  {
    HelloFlattened();
    StripIdentity("Hello (world)");
  }

  lemma SampleBlogIsDocument(w: string)
    requires PlainText(w)
    ensures Document(SampleBlog(w))
  {
    var ps := SampleBlog(w);
    forall i | 0 <= i < |ps| && ps[i].Plain?
      ensures PlainText(ps[i].w) && (i + 1 < |ps| ==> ps[i + 1].Tag?)
    {
      assert i == 2 && ps[i].w == w;
    }
  }

  lemma SampleBlogSource(w: string)
    ensures Source(SampleBlog(w)) == Tags[0] + Tags[2] + w + Tags[3] + Tags[2] + Tags[3] + Tags[1]
  {
    SampleBlogPieces(w, 0, false);
  }

  lemma SampleBlogFlattened(w: string, f: string)
    requires Cleaned(w) == f
    ensures Flattened(SampleBlog(w)) == Tags[0] + Tags[2] + f + Tags[3] + Tags[2] + Tags[3] + Tags[1]
  {
    SampleBlogPieces(w, 6, true);
  }

  lemma SampleBlogPieces(w: string, m: nat, restoring: bool)
    ensures Render(SampleBlog(w), m, restoring)
         == Shown(Tag(0), m, restoring) + Shown(Tag(2), m, restoring) + Shown(Plain(w), m, restoring)
          + (Shown(Tag(3), m, restoring) + Shown(Tag(2), m, restoring) + Shown(Tag(3), m, restoring) + Shown(Tag(1), m, restoring))
  {
    var front := [Tag(0), Tag(2), Plain(w)];
    var back := [Tag(3), Tag(2), Tag(3), Tag(1)];
    assert SampleBlog(w) == front + back;
    RenderSplit(front, back, m, restoring);
    RenderThree(Tag(0), Tag(2), Plain(w), m, restoring);
    RenderFour(Tag(3), Tag(2), Tag(3), Tag(1), m, restoring);
  }

  // ---------------------------------------------------------------------------
  // Line breaks between tags
  // ---------------------------------------------------------------------------

  /** Layout between tags (line breaks, tabs) is plain text, and the pass drops it. */
  lemma LayoutPlain(w: string)
    requires forall i :: 0 <= i < |w| ==> IsControl(w[i])
    ensures PlainText(w) && Cleaned(w) == []
  {
    TableShape();
    assert '<' !in w && '>' !in w && '&' !in w;
    forall k | 0 <= k < 6 ensures !Contains(w, Tags[k]) {
      AbsentByFirstChar(w, Tags[k]);
    }
    FlattenIdentity(w);
    StripOnlyControl(w);
    forall k | 0 <= k < 6 ensures !Contains(Cleaned(w), Placeholders[k]) {
      AbsentByLength(Cleaned(w), Placeholders[k]);
    }
  }

  /** A blog laid out on lines: one post holding the text `w`, a line break around it. */
  function SampleLines(n: string, w: string): seq<Piece> {
    [Tag(0), Plain(n), Tag(2), Plain(w), Tag(3), Plain(n), Tag(1)]
  }

  /** The line breaks between the tags go, the tags stay, and the text is flattened. */
  lemma SampleLinesSanitized(s: string)
    requires s == "<Blog>" + "\n" + "<post>" + "Hello <world>" + "</post>" + "\n" + "</Blog>"
    ensures Sanitize(s) == "<Blog>" + "<post>" + "Hello (world)" + "</post>" + "</Blog>"
  {
    var n, w, f := "\n", "Hello <world>", "Hello (world)";
    LineBreakLayout(n);
    HelloPlain(w);
    HelloCleaned(w);
    assert Tags[0] == "<Blog>" && Tags[1] == "</Blog>" && Tags[2] == "<post>" && Tags[3] == "</post>";
    SampleLinesWith(s, n, w, f);
  }

  /** Layout text around the tags is dropped, and the post's text is cleaned in place. */
  lemma SampleLinesWith(s: string, n: string, w: string, f: string)
    requires PlainText(n) && Cleaned(n) == [] && PlainText(w) && Cleaned(w) == f
    requires s == Tags[0] + n + Tags[2] + w + Tags[3] + n + Tags[1]
    ensures Sanitize(s) == Tags[0] + Tags[2] + f + Tags[3] + Tags[1]
  {
    SampleLinesIsDocument(n, w);
    SanitizeDocument(SampleLines(n, w));
    SampleLinesSource(n, w);
    SampleLinesFlattened(n, w, f);
  }

  lemma LineBreakLayout(n: string)
    requires n == "\n"
    ensures PlainText(n) && Cleaned(n) == []
  {
    LayoutPlain(n);
  }

  lemma SampleLinesSource(n: string, w: string)
    ensures Source(SampleLines(n, w)) == Tags[0] + n + Tags[2] + w + Tags[3] + n + Tags[1]
  {
    SampleLinesPieces(n, w, 0, false);
    Regroup(Tags[0] + n + Tags[2], w, Tags[3], n, Tags[1]);
  }

  lemma SampleLinesFlattened(n: string, w: string, f: string)
    requires Cleaned(n) == [] && Cleaned(w) == f
    ensures Flattened(SampleLines(n, w)) == Tags[0] + Tags[2] + f + Tags[3] + Tags[1]
  {
    SampleLinesPieces(n, w, 6, true);
    assert Tags[0] + [] + Tags[2] == Tags[0] + Tags[2];
    assert f + Tags[3] + [] + Tags[1] == f + Tags[3] + Tags[1];
    Regroup(Tags[0] + Tags[2], f, Tags[3], [], Tags[1]);
  }

  /** Concatenation regrouped to the left, as a literal reads. */
  lemma Regroup(a: string, b: string, c: string, d: string, e: string)
    ensures a + (b + c + d + e) == a + b + c + d + e
  {
  }

  lemma SampleLinesIsDocument(n: string, w: string)
    requires PlainText(n) && PlainText(w)
    ensures Document(SampleLines(n, w))
  {
    var ps := SampleLines(n, w);
    forall i | 0 <= i < |ps| && ps[i].Plain?
      ensures PlainText(ps[i].w) && (i + 1 < |ps| ==> ps[i + 1].Tag?)
    {
      assert ((i == 1 || i == 5) && ps[i].w == n) || (i == 3 && ps[i].w == w);
    }
  }

  lemma SampleLinesPieces(n: string, w: string, m: nat, restoring: bool)
    ensures Render(SampleLines(n, w), m, restoring)
         == Shown(Tag(0), m, restoring) + Shown(Plain(n), m, restoring) + Shown(Tag(2), m, restoring)
          + (Shown(Plain(w), m, restoring) + Shown(Tag(3), m, restoring) + Shown(Plain(n), m, restoring) + Shown(Tag(1), m, restoring))
  {
    var front := [Tag(0), Plain(n), Tag(2)];
    var back := [Plain(w), Tag(3), Plain(n), Tag(1)];
    assert SampleLines(n, w) == front + back;
    RenderSplit(front, back, m, restoring);
    RenderThree(Tag(0), Plain(n), Tag(2), m, restoring);
    RenderFour(Plain(w), Tag(3), Plain(n), Tag(1), m, restoring);
  }
}
