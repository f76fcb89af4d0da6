/**
 * The content sanitizer of the preparation script: protect the six structural
 * tags behind placeholder words, flatten every other piece of markup, strip
 * control characters and put the tags back.
 */
module Sanitizer {
  import opened Text
  import opened ControlChars

  /** A text to search for: Python's replace with an empty pattern is never used here. */
  type Pattern = p: string | p != [] witness "<"

  /** One `content = content.replace(pattern, substitute)` line. */
  datatype Replacement = Replacement(pattern: Pattern, substitute: string)

  /** The structural tags the sanitizer protects. */
  const Tags: seq<string> := ["<Blog>", "</Blog>", "<post>", "</post>", "<date>", "</date>"]

  /** The word each tag hides behind, in the same order. */
  const Placeholders: seq<string> := [
    "awuiegsnuirjsaa", "asjdiofawjosijfeos", "asdjkfaokeslrjaspolk",
    "iaosfiuahjsahgnjnsvu", "asfgoiaegsnvsjlaje", "asdyboijwnisdjas"]

  /** Tags to placeholders, in source order. */
  const ProtectSteps: seq<Replacement> := [
    Replacement("<Blog>", "awuiegsnuirjsaa"),
    Replacement("</Blog>", "asjdiofawjosijfeos"),
    Replacement("<post>", "asdjkfaokeslrjaspolk"),
    Replacement("</post>", "iaosfiuahjsahgnjnsvu"),
    Replacement("<date>", "asfgoiaegsnvsjlaje"),
    Replacement("</date>", "asdyboijwnisdjas")]

  /** Placeholders back to tags, in source order. */
  const RestoreSteps: seq<Replacement> := [
    Replacement("awuiegsnuirjsaa", "<Blog>"),
    Replacement("asjdiofawjosijfeos", "</Blog>"),
    Replacement("asdjkfaokeslrjaspolk", "<post>"),
    Replacement("iaosfiuahjsahgnjnsvu", "</post>"),
    Replacement("asfgoiaegsnvsjlaje", "<date>"),
    Replacement("asdyboijwnisdjas", "</date>")]

  /** A run of replace lines, applied one after the other. */
  function ReplaceEach(s: string, steps: seq<Replacement>): string
    decreases |steps|
  {
    if steps == [] then s
    else ReplaceEach(ReplaceAll(s, steps[0].pattern, steps[0].substitute), steps[1..])
  }

  function Protect(s: string): string {
    ReplaceEach(s, ProtectSteps)
  }

  /** Stray angle brackets become parentheses, `&nbsp` a space, every other `&` goes. */
  function Cleanup(s: string): string {
    ReplaceAll(ReplaceAll(ReplaceAll(ReplaceAll(s, "<", "("), ">", ")"), "&nbsp", " "), "&", "")
  }

  function Restore(s: string): string {
    ReplaceEach(s, RestoreSteps)
  }

  /** The whole pass over a file's content. */
  function Sanitize(s: string): string {
    Restore(StripControlChars(Cleanup(Protect(s))))
  }

  /** A run of six replace lines, written out. */
  lemma ReplaceEachSix(s: string, steps: seq<Replacement>)
    requires |steps| == 6
    ensures ReplaceEach(s, steps)
         == ReplaceAll(ReplaceAll(ReplaceAll(ReplaceAll(ReplaceAll(ReplaceAll(s,
              steps[0].pattern, steps[0].substitute), steps[1].pattern, steps[1].substitute),
              steps[2].pattern, steps[2].substitute), steps[3].pattern, steps[3].substitute),
              steps[4].pattern, steps[4].substitute), steps[5].pattern, steps[5].substitute)
  {
    var s1 := ReplaceAll(s, steps[0].pattern, steps[0].substitute);
    var s2 := ReplaceAll(s1, steps[1].pattern, steps[1].substitute);
    var s3 := ReplaceAll(s2, steps[2].pattern, steps[2].substitute);
    var s4 := ReplaceAll(s3, steps[3].pattern, steps[3].substitute);
    var s5 := ReplaceAll(s4, steps[4].pattern, steps[4].substitute);
    var s6 := ReplaceAll(s5, steps[5].pattern, steps[5].substitute);
    assert ReplaceEach(s5, steps[5..]) == ReplaceEach(s6, []);
    assert ReplaceEach(s4, steps[4..]) == ReplaceEach(s5, steps[5..]);
    assert ReplaceEach(s3, steps[3..]) == ReplaceEach(s4, steps[4..]);
    assert ReplaceEach(s2, steps[2..]) == ReplaceEach(s3, steps[3..]);
    assert ReplaceEach(s1, steps[1..]) == ReplaceEach(s2, steps[2..]);
    assert ReplaceEach(s, steps) == ReplaceEach(s1, steps[1..]);
  }

  // ---------------------------------------------------------------------------
  // Shape of the two tables
  // ---------------------------------------------------------------------------

  predicate IsLower(c: char) {
    'a' <= c <= 'z'
  }

  /** Placeholders are lower-case words longer than any tag. */
  predicate PlaceholderShape(p: string) {
    |p| >= 8 && forall i :: 0 <= i < |p| ==> IsLower(p[i])
  }

  /** Tags open with `<`, close with `>`, are at most seven long and hold no `&` or control character. */
  predicate TagShape(t: string) {
    2 <= |t| <= 7 && t[0] == '<' && t[|t| - 1] == '>' && '&' !in t && NoControl(t)
  }

  /** Every placeholder is a long lower-case word. */
  lemma PlaceholderShapes()
    ensures |Placeholders| == 6
    ensures forall k :: 0 <= k < 6 ==> PlaceholderShape(Placeholders[k])
  {
    forall k | 0 <= k < 6 ensures PlaceholderShape(Placeholders[k]) {
      if k == 0 {
      } else if k == 1 {
      } else if k == 2 {
      } else if k == 3 {
      } else if k == 4 {
      } else {
      }
    }
  }

  /** Every tag is a short bracketed name. */
  lemma TagShapes()
    ensures |Tags| == 6
    ensures forall k :: 0 <= k < 6 ==> TagShape(Tags[k])
  {
    forall k | 0 <= k < 6 ensures TagShape(Tags[k]) {
      if k == 0 {
      } else if k == 1 {
      } else if k == 2 {
      } else if k == 3 {
      } else if k == 4 {
      } else {
      }
    }
  }

  /** The protect lines map each tag to its placeholder, the restore lines back. */
  lemma StepTables()
    ensures |ProtectSteps| == |RestoreSteps| == |Tags| == |Placeholders| == 6
    ensures forall k :: 0 <= k < 6 ==> ProtectSteps[k] == Replacement(Tags[k], Placeholders[k])
    ensures forall k :: 0 <= k < 6 ==> RestoreSteps[k] == Replacement(Placeholders[k], Tags[k])
  {
  }

  lemma TableShape()
    ensures |Tags| == |Placeholders| == 6
    ensures forall k :: 0 <= k < 6 ==> PlaceholderShape(Placeholders[k]) && TagShape(Tags[k])
    ensures |ProtectSteps| == |RestoreSteps| == 6
    ensures forall k :: 0 <= k < 6 ==> ProtectSteps[k] == Replacement(Tags[k], Placeholders[k])
    ensures forall k :: 0 <= k < 6 ==> RestoreSteps[k] == Replacement(Placeholders[k], Tags[k])
  {
    PlaceholderShapes();
    TagShapes();
    StepTables();
  }

  // ---------------------------------------------------------------------------
  // Angle brackets only inside the six tags
  // ---------------------------------------------------------------------------

  /**
   * `s` reads as a sequence of tokens, each one of the six tags or a single
   * character that is not an angle bracket.
   */
  predicate WellTagged(s: string)
    decreases |s|
  {
    if s == [] then true
    else if s[0] != '<' && s[0] != '>' then WellTagged(s[1..])
    else exists k | 0 <= k < |Tags| && Tags[k] != [] :: Tags[k] <= s && WellTagged(s[|Tags[k]|..])
  }

  /** Tag number `k` occurs in `s` at position `j`. */
  predicate TagAt(s: string, j: int, k: int) {
    0 <= k < |Tags| && 0 <= j && j + |Tags[k]| <= |s| && s[j..j + |Tags[k]|] == Tags[k]
  }

  /** Position `i` of `s` lies inside an occurrence of one of the six tags. */
  ghost predicate InTag(s: string, i: int) {
    exists k, j :: TagAt(s, j, k) && j <= i < j + |Tags[k]|
  }

  lemma {:induction false} NoAnglesWellTagged(s: string)
    requires '<' !in s && '>' !in s
    ensures WellTagged(s)
    decreases |s|
  {
    if s != [] {
      assert s[0] in s;
      NoAnglesWellTagged(s[1..]);
    }
  }

  lemma WellTaggedTag(k: nat, x: string)
    requires k < 6 && WellTagged(x)
    ensures WellTagged(Tags[k] + x)
  {
    TableShape();
    var s := Tags[k] + x;
    assert s[0] == '<';
    assert Tags[k] <= s && s[|Tags[k]|..] == x;
  }

  lemma WellTaggedCons(c: char, x: string)
    requires c != '<' && c != '>' && WellTagged(x)
    ensures WellTagged([c] + x)
  {
    assert ([c] + x)[1..] == x;
  }

  /** Dropping a prefix without angle brackets keeps the tokenisation. */
  lemma {:induction false} WellTaggedDrop(s: string, n: nat)
    requires WellTagged(s) && n <= |s|
    requires forall i :: 0 <= i < n ==> s[i] != '<' && s[i] != '>'
    ensures WellTagged(s[n..])
    decreases n
  {
    if n > 0 {
      WellTaggedDrop(s[1..], n - 1);
      assert s[1..][n - 1..] == s[n..];
    }
  }

  /** No occurrence of a placeholder starts inside a tag. */
  lemma PlaceholderSkipsTag(k: nat, rest: string, p: string, r: string)
    requires k < 6 && PlaceholderShape(p)
    ensures ReplaceAll(Tags[k] + rest, p, r) == Tags[k] + ReplaceAll(rest, p, r)
  {
    TableShape();
    var t := Tags[k];
    forall i | 0 <= i < |t| ensures !(p <= (t + rest)[i..]) {
      var w := (t + rest)[i..];
      assert w[|t| - 1 - i] == '>';
      assert !IsLower(w[|t| - 1 - i]);
    }
    ReplaceAllSkip(t, rest, p, r);
  }

  /** One restore line keeps every angle bracket inside a tag. */
  lemma {:induction false} RestoreLineWellTagged(s: string, p: string, k: nat)
    requires WellTagged(s) && PlaceholderShape(p) && k < 6
    ensures WellTagged(ReplaceAll(s, p, Tags[k]))
    decreases |s|
  {
    TableShape();
    if s == [] {
    } else if p <= s {
      WellTaggedDrop(s, |p|);
      RestoreLineWellTagged(s[|p|..], p, k);
      WellTaggedTag(k, ReplaceAll(s[|p|..], p, Tags[k]));
    } else if s[0] != '<' && s[0] != '>' {
      RestoreLineWellTagged(s[1..], p, k);
      WellTaggedCons(s[0], ReplaceAll(s[1..], p, Tags[k]));
    } else {
      var j :| 0 <= j < |Tags| && Tags[j] != [] && Tags[j] <= s && WellTagged(s[|Tags[j]|..]);
      var rest := s[|Tags[j]|..];
      assert s == Tags[j] + rest;
      PlaceholderSkipsTag(j, rest, p, Tags[k]);
      RestoreLineWellTagged(rest, p, k);
      WellTaggedTag(j, ReplaceAll(rest, p, Tags[k]));
    }
  }

  /** The restore lines, from line `from` on, keep every angle bracket inside a tag. */
  lemma {:induction false} RestoreWellTagged(s: string, from: nat)
    requires WellTagged(s) && from <= 6
    ensures WellTagged(ReplaceEach(s, RestoreSteps[from..]))
    decreases 6 - from
  {
    TableShape();
    if from < 6 {
      var steps := RestoreSteps[from..];
      assert steps[0] == Replacement(Placeholders[from], Tags[from]);
      assert steps[1..] == RestoreSteps[from + 1..];
      RestoreLineWellTagged(s, Placeholders[from], from);
      RestoreWellTagged(ReplaceAll(s, Placeholders[from], Tags[from]), from + 1);
    }
  }

  /** In a well-tagged string every angle bracket belongs to a tag. */
  lemma {:induction false} WellTaggedInTag(s: string, i: nat)
    requires WellTagged(s) && i < |s| && (s[i] == '<' || s[i] == '>')
    ensures InTag(s, i)
    decreases |s|
  {
    if s[0] != '<' && s[0] != '>' {
      WellTaggedInTag(s[1..], i - 1);
      var k, j :| TagAt(s[1..], j, k) && j <= i - 1 < j + |Tags[k]|;
      assert s[j + 1..j + 1 + |Tags[k]|] == s[1..][j..j + |Tags[k]|];
      assert TagAt(s, j + 1, k);
    } else {
      var k :| 0 <= k < |Tags| && Tags[k] != [] && Tags[k] <= s && WellTagged(s[|Tags[k]|..]);
      var n := |Tags[k]|;
      if i < n {
        assert s[0..n] == Tags[k];
        assert TagAt(s, 0, k);
      } else {
        WellTaggedInTag(s[n..], i - n);
        var k', j :| TagAt(s[n..], j, k') && j <= i - n < j + |Tags[k']|;
        assert s[j + n..j + n + |Tags[k']|] == s[n..][j..j + |Tags[k']|];
        assert TagAt(s, j + n, k');
      }
    }
  }

  // ---------------------------------------------------------------------------
  // Characters that survive the pass
  // ---------------------------------------------------------------------------

  /** A replace line whose substitute is free of control characters adds none. */
  lemma ReplaceAllNoControl(s: string, p: Pattern, r: string)
    requires NoControl(s) && NoControl(r)
    ensures NoControl(ReplaceAll(s, p, r))
  {
    ReplaceAllChars(s, p, r);
    var out := ReplaceAll(s, p, r);
    forall i | 0 <= i < |out| ensures !IsControl(out[i]) {
      assert out[i] in out;
      if out[i] in s {
        var j :| 0 <= j < |s| && s[j] == out[i];
      } else {
        var j :| 0 <= j < |r| && r[j] == out[i];
      }
    }
  }

  /** Restore lines never bring back a `&` or a control character. */
  lemma {:induction false} RestoreKeepsClean(s: string, from: nat)
    requires from <= 6 && '&' !in s && NoControl(s)
    ensures '&' !in ReplaceEach(s, RestoreSteps[from..])
    ensures NoControl(ReplaceEach(s, RestoreSteps[from..]))
    decreases 6 - from
  {
    TableShape();
    if from < 6 {
      var steps := RestoreSteps[from..];
      assert steps[0] == Replacement(Placeholders[from], Tags[from]);
      assert steps[1..] == RestoreSteps[from + 1..];
      var next := ReplaceAll(s, Placeholders[from], Tags[from]);
      ReplaceAllKeepsAbsent(s, Placeholders[from], Tags[from], '&');
      ReplaceAllNoControl(s, Placeholders[from], Tags[from]);
      RestoreKeepsClean(next, from + 1);
    }
  }

  /** What reaches the restore lines: no angle bracket, no `&`, no control character. */
  lemma CleanText(s: string)
    ensures var z := StripControlChars(Cleanup(Protect(s)));
            '<' !in z && '>' !in z && '&' !in z && NoControl(z)
  {
    var p := Protect(s);
    var c1 := ReplaceAll(p, "<", "(");
    ReplaceAllRemovesChar(p, '<', "(");
    var c2 := ReplaceAll(c1, ">", ")");
    ReplaceAllRemovesChar(c1, '>', ")");
    ReplaceAllKeepsAbsent(c1, ">", ")", '<');
    var c3 := ReplaceAll(c2, "&nbsp", " ");
    ReplaceAllKeepsAbsent(c2, "&nbsp", " ", '<');
    ReplaceAllKeepsAbsent(c2, "&nbsp", " ", '>');
    var c4 := ReplaceAll(c3, "&", "");
    ReplaceAllRemovesChar(c3, '&', "");
    ReplaceAllKeepsAbsent(c3, "&", "", '<');
    ReplaceAllKeepsAbsent(c3, "&", "", '>');
    assert c4 == Cleanup(p);
    StripChars(c4);
  }

  /**
   * What the pass guarantees of any input: no `&`, no control character, and
   * every `<` or `>` is part of one of the six tags.
   */
  lemma SanitizeOutput(s: string)
    ensures '&' !in Sanitize(s)
    ensures NoControl(Sanitize(s))
    ensures WellTagged(Sanitize(s))
    ensures forall i :: 0 <= i < |Sanitize(s)| && (Sanitize(s)[i] == '<' || Sanitize(s)[i] == '>') ==> InTag(Sanitize(s), i)
  {
    var z := StripControlChars(Cleanup(Protect(s)));
    CleanText(s);
    NoAnglesWellTagged(z);
    assert RestoreSteps[0..] == RestoreSteps;
    RestoreWellTagged(z, 0);
    RestoreKeepsClean(z, 0);
    var r := Sanitize(s);
    forall i | 0 <= i < |r| && (r[i] == '<' || r[i] == '>') ensures InTag(r, i) {
      WellTaggedInTag(r, i);
    }
  }

  // ---------------------------------------------------------------------------
  // A second pass changes nothing
  // ---------------------------------------------------------------------------

  /** A tag's only `<` is its first character. */
  lemma TagInteriors()
    ensures forall k, i :: 0 <= k < 6 && 1 <= i < |Tags[k]| ==> Tags[k][i] != '<'
  {
    forall k | 0 <= k < 6 ensures forall i :: 1 <= i < |Tags[k]| ==> Tags[k][i] != '<' {
      if k == 0 {
      } else if k == 1 {
      } else if k == 2 {
      } else if k == 3 {
      } else if k == 4 {
      } else {
      }
    }
  }

  /** Distinct tags already differ in their second or third character. */
  lemma TagsDiffer(j: nat, k: nat)
    requires j < 6 && k < 6 && j != k
    ensures |Tags[j]| >= 3 && |Tags[k]| >= 3
    ensures Tags[j][1] != Tags[k][1] || Tags[j][2] != Tags[k][2]
  {
  }

  /** No occurrence of one tag starts inside another. */
  lemma TagNoOverlap(j: nat, k: nat, rest: string)
    requires j < 6 && k < 6 && j != k
    ensures forall i :: 0 <= i < |Tags[k]| ==> !(Tags[j] <= (Tags[k] + rest)[i..])
  {
    TableShape();
    TagInteriors();
    TagsDiffer(j, k);
    var s := Tags[k] + rest;
    forall i | 0 <= i < |Tags[k]| ensures !(Tags[j] <= s[i..]) {
      if i == 0 {
        assert s[1] == Tags[k][1] && s[2] == Tags[k][2];
      } else {
        assert s[i..][0] == Tags[k][i];
      }
    }
  }

  /**
   * `t` is `z` with some placeholder words, each of index `from` or more,
   * turned into their tags; every other character is copied, and none of
   * them is a `<`.
   */
  predicate Rel(t: string, z: string, from: nat)
    decreases |t|
  {
    if t == [] then z == []
    else if t[0] != '<' then z != [] && z[0] == t[0] && Rel(t[1..], z[1..], from)
    else
      var k := FirstTag(t, 0);
      from <= k && Placeholders[k] <= z && Rel(t[|Tags[k]|..], z[|Placeholders[k]|..], from)
  }

  /** The first tag, from index `j` on, that starts `t`; -1 when there is none. */
  function FirstTag(t: string, j: nat): (k: int)
    requires j <= 6
    ensures -1 <= k < 6
    ensures k >= 0 ==> j <= k && Tags[k] != [] && Tags[k] <= t
    ensures k == -1 ==> forall i :: j <= i < 6 && Tags[i] != [] ==> !(Tags[i] <= t)
    decreases 6 - j
  {
    if j == 6 then -1
    else if Tags[j] != [] && Tags[j] <= t then j
    else FirstTag(t, j + 1)
  }

  /** Text that starts with tag `k` is recognised as tag `k`. */
  lemma FirstTagOf(k: nat, rest: string)
    requires k < 6
    ensures FirstTag(Tags[k] + rest, 0) == k
  {
    TableShape();
    var s := Tags[k] + rest;
    var j := FirstTag(s, 0);
    if j != k {
      TagsDiffer(j, k);
    }
  }

  /** A tag in front of related text relates to its placeholder. */
  lemma RelTag(k: nat, t: string, z: string, from: nat)
    requires from <= k < 6 && Rel(t, z, from)
    ensures Rel(Tags[k] + t, Placeholders[k] + z, from)
  {
    TableShape();
    var tt, zz := Tags[k] + t, Placeholders[k] + z;
    assert tt[0] == '<';
    FirstTagOf(k, t);
    assert Tags[k] <= tt && Placeholders[k] <= zz;
    assert tt[|Tags[k]|..] == t && zz[|Placeholders[k]|..] == z;
  }

  /** Text without `<` in front of related text is copied. */
  lemma {:induction false} RelPrepend(w: string, t: string, z: string, from: nat)
    requires forall i :: 0 <= i < |w| ==> w[i] != '<'
    requires Rel(t, z, from)
    ensures Rel(w + t, w + z, from)
    decreases |w|
  {
    if w == [] {
      assert w + t == t && w + z == z;
    } else {
      RelPrepend(w[1..], t, z, from);
      var wt, wz := w + t, w + z;
      assert wt[0] == w[0] && wz[0] == w[0];
      assert wt[1..] == w[1..] + t;
      assert wz[1..] == w[1..] + z;
    }
  }

  /** A protect line steps over a different tag. */
  lemma ProtectSkipsTag(m: nat, k: nat, rest: string)
    requires m < 6 && k < 6 && m != k
    ensures ReplaceAll(Tags[k] + rest, Tags[m], Placeholders[m]) == Tags[k] + ReplaceAll(rest, Tags[m], Placeholders[m])
  {
    TableShape();
    TagNoOverlap(m, k, rest);
    ReplaceAllSkip(Tags[k], rest, Tags[m], Placeholders[m]);
  }

  /** A prefix without `<` is copied unchanged. */
  lemma {:induction false} RelPrefix(t: string, z: string, from: nat, n: nat)
    requires Rel(t, z, from) && n <= |t|
    requires forall i :: 0 <= i < n ==> t[i] != '<'
    ensures n <= |z| && z[..n] == t[..n] && Rel(t[n..], z[n..], from)
    decreases n
  {
    if n == 0 {
      assert t[0..] == t && z[0..] == z;
    } else {
      RelPrefix(t[1..], z[1..], from, n - 1);
      assert t[1..][n - 1..] == t[n..] && z[1..][n - 1..] == z[n..];
      assert t[..n] == [t[0]] + t[1..][..n - 1];
      assert z[..n] == [z[0]] + z[1..][..n - 1];
    }
  }

  /** With no tag index left, the relation is equality. */
  lemma {:induction false} RelSix(t: string, z: string)
    requires Rel(t, z, 6)
    ensures t == z
    decreases |t|
  {
    if t != [] {
      RelSix(t[1..], z[1..]);
      assert t == [t[0]] + t[1..] && z == [z[0]] + z[1..];
    }
  }

  /** A placeholder in related text was copied from the protected text. */
  lemma RelAtPlaceholder(x: string, z: string, m: nat)
    requires Rel(x, z, 0) && m < 6 && Placeholders[m] <= x
    ensures Placeholders[m] <= z && Rel(x[|Placeholders[m]|..], z[|Placeholders[m]|..], 0)
  {
    PlaceholderShapes();
    var p := Placeholders[m];
    forall i | 0 <= i < |p| ensures x[i] != '<' {
      assert x[i] == p[i] && IsLower(p[i]);
    }
    RelPrefix(x, z, 0, |p|);
    assert x[..|p|] == p;
  }

  /** Related text that starts with `<` starts with a tag, whose placeholder starts `z`. */
  lemma RelAtTag(x: string, z: string, from: nat)
    requires Rel(x, z, from) && x != [] && x[0] == '<'
    ensures var k := FirstTag(x, 0);
            from <= k < 6 && x == Tags[k] + x[|Tags[k]|..] && z == Placeholders[k] + z[|Placeholders[k]|..]
            && Rel(x[|Tags[k]|..], z[|Placeholders[k]|..], from)
  {
  }

  /** One restore line keeps the relation to the protected text. */
  lemma {:induction false} RestoreLineRel(x: string, z: string, m: nat)
    requires Rel(x, z, 0) && m < 6
    ensures Rel(ReplaceAll(x, Placeholders[m], Tags[m]), z, 0)
    decreases |x|
  {
    var p, tg := Placeholders[m], Tags[m];
    if x == [] {
    } else if p <= x {
      RelAtPlaceholder(x, z, m);
      RestoreLineRel(x[|p|..], z[|p|..], m);
      var r := ReplaceAll(x[|p|..], p, tg);
      assert ReplaceAll(x, p, tg) == tg + r;
      RelTag(m, r, z[|p|..], 0);
      assert z == p + z[|p|..];
    } else if x[0] != '<' {
      RestoreLineRel(x[1..], z[1..], m);
      var r := ReplaceAll(x[1..], p, tg);
      assert ReplaceAll(x, p, tg) == [x[0]] + r;
      RelPrepend([x[0]], r, z[1..], 0);
      assert z == [x[0]] + z[1..];
    } else {
      RelAtTag(x, z, 0);
      var k := FirstTag(x, 0);
      var rest := x[|Tags[k]|..];
      PlaceholderShapes();
      PlaceholderSkipsTag(k, rest, p, tg);
      RestoreLineRel(rest, z[|Placeholders[k]|..], m);
      RelTag(k, ReplaceAll(rest, p, tg), z[|Placeholders[k]|..], 0);
    }
  }

  /** The restore lines, from line `from` on, keep the relation. */
  lemma {:induction false} RestoreRel(x: string, z: string, from: nat)
    requires Rel(x, z, 0) && from <= 6
    ensures Rel(ReplaceEach(x, RestoreSteps[from..]), z, 0)
    decreases 6 - from
  {
    TableShape();
    if from < 6 {
      var steps := RestoreSteps[from..];
      assert steps[0] == Replacement(Placeholders[from], Tags[from]);
      assert steps[1..] == RestoreSteps[from + 1..];
      RestoreLineRel(x, z, from);
      RestoreRel(ReplaceAll(x, Placeholders[from], Tags[from]), z, from + 1);
    }
  }

  /** Tags start with `<`; placeholders hold none. */
  lemma TagFront(k: nat)
    requires k < 6
    ensures Tags[k] != [] && Tags[k][0] == '<'
    ensures forall i :: 0 <= i < |Placeholders[k]| ==> Placeholders[k][i] != '<'
  {
    TableShape();
    forall i | 0 <= i < |Placeholders[k]| ensures Placeholders[k][i] != '<' {
      assert IsLower(Placeholders[k][i]);
    }
  }

  /** Protect line `m` copies a character other than `<`. */
  lemma ProtectLineCopy(y: string, z: string, m: nat)
    requires m < 6 && y != [] && y[0] != '<' && Rel(y, z, m)
    requires Rel(ReplaceAll(y[1..], Tags[m], Placeholders[m]), z[1..], m + 1)
    ensures Rel(ReplaceAll(y, Tags[m], Placeholders[m]), z, m + 1)
  {
    var tg, p := Tags[m], Placeholders[m];
    TagFront(m);
    assert !(tg <= y);
    var r := ReplaceAll(y[1..], tg, p);
    assert ReplaceAll(y, tg, p) == [y[0]] + r;
    RelPrepend([y[0]], r, z[1..], m + 1);
    assert z == [y[0]] + z[1..];
  }

  /** Protect line `m` turns tag `m` into its placeholder. */
  lemma ProtectLineSame(m: nat, rest: string, zr: string)
    requires m < 6 && Rel(ReplaceAll(rest, Tags[m], Placeholders[m]), zr, m + 1)
    ensures Rel(ReplaceAll(Tags[m] + rest, Tags[m], Placeholders[m]), Placeholders[m] + zr, m + 1)
  {
    var tg, p := Tags[m], Placeholders[m];
    TagFront(m);
    assert (tg + rest)[|tg|..] == rest;
    assert ReplaceAll(tg + rest, tg, p) == p + ReplaceAll(rest, tg, p);
    RelPrepend(p, ReplaceAll(rest, tg, p), zr, m + 1);
  }

  /** Protect line `m` steps over a tag of a later line. */
  lemma ProtectLineOther(m: nat, k: nat, rest: string, zr: string)
    requires m < k < 6 && Rel(ReplaceAll(rest, Tags[m], Placeholders[m]), zr, m + 1)
    ensures Rel(ReplaceAll(Tags[k] + rest, Tags[m], Placeholders[m]), Placeholders[k] + zr, m + 1)
  {
    ProtectSkipsTag(m, k, rest);
    RelTag(k, ReplaceAll(rest, Tags[m], Placeholders[m]), zr, m + 1);
  }


  /** Protect line `m` turns every tag `m` back into its placeholder. */
  lemma {:induction false} ProtectLineRel(y: string, z: string, m: nat)
    requires Rel(y, z, m) && m < 6
    ensures Rel(ReplaceAll(y, Tags[m], Placeholders[m]), z, m + 1)
    decreases |y|
  {
    if y == [] {
    } else if y[0] != '<' {
      ProtectLineRel(y[1..], z[1..], m);
      ProtectLineCopy(y, z, m);
    } else {
      RelAtTag(y, z, m);
      var k := FirstTag(y, 0);
      var rest, zr := y[|Tags[k]|..], z[|Placeholders[k]|..];
      ProtectLineRel(rest, zr, m);
      if k == m {
        ProtectLineSame(m, rest, zr);
      } else {
        ProtectLineOther(m, k, rest, zr);
      }
    }
  }

  /** The protect lines, from line `m` on, undo the restored tags. */
  lemma {:induction false} ProtectRel(y: string, z: string, m: nat)
    requires Rel(y, z, m) && m <= 6
    ensures ReplaceEach(y, ProtectSteps[m..]) == z
    decreases 6 - m
  {
    TableShape();
    if m == 6 {
      RelSix(y, z);
    } else {
      var steps := ProtectSteps[m..];
      assert steps[0] == Replacement(Tags[m], Placeholders[m]);
      assert steps[1..] == ProtectSteps[m + 1..];
      ProtectLineRel(y, z, m);
      ProtectRel(ReplaceAll(y, Tags[m], Placeholders[m]), z, m + 1);
    }
  }

  /** On text without `<`, the protect lines undo the restore lines. */
  lemma ProtectRestore(z: string)
    requires '<' !in z
    ensures Protect(Restore(z)) == z
  {
    RelPrepend(z, [], [], 0);
    assert z + [] == z;
    assert RestoreSteps[0..] == RestoreSteps && ProtectSteps[0..] == ProtectSteps;
    RestoreRel(z, z, 0);
    ProtectRel(Restore(z), z, 0);
  }

  /** Sanitizing sanitized content changes nothing. */
  lemma SanitizeIdempotent(s: string)
    ensures Sanitize(Sanitize(s)) == Sanitize(s)
  {
    var z := StripControlChars(Cleanup(Protect(s)));
    CleanText(s);
    ProtectRestore(z);
    AbsentByFirstChar(z, "<");
    ReplaceAllAbsent(z, "<", "(");
    AbsentByFirstChar(z, ">");
    ReplaceAllAbsent(z, ">", ")");
    AbsentByFirstChar(z, "&nbsp");
    ReplaceAllAbsent(z, "&nbsp", " ");
    AbsentByFirstChar(z, "&");
    ReplaceAllAbsent(z, "&", "");
    assert Cleanup(z) == z;
    StripIdentity(z);
  }

  // ---------------------------------------------------------------------------
  // Text the pass leaves alone, and what it does to plain text
  // ---------------------------------------------------------------------------

  /** Replace lines whose patterns do not occur change nothing. */
  lemma {:induction false} ReplaceEachAbsent(s: string, steps: seq<Replacement>)
    requires forall k :: 0 <= k < |steps| ==> !Contains(s, steps[k].pattern)
    ensures ReplaceEach(s, steps) == s
    decreases |steps|
  {
    if steps != [] {
      ReplaceAllAbsent(s, steps[0].pattern, steps[0].substitute);
      ReplaceEachAbsent(s, steps[1..]);
    }
  }

  /** Text free of tags, so that the protect lines change nothing. */
  lemma ProtectAbsent(s: string)
    requires forall k :: 0 <= k < 6 ==> !Contains(s, Tags[k])
    ensures Protect(s) == s
  {
    TableShape();
    ReplaceEachAbsent(s, ProtectSteps);
  }

  /** Text free of placeholders, so that the restore lines change nothing. */
  lemma RestoreAbsent(s: string)
    requires forall k :: 0 <= k < 6 ==> !Contains(s, Placeholders[k])
    ensures Restore(s) == s
  {
    TableShape();
    ReplaceEachAbsent(s, RestoreSteps);
  }

  /**
   * Text with no `<`, `>`, `&`, control character or placeholder word comes
   * out of the pass exactly as it went in.
   */
  lemma SanitizeIdentity(s: string)
    requires '<' !in s && '>' !in s && '&' !in s && NoControl(s)
    requires forall k :: 0 <= k < 6 ==> !Contains(s, Placeholders[k])
    ensures Sanitize(s) == s
  {
    TableShape();
    forall k | 0 <= k < 6 ensures !Contains(s, Tags[k]) {
      AbsentByFirstChar(s, Tags[k]);
    }
    ProtectAbsent(s);
    AbsentByFirstChar(s, "<");
    ReplaceAllAbsent(s, "<", "(");
    AbsentByFirstChar(s, ">");
    ReplaceAllAbsent(s, ">", ")");
    AbsentByFirstChar(s, "&nbsp");
    ReplaceAllAbsent(s, "&nbsp", " ");
    AbsentByFirstChar(s, "&");
    ReplaceAllAbsent(s, "&", "");
    StripIdentity(s);
    RestoreAbsent(s);
  }

  /**
   * A one-pass reading of the four cleanup lines: `&nbsp` gives a space, any
   * other `&` is dropped, `<` gives `(` and `>` gives `)`.
   */
  function FlattenMarkup(s: string): string
    decreases |s|
  {
    if s == [] then []
    else if "&nbsp" <= s then " " + FlattenMarkup(s[5..])
    else if s[0] == '&' then FlattenMarkup(s[1..])
    else if s[0] == '<' then "(" + FlattenMarkup(s[1..])
    else if s[0] == '>' then ")" + FlattenMarkup(s[1..])
    else [s[0]] + FlattenMarkup(s[1..])
  }

  /** The two angle-bracket lines together. */
  function Angles(s: string): string {
    MapChar(MapChar(s, '<', '('), '>', ')')
  }

  lemma {:induction false} FlattenAngles(s: string)
    ensures DeleteChar(ReplaceAll(Angles(s), "&nbsp", " "), '&') == FlattenMarkup(s)
    decreases |s|
  {
    var a := Angles(s);
    if s != [] {
      if "&nbsp" <= s {
        assert "&nbsp" <= a;
        assert a[5..] == Angles(s[5..]);
        FlattenAngles(s[5..]);
        DeleteCharAppend(" ", ReplaceAll(a[5..], "&nbsp", " "), '&');
      } else {
        assert !("&nbsp" <= a);
        assert a[1..] == Angles(s[1..]);
        FlattenAngles(s[1..]);
        DeleteCharAppend([a[0]], ReplaceAll(a[1..], "&nbsp", " "), '&');
      }
    }
  }

  /** The cleanup lines agree with the one-pass reading on every text. */
  lemma CleanupFlattens(s: string)
    ensures Cleanup(s) == FlattenMarkup(s)
  {
    ReplaceAllOneChar(s, '<', '(');
    ReplaceAllOneChar(MapChar(s, '<', '('), '>', ')');
    ReplaceAllDelete(ReplaceAll(Angles(s), "&nbsp", " "), '&');
    FlattenAngles(s);
  }

  /**
   * On text without tags or control characters, whose flattened form holds no
   * placeholder word, the whole pass is the one-pass flattening.
   */
  lemma SanitizePlainText(s: string)
    requires forall k :: 0 <= k < 6 ==> !Contains(s, Tags[k])
    requires NoControl(s)
    requires forall k :: 0 <= k < 6 ==> !Contains(FlattenMarkup(s), Placeholders[k])
    ensures Sanitize(s) == FlattenMarkup(s)
  {
    ProtectAbsent(s);
    CleanupFlattens(s);
    CleanupNoControl(s);
    StripIdentity(Cleanup(s));
    RestoreAbsent(FlattenMarkup(s));
    calc {
      Sanitize(s);
      Restore(StripControlChars(Cleanup(s)));
      Restore(FlattenMarkup(s));
    }
  }

  lemma CleanupNoControl(s: string)
    requires NoControl(s)
    ensures NoControl(Cleanup(s))
  {
    var c1 := ReplaceAll(s, "<", "(");
    ReplaceAllNoControl(s, "<", "(");
    var c2 := ReplaceAll(c1, ">", ")");
    ReplaceAllNoControl(c1, ">", ")");
    var c3 := ReplaceAll(c2, "&nbsp", " ");
    ReplaceAllNoControl(c2, "&nbsp", " ");
    ReplaceAllNoControl(c3, "&", "");
  }

  /** Flattening text free of markup characters changes nothing. */
  lemma {:induction false} FlattenIdentity(s: string)
    requires '<' !in s && '>' !in s && '&' !in s
    ensures FlattenMarkup(s) == s
    decreases |s|
  {
    if s != [] {
      assert s[0] in s;
      FlattenIdentity(s[1..]);
    }
  }

  /** Flattening splits after a prefix without `&` (no `&nbsp` can straddle the cut). */
  lemma {:induction false} FlattenAppend(a: string, b: string)
    requires '&' !in a
    ensures FlattenMarkup(a + b) == FlattenMarkup(a) + FlattenMarkup(b)
    decreases |a|
  {
    if a == [] {
      assert a + b == b;
    } else {
      assert a[0] in a;
      assert (a + b)[0] == a[0];
      assert (a + b)[1..] == a[1..] + b;
      FlattenAppend(a[1..], b);
    }
  }

  /** An `&nbsp` cannot start in a short prefix and end in a part that cannot complete it. */
  lemma NbspNotAcross(a: string, b: string)
    requires 0 < |a| < 5 && (b == [] || b[0] !in "nbsp")
    ensures !("&nbsp" <= a + b)
  {
    var s := a + b;
    if |s| >= 5 {
      assert s[|a|] == b[0];
      assert "&nbsp"[|a|] in "nbsp";
    }
  }

  /** Flattening splits wherever the second part cannot complete an `&nbsp`. */
  lemma {:induction false} FlattenAppendAt(a: string, b: string)
    requires b == [] || b[0] !in "nbsp"
    ensures FlattenMarkup(a + b) == FlattenMarkup(a) + FlattenMarkup(b)
    decreases |a|
  {
    var s := a + b;
    if a == [] {
      assert s == b;
    } else if |a| < 5 || !("&nbsp" <= s) {
      if |a| < 5 {
        NbspNotAcross(a, b);
      }
      assert s[0] == a[0];
      assert s[1..] == a[1..] + b;
      FlattenAppendAt(a[1..], b);
    } else {
      assert "&nbsp" <= a;
      assert s[5..] == a[5..] + b;
      FlattenAppendAt(a[5..], b);
    }
  }

  // ---------------------------------------------------------------------------
  // Worked cases
  // ---------------------------------------------------------------------------

  /** A stray pair of angle brackets in a post becomes a pair of parentheses. */
  lemma ExampleAngleBrackets()
    ensures Sanitize("Hello <world>") == "Hello (world)"
  {
    forall k | 0 <= k < 6 ensures !Contains("Hello <world>", Tags[k]) {
      HelloHasNoTag(k);
    }
    HelloFlattened();
    forall k | 0 <= k < 6 ensures !Contains("Hello (world)", Placeholders[k]) {
      AbsentByLength("Hello (world)", Placeholders[k]);
    }
    SanitizePlainText("Hello <world>");
  }

  lemma HelloHasNoTag(k: nat)
    requires k < 6
    ensures !Contains("Hello <world>", Tags[k])
  {
    var t := Tags[k];
    assert |t| >= 2 && t[0] == '<' && t[1] != 'w' by {
      TableShape();
      assert t[1] in "/Bpd";
    }
    if Contains("Hello " + ['<'] + "world>", t) {
      OccursAtOnlyStart("Hello ", '<', "world>", t);
    }
    assert "Hello <world>" == "Hello " + ['<'] + "world>";
  }

  lemma HelloFlattened()
    ensures FlattenMarkup("Hello <world>") == "Hello (world)"
  {
    FlattenIdentity("Hello ");
    assert "Hello <world>" == "Hello " + "<world>";
    FlattenAppend("Hello ", "<world>");
    WorldFlattened();
  }

  lemma WorldFlattened()
    ensures FlattenMarkup("<world>") == "(world)"
  {
    FlattenIdentity("world");
    assert "<world>"[1..] == "world" + ">";
    FlattenAppend("world", ">");
    assert ">"[1..] == [];
  }

  /** A lone `&` is deleted, not decoded: both surrounding spaces stay. */
  lemma ExampleAmpersand()
    ensures Sanitize("A & B") == "A  B"
  {
    var s := "A & B";
    TableShape();
    forall k | 0 <= k < 6 ensures !Contains(s, Tags[k]) {
      AbsentByFirstChar(s, Tags[k]);
    }
    FlattenAppend("A ", "& B");
    FlattenIdentity("A ");
    FlattenIdentity(" B");
    assert s == "A " + "& B";
    assert "& B"[1..] == " B";
    assert FlattenMarkup(s) == "A  B";
    forall k | 0 <= k < 6 ensures !Contains("A  B", Placeholders[k]) {
      AbsentByLength("A  B", Placeholders[k]);
    }
    SanitizePlainText(s);
  }

  /** A placeholder word restored at the first restore line becomes `<Blog>`. */
  lemma RestoreFirstPlaceholder()
    ensures Restore(Placeholders[0]) == Tags[0]
  {
    TableShape();
    var p := Placeholders[0];
    assert p <= p && p[|p|..] == [];
    assert ReplaceAll(p, p, Tags[0]) == Tags[0];
    forall k | 1 <= k < 6 ensures !Contains(Tags[0], Placeholders[k]) {
      AbsentByLength(Tags[0], Placeholders[k]);
    }
    ReplaceEachAbsent(Tags[0], RestoreSteps[1..]);
  }

  /**
   * The placeholders are not a faithful escape: the placeholder word itself,
   * written in a post, comes out as the tag `<Blog>`.
   */
  lemma PlaceholderInTextBecomesTag()
    ensures Sanitize("awuiegsnuirjsaa") == "<Blog>"
  {
    var s := "awuiegsnuirjsaa";
    TableShape();
    assert s == Placeholders[0];
    assert '<' !in s && '>' !in s && '&' !in s;
    ProtectAbsent(s) by {
      forall k | 0 <= k < 6 ensures !Contains(s, Tags[k]) {
        AbsentByFirstChar(s, Tags[k]);
      }
    }
    CleanupFlattens(s);
    FlattenIdentity(s);
    StripIdentity(s);
    RestoreFirstPlaceholder();
  }

  /**
   * Nor is a placeholder word safe next to a tag: text ending in all but the
   * last letter of the first placeholder word is completed by the word that
   * hides `</date>`, so `</date>` is lost and a `<Blog>` appears in its place.
   */
  lemma ConcatenatedPlaceholderFormsTag(s: string)
    requires s == "awuiegsnuirjsa</date>"
    ensures Sanitize(s) == "<Blog>sdyboijwnisdjas"
  {
    var x := ProtectConcatenation(s);
    CleanupKeepsLowerText(x);
    RestoreConcatenation(x);
  }

  /** The protect lines see only the `</date>` at the end. */
  lemma ProtectConcatenation(s: string) returns (x: string)
    requires s == "awuiegsnuirjsa</date>"
    ensures Protect(s) == x && x == "awuiegsnuirjsa" + Placeholders[5]
    ensures forall i :: 0 <= i < |x| ==> IsLower(x[i])
  {
    var w := "awuiegsnuirjsa";
    assert s == w + Tags[5];
    forall k | 0 <= k < 5 ensures !Contains(s, Tags[k]) {
      OnlyClosingDate(s, k);
    }
    ProtectOnlyLast(s);
    LowerWord(w);
    TagAfterLowerText(w, 5);
    x := w + Placeholders[5];
    PlaceholderShapes();
  }

  lemma LowerWord(w: string)
    requires w == "awuiegsnuirjsa"
    ensures forall i :: 0 <= i < |w| ==> IsLower(w[i])
  {
  }

  /** Cleanup and the control-character filter leave lower-case text alone. */
  lemma CleanupKeepsLowerText(x: string)
    requires forall i :: 0 <= i < |x| ==> IsLower(x[i])
    ensures StripControlChars(Cleanup(x)) == x
  {
    LowerText(x);
    CleanupFlattens(x);
    FlattenIdentity(x);
    StripIdentity(x);
  }

  /** The restore lines join the two words into the first placeholder. */
  lemma RestoreConcatenation(x: string)
    requires x == "awuiegsnuirjsa" + Placeholders[5]
    ensures Restore(x) == "<Blog>sdyboijwnisdjas"
  {
    var y := "sdyboijwnisdjas";
    assert x == Placeholders[0] + y;
    AbsentBefore(y, Placeholders[0], 1);
    forall k | 1 <= k < 6 ensures !Contains(Tags[0] + y, Placeholders[k]) {
      LaterPlaceholdersAbsent(Tags[0] + y, k);
    }
    RestoreOnlyFirst(Placeholders[0], y);
    assert Tags[0] + y == "<Blog>sdyboijwnisdjas";
  }

  /** Lower-case text holds no markup and no control character. */
  lemma LowerText(s: string)
    requires forall i :: 0 <= i < |s| ==> IsLower(s[i])
    ensures '<' !in s && '>' !in s && '&' !in s && NoControl(s)
  {
  }

  /** When only the last tag can occur, only the last protect line acts. */
  lemma ProtectOnlyLast(s: string)
    requires forall k :: 0 <= k < 5 ==> !Contains(s, Tags[k])
    ensures Protect(s) == ReplaceAll(s, Tags[5], Placeholders[5])
  {
    StepTables();
    ReplaceEachSix(s, ProtectSteps);
    ReplaceAllAbsent(s, Tags[0], Placeholders[0]);
    ReplaceAllAbsent(s, Tags[1], Placeholders[1]);
    ReplaceAllAbsent(s, Tags[2], Placeholders[2]);
    ReplaceAllAbsent(s, Tags[3], Placeholders[3]);
    ReplaceAllAbsent(s, Tags[4], Placeholders[4]);
  }

  /** A tag after lower-case text is the only occurrence its protect line replaces. */
  lemma TagAfterLowerText(w: string, k: nat)
    requires k < 6 && forall i :: 0 <= i < |w| ==> IsLower(w[i])
    ensures ReplaceAll(w + Tags[k], Tags[k], Placeholders[k]) == w + Placeholders[k]
  {
    TagFront(k);
    var s := w + Tags[k];
    forall i | 0 <= i < |w| ensures !(Tags[k] <= s[i..]) {
      assert s[i..][0] == w[i];
    }
    ReplaceAllSkip(w, Tags[k], Tags[k], Placeholders[k]);
    ReplaceAllWhole(Tags[k], Placeholders[k]);
  }

  /** No tag but `</date>` occurs in the input. */
  lemma OnlyClosingDate(s: string, k: nat)
    requires s == "awuiegsnuirjsa</date>" && k < 5
    ensures !Contains(s, Tags[k])
  {
    TagsDiffer(k, 5);
    TagFront(k);
    forall i | 0 <= i <= |s| ensures !(Tags[k] <= s[i..]) {
      if i == 14 {
        assert s[14..] == Tags[5];
      } else if i < |s| {
        assert s[i] != '<' && s[i..][0] == s[i];
      }
    }
  }

  /**
   * When the first placeholder opens the text and no other placeholder occurs
   * once it is restored, only the first restore line acts.
   */
  lemma RestoreOnlyFirst(p: string, y: string)
    requires p == Placeholders[0] && !Contains(y, p)
    requires forall k :: 1 <= k < 6 ==> !Contains(Tags[0] + y, Placeholders[k])
    ensures Restore(p + y) == Tags[0] + y
  {
    StepTables();
    var x := p + y;
    assert p <= x && x[|p|..] == y;
    ReplaceAllAbsent(y, p, Tags[0]);
    assert ReplaceAll(x, p, Tags[0]) == Tags[0] + y;
    ReplaceEachAbsent(Tags[0] + y, RestoreSteps[1..]);
  }

  lemma LaterPlaceholdersAbsent(z: string, k: nat)
    requires z == "<Blog>sdyboijwnisdjas" && 1 <= k < 6
    ensures !Contains(z, Placeholders[k])
  {
    assert z[..11] == "<Blog>sdybo";
    AbsentBefore(z, Placeholders[k], 11);
  }

  /**
   * Nor is deleting `&` neutral: it can join two halves of a placeholder word,
   * which then comes out as the tag `<Blog>`.
   */
  lemma DeletedAmpersandFormsTag()
    ensures Sanitize("awuiegsnuir&jsaa") == "<Blog>"
  {
    var s := "awuiegsnuir&jsaa";
    TableShape();
    ProtectAbsent(s) by {
      forall k | 0 <= k < 6 ensures !Contains(s, Tags[k]) {
        AbsentByFirstChar(s, Tags[k]);
      }
    }
    CleanupFlattens(s);
    AmpersandJoinFlattened();
    StripIdentity(Placeholders[0]);
    RestoreFirstPlaceholder();
  }

  lemma AmpersandJoinFlattened()
    ensures FlattenMarkup("awuiegsnuir&jsaa") == Placeholders[0]
  {
    assert "awuiegsnuir&jsaa" == "awuiegsnuir" + "&jsaa";
    FlattenAppend("awuiegsnuir", "&jsaa");
    FlattenIdentity("awuiegsnuir");
    LoneAmpersandDropped();
    assert "awuiegsnuir" + "jsaa" == Placeholders[0];
  }

  lemma LoneAmpersandDropped()
    ensures FlattenMarkup("&jsaa") == "jsaa"
  {
    FlattenIdentity("jsaa");
    assert !("&nbsp" <= "&jsaa") by {
      assert "&jsaa"[1] != "&nbsp"[1];
    }
    assert "&jsaa"[1..] == "jsaa";
  }
}
