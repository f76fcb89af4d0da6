/**
 * The Python string built-ins the preparation script relies on:
 * `str.replace` (replace every occurrence, left to right, non-overlapping),
 * `str.split` on one separator character, `int()` on a decimal field and
 * `str()` of an integer.
 */
module Text {
  import opened Wrappers

  // ---------------------------------------------------------------------------
  // str.replace
  // ---------------------------------------------------------------------------

  /** `p` occurs somewhere in `s`. */
  predicate Contains(s: string, p: string) {
    exists i | 0 <= i <= |s| :: p <= s[i..]
  }

  /**
   * Python's `s.replace(p, r)` for a non-empty pattern: scan from the left; at
   * each position where `p` starts, emit `r` and continue after that occurrence;
   * otherwise keep the character.
   */
  function ReplaceAll(s: string, p: string, r: string): string
    requires p != []
    decreases |s|
  {
    if s == [] then []
    else if p <= s then r + ReplaceAll(s[|p|..], p, r)
    else [s[0]] + ReplaceAll(s[1..], p, r)
  }

  /** Text without an occurrence of the pattern comes back unchanged. */
  lemma {:induction false} ReplaceAllAbsent(s: string, p: string, r: string)
    requires p != []
    requires !Contains(s, p)
    ensures ReplaceAll(s, p, r) == s
    decreases |s|
  {
    if s != [] {
      assert s[0..] == s;
      assert !Contains(s[1..], p) by {
        forall i | 0 <= i <= |s[1..]| ensures !(p <= s[1..][i..]) {
          assert s[1..][i..] == s[i + 1..];
        }
      }
      ReplaceAllAbsent(s[1..], p, r);
    }
  }

  /**
   * When no occurrence of the pattern starts inside the prefix `w`, the scan
   * copies `w` and carries on with the rest.
   */
  lemma {:induction false} ReplaceAllSkip(w: string, rest: string, p: string, r: string)
    requires p != []
    requires forall i :: 0 <= i < |w| ==> !(p <= (w + rest)[i..])
    ensures ReplaceAll(w + rest, p, r) == w + ReplaceAll(rest, p, r)
    decreases |w|
  {
    if w == [] {
      assert w + rest == rest;
    } else {
      assert (w + rest)[0..] == w + rest;
      assert (w + rest)[1..] == w[1..] + rest;
      forall i | 0 <= i < |w[1..]| ensures !(p <= (w[1..] + rest)[i..]) {
        assert (w[1..] + rest)[i..] == (w + rest)[i + 1..];
      }
      ReplaceAllSkip(w[1..], rest, p, r);
    }
  }

  /** An occurrence needs room: a pattern longer than the text does not occur in it. */
  lemma AbsentByLength(s: string, p: string)
    requires |s| < |p|
    ensures !Contains(s, p)
  {
  }

  /**
   * When the first character of the pattern occurs once only, every occurrence
   * of the pattern starts there.
   */
  lemma OccursAtOnlyStart(a: string, c: char, b: string, p: string)
    requires p != [] && p[0] == c && c !in a && c !in b
    requires Contains(a + [c] + b, p)
    ensures p <= [c] + b
  {
    var s := a + [c] + b;
    var i :| 0 <= i <= |s| && p <= s[i..];
    assert s[i] == c;
    assert s[|a|..] == [c] + b;
  }

  /** A pattern whose first character does not occur in `s` does not occur in `s`. */
  lemma AbsentByFirstChar(s: string, p: string)
    requires p != [] && p[0] !in s
    ensures !Contains(s, p)
  {
    forall i | 0 <= i <= |s| ensures !(p <= s[i..]) {
      if i < |s| {
        assert s[i] in s;
      }
    }
  }

  /** The pattern alone is replaced by the substitute. */
  lemma ReplaceAllWhole(p: string, r: string)
    requires p != []
    ensures ReplaceAll(p, p, r) == r
  {
    assert p[|p|..] == [];
    assert r + [] == r;
  }

  /**
   * A pattern whose first character does not occur among the first `n`
   * characters of `s`, and which is too long to start after them, does not
   * occur in `s`.
   */
  lemma AbsentBefore(s: string, p: string, n: nat)
    requires p != [] && n <= |s| && p[0] !in s[..n] && |s| < n + |p|
    ensures !Contains(s, p)
  {
    forall i | 0 <= i <= |s| ensures !(p <= s[i..]) {
      if i < n {
        assert s[i] == s[..n][i];
      }
    }
  }

  /** Every character of the result comes from the text or from the replacement. */
  lemma {:induction false} ReplaceAllChars(s: string, p: string, r: string)
    requires p != []
    ensures forall c :: c in ReplaceAll(s, p, r) ==> c in s || c in r
    decreases |s|
  {
    if s != [] {
      if p <= s {
        ReplaceAllChars(s[|p|..], p, r);
        forall c | c in s[|p|..] ensures c in s {
          var k :| 0 <= k < |s[|p|..]| && s[|p|..][k] == c;
          assert s[|p| + k] == c;
        }
      } else {
        ReplaceAllChars(s[1..], p, r);
        forall c | c in s[1..] ensures c in s {
          var k :| 0 <= k < |s[1..]| && s[1..][k] == c;
          assert s[k + 1] == c;
        }
      }
    }
  }

  /** Replacing a single character by text that does not contain it removes it everywhere. */
  lemma {:induction false} ReplaceAllRemovesChar(s: string, c: char, r: string)
    requires c !in r
    ensures c !in ReplaceAll(s, [c], r)
    decreases |s|
  {
    if s != [] {
      ReplaceAllRemovesChar(s[1..], c, r);
    }
  }

  /** A character absent from both the text and the replacement is absent from the result. */
  lemma ReplaceAllKeepsAbsent(s: string, p: string, r: string, c: char)
    requires p != [] && c !in s && c !in r
    ensures c !in ReplaceAll(s, p, r)
  {
    ReplaceAllChars(s, p, r);
  }

  /** `s` with every `a` turned into `b`, character by character. */
  function MapChar(s: string, a: char, b: char): (m: string)
    ensures |m| == |s|
    ensures forall i :: 0 <= i < |s| ==> m[i] == (if s[i] == a then b else s[i])
  {
    seq(|s|, i requires 0 <= i < |s| => if s[i] == a then b else s[i])
  }

  /** `s` with every `c` dropped, the rest in order. */
  function DeleteChar(s: string, c: char): (d: string)
    decreases |s|
  {
    if s == [] then [] else (if s[0] == c then [] else [s[0]]) + DeleteChar(s[1..], c)
  }

  /** Replacing one character by another is the pointwise map. */
  lemma {:induction false} ReplaceAllOneChar(s: string, a: char, b: char)
    ensures ReplaceAll(s, [a], [b]) == MapChar(s, a, b)
    decreases |s|
  {
    if s != [] {
      ReplaceAllOneChar(s[1..], a, b);
      assert [a] <= s <==> s[0] == a;
      assert MapChar(s, a, b) == [MapChar(s, a, b)[0]] + MapChar(s[1..], a, b);
    }
  }

  /** Replacing one character by nothing deletes it. */
  lemma {:induction false} ReplaceAllDelete(s: string, c: char)
    ensures ReplaceAll(s, [c], []) == DeleteChar(s, c)
    decreases |s|
  {
    if s != [] {
      ReplaceAllDelete(s[1..], c);
      assert [c] <= s <==> s[0] == c;
    }
  }

  /** DeleteChar distributes over concatenation. */
  lemma {:induction false} DeleteCharAppend(a: string, b: string, c: char)
    ensures DeleteChar(a + b, c) == DeleteChar(a, c) + DeleteChar(b, c)
    decreases |a|
  {
    if a == [] {
      assert a + b == b;
    } else {
      assert (a + b)[0] == a[0];
      assert (a + b)[1..] == a[1..] + b;
      DeleteCharAppend(a[1..], b, c);
    }
  }

  // ---------------------------------------------------------------------------
  // str.split and its inverse
  // ---------------------------------------------------------------------------

  /** Python's `s.split(sep)` for a one-character separator: never empty, pieces may be. */
  function Split(s: string, sep: char): (parts: seq<string>)
    ensures |parts| >= 1
    decreases |s|
  {
    if s == [] then [""]
    else
      var rest := Split(s[1..], sep);
      if s[0] == sep then [""] + rest else [[s[0]] + rest[0]] + rest[1..]
  }

  /** `sep.join(parts)`. */
  function Join(parts: seq<string>, sep: char): string
    requires |parts| >= 1
    decreases |parts|
  {
    if |parts| == 1 then parts[0] else parts[0] + [sep] + Join(parts[1..], sep)
  }

  /** No piece of a split contains the separator, and joining the pieces gives the text back. */
  lemma {:induction false} SplitJoin(s: string, sep: char)
    ensures forall k :: 0 <= k < |Split(s, sep)| ==> sep !in Split(s, sep)[k]
    ensures Join(Split(s, sep), sep) == s
    decreases |s|
  {
    if s != [] {
      SplitJoin(s[1..], sep);
      var rest := Split(s[1..], sep);
      if s[0] == sep {
        assert Split(s, sep)[1..] == rest;
      } else {
        var parts := Split(s, sep);
        assert parts[1..] == rest[1..];
        if |rest| > 1 {
          assert Join(rest, sep) == rest[0] + [sep] + Join(rest[1..], sep);
        }
      }
    }
  }

  /** Splitting text without the separator gives it back as the one piece. */
  lemma {:induction false} SplitPlain(w: string, sep: char)
    requires sep !in w
    ensures Split(w, sep) == [w]
    decreases |w|
  {
    if w != [] {
      SplitPlain(w[1..], sep);
      assert [w[0]] + w[1..] == w;
    }
  }

  /** A piece in front of a separator is split off as the first piece. */
  lemma {:induction false} SplitCons(w: string, sep: char, rest: string)
    requires sep !in w
    ensures Split(w + [sep] + rest, sep) == [w] + Split(rest, sep)
    decreases |w|
  {
    if w == [] {
      assert w + [sep] + rest == [sep] + rest;
      assert ([sep] + rest)[1..] == rest;
    } else {
      assert (w + [sep] + rest)[1..] == w[1..] + [sep] + rest;
      SplitCons(w[1..], sep, rest);
      assert [w[0]] + w[1..] == w;
    }
  }

  /** Splitting a join of separator-free pieces recovers the pieces. */
  lemma {:induction false} JoinSplit(parts: seq<string>, sep: char)
    requires |parts| >= 1
    requires forall k :: 0 <= k < |parts| ==> sep !in parts[k]
    ensures Split(Join(parts, sep), sep) == parts
    decreases |parts|
  {
    if |parts| == 1 {
      SplitPlain(parts[0], sep);
    } else {
      JoinSplit(parts[1..], sep);
      SplitCons(parts[0], sep, Join(parts[1..], sep));
    }
  }

  /** Joins of separator-free pieces are equal only for equal pieces. */
  lemma JoinInjective(ps: seq<string>, qs: seq<string>, sep: char)
    requires |ps| >= 1 && |qs| >= 1
    requires forall k :: 0 <= k < |ps| ==> sep !in ps[k]
    requires forall k :: 0 <= k < |qs| ==> sep !in qs[k]
    requires Join(ps, sep) == Join(qs, sep)
    ensures ps == qs
  {
    JoinSplit(ps, sep);
    JoinSplit(qs, sep);
  }

  // ---------------------------------------------------------------------------
  // int() and str() on decimal numerals
  // ---------------------------------------------------------------------------

  predicate IsDigit(c: char) {
    '0' <= c <= '9'
  }

  predicate AllDigits(s: string) {
    forall i :: 0 <= i < |s| ==> IsDigit(s[i])
  }

  /** The value of a string of decimal digits, most significant first. */
  function DigitsValue(s: string): nat
    requires AllDigits(s)
    decreases |s|
  {
    if s == [] then 0
    else DigitsValue(s[..|s| - 1]) * 10 + (s[|s| - 1] as int - '0' as int)
  }

  /** `str(n)` for a natural number: shortest decimal form, no sign. */
  function NatToString(n: nat): (s: string)
    ensures s != [] && AllDigits(s)
    decreases n
  {
    var d := ['0' + ((n % 10) as char)];
    if n < 10 then d else NatToString(n / 10) + d
  }

  /** `str(i)`: a minus sign in front of negative numbers. */
  function IntToString(i: int): (s: string)
    ensures s != []
  {
    if i < 0 then "-" + NatToString(-i) else NatToString(i)
  }

  /**
   * `int(s)` restricted to an optional sign and one or more ASCII digits; every
   * other text raises (None).
   */
  function ParseInt(s: string): Option<int> {
    if |s| >= 2 && (s[0] == '-' || s[0] == '+') && AllDigits(s[1..]) then
      var v: int := DigitsValue(s[1..]);
      Some(if s[0] == '-' then -v else v)
    else if s != [] && AllDigits(s) then
      Some(DigitsValue(s))
    else
      None
  }

  /** Reading back the decimal form of a natural number gives the number. */
  lemma {:induction false} NatToStringValue(n: nat)
    ensures DigitsValue(NatToString(n)) == n
    decreases n
  {
    var s := NatToString(n);
    if n >= 10 {
      NatToStringValue(n / 10);
      assert s[..|s| - 1] == NatToString(n / 10);
    }
  }

  /** `int(str(i)) == i`. */
  lemma IntRoundTrip(i: int)
    ensures ParseInt(IntToString(i)) == Some(i)
  {
    if i < 0 {
      NatToStringValue(-i);
      assert IntToString(i)[1..] == NatToString(-i);
    } else {
      NatToStringValue(i);
    }
  }

  /** Distinct numbers have distinct decimal forms. */
  lemma NatToStringInjective(m: nat, n: nat)
    requires NatToString(m) == NatToString(n)
    ensures m == n
  {
    NatToStringValue(m);
    NatToStringValue(n);
  }

  /** Distinct integers have distinct `str()` forms. */
  lemma IntToStringInjective(i: int, j: int)
    requires IntToString(i) == IntToString(j)
    ensures i == j
  {
    IntRoundTrip(i);
    IntRoundTrip(j);
  }

  /** `str()` of an integer is digits with possibly a leading minus sign: never a `/` or a `.`. */
  lemma IntToStringChars(i: int)
    ensures forall k :: 0 <= k < |IntToString(i)| ==> IntToString(i)[k] == '-' || IsDigit(IntToString(i)[k])
  {
  }
}
