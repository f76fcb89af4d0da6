/**
 * `stripControlChars`: drop every character whose Unicode general category is
 * "Cc". That category is exactly U+0000..U+001F and U+007F..U+009F, so tab,
 * line feed and carriage return are dropped as well.
 */
module ControlChars {

  /** `unicodedata.category(c) == 'Cc'`. */
  predicate IsControl(c: char) {
    c as int <= 0x1F || (0x7F <= c as int <= 0x9F)
  }

  predicate NoControl(s: string) {
    forall i :: 0 <= i < |s| ==> !IsControl(s[i])
  }

  /** `r` can be obtained from `s` by deleting characters (order kept). */
  predicate IsSubsequence(r: string, s: string)
    decreases |s|
  {
    r == [] || (s != [] && ((r[0] == s[0] && IsSubsequence(r[1..], s[1..])) || IsSubsequence(r, s[1..])))
  }

  /** The generator-expression filter of the source. */
  function StripControlChars(s: string): (r: string)
    ensures |r| <= |s|
    ensures NoControl(r)
    ensures IsSubsequence(r, s)
    decreases |s|
  {
    if s == [] then []
    else if IsControl(s[0]) then StripControlChars(s[1..])
    else [s[0]] + StripControlChars(s[1..])
  }

  /** Exactly the non-control characters survive, each as often as in the input. */
  lemma {:induction false} StripCounts(s: string)
    ensures forall c :: multiset(StripControlChars(s))[c] == if IsControl(c) then 0 else multiset(s)[c]
    decreases |s|
  {
    if s != [] {
      StripCounts(s[1..]);
      assert s == [s[0]] + s[1..];
      assert multiset(s) == multiset{s[0]} + multiset(s[1..]);
      if !IsControl(s[0]) {
        var r := StripControlChars(s[1..]);
        assert multiset([s[0]] + r) == multiset{s[0]} + multiset(r);
      }
    }
  }

  /** Text without control characters passes through unchanged. */
  lemma {:induction false} StripIdentity(s: string)
    requires NoControl(s)
    ensures StripControlChars(s) == s
    decreases |s|
  {
    if s != [] {
      StripIdentity(s[1..]);
    }
  }

  /** The filter works character by character, so it distributes over concatenation. */
  lemma {:induction false} StripAppend(a: string, b: string)
    ensures StripControlChars(a + b) == StripControlChars(a) + StripControlChars(b)
    decreases |a|
  {
    if a == [] {
      assert a + b == b;
    } else {
      assert (a + b)[0] == a[0] && (a + b)[1..] == a[1..] + b;
      StripAppend(a[1..], b);
    }
  }

  /** Text made only of control characters is dropped entirely. */
  lemma {:induction false} StripOnlyControl(s: string)
    requires forall i :: 0 <= i < |s| ==> IsControl(s[i])
    ensures StripControlChars(s) == []
    decreases |s|
  {
    if s != [] {
      assert IsControl(s[0]);
      assert forall i :: 0 <= i < |s[1..]| ==> s[1..][i] == s[i + 1];
      StripOnlyControl(s[1..]);
    }
  }

  /** Every character of the result is a character of the input. */
  lemma {:induction false} StripChars(s: string)
    ensures forall c :: c in StripControlChars(s) ==> c in s
    decreases |s|
  {
    if s != [] {
      StripChars(s[1..]);
      forall c | c in s[1..] ensures c in s {
        var k :| 0 <= k < |s[1..]| && s[1..][k] == c;
        assert s[k + 1] == c;
      }
    }
  }
}
