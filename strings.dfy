/**
 The two string operations the completeness validator relies on: lower-casing
 a text (Python's `str.lower`, restricted here to ASCII letters) and testing
 whether one text occurs inside another (Python's `in` on strings).
 */
module Strings {

  predicate IsAsciiUpper(c: char) {
    'A' <= c <= 'Z'
  }

  /** The lower-case form of one character: ASCII capitals move down by 32, everything else stays. */
  function LowerChar(c: char): (r: char)
    ensures !IsAsciiUpper(r)
    ensures r == c <==> !IsAsciiUpper(c)
    ensures IsAsciiUpper(c) ==> r as int - c as int == 'a' as int - 'A' as int
  {
    if IsAsciiUpper(c) then (c as int + ('a' as int - 'A' as int)) as char else c
  }

  /** Lower-cases every character of `s`, keeping its length. */
  function Lower(s: string): (r: string)
    ensures |r| == |s|
    ensures forall i :: 0 <= i < |r| ==> !IsAsciiUpper(r[i])
    ensures forall i :: 0 <= i < |r| ==> (r[i] == s[i] <==> !IsAsciiUpper(s[i]))
    ensures forall i :: 0 <= i < |s| && IsAsciiUpper(s[i]) ==>
      r[i] as int == s[i] as int + ('a' as int - 'A' as int)
  {
    seq(|s|, i requires 0 <= i < |s| => LowerChar(s[i]))
  }

  /** `pattern` sits in `text` starting at index `i`: the reference meaning of "occurs". */
  ghost predicate OccursAt(text: string, pattern: string, i: int) {
    0 <= i && i + |pattern| <= |text| && text[i..i + |pattern|] == pattern
  }

  /** Substring test, `pattern in text`: scan the start positions from the left. */
  function Contains(text: string, pattern: string): (found: bool)
    ensures found ==> |pattern| <= |text|
    ensures pattern == [] ==> found
    decreases |text|
  {
    if |pattern| > |text| then false
    else if text[..|pattern|] == pattern then true
    else Contains(text[1..], pattern)
  }

  /** `Contains` agrees with the reference meaning: some start index holds the pattern. */
  lemma {:induction false} ContainsIffOccurs(text: string, pattern: string)
    ensures Contains(text, pattern) <==> exists i :: OccursAt(text, pattern, i)
    decreases |text|
  {
    if |pattern| > |text| {
      forall i ensures !OccursAt(text, pattern, i) { }
    } else if text[..|pattern|] == pattern {
      assert OccursAt(text, pattern, 0);
    } else {
      ContainsIffOccurs(text[1..], pattern);
      if Contains(text[1..], pattern) {
        var i :| OccursAt(text[1..], pattern, i);
        assert text[1..][i..i + |pattern|] == text[i + 1..i + 1 + |pattern|];
        assert OccursAt(text, pattern, i + 1);
      } else {
        forall i | OccursAt(text, pattern, i) ensures false {
          assert i != 0;
          assert text[1..][i - 1..i - 1 + |pattern|] == text[i..i + |pattern|];
          assert OccursAt(text[1..], pattern, i - 1);
        }
      }
    }
  }

  /** A text that holds the pattern still holds it with anything put before or after it. */
  lemma ContainsInContext(before: string, text: string, after: string, pattern: string)
    requires Contains(text, pattern)
    ensures Contains(before + text + after, pattern)
  {
    ContainsIffOccurs(text, pattern);
    var i :| OccursAt(text, pattern, i);
    var whole := before + text + after;
    assert whole[|before| + i..|before| + i + |pattern|] == text[i..i + |pattern|];
    assert OccursAt(whole, pattern, |before| + i);
    ContainsIffOccurs(whole, pattern);
  }

  /** Lower-casing works character by character, so it distributes over concatenation. */
  lemma LowerConcat(a: string, b: string)
    ensures Lower(a + b) == Lower(a) + Lower(b)
  {
    assert forall i :: 0 <= i < |a + b| ==> Lower(a + b)[i] == (Lower(a) + Lower(b))[i];
  }

  /**
   `a` and `b` agree character by character, except where one holds an ASCII
   capital and the other the matching small letter.
   */
  ghost predicate DifferOnlyInCase(a: string, b: string) {
    |a| == |b| &&
    forall i :: 0 <= i < |a| ==>
      || a[i] == b[i]
      || (IsAsciiUpper(a[i]) && b[i] as int == a[i] as int + ('a' as int - 'A' as int))
      || (IsAsciiUpper(b[i]) && a[i] as int == b[i] as int + ('a' as int - 'A' as int))
  }

  /** Texts that differ only in letter case have the same lower-cased form. */
  lemma LowerUpToCase(a: string, b: string)
    requires DifferOnlyInCase(a, b)
    ensures Lower(a) == Lower(b)
  {
    forall i | 0 <= i < |a| ensures Lower(a)[i] == Lower(b)[i] {
      if IsAsciiUpper(a[i]) && !IsAsciiUpper(b[i]) && a[i] != b[i] {
        assert b[i] as int == a[i] as int + ('a' as int - 'A' as int);
      }
    }
  }

  /** Lower-casing twice is lower-casing once. */
  lemma LowerIdempotent(s: string)
    ensures Lower(Lower(s)) == Lower(s)
  {
  }
}
