/**
 * The two string operations the catalog filter relies on: Python's `str.lower()`
 * restricted to ASCII, and the substring test of Python's `in` on strings.
 */
module Text {

  predicate IsUpper(c: char) {
    'A' <= c <= 'Z'
  }

  predicate HasNoUpper(s: string) {
    forall i :: 0 <= i < |s| ==> !IsUpper(s[i])
  }

  /** ASCII lowering of one character. */
  function LowerChar(c: char): (r: char)
    ensures !IsUpper(r)
    ensures IsUpper(c) ==> 'a' <= r <= 'z' && r as int - 'a' as int == c as int - 'A' as int
    ensures !IsUpper(c) ==> r == c
  {
    if IsUpper(c) then (c as int - 'A' as int + 'a' as int) as char else c
  }

  /** `s.lower()`, character by character, on ASCII letters only. */
  function Lower(s: string): (r: string)
    ensures |r| == |s|
    ensures forall i :: 0 <= i < |s| ==> r[i] == LowerChar(s[i])
    ensures HasNoUpper(r)
    ensures HasNoUpper(s) ==> r == s
  {
    seq(|s|, i requires 0 <= i < |s| => LowerChar(s[i]))
  }

  /** `sub` occurs in `s` starting at index `i`. */
  ghost predicate OccursAt(sub: string, s: string, i: int) {
    0 <= i && i + |sub| <= |s| && s[i..i + |sub|] == sub
  }

  /** The meaning of Python's `sub in s` for strings. */
  ghost predicate IsSubstring(sub: string, s: string) {
    exists i :: OccursAt(sub, s, i)
  }

  /** The executable substring test: try every start position from left to right. */
  function Contains(sub: string, s: string): bool
    decreases |s|
  {
    if |sub| > |s| then false
    else if s[..|sub|] == sub then true
    else Contains(sub, s[1..])
  }

  /** Dropping the first character shifts every occurrence one position to the left. */
  lemma OccursInTail(sub: string, s: string, i: nat)
    requires |s| >= 1
    ensures OccursAt(sub, s[1..], i) <==> OccursAt(sub, s, i + 1)
  {
    if i + |sub| <= |s| - 1 {
      assert s[1..][i..i + |sub|] == s[i + 1..i + 1 + |sub|];
    }
  }

  lemma {:induction false} ContainsIsSubstring(sub: string, s: string)
    ensures Contains(sub, s) <==> IsSubstring(sub, s)
    decreases |s|
  {
    if |sub| > |s| {
    } else if s[..|sub|] == sub {
      assert OccursAt(sub, s, 0);
    } else {
      ContainsIsSubstring(sub, s[1..]);
      if IsSubstring(sub, s[1..]) {
        var i :| OccursAt(sub, s[1..], i);
        OccursInTail(sub, s, i);
      }
      if IsSubstring(sub, s) {
        var i :| OccursAt(sub, s, i);
        assert i != 0;
        OccursInTail(sub, s, i - 1);
      }
    }
  }
}
