/**
 * The Python `str` operations the modelled code relies on, over `string`
 * (a sequence of Unicode scalar values).
 */
module Text {

  /** `str.isspace()`, which is also the `\s` class of a `re` pattern on `str`. */
  predicate IsSpace(c: char) {
    || c == ' '
    || '\t' <= c <= '\r'
    || '\U{1C}' <= c <= '\U{1F}'
    || c == '\U{85}' || c == '\U{A0}' || c == '\U{1680}'
    || '\U{2000}' <= c <= '\U{200A}'
    || c == '\U{2028}' || c == '\U{2029}' || c == '\U{202F}' || c == '\U{205F}' || c == '\U{3000}'
  }

  const NL: char := '\n'

  /** No newline anywhere in `s`. */
  predicate NewlineFree(s: string) {
    forall i :: 0 <= i < |s| ==> s[i] != NL
  }

  /** Two one-line strings make one line. */
  lemma NewlineFreeConcat(a: string, b: string)
    requires NewlineFree(a) && NewlineFree(b)
    ensures NewlineFree(a + b)
  {
    assert forall i :: 0 <= i < |a + b| ==> (a + b)[i] == if i < |a| then a[i] else b[i - |a|];
  }

  /** The ASCII digits, the class `[0-9]`. */
  predicate IsDigit(c: char) {
    '0' <= c <= '9'
  }

  predicate StartsWith(s: string, p: string) {
    |p| <= |s| && s[..|p|] == p
  }

  predicate EndsWith(s: string, p: string) {
    |p| <= |s| && s[|s| - |p|..] == p
  }

  /** `p` occurs in `s` starting at index `i`. */
  predicate OccursAt(s: string, p: string, i: int) {
    0 <= i && i + |p| <= |s| && s[i..i + |p|] == p
  }

  /** `str.find` for a single character: the first index holding `c`, or -1. */
  function FindChar(s: string, c: char): (r: int)
    ensures -1 <= r < |s|
    ensures r >= 0 ==> s[r] == c
    ensures forall i :: 0 <= i < |s| && (r == -1 || i < r) ==> s[i] != c
  {
    if |s| == 0 then -1
    else if s[0] == c then 0
    else
      var k := FindChar(s[1..], c);
      assert forall i :: 1 <= i < |s| ==> s[i] == s[1..][i - 1];
      if k < 0 then -1 else k + 1
  }

  /** `str.find` for a non-empty pattern: the first index at which `p` occurs, or -1. */
  function Find(s: string, p: string): (r: int)
    requires |p| > 0
    ensures r == -1 || OccursAt(s, p, r)
    ensures forall i :: 0 <= i && (r == -1 || i < r) ==> !OccursAt(s, p, i)
    decreases |s|
  {
    if |s| < |p| then -1
    else if s[..|p|] == p then 0
    else
      var k := Find(s[1..], p);
      assert forall i :: 1 <= i ==> (OccursAt(s, p, i) <==> OccursAt(s[1..], p, i - 1)) by {
        forall i | 1 <= i {
          OccursAtTail(s, p, i);
        }
      }
      assert !OccursAt(s, p, 0);
      if k < 0 then -1 else k + 1
  }

  /** An occurrence after the first character is an occurrence in the tail. */
  lemma OccursAtTail(s: string, p: string, i: int)
    requires |s| > 0 && 1 <= i
    ensures OccursAt(s, p, i) <==> OccursAt(s[1..], p, i - 1)
  {
    if i + |p| <= |s| {
      var here, there := s[i..i + |p|], s[1..][i - 1..i - 1 + |p|];
      forall k | 0 <= k < |p| ensures here[k] == there[k] {
        assert here[k] == s[i + k] && there[k] == s[1..][i - 1 + k];
      }
      assert here == there;
    }
  }

  lemma SeqAssoc<T>(a: seq<T>, b: seq<T>, c: seq<T>)
    ensures a + (b + c) == (a + b) + c
  {
  }

  /** Dropping one element and then `i` more is dropping `i + 1`. */
  lemma DropDrop<T>(s: seq<T>, i: nat)
    requires i < |s|
    ensures s[1..][i..] == s[i + 1..]
  {
  }

  /** `p in s` for a non-empty pattern. */
  predicate Contains(s: string, p: string)
    requires |p| > 0
  {
    Find(s, p) >= 0
  }

  /**
   * `s.replace(p, '')` as CPython computes it: find the next occurrence,
   * keep the text before it, skip the pattern, continue after it.
   */
  function RemoveAll(s: string, p: string): (r: string)
    requires |p| > 0
    ensures |r| <= |s|
    ensures !Contains(s, p) ==> r == s
    decreases |s|
  {
    var i := Find(s, p);
    if i < 0 then s else s[..i] + RemoveAll(s[i + |p|..], p)
  }

  /** Removing a pattern that occurs makes the text shorter. */
  lemma RemoveAllShortens(s: string, p: string)
    requires |p| > 0 && Contains(s, p)
    ensures |RemoveAll(s, p)| < |s|
  {
    var i := Find(s, p);
    assert |RemoveAll(s[i + |p|..], p)| <= |s| - i - |p|;
  }

  /**
   * A second, independent reading of `s.replace(p, '')`: scan left to right,
   * dropping a copy of `p` wherever one starts and keeping any other character.
   */
  function RemoveScan(s: string, p: string): string
    requires |p| > 0
    decreases |s|
  {
    if |s| == 0 then ""
    else if StartsWith(s, p) then RemoveScan(s[|p|..], p)
    else [s[0]] + RemoveScan(s[1..], p)
  }

  /** Scanning over a stretch in which `p` does not start copies it unchanged. */
  lemma {:induction false} RemoveScanSkips(s: string, p: string, j: nat)
    requires |p| > 0 && j <= |s|
    requires forall i :: 0 <= i < j ==> !OccursAt(s, p, i)
    ensures RemoveScan(s, p) == s[..j] + RemoveScan(s[j..], p)
    decreases j
  {
    if j > 0 {
      assert !OccursAt(s, p, 0);
      assert !StartsWith(s, p);
      forall i | 0 <= i < j - 1 ensures !OccursAt(s[1..], p, i) {
        OccursAtTail(s, p, i + 1);
      }
      var rest := RemoveScan(s[j..], p);
      RemoveScanSkips(s[1..], p, j - 1);
      assert s[1..][j - 1..] == s[j..];
      assert RemoveScan(s, p) == [s[0]] + (s[1..][..j - 1] + rest);
      SeqAssoc([s[0]], s[1..][..j - 1], rest);
      assert s[..j] == [s[0]] + s[1..][..j - 1];
    }
  }

  /** Both readings of `str.replace(p, '')` agree on every input. */
  lemma {:induction false} RemoveAllIsScan(s: string, p: string)
    requires |p| > 0
    ensures RemoveAll(s, p) == RemoveScan(s, p)
    decreases |s|
  {
    var i := Find(s, p);
    if i < 0 {
      RemoveScanSkips(s, p, |s|);
      assert s[|s|..] == "";
    } else {
      RemoveScanSkips(s, p, i);
      assert StartsWith(s[i..], p) by { assert s[i..][..|p|] == s[i..i + |p|]; }
      assert s[i..][|p|..] == s[i + |p|..];
      RemoveAllIsScan(s[i + |p|..], p);
    }
  }

  /**
   * `str.rstrip()` with no argument: drops the trailing whitespace.
   * The three clauses determine the result uniquely.
   */
  function RStrip(s: string): (r: string)
    ensures |r| <= |s| && r == s[..|r|]
    ensures |r| == 0 || !IsSpace(r[|r| - 1])
    ensures forall i :: |r| <= i < |s| ==> IsSpace(s[i])
  {
    if |s| > 0 && IsSpace(s[|s| - 1]) then RStrip(s[..|s| - 1]) else s
  }

  /** `rstrip` leaves a string that ends in a visible character unchanged. */
  lemma RStripKeeps(s: string)
    requires |s| == 0 || !IsSpace(s[|s| - 1])
    ensures RStrip(s) == s
  {
  }

  /** `str.lower()` restricted to ASCII letters. */
  function LowerChar(c: char): char {
    if 'A' <= c <= 'Z' then (c as int + 32) as char else c
  }

  function Lower(s: string): (r: string)
    ensures |r| == |s|
    ensures forall i :: 0 <= i < |s| ==> r[i] == LowerChar(s[i])
  {
    if |s| == 0 then "" else [LowerChar(s[0])] + Lower(s[1..])
  }
}
