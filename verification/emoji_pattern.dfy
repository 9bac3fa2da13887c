/**
 * `EMOJI_REGEX.findall(content)` for `EMOJI_REGEX = <:.+?:([0-9]{15,21})>`
 * (cogs/emoji.py): the custom-emoji ids a message mentions.
 *
 * The engine tries every start position from the left. At a start it reads
 * `<:`, then lets the lazy `.+?` grow one character at a time (never over a
 * newline) until a `:` follows that is itself followed by an id and `>`.
 * After a match the search resumes at its end, otherwise one position on.
 */
module EmojiPattern {
  import opened Wrappers
  import opened Text

  const MinDigits: nat := 15
  const MaxDigits: nat := 21

  /** What `([0-9]{15,21})` can capture. */
  predicate IsEmojiId(t: string) {
    MinDigits <= |t| <= MaxDigits && forall k :: 0 <= k < |t| ==> IsDigit(t[k])
  }

  /** The length of the run of ASCII digits that starts at `i`. */
  function DigitRun(s: string, i: nat): (n: nat)
    requires i <= |s|
    ensures i + n <= |s|
    ensures forall k :: i <= k < i + n ==> IsDigit(s[k])
    ensures i + n == |s| || !IsDigit(s[i + n])
    decreases |s| - i
  {
    if i < |s| && IsDigit(s[i]) then DigitRun(s, i + 1) + 1 else 0
  }

  /** `([0-9]{15,21})>` matches at `i` capturing `d` digits, for any count the quantifier admits. */
  predicate ClosesWith(s: string, i: nat, d: nat) {
    MinDigits <= d <= MaxDigits && i + d < |s|
    && (forall k :: i <= k < i + d ==> IsDigit(s[k]))
    && s[i + d] == '>'
  }

  /** The count the engine settles on: the whole digit run, when `>` follows it. */
  function IdLength(s: string, i: nat): (r: Option<nat>)
    requires i <= |s|
    ensures r.Some? ==> ClosesWith(s, i, r.value)
  {
    var n := DigitRun(s, i);
    if MinDigits <= n <= MaxDigits && i + n < |s| && s[i + n] == '>' then Some(n) else None
  }

  /**
   * Backtracking inside the greedy `{15,21}` finds nothing else: `>` can only
   * follow the complete digit run, so the capture is unique.
   */
  lemma IdLengthExact(s: string, i: nat, d: nat)
    requires i <= |s|
    ensures ClosesWith(s, i, d) <==> IdLength(s, i) == Some(d)
  {
    var n := DigitRun(s, i);
    if ClosesWith(s, i, d) {
      assert !IsDigit(s[i + d]);
      assert d == n;
    }
  }

  /** The first newline at or after `i`, or the end of the text. */
  function NextNewline(s: string, i: nat): (r: nat)
    requires i <= |s|
    ensures i <= r <= |s|
    ensures forall k :: i <= k < r ==> s[k] != NL
    ensures r == |s| || s[r] == NL
    decreases |s| - i
  {
    if i == |s| || s[i] == NL then i else NextNewline(s, i + 1)
  }

  /** A `:` at `j` after which the id and the closing `>` match. */
  predicate Candidate(s: string, j: nat) {
    j < |s| && s[j] == ':' && IdLength(s, j + 1).Some?
  }

  /** The lazy search for the closing colon: the first candidate in `j..limit`. */
  function CloseFrom(s: string, j: nat, limit: nat): (r: Option<nat>)
    requires limit <= |s|
    ensures r.Some? ==> j <= r.value <= limit && Candidate(s, r.value)
    ensures forall k :: j <= k <= limit && (r.None? || k < r.value) ==> !Candidate(s, k)
    decreases limit + 1 - j
  {
    if j > limit then None
    else if Candidate(s, j) then Some(j)
    else CloseFrom(s, j + 1, limit)
  }

  /**
   * The whole pattern matches at `p` with the lazy group ending at the colon
   * `j`: `<:` at `p`, at least one character and no newline before `j`.
   */
  predicate MatchesWith(s: string, p: nat, j: nat) {
    p + 2 <= |s| && s[p] == '<' && s[p + 1] == ':'
    && p + 3 <= j <= NextNewline(s, p + 2) && Candidate(s, j)
  }

  /** A match: the captured id and the position after the `>`. */
  datatype Hit = Hit(id: string, end: nat)

  /** The match whose closing colon is `j`. */
  function HitAt(s: string, j: nat): (h: Hit)
    requires Candidate(s, j)
    ensures IsEmojiId(h.id) && j + 1 < h.end <= |s| && s[h.end - 1] == '>'
  {
    var d := IdLength(s, j + 1).value;
    Hit(s[j + 1..j + 1 + d], j + 2 + d)
  }

  /** The engine's attempt at start position `p`. */
  function MatchAt(s: string, p: nat): (r: Option<Hit>)
    ensures r.Some? ==> IsEmojiId(r.value.id) && p < r.value.end <= |s|
  {
    if p + 2 <= |s| && s[p] == '<' && s[p + 1] == ':' then
      match CloseFrom(s, p + 3, NextNewline(s, p + 2))
      case None => None
      case Some(j) => Some(HitAt(s, j))
    else None
  }

  /**
   * The attempt at `p` fails exactly when no closing colon works, and
   * otherwise reports the match of the nearest one: `.+?` is lazy.
   */
  lemma MatchAtLeftmost(s: string, p: nat)
    ensures MatchAt(s, p).None? <==> forall j :: !MatchesWith(s, p, j)
    ensures MatchAt(s, p).Some? ==>
      exists j :: MatchesWith(s, p, j) && MatchAt(s, p).value == HitAt(s, j)
        && forall k :: k < j ==> !MatchesWith(s, p, k)
  {
    if p + 2 <= |s| && s[p] == '<' && s[p + 1] == ':' {
      var limit := NextNewline(s, p + 2);
      var c := CloseFrom(s, p + 3, limit);
      if c.Some? {
        assert MatchesWith(s, p, c.value);
      } else {
        assert forall j :: MatchesWith(s, p, j) ==> p + 3 <= j <= limit && Candidate(s, j);
      }
    }
  }

  /** `findall` from position `p`: the ids of the non-overlapping matches, left to right. */
  function FindAll(s: string, p: nat): (r: seq<string>)
    ensures forall i :: 0 <= i < |r| ==> IsEmojiId(r[i])
    decreases |s| - p
  {
    if p >= |s| then []
    else
      match MatchAt(s, p)
      case Some(h) => [h.id] + FindAll(s, h.end)
      case None => FindAll(s, p + 1)
  }

  /** `EMOJI_REGEX.findall(content)`. */
  function Ids(content: string): (r: seq<string>)
    ensures forall i :: 0 <= i < |r| ==> IsEmojiId(r[i])
  {
    FindAll(content, 0)
  }

  /** Text with no `<` mentions no emoji. */
  lemma {:induction false} NoOpeningNoIds(s: string, p: nat)
    requires forall k :: p <= k < |s| ==> s[k] != '<'
    ensures FindAll(s, p) == []
    decreases |s| - p
  {
    if p < |s| {
      assert MatchAt(s, p).None?;
      NoOpeningNoIds(s, p + 1);
    }
  }

  /** How Discord writes a custom emoji in a message. */
  function Mention(name: string, id: string): (r: string)
    ensures |r| == |name| + |id| + 4
  {
    "<:" + name + ":" + id + ">"
  }

  /** Where the parts of `Mention(name, id)` sit, as facts about positions. */
  predicate MentionLayout(s: string, name: string, id: string) {
    |s| == |name| + |id| + 4 && s[0] == '<' && s[1] == ':' && s[|name| + 2] == ':' && s[|s| - 1] == '>'
    && (forall k :: 2 <= k < |name| + 2 ==> s[k] == name[k - 2])
    && s[|name| + 3..|s| - 1] == id
  }

  lemma MentionLaidOut(name: string, id: string)
    ensures MentionLayout(Mention(name, id), name, id)
  {
    var s := Mention(name, id);
    assert s == "<:" + name + ":" + id + ">";
    assert s[|name| + 3..|s| - 1] == id;
  }

  /** The colon after the name is followed by the id and `>`. */
  lemma MentionCloses(s: string, name: string, id: string)
    requires MentionLayout(s, name, id) && IsEmojiId(id)
    ensures Candidate(s, |name| + 2) && HitAt(s, |name| + 2) == Hit(id, |s|)
  {
    var j := |name| + 2;
    assert forall k :: j + 1 <= k < j + 1 + |id| ==> s[k] == id[k - j - 1];
    IdLengthExact(s, j + 1, |id|);
  }

  /** The lazy group can reach the colon after the name and stops at no earlier position. */
  lemma MentionMatches(s: string, name: string, id: string)
    requires MentionLayout(s, name, id) && IsEmojiId(id)
    requires |name| > 0 && NewlineFree(name) && forall k :: 0 <= k < |name| ==> name[k] != ':'
    ensures FindAll(s, 0) == [id]
  {
    var j := |name| + 2;
    MentionCloses(s, name, id);
    var limit := NextNewline(s, 2);
    assert j <= limit;
    var c := CloseFrom(s, 3, limit);
    assert c.Some?;
    assert c.value == j by {
      assert s[c.value] == ':';
      assert !(c.value < j);
    }
    assert MatchAt(s, 0) == Some(Hit(id, |s|));
    assert FindAll(s, |s|) == [];
  }

  /**
   * A message that is one emoji mention yields exactly its id, provided the
   * name has no colon (which the lazy group could stop at) and no newline.
   */
  lemma MentionYieldsId(name: string, id: string)
    requires |name| > 0 && NewlineFree(name) && forall k :: 0 <= k < |name| ==> name[k] != ':'
    requires IsEmojiId(id)
    ensures Ids(Mention(name, id)) == [id]
  {
    var s := Mention(name, id);
    MentionLaidOut(name, id);
    MentionMatches(s, name, id);
  }
}
