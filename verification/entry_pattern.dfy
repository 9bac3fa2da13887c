/**
 * The inventory entry pattern of `API.parse_object_inv` (cogs/api.py),
 *
 *     (.+?)\s+(\S*:\S*)\s+(-?\d+)\s+(\S+)\s+(.*)
 *
 * applied with `re.match` to an rstripped line. The model follows the
 * regular-expression engine's search order rather than a grammar:
 *
 *  - the name group is lazy, so the engine tries names of length 1, 2, ...
 *    and keeps the first for which the rest of the pattern matches; a name
 *    may therefore contain spaces, but never a newline (`.` excludes it);
 *  - for a fixed name, every `\s+` can only take the whole whitespace run
 *    (giving back a character leaves a space where the next group needs a
 *    non-space), and each of the three middle groups is a whole
 *    whitespace-delimited token: the directive a token holding a `:`, the
 *    priority a token of the form `-?\d+`, the location any token;
 *  - the display name is the rest of the line up to a newline.
 */
module EntryPattern {
  import opened Wrappers
  import opened Text

  /** The five groups of a matched entry line, as strings. */
  datatype Entry = Entry(name: string, directive: string, priority: string, location: string, dispname: string)

  /**
   * The end of the whitespace run of `s` that starts at `p`; the run itself
   * is described by `SkipSpaceSpec`, kept out of the contract so that the
   * search over name lengths does not drag it along.
   */
  function SkipSpace(s: string, p: nat): (r: nat)
    requires p <= |s|
    ensures p <= r <= |s|
    decreases |s| - p
  {
    if p < |s| && IsSpace(s[p]) then SkipSpace(s, p + 1) else p
  }

  /** The end of the non-whitespace token of `s` that starts at `p` (see `SkipTokenSpec`). */
  function SkipToken(s: string, p: nat): (r: nat)
    requires p <= |s|
    ensures p <= r <= |s|
    decreases |s| - p
  {
    if p < |s| && !IsSpace(s[p]) then SkipToken(s, p + 1) else p
  }

  /** Where `.*` started at `p` stops: the first newline at or after `p`, or the end (see `LineEndSpec`). */
  function LineEnd(s: string, p: nat): (r: nat)
    requires p <= |s|
    ensures p <= r <= |s|
    decreases |s| - p
  {
    if p < |s| && s[p] != NL then LineEnd(s, p + 1) else p
  }

  /** `SkipSpace` stops at the first non-whitespace character. */
  lemma {:induction false} SkipSpaceSpec(s: string, p: nat)
    requires p <= |s|
    ensures forall k :: p <= k < SkipSpace(s, p) ==> IsSpace(s[k])
    ensures SkipSpace(s, p) == |s| || !IsSpace(s[SkipSpace(s, p)])
    decreases |s| - p
  {
    if p < |s| && IsSpace(s[p]) {
      SkipSpaceSpec(s, p + 1);
    }
  }

  /** `SkipToken` stops at the first whitespace character. */
  lemma {:induction false} SkipTokenSpec(s: string, p: nat)
    requires p <= |s|
    ensures forall k :: p <= k < SkipToken(s, p) ==> !IsSpace(s[k])
    ensures SkipToken(s, p) == |s| || IsSpace(s[SkipToken(s, p)])
    decreases |s| - p
  {
    if p < |s| && !IsSpace(s[p]) {
      SkipTokenSpec(s, p + 1);
    }
  }

  /** `LineEnd` stops at the first newline. */
  lemma {:induction false} LineEndSpec(s: string, p: nat)
    requires p <= |s|
    ensures forall k :: p <= k < LineEnd(s, p) ==> s[k] != NL
    ensures LineEnd(s, p) == |s| || s[LineEnd(s, p)] == NL
    decreases |s| - p
  {
    if p < |s| && s[p] != NL {
      LineEndSpec(s, p + 1);
    }
  }

  /** The directive group `\S*:\S*` on the token `s[a..b]`: it holds a colon. */
  predicate ColonIn(s: string, a: nat, b: nat)
    requires a <= b <= |s|
  {
    exists k :: a <= k < b && s[k] == ':'
  }

  /** The priority group `-?\d+` on the token `s[a..b]`. */
  predicate PriorityIn(s: string, a: nat, b: nat)
    requires a <= b <= |s|
  {
    var start := if a < b && s[a] == '-' then a + 1 else a;
    start < b && forall k :: start <= k < b ==> IsDigit(s[k])
  }

  /**
   * The pattern with the name group fixed to `s[..i]`: the remaining
   * `\s+(\S*:\S*)\s+(-?\d+)\s+(\S+)\s+(.*)` matched from index `i`.
   */
  function FieldsAt(s: string, i: nat): (r: Option<Entry>)
    requires i <= |s|
    ensures r.Some? ==> r.value.name == s[..i]
  {
    var a := SkipSpace(s, i);
    var b := SkipToken(s, a);
    var c := SkipSpace(s, b);
    var d := SkipToken(s, c);
    var e := SkipSpace(s, d);
    var f := SkipToken(s, e);
    var g := SkipSpace(s, f);
    if i < a && ColonIn(s, a, b) && b < c && PriorityIn(s, c, d) && d < e && e < f && f < g
    then Some(Entry(s[..i], s[a..b], s[c..d], s[e..f], s[g..LineEnd(s, g)]))
    else None
  }

  /** The whole pattern matches `s` with a name of length `i`. */
  predicate MatchesAt(s: string, i: int) {
    1 <= i <= |s| && (forall k :: 0 <= k < i ==> s[k] != NL) && FieldsAt(s, i).Some?
  }

  /** The lazy search: try name lengths `i`, `i + 1`, ... until the rest matches. */
  function MatchFrom(s: string, i: nat): (r: Option<Entry>)
    requires 1 <= i <= |s|
    requires forall k :: 0 <= k < i ==> s[k] != NL
    ensures r.Some? ==>
      var n := |r.value.name|;
      i <= n && MatchesAt(s, n) && r == FieldsAt(s, n) &&
      forall k :: i <= k < n ==> !MatchesAt(s, k)
    ensures r.None? ==> forall k :: i <= k ==> !MatchesAt(s, k)
    decreases |s| - i
  {
    var here := FieldsAt(s, i);
    if here.Some? then here
    else if i < |s| && s[i] != NL then
      var r := MatchFrom(s, i + 1);
      FieldsFail(s, i, if r.Some? then |r.value.name| else |s| + 1);
      r
    else
      NewlineStops(s, i);
      None
  }

  /** A name length whose remaining groups fail joins a failing range above it. */
  lemma FieldsFail(s: string, i: nat, n: int)
    requires i <= |s| && FieldsAt(s, i).None?
    requires forall k :: i + 1 <= k < n ==> !MatchesAt(s, k)
    ensures forall k :: i <= k < n ==> !MatchesAt(s, k)
  {
  }

  /** A name cannot reach past a newline or the end of the line. */
  lemma NewlineStops(s: string, i: nat)
    requires i <= |s| && (i == |s| || s[i] == NL)
    ensures forall k :: i < k ==> !MatchesAt(s, k)
  {
  }

  /**
   * `entry_regex.match(line.rstrip())`: the groups of the match with the
   * shortest name, or `None` when no name length lets the pattern match.
   */
  function Match(line: string): (r: Option<Entry>)
    ensures r.Some? <==> exists i :: MatchesAt(RStrip(line), i)
    ensures r.Some? ==>
      var s, n := RStrip(line), |r.value.name|;
      MatchesAt(s, n) && r == FieldsAt(s, n) &&
      forall k :: 1 <= k < n ==> !MatchesAt(s, k)
  {
    var s := RStrip(line);
    if |s| == 0 || s[0] == NL then None
    else
      var r := MatchFrom(s, 1);
      if r.Some? then
        assert MatchesAt(s, |r.value.name|);
        r
      else r
  }

  /*
   * Where each scan stops, stated the other way round: any position that
   * ends the run is the one the scan finds.
   */

  lemma {:induction false} SkipSpaceAt(s: string, p: nat, q: nat)
    requires p <= q <= |s|
    requires forall k :: p <= k < q ==> IsSpace(s[k])
    requires q == |s| || !IsSpace(s[q])
    ensures SkipSpace(s, p) == q
    decreases q - p
  {
    if p < q {
      SkipSpaceAt(s, p + 1, q);
    }
  }

  lemma {:induction false} SkipTokenAt(s: string, p: nat, q: nat)
    requires p <= q <= |s|
    requires forall k :: p <= k < q ==> !IsSpace(s[k])
    requires q == |s| || IsSpace(s[q])
    ensures SkipToken(s, p) == q
    decreases q - p
  {
    if p < q {
      SkipTokenAt(s, p + 1, q);
    }
  }

  lemma {:induction false} LineEndAt(s: string, p: nat, q: nat)
    requires p <= q <= |s|
    requires forall k :: p <= k < q ==> s[k] != NL
    requires q == |s| || s[q] == NL
    ensures LineEnd(s, p) == q
    decreases q - p
  {
    if p < q {
      LineEndAt(s, p + 1, q);
    }
  }

  /**
   * For a fixed name the groups can be placed in one way only. Whatever
   * boundaries give whitespace, a directive, whitespace, a priority,
   * whitespace, a location and then whitespace are the ones the scans find:
   * a shorter `\s+` would leave whitespace where a group needs a visible
   * character, and a shorter token would leave a visible character where
   * `\s+` needs whitespace.
   */
  lemma SplitForced(s: string, i: nat, a: nat, b: nat, c: nat, d: nat, e: nat, f: nat)
    requires i < a <= b < c <= d < e < f < |s|
    requires forall k :: i <= k < a ==> IsSpace(s[k])
    requires (forall k :: a <= k < b ==> !IsSpace(s[k])) && ColonIn(s, a, b)
    requires forall k :: b <= k < c ==> IsSpace(s[k])
    requires PriorityIn(s, c, d)
    requires forall k :: d <= k < e ==> IsSpace(s[k])
    requires forall k :: e <= k < f ==> !IsSpace(s[k])
    requires IsSpace(s[f])
    ensures a == SkipSpace(s, i) && b == SkipToken(s, a) && c == SkipSpace(s, b)
    ensures d == SkipToken(s, c) && e == SkipSpace(s, d) && f == SkipToken(s, e)
    ensures var g := SkipSpace(s, f);
      FieldsAt(s, i) == Some(Entry(s[..i], s[a..b], s[c..d], s[e..f], s[g..LineEnd(s, g)]))
  {
    assert !IsSpace(s[a]);
    SkipSpaceAt(s, i, a);
    SkipTokenAt(s, a, b);
    PriorityVisible(s, c, d);
    SkipSpaceAt(s, b, c);
    SkipTokenAt(s, c, d);
    SkipSpaceAt(s, d, e);
    SkipTokenAt(s, e, f);
    assert f < SkipSpace(s, f);
  }

  /** A priority is made of visible characters. */
  lemma PriorityVisible(s: string, c: nat, d: nat)
    requires c <= d <= |s| && PriorityIn(s, c, d)
    ensures c < d && forall k :: c <= k < d ==> !IsSpace(s[k])
  {
  }

  /** A non-empty run of non-whitespace characters. */
  predicate Token(t: string) {
    |t| > 0 && forall k :: 0 <= k < |t| ==> !IsSpace(t[k])
  }

  /**
   * An entry Sphinx can write on one line: the name is non-empty and one
   * line, and may hold spaces (glossary terms such as `abstract base class`
   * do); the directive, priority and location are single tokens of the right
   * shape; the display name is one line that starts and ends with a visible
   * character (the line is rstripped before matching).
   */
  predicate Writable(e: Entry) {
    && |e.name| > 0 && NewlineFree(e.name)
    && Token(e.directive) && ColonIn(e.directive, 0, |e.directive|)
    && Token(e.priority) && PriorityIn(e.priority, 0, |e.priority|)
    && Token(e.location)
    && |e.dispname| > 0 && NewlineFree(e.dispname)
    && !IsSpace(e.dispname[0]) && !IsSpace(e.dispname[|e.dispname| - 1])
  }

  /**
   * The written line offers the lazy name group no earlier stop: with no
   * shorter name does the rest of the pattern match.
   */
  predicate NoEarlierSplit(e: Entry) {
    forall k :: 1 <= k < |e.name| ==> !MatchesAt(Format(e), k)
  }

  /** An entry Sphinx can write whose line the pattern splits at the entry's own name. */
  predicate ReadsBack(e: Entry) {
    Writable(e) && NoEarlierSplit(e)
  }

  /** The line Sphinx writes for an entry, without its newline. */
  function Format(e: Entry): string {
    e.name + " " + e.directive + " " + e.priority + " " + e.location + " " + e.dispname
  }

  /** Where each group of an entry sits in its formatted line. */
  lemma FormatLayout(e: Entry, a: nat, c: nat, p: nat, g: nat)
    requires a == |e.name| + 1 && c == a + |e.directive| + 1
    requires p == c + |e.priority| + 1 && g == p + |e.location| + 1
    ensures var s := Format(e);
      && |s| == g + |e.dispname|
      && s[a - 1] == ' ' && s[c - 1] == ' ' && s[p - 1] == ' ' && s[g - 1] == ' '
      && s[..a - 1] == e.name && s[a..c - 1] == e.directive && s[c..p - 1] == e.priority
      && s[p..g - 1] == e.location && s[g..] == e.dispname
  {
    var s := Format(e);
    var s1 := e.name + " " + e.directive;
    var s2 := s1 + " " + e.priority;
    var s3 := s2 + " " + e.location;
    assert s == s3 + " " + e.dispname;
    assert s[..g] == s3 + " " && s[g..] == e.dispname;
    assert s[..p] == s2 + " " && s[p..g - 1] == e.location;
    assert s[..c] == s1 + " " && s[c..p - 1] == e.priority;
    assert s[..a] == e.name + " " && s[a..c - 1] == e.directive;
  }

  /** The directive test reads the same on a token in place and on the token cut out. */
  lemma ColonInSlice(s: string, a: nat, b: nat)
    requires a <= b <= |s|
    ensures ColonIn(s, a, b) <==> ColonIn(s[a..b], 0, b - a)
  {
    var t := s[a..b];
    if ColonIn(s, a, b) {
      var k :| a <= k < b && s[k] == ':';
      assert t[k - a] == ':';
    }
    if ColonIn(t, 0, b - a) {
      var k :| 0 <= k < b - a && t[k] == ':';
      assert s[a + k] == ':';
    }
  }

  /** The priority test reads the same on a token in place and on the token cut out. */
  lemma PriorityInSlice(s: string, a: nat, b: nat)
    requires a <= b <= |s|
    ensures PriorityIn(s, a, b) <==> PriorityIn(s[a..b], 0, b - a)
  {
    var t := s[a..b];
    assert forall k :: a <= k < b ==> s[k] == t[k - a];
  }

  /** A token placed at `a` and followed by whitespace or the end is what `SkipToken` finds. */
  lemma TokenInPlace(s: string, a: nat, t: string)
    requires a + |t| <= |s| && s[a..a + |t|] == t && Token(t)
    requires a + |t| == |s| || IsSpace(s[a + |t|])
    ensures SkipToken(s, a) == a + |t|
  {
    assert forall k :: a <= k < a + |t| ==> s[k] == t[k - a];
    SkipTokenAt(s, a, a + |t|);
  }

  /** The groups laid out as `Format` lays them out, with single spaces between. */
  predicate LaidOut(s: string, e: Entry, a: nat, c: nat, p: nat, g: nat) {
    && a == |e.name| + 1 && c == a + |e.directive| + 1
    && p == c + |e.priority| + 1 && g == p + |e.location| + 1
    && |s| == g + |e.dispname|
    && s[a - 1] == ' ' && s[c - 1] == ' ' && s[p - 1] == ' ' && s[g - 1] == ' '
    && s[..a - 1] == e.name && s[a..c - 1] == e.directive && s[c..p - 1] == e.priority
    && s[p..g - 1] == e.location && s[g..] == e.dispname
  }

  /** A token at `q` between single spaces: the scans step over the space and the token. */
  lemma SpacedToken(s: string, q: nat, t: string)
    requires 1 <= q && q + |t| < |s| && Token(t)
    requires s[q - 1] == ' ' && s[q..q + |t|] == t && s[q + |t|] == ' '
    ensures SkipSpace(s, q - 1) == q && SkipToken(s, q) == q + |t|
  {
    assert s[q] == t[0];
    SkipSpaceAt(s, q - 1, q);
    TokenInPlace(s, q, t);
  }

  /** The display name after a single space runs to the end of the line. */
  lemma SpacedRest(s: string, g: nat, t: string)
    requires 1 <= g <= |s| && s[g - 1] == ' ' && s[g..] == t
    requires |t| > 0 && !IsSpace(t[0]) && NewlineFree(t)
    ensures SkipSpace(s, g - 1) == g && LineEnd(s, g) == |s|
  {
    assert s[g] == t[0];
    SkipSpaceAt(s, g - 1, g);
    assert forall k :: g <= k < |s| ==> s[k] == t[k - g];
    LineEndAt(s, g, |s|);
  }

  /** `FieldsAt` read off from where its scans stop. */
  lemma FieldsAtFrom(s: string, i: nat, a: nat, b: nat, c: nat, d: nat, e: nat, f: nat, g: nat)
    requires i <= |s| && a == SkipSpace(s, i) && b == SkipToken(s, a) && c == SkipSpace(s, b)
    requires d == SkipToken(s, c) && e == SkipSpace(s, d) && f == SkipToken(s, e) && g == SkipSpace(s, f)
    requires i < a && ColonIn(s, a, b) && b < c && PriorityIn(s, c, d) && d < e && e < f && f < g
    ensures FieldsAt(s, i) == Some(Entry(s[..i], s[a..b], s[c..d], s[e..f], s[g..LineEnd(s, g)]))
  {
  }

  lemma ScansOfLayout(s: string, e: Entry, a: nat, c: nat, p: nat, g: nat)
    requires Writable(e) && LaidOut(s, e, a, c, p, g)
    ensures SkipSpace(s, a - 1) == a && SkipToken(s, a) == c - 1
    ensures SkipSpace(s, c - 1) == c && SkipToken(s, c) == p - 1
    ensures SkipSpace(s, p - 1) == p && SkipToken(s, p) == g - 1
    ensures SkipSpace(s, g - 1) == g && LineEnd(s, g) == |s|
  {
    SpacedToken(s, a, e.directive);
    SpacedToken(s, c, e.priority);
    SpacedToken(s, p, e.location);
    SpacedRest(s, g, e.dispname);
  }

  lemma TestsOfLayout(s: string, e: Entry, a: nat, c: nat, p: nat, g: nat)
    requires Writable(e) && LaidOut(s, e, a, c, p, g)
    ensures ColonIn(s, a, c - 1) && PriorityIn(s, c, p - 1)
  {
    ColonInSlice(s, a, c - 1);
    PriorityInSlice(s, c, p - 1);
  }

  lemma FieldsOfLayout(s: string, e: Entry, a: nat, c: nat, p: nat, g: nat)
    requires Writable(e) && LaidOut(s, e, a, c, p, g)
    ensures FieldsAt(s, a - 1) == Some(e)
  {
    ScansOfLayout(s, e, a, c, p, g);
    TestsOfLayout(s, e, a, c, p, g);
    FieldsAtFrom(s, a - 1, a, c - 1, c, p - 1, p, g - 1, g);
    assert s[g..|s|] == s[g..];
  }

  /** With the name fixed to the entry's own, the rest of the pattern reads the entry back. */
  lemma FieldsOfFormat(e: Entry)
    requires Writable(e)
    ensures FieldsAt(Format(e), |e.name|) == Some(e)
  {
    var a := |e.name| + 1;
    var c := a + |e.directive| + 1;
    var p := c + |e.priority| + 1;
    var g := p + |e.location| + 1;
    FormatLayout(e, a, c, p, g);
    FieldsOfLayout(Format(e), e, a, c, p, g);
  }

  /** No shorter name works: the character after it is part of the name, not whitespace. */
  lemma NoShorterName(e: Entry)
    requires Writable(e) && Token(e.name)
    ensures NoEarlierSplit(e)
  {
    var s := Format(e);
    var a := |e.name| + 1;
    var c := a + |e.directive| + 1;
    var p := c + |e.priority| + 1;
    var g := p + |e.location| + 1;
    FormatLayout(e, a, c, p, g);
    forall k | 1 <= k < |e.name|
      ensures !MatchesAt(s, k)
    {
      assert s[k] == e.name[k];
      SkipSpaceAt(s, k, k);
    }
  }

  /** On a line that rstrip leaves alone, `Match` yields the groups at the shortest working name. */
  lemma MatchOfShortest(s: string, n: nat)
    requires RStrip(s) == s && MatchesAt(s, n)
    requires forall k :: 1 <= k < n ==> !MatchesAt(s, k)
    ensures Match(s) == FieldsAt(s, n)
  {
    var r := Match(s);
    assert r.Some?;
    var m := |r.value.name|;
    assert MatchesAt(s, m) && MatchesAt(s, n);
    assert m == n;
  }

  /** A laid-out line is a match with the entry's own name, and rstrip keeps it whole. */
  lemma MatchesAtLayout(s: string, e: Entry, a: nat, c: nat, p: nat, g: nat)
    requires Writable(e) && LaidOut(s, e, a, c, p, g)
    ensures MatchesAt(s, a - 1) && FieldsAt(s, a - 1) == Some(e)
    ensures RStrip(s) == s
  {
    FieldsOfLayout(s, e, a, c, p, g);
    assert forall k :: 0 <= k < a - 1 ==> s[k] == e.name[k];
    assert s[|s| - 1] == e.dispname[|e.dispname| - 1];
    RStripKeeps(s);
  }

  /** The formatted line is a match with the entry's own name. */
  lemma FormatMatchesAtName(e: Entry)
    requires Writable(e)
    ensures MatchesAt(Format(e), |e.name|) && FieldsAt(Format(e), |e.name|) == Some(e)
    ensures RStrip(Format(e)) == Format(e)
  {
    var a := |e.name| + 1;
    var c := a + |e.directive| + 1;
    var p := c + |e.priority| + 1;
    var g := p + |e.location| + 1;
    FormatLayout(e, a, c, p, g);
    MatchesAtLayout(Format(e), e, a, c, p, g);
  }

  /**
   * Round trip: a line Sphinx writes in the `name domain:role priority uri
   * dispname` form always matches, with a name no longer than the entry's,
   * and it reads back as exactly the entry if and only if no shorter name
   * lets the pattern match.
   */
  lemma MatchFormat(e: Entry)
    requires Writable(e)
    ensures Match(Format(e)).Some? && |Match(Format(e)).value.name| <= |e.name|
    ensures Match(Format(e)) == Some(e) <==> NoEarlierSplit(e)
  {
    var s := Format(e);
    FormatMatchesAtName(e);
    var r := Match(s);
    assert r.Some?;
    var n := |r.value.name|;
    assert MatchesAt(s, |e.name|);
    assert n <= |e.name|;
    if NoEarlierSplit(e) {
      assert n == |e.name|;
    }
  }

  /**
   * A name without a colon that ends in a visible character cannot be cut
   * short: at a space inside it, the next word is read as the directive,
   * and that word holds no colon.
   */
  lemma ColonFreeName(e: Entry)
    requires Writable(e) && !IsSpace(e.name[|e.name| - 1])
    requires forall k :: 0 <= k < |e.name| ==> e.name[k] != ':'
    ensures NoEarlierSplit(e)
  {
    var s := Format(e);
    var n := |e.name|;
    var a := n + 1;
    var c := a + |e.directive| + 1;
    var p := c + |e.priority| + 1;
    var g := p + |e.location| + 1;
    FormatLayout(e, a, c, p, g);
    forall k | 1 <= k < n
      ensures !MatchesAt(s, k)
    {
      CutInsideName(s, e.name, k);
    }
  }

  /** Cutting a colon-free name inside itself leaves a directive word without a colon. */
  lemma CutInsideName(s: string, name: string, k: nat)
    requires 1 <= k < |name| < |s| && s[..|name|] == name && s[|name|] == ' '
    requires !IsSpace(name[|name| - 1]) && forall j :: 0 <= j < |name| ==> name[j] != ':'
    ensures FieldsAt(s, k).None?
  {
    var n := |name|;
    assert forall j :: 0 <= j < n ==> s[j] == name[j];
    var a := SkipSpace(s, k);
    SkipSpaceSpec(s, k);
    if a == k {
    } else {
      assert a < n by {
        assert !IsSpace(s[n - 1]);
      }
      var b := SkipToken(s, a);
      SkipTokenSpec(s, a);
      assert b <= n by {
        assert IsSpace(s[n]);
      }
      assert !ColonIn(s, a, b);
    }
  }

  /** A glossary entry of Python's inventory: its name holds spaces. */
  function GlossaryTerm(): Entry {
    Entry("abstract base class", "std:term", "-1", "glossary.html#term-abstract-base-class", "-")
  }

  /** Two tokens side by side make one token. */
  lemma TokenConcat(a: string, b: string)
    requires Token(a) && Token(b)
    ensures Token(a + b)
  {
    assert forall k :: 0 <= k < |a + b| ==> (a + b)[k] == if k < |a| then a[k] else b[k - |a|];
  }

  /** Printable ASCII text without a space is a token. */
  lemma PrintableToken(t: string)
    requires |t| > 0 && forall k :: 0 <= k < |t| ==> '!' <= t[k] <= '~'
    ensures Token(t)
  {
  }

  /** The glossary entry's location is one token. */
  lemma GlossaryLocation()
    ensures Token(GlossaryTerm().location)
  {
    var p, q, r := "glossary.html", "#term-abstract", "-base-class";
    PrintableToken(p);
    PrintableToken(q);
    PrintableToken(r);
    TokenConcat(p, q);
    TokenConcat(p + q, r);
    assert GlossaryTerm().location == p + q + r;
  }

  /** The glossary entry's name is one colon-free line ending in a letter. */
  lemma GlossaryName()
    ensures var n := GlossaryTerm().name;
      && |n| > 0 && NewlineFree(n) && !IsSpace(n[|n| - 1])
      && forall k :: 0 <= k < |n| ==> n[k] != ':'
  {
    var n := GlossaryTerm().name;
    assert forall k :: 0 <= k < |n| ==> 'a' <= n[k] <= 'z' || n[k] == ' ';
  }

  /** The glossary entry is one Sphinx can write, with a colon-free name ending in a letter. */
  lemma GlossaryTermWritable()
    ensures var e := GlossaryTerm();
      && Writable(e) && !IsSpace(e.name[|e.name| - 1])
      && forall k :: 0 <= k < |e.name| ==> e.name[k] != ':'
  {
    var e := GlossaryTerm();
    GlossaryName();
    GlossaryLocation();
    assert e.directive[3] == ':';
    assert Token(e.directive) && Token(e.priority);
    assert PriorityIn(e.priority, 0, |e.priority|);
  }

  /** A name with spaces reads back: the glossary entry's line yields exactly that entry. */
  lemma GlossaryTermReadsBack()
    ensures Match(Format(GlossaryTerm())) == Some(GlossaryTerm())
  {
    GlossaryTermWritable();
    ColonFreeName(GlossaryTerm());
    MatchFormat(GlossaryTerm());
  }

  /**
   * A name whose second word holds a colon: Sphinx can write it, but the
   * line it writes already matches at the name's first space.
   */
  function SpacedColonName(): Entry {
    Entry("x y:z 1 u", "d:r", "1", "l", "-")
  }

  /** What the line written for `SpacedColonName` is read as. */
  function SpacedColonNameRead(): Entry {
    Entry("x", "y:z", "1", "u", "d:r 1 l -")
  }

  /** Printable ASCII text holds no newline. */
  lemma PrintableLine(t: string)
    requires forall k :: 0 <= k < |t| ==> ' ' <= t[k] <= '~'
    ensures NewlineFree(t)
  {
  }

  /** Both entries of the example are ones Sphinx can write. */
  lemma SpacedColonWritable()
    ensures Writable(SpacedColonName()) && Writable(SpacedColonNameRead())
  {
    var e, r := SpacedColonName(), SpacedColonNameRead();
    PrintableLine(e.name);
    PrintableLine(r.dispname);
    PrintableToken(e.directive);
    PrintableToken(r.directive);
    assert e.directive[1] == ':' && r.directive[1] == ':';
  }

  /** The two entries of the example are written as the same line. */
  lemma SpacedColonSameLine()
    ensures Format(SpacedColonName()) == Format(SpacedColonNameRead())
  {
    var x, y, o, u := "x", "y:z", "1", "u";
    var d, l, m := "d:r", "l", "-";
    assert SpacedColonName().name == x + " " + y + " " + o + " " + u;
    assert SpacedColonNameRead().dispname == d + " " + o + " " + l + " " + m;
  }

  /**
   * Why the round trip needs `NoEarlierSplit`: the line written for
   * `SpacedColonName` is read with the name `x`, and the rest of the
   * original name is taken for the directive, priority and location.
   */
  lemma SpacedColonNameMisread()
    ensures Writable(SpacedColonName()) && !NoEarlierSplit(SpacedColonName())
    ensures Match(Format(SpacedColonName())) == Some(SpacedColonNameRead())
  {
    SpacedColonWritable();
    SpacedColonSameLine();
    MatchFormat(SpacedColonNameRead());
    MatchFormat(SpacedColonName());
  }

  /**
   * What any match yields: a one-line name, a directive token holding a
   * colon, a `-?\d+` priority token, a location token and a one-line
   * display name.
   */
  predicate Shaped(e: Entry) {
    && |e.name| > 0 && NewlineFree(e.name)
    && Token(e.directive) && ColonIn(e.directive, 0, |e.directive|)
    && Token(e.priority) && PriorityIn(e.priority, 0, |e.priority|)
    && Token(e.location)
    && NewlineFree(e.dispname)
  }

  lemma TokenSlice(s: string, a: nat, b: nat)
    requires a < b <= |s|
    requires forall k :: a <= k < b ==> !IsSpace(s[k])
    ensures Token(s[a..b])
  {
    assert forall k :: 0 <= k < b - a ==> s[a..b][k] == s[a + k];
  }

  /** The groups `FieldsAt` cuts out have the shapes the pattern demands. */
  lemma FieldsShape(s: string, i: nat)
    requires i <= |s| && FieldsAt(s, i).Some?
    ensures var r := FieldsAt(s, i).value;
      && Token(r.directive) && ColonIn(r.directive, 0, |r.directive|)
      && Token(r.priority) && PriorityIn(r.priority, 0, |r.priority|)
      && Token(r.location) && NewlineFree(r.dispname)
  {
    var a := SkipSpace(s, i);
    var b := SkipToken(s, a);
    var c := SkipSpace(s, b);
    var d := SkipToken(s, c);
    var e := SkipSpace(s, d);
    var f := SkipToken(s, e);
    var g := SkipSpace(s, f);
    var h := LineEnd(s, g);
    SkipTokenSpec(s, a);
    SkipTokenSpec(s, c);
    SkipTokenSpec(s, e);
    LineEndSpec(s, g);
    TokenSlice(s, a, b);
    TokenSlice(s, c, d);
    TokenSlice(s, e, f);
    ColonInSlice(s, a, b);
    PriorityInSlice(s, c, d);
    assert forall k :: 0 <= k < h - g ==> s[g..h][k] == s[g + k];
  }

  /** Every entry `Match` returns is shaped as the pattern says. */
  lemma MatchShape(line: string)
    requires Match(line).Some?
    ensures Shaped(Match(line).value)
  {
    var s := RStrip(line);
    var r := Match(line).value;
    var n := |r.name|;
    FieldsShape(s, n);
    assert forall k :: 0 <= k < n ==> r.name[k] == s[k];
  }

  /** A token holds no newline, a newline being whitespace. */
  lemma TokenNewlineFree(t: string)
    requires Token(t)
    ensures NewlineFree(t)
  {
    assert IsSpace(NL);
  }

  /** The line Sphinx writes for an entry is one line. */
  lemma FormatNewlineFree(e: Entry)
    requires Writable(e)
    ensures NewlineFree(Format(e))
  {
    TokenNewlineFree(e.directive);
    TokenNewlineFree(e.priority);
    TokenNewlineFree(e.location);
    var sp := " ";
    assert NewlineFree(sp);
    var s1 := e.name + sp;
    NewlineFreeConcat(e.name, sp);
    NewlineFreeConcat(s1, e.directive);
    var s2 := s1 + e.directive + sp;
    NewlineFreeConcat(s1 + e.directive, sp);
    NewlineFreeConcat(s2, e.priority);
    var s3 := s2 + e.priority + sp;
    NewlineFreeConcat(s2 + e.priority, sp);
    NewlineFreeConcat(s3, e.location);
    var s4 := s3 + e.location + sp;
    NewlineFreeConcat(s3 + e.location, sp);
    NewlineFreeConcat(s4, e.dispname);
  }
}
