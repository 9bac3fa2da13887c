/**
 * The query handling of `API.do_rtfm` (cogs/api.py) before the fuzzy
 * search: a leading `discord.` / `discord.ext.` / `commands.` qualifier is
 * stripped, and for the `latest` documentation a bare `Messageable` member
 * name is redirected to `abc.Messageable.<name>`. Also `API.library_name`,
 * which turns a channel name into a library name.
 *
 * The member names of `discord.abc.Messageable` are a parameter here; the
 * source reads them from the live class.
 */
module Query {
  import opened Wrappers
  import opened Text

  /**
   * The qualifiers `^(?:discord\.(?:ext\.)?)?(?:commands\.)?` can consume,
   * in the order the regular-expression engine tries them: each optional
   * group first tries to match and only then to be skipped.
   */
  const Qualifiers: seq<string> := ["discord.ext.commands.", "discord.ext.", "discord.commands.", "discord.", "commands.", ""]

  /** `q` can be the qualifier: it starts `h` and leaves the `(.+)` group something to match. */
  predicate Strippable(h: string, q: string) {
    StartsWith(h, q) && |q| < |h|
  }

  /** A prefix fixes the characters it covers. */
  lemma StartsWithAt(h: string, p: string, i: nat)
    requires StartsWith(h, p) && i < |p|
    ensures h[i] == p[i]
  {
    assert h[..|p|][i] == h[i];
  }

  /**
   * The qualifier the pattern strips from a one-line query: the first
   * candidate, in the engine's order, that starts the query and leaves
   * something after it.
   */
  function Qualifier(h: string): (q: string)
    ensures q == "" || (q in Qualifiers && Strippable(h, q))
  {
    if Strippable(h, "discord.ext.commands.") then "discord.ext.commands."
    else if Strippable(h, "discord.ext.") then "discord.ext."
    else if Strippable(h, "discord.commands.") then "discord.commands."
    else if Strippable(h, "discord.") then "discord."
    else if Strippable(h, "commands.") then "commands."
    else ""
  }

  /**
   * The engine's choice is the longest candidate that leaves a non-empty
   * remainder: within each chain of nested qualifiers the longer is tried
   * first, and qualifiers from different chains cannot both start a query.
   */
  lemma QualifierIsLongest(h: string, q: string)
    requires q in Qualifiers && Strippable(h, q)
    ensures |q| <= |Qualifier(h)|
  {
    var c := Qualifier(h);
    if Strippable(h, "discord.ext.commands.") {
      assert c == "discord.ext.commands.";
    } else if Strippable(h, "discord.ext.") {
      assert c == "discord.ext.";
      if q == "discord.commands." {
        StartsWithAt(h, "discord.ext.", 8);
        StartsWithAt(h, "discord.commands.", 8);
      }
    } else if Strippable(h, "discord.commands.") {
      assert c == "discord.commands.";
    } else if Strippable(h, "discord.") {
      assert c == "discord.";
      if q == "commands." {
        StartsWithAt(h, "discord.", 0);
        StartsWithAt(h, "commands.", 0);
      }
    } else {
      assert c == (if Strippable(h, "commands.") then "commands." else "");
    }
  }

  /** What the substitution does to the first line: the qualifier is dropped, the rest kept. */
  function StripQualifier(h: string): (r: string)
    ensures |r| <= |h| && h == Qualifier(h) + r
    ensures |h| > 0 ==> |r| > 0
  {
    var q := Qualifier(h);
    assert h == h[..|q|] + h[|q|..];
    h[|q|..]
  }

  /**
   * `re.sub(r'^(?:discord\.(?:ext\.)?)?(?:commands\.)?(.+)', r'\1', obj)`:
   * the match can only start at the front and `.` stops at a newline, so
   * only the text before the first newline loses its qualifier.
   */
  function RewriteQuery(obj: string): (r: string)
    ensures NewlineFree(obj) ==> r == StripQualifier(obj)
    ensures |r| <= |obj|
  {
    var k := FindChar(obj, NL);
    if k < 0 then StripQualifier(obj)
    else StripQualifier(obj[..k]) + obj[k..]
  }

  /** A query that does not start with `d` can only lose a `commands.` qualifier. */
  lemma QualifierNotDiscord(h: string)
    requires |h| > 0 && h[0] != 'd'
    ensures Qualifier(h) == if Strippable(h, "commands.") then "commands." else ""
  {
    if StartsWith(h, "discord.") { StartsWithAt(h, "discord.", 0); }
    if StartsWith(h, "discord.ext.") { StartsWithAt(h, "discord.ext.", 0); }
    if StartsWith(h, "discord.commands.") { StartsWithAt(h, "discord.commands.", 0); }
    if StartsWith(h, "discord.ext.commands.") { StartsWithAt(h, "discord.ext.commands.", 0); }
  }

  /** A fully qualified extension name loses its whole qualifier. */
  lemma RewriteNestedExample()
    ensures RewriteQuery("discord.ext.commands.Bot") == "Bot"
  {
    assert NewlineFree("discord.ext.commands.Bot");
    assert StripQualifier("discord.ext.commands.Bot") == "Bot";
  }

  /** A bare qualifier keeps its last part: the `(.+)` group must match something. */
  lemma RewriteBareExample()
    ensures RewriteQuery("discord.ext.") == "ext."
  {
    assert NewlineFree("discord.ext.");
    assert StripQualifier("discord.ext.") == "ext.";
  }

  /** `commands.` alone is a qualifier too. */
  lemma RewriteCommandsExample()
    ensures RewriteQuery("commands.Cog") == "Cog"
  {
    assert NewlineFree("commands.Cog");
    QualifierNotDiscord("commands.Cog");
    assert StartsWith("commands.Cog", "commands.");
  }

  /** An unqualified name is kept. */
  lemma RewritePlainExample()
    ensures RewriteQuery("Client") == "Client"
  {
    assert NewlineFree("Client");
    QualifierNotDiscord("Client");
    assert !StartsWith("Client", "commands.") by { assert "Client"[0] != "commands."[0]; }
  }

  /**
   * The loop over the member names: the first name not starting with `_`
   * that equals the query. Names are never empty.
   */
  function MemberHit(q: string, names: seq<string>): (r: Option<string>)
    requires forall i :: 0 <= i < |names| ==> |names[i]| > 0
    ensures r.Some? <==> exists i :: 0 <= i < |names| && names[i][0] != '_' && names[i] == q
    ensures r.Some? ==> r.value == q
    decreases |names|
  {
    if |names| == 0 then None
    else if names[0][0] != '_' && q == names[0] then Some(names[0])
    else
      var r := MemberHit(q, names[1..]);
      assert forall i :: 1 <= i < |names| ==> names[i] == names[1..][i - 1];
      r
  }

  /**
   * The `Messageable` redirect: only for source keys starting with `latest`,
   * a lower-cased query that is a public member name becomes
   * `abc.Messageable.<name>`; any other query is kept.
   */
  function Redirect(key: string, obj: string, names: seq<string>): (r: string)
    requires forall i :: 0 <= i < |names| ==> |names[i]| > 0
    ensures StartsWith(key, "latest") && (exists i :: 0 <= i < |names| && names[i][0] != '_' && names[i] == Lower(obj))
      ==> r == "abc.Messageable." + Lower(obj)
    ensures !(StartsWith(key, "latest") && (exists i :: 0 <= i < |names| && names[i][0] != '_' && names[i] == Lower(obj)))
      ==> r == obj
  {
    if StartsWith(key, "latest") then
      match MemberHit(Lower(obj), names)
      case Some(name) => "abc.Messageable." + name
      case None => obj
    else obj
  }

  /** The query `do_rtfm` hands to the fuzzy search. */
  function PrepareQuery(key: string, obj: string, names: seq<string>): (r: string)
    requires forall i :: 0 <= i < |names| ==> |names[i]| > 0
    ensures r == RewriteQuery(obj) || r == "abc.Messageable." + Lower(RewriteQuery(obj))
    ensures !StartsWith(key, "latest") ==> r == RewriteQuery(obj)
  {
    Redirect(key, RewriteQuery(obj), names)
  }

  /**
   * `str.replace('-', '.')` as CPython computes it: find the next `-`, keep
   * the text before it, write `.` in its place, continue after it. Read
   * character by character, every `-` becomes `.` and every other character
   * stays where it was.
   */
  function DashToDot(s: string): (r: string)
    ensures |r| == |s|
    ensures forall i :: 0 <= i < |s| && s[i] == '-' ==> r[i] == '.'
    ensures forall i :: 0 <= i < |s| && s[i] != '-' ==> r[i] == s[i]
    decreases |s|
  {
    var i := FindChar(s, '-');
    if i < 0 then s
    else
      var t := DashToDot(s[i + 1..]);
      Spliced(s, i, t);
      s[..i] + "." + t
  }

  /** Where the characters of `s[..i] + "." + t` come from. */
  lemma Spliced(s: string, i: nat, t: string)
    requires i < |s| && |t| == |s| - i - 1
    ensures |s[..i] + "." + t| == |s|
    ensures forall k :: 0 <= k < i ==> (s[..i] + "." + t)[k] == s[k]
    ensures (s[..i] + "." + t)[i] == '.'
    ensures forall k :: i < k < |s| ==> (s[..i] + "." + t)[k] == t[k - i - 1] && s[k] == s[i + 1..][k - i - 1]
  {
  }

  /**
   * `library_name(channel)`: the channel name after its first `_` (all of
   * it when there is none), with every `-` turned into `.`.
   */
  function LibraryName(name: string): (r: string)
    ensures forall i :: 0 <= i < |r| ==> r[i] != '-'
    ensures FindChar(name, '_') < 0 ==> r == DashToDot(name)
    ensures FindChar(name, '_') >= 0 ==> r == DashToDot(name[FindChar(name, '_') + 1..])
  {
    var index := FindChar(name, '_');
    if index < 0 then DashToDot(name) else DashToDot(name[index + 1..])
  }

  /** A `language_<name>` channel gives `<name>` with dots for dashes, whatever `<name>` holds. */
  lemma LibraryNameOfLanguageChannel(x: string)
    ensures LibraryName("language_" + x) == DashToDot(x)
  {
    var s := "language_" + x;
    assert s[8] == '_';
    assert forall i :: 0 <= i < 8 ==> s[i] == "language"[i];
    assert FindChar(s, '_') == 8;
    assert s[9..] == x;
  }
}
