/**
 * `API.parse_object_inv` (cogs/api.py): reads a Sphinx `objects.inv`
 * inventory (version 2) into a map from lookup keys to documentation URLs.
 *
 * The inventory is four plain header lines followed by a zlib stream of
 * entry lines. Inflating the stream is not part of this model: a `Stream`
 * carries the text `readline` sees and, separately, the chunks the stream
 * inflates to.
 */
module Inventory {
  import opened Wrappers
  import opened Text
  import LineReader
  import EntryPattern

  /** Why an inventory is rejected; both are a `RuntimeError` in the source. */
  datatype InvError = UnsupportedVersion | NotZlib

  /**
   * An `objects.inv` file as the parser consumes it: `header` is the text
   * its `readline` calls read from, `inflated` the decompressed chunks of
   * the zlib part, the final flush included.
   */
  datatype Stream = Stream(header: string, inflated: seq<string>)

  /** What the parser keeps of the header. */
  datatype Header = Header(project: string, version: string)

  /** The key and URL one entry is stored under. */
  datatype Record = Record(key: string, url: string)

  const VersionLine: string := "# Sphinx inventory version 2"
  const ProjectTag: string := "# Project: "
  const VersionTag: string := "# Version: "
  const ZlibLead: string := "# The remainder of this file " + "is compressed using "
  const ZlibLine: string := ZlibLead + "zlib."

  /** Both field lines lose this many characters, the length of their tags. */
  const TagLength: nat := 11

  /**
   * `readline()`: the text up to and including the first newline, or all
   * of it when there is none; and what is left. The three clauses determine
   * the split.
   */
  function ReadLine(s: string): (r: (string, string))
    ensures r.0 + r.1 == s
    ensures NewlineFree(r.0) || (r.0[|r.0| - 1] == NL && NewlineFree(r.0[..|r.0| - 1]))
    ensures NewlineFree(r.0) ==> r.1 == ""
  {
    var k := FindChar(s, NL);
    if k < 0 then (s, "") else (s[..k + 1], s[k + 1..])
  }

  /** The first four lines `readline` returns, the empty string past the end. */
  function HeaderLines(s: string): (r: seq<string>)
    ensures |r| == 4
  {
    var (l1, t1) := ReadLine(s);
    var (l2, t2) := ReadLine(t1);
    var (l3, t3) := ReadLine(t2);
    var (l4, _) := ReadLine(t3);
    [l1, l2, l3, l4]
  }

  /** `line.rstrip()[11:]`: a slice past the end is empty. */
  function FieldValue(line: string): (r: string)
    ensures var t := RStrip(line);
      if |t| <= TagLength then r == "" else t == t[..TagLength] + r
  {
    var t := RStrip(line);
    if |t| <= TagLength then "" else t[TagLength..]
  }

  /**
   * The header checks: the rstripped first line must be the version-2
   * marker, and the fourth line must mention zlib; the project and version
   * are the second and third lines without their tags.
   */
  function ReadHeader(s: string): (r: Result<Header, InvError>)
    ensures var l := HeaderLines(s);
      && (r == Failure(UnsupportedVersion) <==> RStrip(l[0]) != VersionLine)
      && (r == Failure(NotZlib) <==> RStrip(l[0]) == VersionLine && !Contains(l[3], "zlib"))
      && (r.Success? ==> r.value == Header(FieldValue(l[1]), FieldValue(l[2])))
  {
    var l := HeaderLines(s);
    if RStrip(l[0]) != VersionLine then Failure(UnsupportedVersion)
    else if !Contains(l[3], "zlib") then Failure(NotZlib)
    else Success(Header(FieldValue(l[1]), FieldValue(l[2])))
  }

  /** The four header lines Sphinx writes for a project and version. */
  function HeaderText(project: string, version: string): seq<string> {
    [VersionLine, ProjectTag + project, VersionTag + version, ZlibLine]
  }

  /** The header as written: each line followed by its newline. */
  function RenderHeader(project: string, version: string): string {
    LineReader.JoinLines(HeaderText(project, version))
  }

  /** A header field Sphinx writes that survives `rstrip`: one line, no trailing whitespace. */
  predicate FieldText(t: string) {
    NewlineFree(t) && (|t| == 0 || !IsSpace(t[|t| - 1]))
  }

  /** `readline` on a line followed by its newline returns exactly that line. */
  lemma ReadLineOf(line: string, rest: string)
    requires NewlineFree(line)
    ensures ReadLine(line + [NL] + rest) == (line + [NL], rest)
  {
    var s := line + [NL] + rest;
    assert s[|line|] == NL;
    assert forall i :: 0 <= i < |line| ==> s[i] == line[i];
    assert s[..|line| + 1] == line + [NL];
    assert s[|line| + 1..] == rest;
  }

  /** `rstrip` drops the newline of a line whose text has no trailing whitespace. */
  lemma RStripLine(t: string)
    requires |t| == 0 || !IsSpace(t[|t| - 1])
    ensures RStrip(t + [NL]) == t
  {
    assert (t + [NL])[..|t|] == t;
    RStripKeeps(t);
  }

  /** A tagged field line reads back as its value; an empty value leaves only the tag, which is cut away. */
  lemma FieldOfTagged(tag: string, t: string)
    requires |tag| == TagLength && FieldText(t)
    ensures FieldValue(tag + t + [NL]) == t
  {
    var line := tag + t;
    assert line + [NL] == tag + t + [NL];
    if |t| == 0 {
      var r := RStrip(line + [NL]);
      assert (line + [NL])[|line|] == NL;
    } else {
      assert line[|line| - 1] == t[|t| - 1];
      RStripLine(line);
      assert line[TagLength..] == t;
    }
  }

  /** `readline` on joined lines returns the first line with its newline. */
  lemma ReadLineJoined(ls: seq<string>, rest: string)
    requires |ls| > 0 && NewlineFree(ls[0])
    ensures ReadLine(LineReader.JoinLines(ls) + rest) == (ls[0] + [NL], LineReader.JoinLines(ls[1..]) + rest)
  {
    var tail := LineReader.JoinLines(ls[1..]);
    SeqAssoc(ls[0] + [NL], tail, rest);
    ReadLineOf(ls[0], tail + rest);
  }

  /** The first four of the joined lines are the four header lines `readline` returns. */
  lemma HeaderLinesJoined(ls: seq<string>, rest: string)
    requires |ls| == 4 && LineReader.NoNewlines(ls)
    ensures HeaderLines(LineReader.JoinLines(ls) + rest) == [ls[0] + [NL], ls[1] + [NL], ls[2] + [NL], ls[3] + [NL]]
  {
    ReadLineJoined(ls, rest);
    ReadLineJoined(ls[1..], rest);
    assert ls[1..][1..] == ls[2..];
    ReadLineJoined(ls[2..], rest);
    assert ls[2..][1..] == ls[3..];
    ReadLineJoined(ls[3..], rest);
  }

  /** The fixed header lines hold no newline. */
  lemma FixedLinesNewlineFree()
    ensures NewlineFree(VersionLine) && NewlineFree(ProjectTag) && NewlineFree(VersionTag) && NewlineFree(ZlibLine)
  {
    assert NewlineFree("# Sphinx inventory version 2");
    assert NewlineFree("# Project: ") && NewlineFree("# Version: ");
    assert NewlineFree("# The remainder of this file ") && NewlineFree("is compressed using ") && NewlineFree("zlib.");
    NewlineFreeConcat("# The remainder of this file ", "is compressed using ");
    NewlineFreeConcat(ZlibLead, "zlib.");
  }

  /** The written zlib line passes the zlib check. */
  lemma ZlibLineMentionsZlib()
    ensures Contains(ZlibLine + [NL], "zlib")
  {
    var l := ZlibLine + [NL];
    assert l == ZlibLead + "zlib." + [NL];
    assert l[|ZlibLead|..|ZlibLead| + 4] == "zlib";
    assert OccursAt(l, "zlib", |ZlibLead|);
  }

  /** The header Sphinx writes passes both checks and yields its project and version. */
  lemma HeaderRoundTrip(project: string, version: string, rest: string)
    requires FieldText(project) && FieldText(version)
    ensures ReadHeader(RenderHeader(project, version) + rest) == Success(Header(project, version))
  {
    FixedLinesNewlineFree();
    NewlineFreeConcat(ProjectTag, project);
    NewlineFreeConcat(VersionTag, version);
    var ls := HeaderText(project, version);
    HeaderLinesJoined(ls, rest);
    RStripLine(VersionLine);
    ZlibLineMentionsZlib();
    FieldOfTagged(ProjectTag, project);
    FieldOfTagged(VersionTag, version);
  }

  /**
   * `str.partition(':')`: the text before the first colon, the colon, and
   * the text after it; the whole string and two empty strings when there is
   * no colon. The three clauses determine the split.
   */
  function Partition(s: string): (r: (string, string, string))
    ensures r.0 + r.1 + r.2 == s
    ensures forall i :: 0 <= i < |r.0| ==> r.0[i] != ':'
    ensures r.1 == ":" || (r.1 == "" && r.2 == "")
  {
    var k := FindChar(s, ':');
    if k < 0 then (s, "", "")
    else
      assert s == s[..k] + ":" + s[k + 1..];
      (s[..k], ":", s[k + 1..])
  }

  /** A location ending in `$` stands for itself with the entry's name in place of the `$`. */
  function ExpandLocation(location: string, name: string): string {
    if EndsWith(location, "$") then location[..|location| - 1] + name else location
  }

  /** What Sphinx writes: a URI ending in the entry's name is shortened to end in `$`. */
  function ShortenLocation(uri: string, name: string): string {
    if EndsWith(uri, name) then uri[..|uri| - |name|] + "$" else uri
  }

  /**
   * Expanding undoes Sphinx's shortening, for every URI that does not end
   * in a `$` of its own (unless the name supplies it).
   */
  lemma ExpandShortened(uri: string, name: string)
    requires EndsWith(uri, name) || !EndsWith(uri, "$")
    ensures ExpandLocation(ShortenLocation(uri, name), name) == uri
  {
    var short := ShortenLocation(uri, name);
    if EndsWith(uri, name) {
      var stem := uri[..|uri| - |name|];
      assert short == stem + "$";
      assert short[|short| - 1..] == "$";
      assert short[..|short| - 1] == stem;
      assert uri == stem + uri[|uri| - |name|..];
    }
  }

  /** The base key: the display name, or the name when the display name is `-`. */
  function KeyOf(name: string, dispname: string): string {
    if dispname == "-" then name else dispname
  }

  /** What Sphinx writes as the display name: `-` when it equals the name. */
  function WrittenDispname(name: string, dispname: string): string {
    if dispname == name then "-" else dispname
  }

  /** The base key recovers the display name Sphinx abbreviated, unless that display name was itself `-`. */
  lemma KeyOfWritten(name: string, dispname: string)
    requires dispname != "-" || dispname == name
    ensures KeyOf(name, WrittenDispname(name, dispname)) == dispname
  {
  }

  /** Removal of the `discord.ext.commands.` and then the `discord.` namespaces from a key. */
  function StripNamespaces(key: string): (r: string)
    ensures |r| <= |key|
  {
    RemoveAll(RemoveAll(key, "discord.ext.commands."), "discord.")
  }

  /** A key that mentions no `discord.` namespace is left as it is. */
  lemma StripNamespacesKeeps(key: string)
    requires !Contains(key, "discord.")
    ensures StripNamespaces(key) == key
  {
    assert "discord.ext.commands." == "discord." + "ext.commands.";
    NoLongerOccurrence(key, "discord.", "ext.commands.");
  }

  /** A string without `p` has no occurrence of anything that starts with `p`. */
  lemma NoLongerOccurrence(s: string, p: string, q: string)
    requires |p| > 0 && !Contains(s, p)
    ensures !Contains(s, p + q)
  {
    var k := Find(s, p + q);
    if k >= 0 {
      assert s[k..k + |p|] == (p + q)[..|p|];
      assert OccursAt(s, p, k);
    }
  }

  /** A key that mentions a `discord.` namespace is shortened by the stripping. */
  lemma StripNamespacesShortens(key: string)
    requires Contains(key, "discord.")
    ensures |StripNamespaces(key)| < |key|
  {
    var long := "discord.ext.commands.";
    if Contains(key, long) {
      RemoveAllShortens(key, long);
    } else {
      RemoveAllShortens(key, "discord.");
    }
  }

  /** The namespace removal read as a left-to-right scan of the key. */
  lemma StripNamespacesScan(key: string)
    ensures StripNamespaces(key) == RemoveScan(RemoveScan(key, "discord.ext.commands."), "discord.")
  {
    RemoveAllIsScan(key, "discord.ext.commands.");
    RemoveAllIsScan(RemoveAll(key, "discord.ext.commands."), "discord.");
  }

  /**
   * `os.path.join(url, location)` on POSIX: an absolute location replaces
   * the URL; otherwise the location is appended, after a `/` unless the URL
   * is empty or already ends in one.
   */
  function Join(url: string, location: string): (r: string)
    ensures EndsWith(r, location)
    ensures StartsWith(location, "/") ==> r == location
    ensures !StartsWith(location, "/") ==>
      && StartsWith(r, url) && |url| <= |r| - |location| <= |url| + 1
      && (|r| - |location| == |url| + 1 <==> |url| > 0 && !EndsWith(url, "/"))
      && (|r| - |location| == |url| + 1 ==> r[|url|] == '/')
  {
    if StartsWith(location, "/") then location
    else if |url| == 0 || EndsWith(url, "/") then
      assert (url + location)[|url|..] == location && (url + location)[..|url|] == url;
      url + location
    else
      var r := url + "/" + location;
      assert r[|url| + 1..] == location && r[..|url|] == url;
      r
  }

  /** The parts of a directive: its domain and its role. */
  function Domain(directive: string): string {
    Partition(directive).0
  }

  /** The role used in a `std` key prefix: `label` for `std:doc`, else the role itself. */
  function PrefixRole(directive: string): string {
    if directive == "std:doc" then "label" else Partition(directive).2
  }

  /**
   * The key and URL an entry is stored under: the base key, with the
   * namespaces stripped for the `discord.py` project, prefixed by its role
   * only in the `std` domain; and the expanded location joined to the URL.
   */
  function RecordOf(project: string, url: string, e: EntryPattern.Entry): (r: Record)
    ensures Domain(e.directive) == "std" ==> StartsWith(r.key, PrefixRole(e.directive) + ":")
    ensures Domain(e.directive) != "std" && project != "discord.py" ==> r.key == KeyOf(e.name, e.dispname)
    ensures project != "discord.py" ==> EndsWith(r.key, KeyOf(e.name, e.dispname))
    ensures project == "discord.py" ==> EndsWith(r.key, StripNamespaces(KeyOf(e.name, e.dispname)))
    ensures |r.key| == (if Domain(e.directive) == "std" then |PrefixRole(e.directive)| + 1 else 0)
      + (if project == "discord.py" then |StripNamespaces(KeyOf(e.name, e.dispname))| else |KeyOf(e.name, e.dispname)|)
    ensures r.url == Join(url, ExpandLocation(e.location, e.name))
  {
    var prefix := if Domain(e.directive) == "std" then PrefixRole(e.directive) + ":" else "";
    var base := KeyOf(e.name, e.dispname);
    var key := if project == "discord.py" then StripNamespaces(base) else base;
    assert (prefix + key)[|prefix|..] == key;
    Record(prefix + key, Join(url, ExpandLocation(e.location, e.name)))
  }

  /** Outside `discord.py` a documentation page is keyed `label:<key>`. */
  lemma DocKeyIsLabel(project: string, url: string, e: EntryPattern.Entry)
    requires e.directive == "std:doc" && project != "discord.py"
    ensures RecordOf(project, url, e).key == "label:" + KeyOf(e.name, e.dispname)
  {
    DocDirective();
  }

  /** `std:doc` is in the `std` domain, and its prefix role is `label`. */
  lemma DocDirective()
    ensures Domain("std:doc") == "std" && PrefixRole("std:doc") + ":" == "label:"
  {
    assert FindChar("std:doc", ':') == 3;
  }

  /** A `py:module` entry whose raw name is already a key is the duplicate Sphinx 1.1 wrote. */
  predicate DuplicateModule(result: map<string, string>, e: EntryPattern.Entry) {
    e.directive == "py:module" && e.name in result
  }

  /**
   * One turn of the entry loop, given what the pattern made of the line: a
   * rejected line, or a duplicate module entry, leaves the map alone; any
   * other entry writes its record, replacing an earlier value under the
   * same key and leaving every other key as it was.
   */
  function InsertEntry(result: map<string, string>, project: string, url: string, m: Option<EntryPattern.Entry>): (r: map<string, string>)
    ensures m.None? ==> r == result
    ensures m.Some? && DuplicateModule(result, m.value) ==> r == result
    ensures m.Some? && !DuplicateModule(result, m.value) ==>
      var rec := RecordOf(project, url, m.value);
      && r.Keys == result.Keys + {rec.key} && r[rec.key] == rec.url
      && forall k :: k in result && k != rec.key ==> r[k] == result[k]
  {
    match m
    case None => result
    case Some(e) =>
      if DuplicateModule(result, e) then result
      else
        var rec := RecordOf(project, url, e);
        result[rec.key := rec.url]
  }

  /** What the pattern makes of each line. */
  function MatchAll(lines: seq<string>): seq<Option<EntryPattern.Entry>> {
    seq(|lines|, i requires 0 <= i < |lines| => EntryPattern.Match(lines[i]))
  }

  /** The entry loop over the matched lines, in order. */
  function BuildFrom(result: map<string, string>, project: string, url: string, ms: seq<Option<EntryPattern.Entry>>): map<string, string>
    decreases |ms|
  {
    if |ms| == 0 then result else BuildFrom(InsertEntry(result, project, url, ms[0]), project, url, ms[1..])
  }

  /** The entry loop over the inflated lines. */
  function BuildMap(result: map<string, string>, project: string, url: string, lines: seq<string>): map<string, string> {
    BuildFrom(result, project, url, MatchAll(lines))
  }

  /** The record an entry would write, were it not a duplicate module entry. */
  function Written(project: string, url: string, m: Option<EntryPattern.Entry>): Option<Record> {
    match m
    case None => None
    case Some(e) => Some(RecordOf(project, url, e))
  }

  /** No entry writes key `k`. */
  predicate NoneWrites(project: string, url: string, ms: seq<Option<EntryPattern.Entry>>, k: string)
    decreases |ms|
  {
    |ms| == 0 ||
    ((Written(project, url, ms[0]).None? || Written(project, url, ms[0]).value.key != k) && NoneWrites(project, url, ms[1..], k))
  }

  /** `NoneWrites` read entry by entry. */
  lemma {:induction false} NoneWritesEach(project: string, url: string, ms: seq<Option<EntryPattern.Entry>>, k: string)
    ensures NoneWrites(project, url, ms, k) <==>
      forall j :: 0 <= j < |ms| ==> Written(project, url, ms[j]).None? || Written(project, url, ms[j]).value.key != k
    decreases |ms|
  {
    if |ms| > 0 {
      NoneWritesEach(project, url, ms[1..], k);
      assert forall j :: 0 < j < |ms| ==> ms[1..][j - 1] == ms[j];
    }
  }

  /** Keys are never removed, and every new key is the key of some entry's record. */
  lemma {:induction false} BuildFromKeys(result: map<string, string>, project: string, url: string, ms: seq<Option<EntryPattern.Entry>>)
    ensures result.Keys <= BuildFrom(result, project, url, ms).Keys
    ensures forall k :: k in BuildFrom(result, project, url, ms) && k !in result ==> !NoneWrites(project, url, ms, k)
    decreases |ms|
  {
    if |ms| > 0 {
      var next := InsertEntry(result, project, url, ms[0]);
      BuildFromKeys(next, project, url, ms[1..]);
    }
  }

  /** No entry writes `k`: its value is left as it was. */
  lemma {:induction false} BuildFromUntouched(result: map<string, string>, project: string, url: string, ms: seq<Option<EntryPattern.Entry>>, k: string)
    requires k in result && NoneWrites(project, url, ms, k)
    ensures k in BuildFrom(result, project, url, ms) && BuildFrom(result, project, url, ms)[k] == result[k]
    decreases |ms|
  {
    if |ms| > 0 {
      var next := InsertEntry(result, project, url, ms[0]);
      BuildFromUntouched(next, project, url, ms[1..], k);
    }
  }

  /**
   * Entry `m` leaves the value under `k` alone once `k` is a key: it writes
   * another key, or it is a `py:module` entry named `k`, which the loop
   * skips as a duplicate.
   */
  predicate Spares(project: string, url: string, m: Option<EntryPattern.Entry>, k: string) {
    || Written(project, url, m).None? || Written(project, url, m).value.key != k
    || (m.value.directive == "py:module" && m.value.name == k)
  }

  /** No entry replaces the value under `k`, once `k` is a key. */
  predicate NoneOverwrites(project: string, url: string, ms: seq<Option<EntryPattern.Entry>>, k: string)
    decreases |ms|
  {
    |ms| == 0 || (Spares(project, url, ms[0], k) && NoneOverwrites(project, url, ms[1..], k))
  }

  /** `NoneOverwrites` read entry by entry. */
  lemma {:induction false} NoneOverwritesEach(project: string, url: string, ms: seq<Option<EntryPattern.Entry>>, k: string)
    ensures NoneOverwrites(project, url, ms, k) <==> forall j :: 0 <= j < |ms| ==> Spares(project, url, ms[j], k)
    decreases |ms|
  {
    if |ms| > 0 {
      NoneOverwritesEach(project, url, ms[1..], k);
      assert forall j :: 0 < j < |ms| ==> ms[1..][j - 1] == ms[j];
    }
  }

  /**
   * A key already present keeps its value through entries that spare it;
   * unlike `BuildFromUntouched`, later duplicate module entries for the
   * key are allowed, since the loop skips them.
   */
  lemma {:induction false} BuildFromKept(result: map<string, string>, project: string, url: string, ms: seq<Option<EntryPattern.Entry>>, k: string)
    requires k in result && NoneOverwrites(project, url, ms, k)
    ensures k in BuildFrom(result, project, url, ms) && BuildFrom(result, project, url, ms)[k] == result[k]
    decreases |ms|
  {
    if |ms| > 0 {
      var next := InsertEntry(result, project, url, ms[0]);
      assert k in next && next[k] == result[k];
      BuildFromKept(next, project, url, ms[1..], k);
    }
  }

  /** One turn of the loop, with the map after it left unnamed. */
  lemma BuildFromStep(result: map<string, string>, project: string, url: string, ms: seq<Option<EntryPattern.Entry>>)
    returns (next: map<string, string>)
    requires |ms| > 0
    ensures next == InsertEntry(result, project, url, ms[0])
    ensures BuildFrom(result, project, url, ms) == BuildFrom(next, project, url, ms[1..])
  {
    next := InsertEntry(result, project, url, ms[0]);
  }

  /**
   * Entry `i` is stored under its record's key: every entry the pattern
   * accepts, except a module entry whose raw name is already a key when it
   * is reached, either from `result` or from an earlier entry's record.
   */
  predicate Stores(result: map<string, string>, project: string, url: string, ms: seq<Option<EntryPattern.Entry>>, i: nat)
    requires i < |ms|
  {
    ms[i].Some? &&
    (ms[i].value.directive != "py:module" || (ms[i].value.name !in result && NoneWrites(project, url, ms[..i], ms[i].value.name)))
  }

  /** The first entry, when it is stored, keeps its value if no later entry overwrites its key. */
  lemma FirstWriterKept(result: map<string, string>, project: string, url: string, ms: seq<Option<EntryPattern.Entry>>, k: string, v: string)
    requires |ms| > 0 && Stores(result, project, url, ms, 0)
    requires RecordOf(project, url, ms[0].value) == Record(k, v) && NoneOverwrites(project, url, ms[1..], k)
    ensures k in BuildFrom(result, project, url, ms) && BuildFrom(result, project, url, ms)[k] == v
  {
    var next := InsertEntry(result, project, url, ms[0]);
    BuildFromKept(next, project, url, ms[1..], k);
  }

  /** A module entry stored at `i` is still stored after the loop's first turn. */
  lemma StoresAfterStep(result: map<string, string>, project: string, url: string, ms: seq<Option<EntryPattern.Entry>>, i: nat)
    requires 0 < i < |ms| && Stores(result, project, url, ms, i)
    ensures Stores(InsertEntry(result, project, url, ms[0]), project, url, ms[1..], i - 1)
  {
    var rest := ms[1..];
    assert rest[i - 1] == ms[i];
    var e := ms[i].value;
    if e.directive == "py:module" {
      assert ms[..i][1..] == rest[..i - 1];
      assert NoneWrites(project, url, rest[..i - 1], e.name);
    }
  }

  /**
   * The last writer wins: an entry that is stored, and whose key no later
   * entry overwrites (a later duplicate module entry for the key is
   * skipped), determines the final value under that key.
   */
  lemma {:induction false} LastWriterWins(result: map<string, string>, project: string, url: string, ms: seq<Option<EntryPattern.Entry>>, i: nat, k: string, v: string)
    requires i < |ms| && Stores(result, project, url, ms, i)
    requires RecordOf(project, url, ms[i].value) == Record(k, v) && NoneOverwrites(project, url, ms[i + 1..], k)
    ensures k in BuildFrom(result, project, url, ms) && BuildFrom(result, project, url, ms)[k] == v
    decreases i
  {
    if i == 0 {
      FirstWriterKept(result, project, url, ms, k, v);
    } else {
      var rest := ms[1..];
      assert rest[i - 1] == ms[i];
      DropDrop(ms, i);
      var next := BuildFromStep(result, project, url, ms);
      StoresAfterStep(result, project, url, ms, i);
      LastWriterWins(next, project, url, rest, i - 1, k, v);
    }
  }

  /**
   * Of the `py:module` entries for a module keyed by its own name, the
   * first stored one is kept: every later entry under that key is another
   * entry for the module, which the loop skips.
   */
  lemma ModuleFirstWins(result: map<string, string>, project: string, url: string, ms: seq<Option<EntryPattern.Entry>>, i: nat)
    requires i < |ms| && Stores(result, project, url, ms, i)
    requires ms[i].value.directive == "py:module" && RecordOf(project, url, ms[i].value).key == ms[i].value.name
    requires forall j :: i < j < |ms| && ms[j].Some? && RecordOf(project, url, ms[j].value).key == ms[i].value.name ==>
      ms[j].value.directive == "py:module" && ms[j].value.name == ms[i].value.name
    ensures var r := BuildFrom(result, project, url, ms);
      ms[i].value.name in r && r[ms[i].value.name] == RecordOf(project, url, ms[i].value).url
  {
    var rec := RecordOf(project, url, ms[i].value);
    var later := ms[i + 1..];
    forall j | 0 <= j < |later|
      ensures Spares(project, url, later[j], rec.key)
    {
      assert later[j] == ms[i + 1 + j];
    }
    NoneOverwritesEach(project, url, later, rec.key);
    LastWriterWins(result, project, url, ms, i, rec.key, rec.url);
  }

  /** Outside `discord.py` a `py:module` entry with display name `-` is keyed by its own name. */
  lemma ModuleKeyIsName(project: string, url: string, e: EntryPattern.Entry)
    requires e.directive == "py:module" && e.dispname == "-" && project != "discord.py"
    ensures RecordOf(project, url, e).key == e.name
  {
    ModuleDirective();
  }

  /** `py:module` is in the `py` domain. */
  lemma ModuleDirective()
    ensures Domain("py:module") == "py"
  {
    assert FindChar("py:module", ':') == 2;
  }

  /**
   * For the `discord.py` project the duplicate-module skip does not fire
   * for a module in a `discord.` namespace: the skip tests the raw name,
   * but the key the first entry wrote is the stripped name, so the second
   * entry overwrites the first one's URL.
   */
  lemma DiscordModuleNotSkipped(url: string, a: EntryPattern.Entry, b: EntryPattern.Entry)
    requires a.directive == "py:module" && b.directive == "py:module" && a.name == b.name
    requires a.dispname == "-" && b.dispname == "-" && Contains(a.name, "discord.")
    ensures var k := RecordOf("discord.py", url, a).key;
      var r := BuildFrom(map[], "discord.py", url, [Some(a), Some(b)]);
      && k == StripNamespaces(a.name) && k != a.name
      && k == RecordOf("discord.py", url, b).key
      && k in r && r[k] == RecordOf("discord.py", url, b).url
  {
    DiscordModuleKey(url, a);
    DiscordModuleKey(url, b);
    var ra, rb := RecordOf("discord.py", url, a), RecordOf("discord.py", url, b);
    StripNamespacesShortens(a.name);
    var ms := [Some(a), Some(b)];
    var m1 := BuildFromStep(map[], "discord.py", url, ms);
    assert m1 == map[ra.key := ra.url];
    assert ms[1..] == [Some(b)];
    var m2 := BuildFromStep(m1, "discord.py", url, ms[1..]);
    assert !DuplicateModule(m1, b);
    assert m2 == m1[rb.key := rb.url];
    assert ms[1..][1..] == [];
  }

  /** In `discord.py` a `py:module` entry with display name `-` is keyed by its stripped name. */
  lemma DiscordModuleKey(url: string, e: EntryPattern.Entry)
    requires e.directive == "py:module" && e.dispname == "-"
    ensures RecordOf("discord.py", url, e).key == StripNamespaces(e.name)
  {
    ModuleDirective();
    var key := RecordOf("discord.py", url, e).key;
    assert |key| == |StripNamespaces(e.name)|;
    assert key == key[|key| - |StripNamespaces(e.name)|..];
  }

  /** The second `py:module` entry for a module is skipped: the first one's URL stays. */
  lemma ModulePairFirstWins(project: string, url: string, a: EntryPattern.Entry, b: EntryPattern.Entry)
    requires a.directive == "py:module" && b.directive == "py:module" && a.name == b.name
    requires a.dispname == "-" && b.dispname == "-" && project != "discord.py"
    ensures var r := BuildFrom(map[], project, url, [Some(a), Some(b)]);
      a.name in r && r[a.name] == RecordOf(project, url, a).url
  {
    var ms := [Some(a), Some(b)];
    var rec := RecordOf(project, url, a);
    assert rec.key == a.name;
    var m1 := BuildFromStep(map[], project, url, ms);
    assert m1 == map[a.name := rec.url];
    assert ms[1..] == [Some(b)];
    var m2 := BuildFromStep(m1, project, url, ms[1..]);
    assert DuplicateModule(m1, b);
    assert m2 == m1;
    assert ms[1..][1..] == [];
  }

  /**
   * `parse_object_inv(stream, url)`: the header checks, then the entry loop
   * over the lines of the inflated text, starting from an empty map.
   */
  function ParseObjectInv(stream: Stream, url: string): (r: Result<map<string, string>, InvError>)
    ensures ReadHeader(stream.header).Failure? <==> r.Failure?
    ensures r.Failure? ==> r.error == ReadHeader(stream.header).error
    ensures r.Success? ==>
      r.value == BuildMap(map[], ReadHeader(stream.header).value.project, url, LineReader.ReadCompressedLines(stream.inflated))
  {
    var header :- ReadHeader(stream.header);
    Success(BuildMap(map[], header.project, url, LineReader.ReadCompressedLines(stream.inflated)))
  }

  /** The entry lines Sphinx writes, one per entry. */
  function FormatAll(entries: seq<EntryPattern.Entry>): seq<string> {
    seq(|entries|, j requires 0 <= j < |entries| => EntryPattern.Format(entries[j]))
  }

  /** Written entry lines hold no newline, and the pattern reads each one back. */
  lemma MatchAllFormatted(entries: seq<EntryPattern.Entry>)
    requires forall j :: 0 <= j < |entries| ==> EntryPattern.ReadsBack(entries[j])
    ensures LineReader.NoNewlines(FormatAll(entries))
    ensures forall j :: 0 <= j < |entries| ==> MatchAll(FormatAll(entries))[j] == Some(entries[j])
  {
    forall j | 0 <= j < |entries|
      ensures NewlineFree(EntryPattern.Format(entries[j])) && EntryPattern.Match(EntryPattern.Format(entries[j])) == Some(entries[j])
    {
      EntryPattern.FormatNewlineFree(entries[j]);
      EntryPattern.MatchFormat(entries[j]);
    }
  }

  /** A well-formed inventory of written entries parses to the entry loop over the matched entries. */
  lemma ParsesWritten(project: string, version: string, rest: string, chunks: seq<string>, url: string,
                      entries: seq<EntryPattern.Entry>)
    requires FieldText(project) && FieldText(version)
    requires forall j :: 0 <= j < |entries| ==> EntryPattern.ReadsBack(entries[j])
    requires LineReader.Concat(chunks) == LineReader.JoinLines(FormatAll(entries))
    ensures ParseObjectInv(Stream(RenderHeader(project, version) + rest, chunks), url)
      == Success(BuildFrom(map[], project, url, MatchAll(FormatAll(entries))))
    ensures forall j :: 0 <= j < |entries| ==> MatchAll(FormatAll(entries))[j] == Some(entries[j])
  {
    HeaderRoundTrip(project, version, rest);
    MatchAllFormatted(entries);
    LineReader.ReadsBackJoinedLines(FormatAll(entries), chunks);
  }

  /** Entries `lo..hi` whose records all avoid `key` do not write it. */
  lemma NoneWritesRange(project: string, url: string, ms: seq<Option<EntryPattern.Entry>>, entries: seq<EntryPattern.Entry>,
                        lo: nat, hi: nat, key: string)
    requires lo <= hi <= |ms| == |entries|
    requires forall j :: 0 <= j < |entries| ==> ms[j] == Some(entries[j])
    requires forall j :: lo <= j < hi ==> RecordOf(project, url, entries[j]).key != key
    ensures NoneWrites(project, url, ms[lo..hi], key)
    ensures hi == |ms| ==> NoneWrites(project, url, ms[lo..], key)
  {
    var part := ms[lo..hi];
    forall j | 0 <= j < |part|
      ensures Written(project, url, part[j]).None? || Written(project, url, part[j]).value.key != key
    {
      var e := entries[lo + j];
      assert part[j] == Some(e);
      assert Written(project, url, part[j]) == Some(RecordOf(project, url, e));
    }
    NoneWritesEach(project, url, part, key);
    if hi == |ms| {
      assert ms[lo..] == part;
    }
  }

  /** Entries from `lo` on, each writing another key or being a module entry named `key`, spare `key`. */
  lemma NoneOverwritesTail(project: string, url: string, ms: seq<Option<EntryPattern.Entry>>, entries: seq<EntryPattern.Entry>,
                           lo: nat, key: string)
    requires lo <= |ms| == |entries|
    requires forall j :: 0 <= j < |entries| ==> ms[j] == Some(entries[j])
    requires forall j :: lo <= j < |entries| ==>
      RecordOf(project, url, entries[j]).key != key || (entries[j].directive == "py:module" && entries[j].name == key)
    ensures NoneOverwrites(project, url, ms[lo..], key)
  {
    var part := ms[lo..];
    forall j | 0 <= j < |part|
      ensures Spares(project, url, part[j], key)
    {
      var e := entries[lo + j];
      assert part[j] == Some(e);
      assert Written(project, url, part[j]) == Some(RecordOf(project, url, e));
    }
    NoneOverwritesEach(project, url, part, key);
  }

  /** An entry of a module whose name no earlier entry's key is, is stored by the loop from an empty map. */
  lemma StoredFromEmpty(project: string, url: string, ms: seq<Option<EntryPattern.Entry>>, entries: seq<EntryPattern.Entry>, i: nat)
    requires |ms| == |entries| && forall j :: 0 <= j < |entries| ==> ms[j] == Some(entries[j])
    requires i < |entries|
    requires entries[i].directive == "py:module" ==>
      forall j :: 0 <= j < i ==> RecordOf(project, url, entries[j]).key != entries[i].name
    ensures Stores(map[], project, url, ms, i)
  {
    if entries[i].directive == "py:module" {
      NoneWritesRange(project, url, ms, entries, 0, i, entries[i].name);
      assert ms[0..i] == ms[..i];
    }
  }

  /**
   * The entry loop over matched entries, started from an empty map, stores
   * an entry whose key no later entry shares, apart from later module
   * entries named by that key; for a module entry, provided no earlier
   * entry's key is the module's name.
   */
  lemma EntryFoundInLoop(project: string, url: string, ms: seq<Option<EntryPattern.Entry>>, entries: seq<EntryPattern.Entry>, i: nat)
    requires |ms| == |entries| && forall j :: 0 <= j < |entries| ==> ms[j] == Some(entries[j])
    requires i < |entries|
    requires entries[i].directive == "py:module" ==>
      forall j :: 0 <= j < i ==> RecordOf(project, url, entries[j]).key != entries[i].name
    requires var k := RecordOf(project, url, entries[i]).key;
      forall j :: i < j < |entries| ==>
        RecordOf(project, url, entries[j]).key != k || (entries[j].directive == "py:module" && entries[j].name == k)
    ensures var rec := RecordOf(project, url, entries[i]);
      rec.key in BuildFrom(map[], project, url, ms) && BuildFrom(map[], project, url, ms)[rec.key] == rec.url
  {
    var rec := RecordOf(project, url, entries[i]);
    NoneOverwritesTail(project, url, ms, entries, i + 1, rec.key);
    StoredFromEmpty(project, url, ms, entries, i);
    LastWriterWins(map[], project, url, ms, i, rec.key, rec.url);
  }

  /**
   * End to end: in an inventory Sphinx writes, split into chunks at any
   * boundaries, whose entry lines the pattern splits at the entries' own
   * names, an entry whose key no later entry shares (later module entries
   * named by the key aside, as the loop skips them) is found under its
   * key with its joined URL; for a module entry, provided no earlier
   * entry's key is the module's name.
   */
  lemma WrittenEntryFound(project: string, version: string, rest: string, chunks: seq<string>, url: string,
                          entries: seq<EntryPattern.Entry>, i: nat)
    requires FieldText(project) && FieldText(version)
    requires forall j :: 0 <= j < |entries| ==> EntryPattern.ReadsBack(entries[j])
    requires LineReader.Concat(chunks) == LineReader.JoinLines(FormatAll(entries))
    requires i < |entries|
    requires entries[i].directive == "py:module" ==>
      forall j :: 0 <= j < i ==> RecordOf(project, url, entries[j]).key != entries[i].name
    requires var k := RecordOf(project, url, entries[i]).key;
      forall j :: i < j < |entries| ==>
        RecordOf(project, url, entries[j]).key != k || (entries[j].directive == "py:module" && entries[j].name == k)
    ensures var r := ParseObjectInv(Stream(RenderHeader(project, version) + rest, chunks), url);
      var rec := RecordOf(project, url, entries[i]);
      r.Success? && rec.key in r.value && r.value[rec.key] == rec.url
  {
    ParsesWritten(project, version, rest, chunks, url, entries);
    EntryFoundInLoop(project, url, MatchAll(FormatAll(entries)), entries, i);
  }
}
