# Documentation lookup and emoji statistics: a Dafny model

This project models two parts of the AmDanny Discord bot.

The first part is `cogs/api.py`, which builds the `?rtfm` documentation lookup table from Sphinx
`objects.inv` files (inventory format version 2):

- **Line splitter.** `SphinxObjectFileReader.read_compressed_lines` turns the decompressed chunks
  into lines. It carries a buffer across chunk boundaries (module `LineReader`).
- **Header check.** `API.parse_object_inv` reads a four-line header. It checks the version line and
  the `zlib` line, and takes the project name and the version (module `Inventory`).
- **Entry pattern.** Each entry line is matched against
  `(.+?)\s+(\S*:\S*)\s+(-?\d+)\s+(\S+)\s+(.*)`, following the regular-expression engine's search
  order (module `EntryPattern`).
- **Normalisation rules.** These turn a matched entry into a `key -> url` record: duplicate
  `py:module` entries, `std:doc` becoming `label`, `$` location templates, display-name or name
  keys, the `std` role prefix, the `discord.py` namespace stripping, and `os.path.join`. The records
  are folded into the lookup map (module `Inventory`).
- **Query preparation in `do_rtfm`.** The leading `discord.` / `discord.ext.` / `commands.`
  qualifier is removed, and `abc.Messageable` member names are redirected. `API.library_name` is
  also here (module `Query`).

The second part is `cogs/emoji.py`, the emoji usage statistics:

- **Id extraction.** `EMOJI_REGEX.findall` extracts custom-emoji ids from a message
  (module `EmojiPattern`).
- **Counters and blob statistics.** These cover:
  - the per-guild counters that `Emoji.on_message` updates;
  - the cross-guild totals;
  - the blob usage table and its `most_common()` ordering;
  - the rank and the top and bottom lists of `get_all_blob_stats` / `get_blob_stats_for`.

  All of this is in module `EmojiStats`.

Modules `Wrappers` (`Option`, `Result`) and `Text` (the Python `str` operations the code relies on:
`find`, `replace`, `rstrip`, `lower`, `isspace`) support the rest.

Strings are `seq<char>`. Decompressed data reaches the model as a sequence of already-decoded
chunks. In the model an inventory is a `Stream`:

- the header text, which the real file holds uncompressed;
- the inflated chunks of the compressed body.

The member names of `discord.abc.Messageable`, the blob guild's emoji ids and the guild counters
held in the persisted store are parameters.

## Model

| member | source | states |
|---|---|---|
| LineReader.Drain | cogs/api.py:40-44 | cutting every complete line off a buffer leaves newline-free lines and a newline-free rest that, rejoined with newlines, give back the buffer |
| LineReader.Read | cogs/api.py:36-44 | after any sequence of chunks, the yielded lines contain no newline and, each followed by a newline and then the still-buffered rest, spell out the concatenation of the chunks |
| LineReader.SplitUnique | cogs/api.py:40-44 | a text splits in only one way into newline-terminated lines plus a newline-free rest, so the splitter's output is determined by the text |
| LineReader.ChunkBoundariesIrrelevant | cogs/api.py:36-44 | feeding the chunks one by one gives the same lines and buffer as splitting their concatenation at once |
| LineReader.SameTextSameLines | cogs/api.py:36-44 | two chunkings of the same text yield the same lines |
| LineReader.LinesAreNewlinePrefix | cogs/api.py:36-44 | the yielded lines, each followed by a newline, are exactly the longest prefix of the decompressed text that ends in a newline |
| LineReader.TailNeverYielded | cogs/api.py:34-44 | a final newline-free chunk (what the decompressor's flush leaves after the last newline) adds no line |
| LineReader.ReadsBackJoinedLines | cogs/api.py:36-44 | newline-free lines written one per line, however chunked, are read back exactly |
| LineReader.DrainLoop | cogs/api.py:40-44 | the `while pos != -1` loop computes the same lines and rest as the functional split |
| LineReader.ReadCompressedLinesLoop | cogs/api.py:36-44 | the generator loop yields newline-free lines that rejoined are the longest newline-terminated prefix of the text, equal to the functional model |
| EntryPattern.SkipSpaceSpec | cogs/api.py:106 | a `\s+` run read greedily stops at the first non-whitespace character |
| EntryPattern.SkipTokenSpec | cogs/api.py:106 | a `\S` run read greedily stops at the first whitespace character |
| EntryPattern.LineEndSpec | cogs/api.py:106 | the display-name group `(.*)` stops at the first newline |
| EntryPattern.SkipSpaceAt | cogs/api.py:106 | any position that ends a whitespace run is where the greedy scan stops |
| EntryPattern.SkipTokenAt | cogs/api.py:106 | any position that ends a non-whitespace run is where the greedy scan stops |
| EntryPattern.LineEndAt | cogs/api.py:106 | any position that ends a newline-free stretch is where the display name stops |
| EntryPattern.FieldsAt | cogs/api.py:106 | a match with the name group ending at position `i` has the line's first `i` characters as its name |
| EntryPattern.MatchFrom | cogs/api.py:106-108 | the lazy name search returns the groups for the first name length from `i` on at which the rest of the pattern matches, and fails only if no length does |
| EntryPattern.Match | cogs/api.py:106-109 | `entry_regex.match(line.rstrip())` succeeds exactly when some name length (not crossing a newline) lets the rest match, and then yields the groups of the shortest such name |
| EntryPattern.FieldsOfFormat | cogs/api.py:106 | a line laid out as Sphinx writes an entry, whatever spaces its name holds, has the entry's groups at the entry's own name length |
| EntryPattern.NoShorterName | cogs/api.py:106 | when the name is one token, no shorter name lets the pattern match on such a line |
| EntryPattern.MatchOfShortest | cogs/api.py:106-108 | on an already-stripped line, the match is the groups of the shortest matching name length |
| EntryPattern.MatchFormat | cogs/api.py:106-112 | the line of every entry Sphinx can write (a one-line name, spaces allowed; a directive with a colon; a `-?\d+` priority; a token location; a one-line display name) matches, with a name no longer than the entry's, and it reads back as exactly that entry if and only if no shorter name lets the pattern match |
| EntryPattern.ColonFreeName | cogs/api.py:106 | a name without a colon that ends in a visible character is never cut short, whatever spaces it holds |
| EntryPattern.GlossaryTermReadsBack | cogs/api.py:106-112 | Python's glossary entry `abstract base class std:term -1 glossary.html#term-abstract-base-class -` reads back as exactly that entry |
| EntryPattern.SpacedColonNameMisread | cogs/api.py:106-112 | an entry named `x y:z 1 u` is written as a line the pattern reads with the name `x`, so without the no-earlier-split condition the round trip fails |
| EntryPattern.SplitForced | cogs/api.py:106 | for a fixed name, any placement of whitespace, directive, whitespace, priority, whitespace, location and whitespace is the one the greedy scans find, so the groups are split in one way only |
| EntryPattern.FieldsShape | cogs/api.py:106 | the forced groups have the shapes the pattern demands: directive a token holding `:`, priority `-?\d+`, location a token, display name newline-free |
| EntryPattern.MatchShape | cogs/api.py:106-112 | every matched entry has a non-empty newline-free name, a directive token holding `:`, a `-?\d+` priority, a location token and a newline-free display name |
| EntryPattern.FormatNewlineFree | cogs/api.py:107-108 | a written entry fits on one line, so the splitter delivers it whole |
| Inventory.ReadLine | cogs/api.py:21-22 | `readline` returns everything up to and including the first newline (or the rest of the stream if there is none), and the stream continues after it |
| Inventory.FieldValue | cogs/api.py:97-98 | a header value is the rstripped line with its first 11 characters dropped, empty if the line is shorter |
| Inventory.ReadHeader | cogs/api.py:90-103 | the parse fails with the version error exactly when the rstripped first line is not `# Sphinx inventory version 2`, fails with the zlib error exactly when the version is right and the fourth line lacks `zlib`, and otherwise yields the project and version fields |
| Inventory.FieldOfTagged | cogs/api.py:97-98 | an 11-character tag followed by a field without trailing whitespace reads back as that field |
| Inventory.HeaderRoundTrip | cogs/api.py:90-103 | the header Sphinx writes for any one-line project and version is accepted and reads back as that project and version |
| Inventory.Partition | cogs/api.py:113 | `str.partition(':')` splits at the first colon: the three parts rejoin to the input, the head has no colon, and without a colon the rest is empty |
| Inventory.ExpandShortened | cogs/api.py:126-127 | expanding a `$` template undoes Sphinx's shortening of a location that ends in the entry name |
| Inventory.KeyOfWritten | cogs/api.py:129 | the base key recovers the display name that Sphinx abbreviates to `-` |
| Inventory.StripNamespacesKeeps | cogs/api.py:132-133 | a key that does not mention `discord.` is unchanged by the namespace stripping |
| Inventory.StripNamespacesShortens | cogs/api.py:132-133 | a key that mentions a `discord.` namespace comes out strictly shorter, so never equal to itself |
| Text.RemoveAllShortens | cogs/api.py:133 | `str.replace(p, '')` shortens every text in which `p` occurs |
| Inventory.StripNamespacesScan | cogs/api.py:133 | the stripping removes every `discord.ext.commands.` and then every remaining `discord.`, scanning left to right |
| Text.RemoveAllIsScan | cogs/api.py:133 | `str.replace(p, '')` as a repeated find-and-cut agrees with a left-to-right scan that drops each occurrence |
| Inventory.Join | cogs/api.py:135 | `os.path.join(url, location)` ends with the location, is the location when that is absolute, and otherwise is the URL, a `/` only when the URL is non-empty and lacks a trailing one, then the location |
| Inventory.RecordOf | cogs/api.py:113-135 | a `std` entry's key is its role and a colon (`label` for `std:doc`) followed by the base key, and any other entry's key is the base key alone; for `discord.py` the base key has its namespaces stripped first; the URL is the expanded location joined to the base URL |
| Inventory.DocKeyIsLabel | cogs/api.py:113-130 | outside `discord.py` a `std:doc` entry is keyed exactly `label:<key>` |
| Inventory.InsertEntry | cogs/api.py:108-135 | a line that does not match, or a `py:module` entry whose name is already a key, leaves the map unchanged; any other entry sets its key to its URL and changes no other key |
| Inventory.NoneWritesEach | cogs/api.py:107-135 | "no later entry writes key k" means each later entry either fails to match or writes a different key |
| Inventory.BuildFromKeys | cogs/api.py:107-135 | the fold only adds keys, and every new key was written by some entry |
| Inventory.BuildFromUntouched | cogs/api.py:107-135 | a key that no entry writes keeps its value |
| Inventory.NoneOverwritesEach | cogs/api.py:107-135 | "no later entry overwrites key k" means each later entry fails to match, writes a different key, or is a `py:module` entry named k |
| Inventory.BuildFromKept | cogs/api.py:107-135 | a key already present keeps its value through entries that write other keys and `py:module` entries named by the key, which the loop skips |
| Inventory.FirstWriterKept | cogs/api.py:107-135 | when the first entry is stored (any entry but a `py:module` entry whose name is already a key) and no later entry overwrites its key (a later `py:module` entry named by the key is skipped and does not count), the key keeps that first value |
| Inventory.LastWriterWins | cogs/api.py:107-135 | the value of a key is the one written by its last stored entry: later writes overwrite earlier ones, and skipped duplicate `py:module` entries write nothing; a `py:module` entry counts as stored when its name is not yet a key, neither in the starting map nor as an earlier entry's key |
| Inventory.ModuleFirstWins | cogs/api.py:114-120 | for a module whose key is its own name, the first stored `py:module` entry is kept whatever follows, as long as every later entry under that key is another `py:module` entry for the module: the later entries' URLs are never stored |
| Inventory.ModuleKeyIsName | cogs/api.py:113-133 | outside `discord.py` a `py:module` entry with display name `-` is keyed by its raw name, so the skip's test and the stored key agree |
| Inventory.ModulePairFirstWins | cogs/api.py:114-120 | two `py:module` entries for one module with display name `-`, outside `discord.py`: the first one's URL is kept |
| Inventory.DiscordModuleKey | cogs/api.py:129-133 | in `discord.py` a `py:module` entry with display name `-` is keyed by its namespace-stripped name |
| Inventory.DiscordModuleNotSkipped | cogs/api.py:114-135 | in `discord.py`, of two `py:module` entries for a module in a `discord.` namespace the second one's URL is stored: the skip tests the raw name, which is never the stripped key |
| Inventory.ParseObjectInv | cogs/api.py:84-137 | `parse_object_inv` fails exactly when the header is rejected, with the header's error, and otherwise returns the fold of all decompressed entry lines into an empty map |
| Inventory.MatchAllFormatted | cogs/api.py:106-108 | a body of written entries, each split by the pattern at its own name, splits into one-line entries that each match back to their entry |
| Inventory.ParsesWritten | cogs/api.py:84-137 | a well-formed inventory of written entries, each split by the pattern at its own name, however chunked, passes the header checks and folds exactly those entries, in order |
| Inventory.EntryFoundInLoop | cogs/api.py:107-135 | the fold over matched entries stores each entry whose key no later entry writes, later `py:module` entries named by the key aside; a `py:module` entry provided no earlier entry's key is its name |
| Inventory.WrittenEntryFound | cogs/api.py:84-137 | for a well-formed inventory of written entries (names with spaces included, provided the pattern splits each line at the entry's own name), however chunked, each entry's record is in the result unless a later entry writes the same key, a `py:module` entry named by the key not counting, since the loop skips it; for a `py:module` entry, provided no earlier entry's key is the module's name |
| Query.Qualifier | cogs/api.py:168 | the qualifier the pattern strips is one of the allowed qualifiers that starts the query and leaves something after it, or nothing |
| Query.QualifierIsLongest | cogs/api.py:168 | that qualifier is the longest allowed one that starts the query and leaves a non-empty rest |
| Query.StripQualifier | cogs/api.py:168 | the query is its qualifier followed by the result, and a non-empty query stays non-empty |
| Query.RewriteQuery | cogs/api.py:168 | on a one-line query the substitution strips the qualifier, and it never lengthens the query |
| Query.QualifierNotDiscord | cogs/api.py:168 | a query that does not start with `d` can lose at most `commands.` |
| Query.RewriteNestedExample | cogs/api.py:168 | `discord.ext.commands.Bot` becomes `Bot` |
| Query.RewriteBareExample | cogs/api.py:168 | `discord.ext.` becomes `ext.`, since the captured group must match something |
| Query.RewriteCommandsExample | cogs/api.py:168 | `commands.Cog` becomes `Cog` |
| Query.RewritePlainExample | cogs/api.py:168 | `Client` is kept |
| Query.MemberHit | cogs/api.py:173-178 | the loop over member names finds a hit exactly when some name not starting with `_` equals the query, and the hit is the query |
| Query.Redirect | cogs/api.py:170-178 | for `latest*` sources a lower-cased query equal to a public member name becomes `abc.Messageable.<name>`; every other query is kept |
| Query.PrepareQuery | cogs/api.py:168-178 | the query handed to the fuzzy search is the stripped query or its Messageable redirect, and never the redirect for other sources |
| Query.DashToDot | cogs/api.py:264 | `replace('-', '.')`, computed as CPython does by finding each `-` in turn and writing `.` in its place, leaves the length unchanged, puts `.` at every position that held `-`, and keeps every other character where it was |
| Query.LibraryName | cogs/api.py:258-264 | the channel name after its first `_` (all of it when there is none), with dashes turned into dots; the result has no `-` |
| Query.LibraryNameOfLanguageChannel | cogs/api.py:258-264 | a `language_<name>` channel gives `<name>` with dots for dashes, whatever `<name>` contains |
| EmojiPattern.DigitRun | cogs/emoji.py:10 | the digit run starting at a position: all digits, and followed by a non-digit or the end |
| EmojiPattern.IdLengthExact | cogs/emoji.py:10 | `([0-9]{15,21})>` matches with exactly one digit count, the whole digit run, so backtracking finds no other capture |
| EmojiPattern.CloseFrom | cogs/emoji.py:10 | the lazy name group stops at the first colon in reach that is followed by an id and `>` |
| EmojiPattern.MatchAt | cogs/emoji.py:10 | a match at a position captures a 15 to 21 digit id and ends after its start |
| EmojiPattern.MatchAtLeftmost | cogs/emoji.py:10 | the attempt at a position fails exactly when no colon works, and otherwise returns the match of the nearest working colon |
| EmojiPattern.FindAll | cogs/emoji.py:44 | every id `findall` returns is 15 to 21 ASCII digits |
| EmojiPattern.Ids | cogs/emoji.py:44 | every id extracted from a message is 15 to 21 ASCII digits |
| EmojiPattern.NoOpeningNoIds | cogs/emoji.py:44 | text without `<` mentions no emoji |
| EmojiPattern.MentionYieldsId | cogs/emoji.py:44 | a message that is one mention `<:name:id>` (name without colon or newline) yields exactly that id |
| EmojiStats.Tally | cogs/emoji.py:48-55 | after the loop each id's count is its old count (0 if absent) plus the number of times it occurs in the extracted list; ids not in the list keep their counts, and no other key appears |
| EmojiStats.OnMessage | cogs/emoji.py:40-57 | nothing is written when the message has no guild or no emoji; otherwise only that guild's counts are replaced, by the tallied ones |
| EmojiStats.TallyPositive | cogs/emoji.py:48-55 | every count the counters hold is positive |
| EmojiStats.AddCounts | cogs/emoji.py:64 | `Counter.update` with a mapping adds the counts key by key |
| EmojiStats.SumOfLast | cogs/emoji.py:63-64 | the per-id sum over guilds can be accumulated in loop order |
| EmojiStats.TotalUsage | cogs/emoji.py:62-64 | the total usage of an id is the sum of its counts over all guilds, and its keys are the ids some guild counts |
| EmojiStats.SumOfPermutation | cogs/emoji.py:63-64 | an id's sum over the guilds does not depend on the order the guilds come in |
| EmojiStats.TotalUsagePermutation | cogs/emoji.py:62-64 | the totals are the same whatever order the store yields the guild counters in |
| EmojiStats.Dedup | cogs/emoji.py:61 | the blob id table holds each blob id once and nothing else |
| EmojiStats.DedupDistinct | cogs/emoji.py:61 | distinct ids keep their order in the table |
| EmojiStats.DedupFirstOccurrence | cogs/emoji.py:61 | the table lists the ids in the order of their first occurrence, as a `dict` built by a comprehension does |
| EmojiStats.UsageOf | cogs/emoji.py:66-67 | each blob id is paired with its total usage, 0 if never used |
| EmojiStats.BlobUsage | cogs/emoji.py:66-67 | the blob usage counter has exactly the blob ids as keys, each once, each mapped to its total usage |
| EmojiStats.InsertPermutes | cogs/emoji.py:71 | inserting an item adds exactly that item |
| EmojiStats.InsertDescending | cogs/emoji.py:71 | insertion keeps counts in non-increasing order |
| EmojiStats.MostCommonSorts | cogs/emoji.py:71 | `most_common()` has each count at least the next, and loses or adds no item |
| EmojiStats.MostCommonSorted | cogs/emoji.py:71 | `most_common()` has non-increasing counts and is a permutation of the counter's items |
| EmojiStats.InsertStable | cogs/emoji.py:71 | an inserted item comes after every earlier item of the same count |
| EmojiStats.MostCommonStable | cogs/emoji.py:71 | items of equal count keep their original order, as `sorted` is stable |
| EmojiStats.Rank | cogs/emoji.py:100-104 | the rank is one more than the position of the first item with the id, and none when no item has it |
| EmojiStats.PermutationKeepsIds | cogs/emoji.py:71 | reordering keeps the set of ids |
| EmojiStats.InsertKeepsDistinct | cogs/emoji.py:71 | inserting an item with a new id keeps every id at most once |
| EmojiStats.MostCommonDistinct | cogs/emoji.py:71 | `most_common()` of a counter lists each id at most once |
| EmojiStats.BlobOrder | cogs/emoji.py:61-71 | `most_common()` of the blob usage lists every blob id exactly once, with its total, by decreasing use |
| EmojiStats.OrderedBlobItems | cogs/emoji.py:66-71 | every ordered item is a blob id with its total usage |
| EmojiStats.RankOfBlob | cogs/emoji.py:95-104 | an emoji has a rank exactly when it is a blob, and the ranked item is that emoji with its usage |
| EmojiStats.StatsFor | cogs/emoji.py:95-104 | the usage and the rank are both present exactly for blob ids; the usage is the id's total and the rank points at the id's own item |
| EmojiStats.TopIsMostUsed | cogs/emoji.py:80 | the first seven items are used at least as often as every later item |
| EmojiStats.BottomIsLeastUsed | cogs/emoji.py:81 | the last seven items are used at most as often as every earlier item |
| EmojiStats.ListsOfOrder | cogs/emoji.py:80-81 | both lists stay ordered and hold only blob ids with their usage |
| EmojiStats.ListsOfBlobs | cogs/emoji.py:80-81 | cut from such an ordering, the top list holds no id twice and no blob id left out of it is used more than any item in it; the bottom list holds no id twice and no blob id left out of it is used less |
| EmojiStats.TotalOfUsage | cogs/emoji.py:66-72 | the sum of the blob usage counter's values is each blob id's usage summed over the guilds |
| EmojiStats.AllBlobStats | cogs/emoji.py:60-81 | the top and bottom lists each hold seven items, or every blob id when there are fewer; they are ordered, hold each id at most once, each a blob id with its total usage; the top list holds the most used blob ids and the bottom list the least used; the blob total is the usage of the distinct blob ids summed over the guilds |
| EmojiStats.SumValuesRemove | cogs/emoji.py:73 | the global total can be computed starting from any id |
| EmojiStats.DistinctUsageBounded | cogs/emoji.py:72-73 | the usage of distinct ids adds up to no more than the global total |
| EmojiStats.BlobTotalBounded | cogs/emoji.py:72-73 | the blob total never exceeds the global total |

## Left out

- zlib inflation (`read_compressed_chunks`, cogs/api.py:27-34) is a foreign library. Its output is the given sequence of chunks.
- UTF-8 decoding (cogs/api.py:22, 42) is left out. Lines are character sequences, so the splitter works on characters rather than bytes.
- The header is given as text. The model reads it with `readline` and `rstrip`; it stands for the uncompressed start of the file.
- Fetching the inventories and caching them (`build_rtfm_lookup_table`, cogs/api.py:139-150) is asynchronous network I/O and is left out.
- The fuzzy finder and its cut to eight results (cogs/api.py:184) live in `fuzzy.finder`. That helper is not part of this model; the model ends with the prepared query.
- The `obj is None` branch of `do_rtfm` (cogs/api.py:160-162) only posts a fixed URL, so it is not modelled.
- `dir(discord.abc.Messageable)` (cogs/api.py:173) is live introspection. It is a parameter: a sequence of non-empty names.
- The Discord plumbing in cogs/api.py is left out, as it is chat, database, timer and HTML I/O:
  - the issue-link listener;
  - `BotUser`;
  - `stats`;
  - `tempblock` and its timer;
  - the FAQ commands.
- `config.Config` persistence, the embeds and the float percentages in cogs/emoji.py are left out:
  - the percentages include a division by zero when a total is 0;
  - the model keeps the counts and totals they are computed from.
- `BlobEmoji.convert` (cogs/emoji.py:12-27) depends on live guild data and is left out.
- The blob guild's emoji ids are a parameter. So is the order in which the store yields its guild counters; `EmojiStats.TotalUsagePermutation` shows that the totals do not depend on that order.
- `Inventory.ParseObjectInv`: the result is a `map`, which has no order. The source returns a `dict`, whose insertion order `do_rtfm` hands to `fuzzy.finder` through `items()` (cogs/api.py:180-184); an overwritten key keeps its first position there. Since the fuzzy finder is not part of this model, neither is that order.
- `Inventory.WrittenEntryFound`: it speaks of entries whose line the pattern splits at the entry's own name (`EntryPattern.ReadsBack`). The pattern itself cuts some other names short, as `EntryPattern.SpacedColonNameMisread` shows. Such an entry is stored under the key of what was read; the lemma does not say which key that is.
- `Inventory.Join`: models `posixpath.join`, which is `os.path.join` on POSIX systems. `ntpath.join`, which is `os.path.join` on Windows, with drive letters and backslashes, is not modelled.
- `EntryPattern.Match`: `\d` and `\s` are read as Python's `str` classes, except that `\d` is limited to the ASCII digits. Python also accepts other Unicode decimal digits in a priority.
- `Text.Lower`: lower-cases ASCII letters only. `str.lower` also maps non-ASCII letters, so `Query.Redirect` compares member names with ASCII lower-casing.
- `Query.RewriteQuery`: for a query with a newline the contract states only the length bound. The definition keeps everything from the first newline on unchanged, because `.` does not cross a newline.

The project and version header values are taken by dropping the first 11 characters of the
rstripped line (`[11:]`). `# Project: ` and `# Version: ` are each 11 characters long, so exactly the tag is dropped.

The duplicate-module skip (cogs/api.py:114-120) tests the raw entry name, while the key stored is
the display name or, for `discord.py`, the namespace-stripped name. So for a `discord.` module of
the `discord.py` project the skip never fires, and a second entry for the module replaces the
first one's URL (`Inventory.DiscordModuleNotSkipped`). The duplicate entries the skip guards
against come from Sphinx 1.1 and earlier. The model keeps the code's behaviour.
