/**
 * The line splitting of `SphinxObjectFileReader.read_compressed_lines`
 * (cogs/api.py): every decompressed chunk is appended to a buffer, and each
 * complete line is cut off the front of the buffer as soon as its newline has
 * arrived. Whatever follows the last newline stays in the buffer and is
 * dropped when the chunks run out.
 *
 * The chunks are the decompressor's outputs, the final `flush()` included;
 * inflating them is not part of this model. Bytes are modelled as characters.
 */
module LineReader {
  import opened Text

  predicate NoNewlines(lines: seq<string>) {
    forall i :: 0 <= i < |lines| ==> NewlineFree(lines[i])
  }

  /** The lines yielded so far and the text still waiting for its newline. */
  datatype Pending = Pending(lines: seq<string>, buf: string)

  /** Each line followed by its newline, in order. */
  function JoinLines(lines: seq<string>): string {
    if |lines| == 0 then "" else lines[0] + [NL] + JoinLines(lines[1..])
  }

  /** The concatenation of the chunks: the whole decompressed text. */
  function Concat(chunks: seq<string>): string {
    if |chunks| == 0 then "" else Concat(chunks[..|chunks| - 1]) + chunks[|chunks| - 1]
  }

  /**
   * The inner `while pos != -1` loop: cut every complete line off the front
   * of `buf`. The cut-off lines, rejoined, are exactly `buf` minus a
   * newline-free rest.
   */
  function Drain(buf: string): (p: Pending)
    ensures NoNewlines(p.lines) && NewlineFree(p.buf)
    ensures JoinLines(p.lines) + p.buf == buf
    decreases |buf|
  {
    var pos := FindChar(buf, NL);
    if pos < 0 then Pending([], buf)
    else
      var rest := Drain(buf[pos + 1..]);
      DrainStep(buf, pos, rest);
      Pending([buf[..pos]] + rest.lines, rest.buf)
  }

  /** Cutting one line off the front keeps the text and the newline-free lines. */
  lemma DrainStep(buf: string, pos: nat, rest: Pending)
    requires pos < |buf| && buf[pos] == NL && forall i :: 0 <= i < pos ==> buf[i] != NL
    requires NoNewlines(rest.lines) && JoinLines(rest.lines) + rest.buf == buf[pos + 1..]
    ensures NoNewlines([buf[..pos]] + rest.lines)
    ensures JoinLines([buf[..pos]] + rest.lines) + rest.buf == buf
  {
    assert NewlineFree(buf[..pos]);
    var all := [buf[..pos]] + rest.lines;
    assert all[1..] == rest.lines;
    forall i | 0 <= i < |all| ensures NewlineFree(all[i]) {
      if i > 0 {
        assert all[i] == rest.lines[i - 1];
      }
    }
    assert buf == buf[..pos] + [NL] + buf[pos + 1..];
  }

  /** One turn of the outer loop: `buf += chunk`, then drain. */
  function Feed(p: Pending, chunk: string): Pending {
    var d := Drain(p.buf + chunk);
    Pending(p.lines + d.lines, d.buf)
  }

  lemma {:induction false} JoinLinesAppend(a: seq<string>, b: seq<string>)
    ensures JoinLines(a + b) == JoinLines(a) + JoinLines(b)
    decreases |a|
  {
    if |a| == 0 {
      assert a + b == b;
    } else {
      assert (a + b)[1..] == a[1..] + b;
      JoinLinesAppend(a[1..], b);
    }
  }

  lemma NoNewlinesAppend(a: seq<string>, b: seq<string>)
    requires NoNewlines(a) && NoNewlines(b)
    ensures NoNewlines(a + b)
  {
    var all := a + b;
    forall i | 0 <= i < |all| ensures NewlineFree(all[i]) {
      if i < |a| {
        assert all[i] == a[i];
      } else {
        assert all[i] == b[i - |a|];
      }
    }
  }

  /** Feeding a chunk extends the spelled-out text by exactly that chunk. */
  lemma FeedKeepsText(p: Pending, chunk: string)
    requires NoNewlines(p.lines)
    ensures NoNewlines(Feed(p, chunk).lines) && NewlineFree(Feed(p, chunk).buf)
    ensures JoinLines(Feed(p, chunk).lines) + Feed(p, chunk).buf == JoinLines(p.lines) + p.buf + chunk
  {
    var d := Drain(p.buf + chunk);
    NoNewlinesAppend(p.lines, d.lines);
    JoinLinesAppend(p.lines, d.lines);
    SeqAssoc(JoinLines(p.lines), JoinLines(d.lines), d.buf);
    SeqAssoc(JoinLines(p.lines), p.buf, chunk);
  }

  /**
   * The state after the outer loop has consumed `chunks`: the yielded lines
   * and the buffer together spell out the concatenated chunks, and neither
   * a yielded line nor the buffer holds a newline.
   */
  function Read(chunks: seq<string>): (p: Pending)
    ensures NoNewlines(p.lines) && NewlineFree(p.buf)
    ensures JoinLines(p.lines) + p.buf == Concat(chunks)
  {
    if |chunks| == 0 then Pending([], "")
    else
      var before := Read(chunks[..|chunks| - 1]);
      FeedKeepsText(before, chunks[|chunks| - 1]);
      Feed(before, chunks[|chunks| - 1])
  }

  /** The lines `read_compressed_lines` yields for the given decompressed chunks. */
  function ReadCompressedLines(chunks: seq<string>): seq<string> {
    Read(chunks).lines
  }

  /** The longest prefix of `s` that is empty or ends in a newline. */
  function NewlinePrefix(s: string): (r: string)
    ensures |r| <= |s| && r == s[..|r|]
    ensures |r| == 0 || s[|r| - 1] == NL
    ensures forall i :: |r| <= i < |s| ==> s[i] != NL
  {
    if |s| == 0 then ""
    else if s[|s| - 1] == NL then s
    else NewlinePrefix(s[..|s| - 1])
  }

  /** Joined lines followed by a newline-free rest hold a newline exactly when there is a line. */
  lemma JoinedHasNewline(lines: seq<string>, rest: string)
    requires NewlineFree(rest)
    ensures NewlineFree(JoinLines(lines) + rest) <==> |lines| == 0
  {
    if |lines| > 0 {
      var j := JoinLines(lines);
      assert j == (lines[0] + [NL]) + JoinLines(lines[1..]);
      assert j[|lines[0]|] == (lines[0] + [NL])[|lines[0]|] == NL;
      assert (j + rest)[|lines[0]|] == NL;
    } else {
      assert JoinLines(lines) + rest == rest;
    }
  }

  /** The first newline of `line + "\n" + rest` is the one after `line`. */
  lemma FirstNewline(line: string, rest: string)
    requires NewlineFree(line)
    ensures FindChar(line + [NL] + rest, NL) == |line|
  {
    var s := line + [NL] + rest;
    assert forall i :: 0 <= i < |line| ==> s[i] == line[i];
    assert s[|line|] == NL;
  }

  /** A sequence of lines is cut at newlines in only one way. */
  lemma {:induction false} SplitUnique(l1: seq<string>, b1: string, l2: seq<string>, b2: string)
    requires NoNewlines(l1) && NoNewlines(l2) && NewlineFree(b1) && NewlineFree(b2)
    requires JoinLines(l1) + b1 == JoinLines(l2) + b2
    ensures l1 == l2 && b1 == b2
    decreases |l1|
  {
    JoinedHasNewline(l1, b1);
    JoinedHasNewline(l2, b2);
    if |l1| == 0 {
      assert JoinLines(l1) + b1 == b1;
      assert JoinLines(l2) + b2 == b2;
    } else {
      var s := JoinLines(l1) + b1;
      assert s == l1[0] + [NL] + (JoinLines(l1[1..]) + b1);
      assert s == l2[0] + [NL] + (JoinLines(l2[1..]) + b2);
      FirstNewline(l1[0], JoinLines(l1[1..]) + b1);
      FirstNewline(l2[0], JoinLines(l2[1..]) + b2);
      assert l1[0] == s[..|l1[0]|] == l2[0];
      assert JoinLines(l1[1..]) + b1 == s[|l1[0]| + 1..] == JoinLines(l2[1..]) + b2;
      SplitUnique(l1[1..], b1, l2[1..], b2);
      assert l1 == [l1[0]] + l1[1..];
      assert l2 == [l2[0]] + l2[1..];
    }
  }

  /**
   * The yielded lines depend only on the decompressed text, never on where
   * the decompressor happened to cut it into chunks.
   */
  lemma ChunkBoundariesIrrelevant(chunks: seq<string>)
    ensures Read(chunks) == Drain(Concat(chunks))
  {
    var p, q := Read(chunks), Drain(Concat(chunks));
    SplitUnique(p.lines, p.buf, q.lines, q.buf);
  }

  lemma SameTextSameLines(c1: seq<string>, c2: seq<string>)
    requires Concat(c1) == Concat(c2)
    ensures ReadCompressedLines(c1) == ReadCompressedLines(c2)
  {
    ChunkBoundariesIrrelevant(c1);
    ChunkBoundariesIrrelevant(c2);
  }

  lemma {:induction false} JoinLinesEndsInNewline(lines: seq<string>)
    ensures |JoinLines(lines)| == 0 || JoinLines(lines)[|JoinLines(lines)| - 1] == NL
    decreases |lines|
  {
    if |lines| > 0 {
      JoinLinesEndsInNewline(lines[1..]);
    }
  }

  /** Text ending in a newline, followed by newline-free text, is cut back to the newline. */
  lemma {:induction false} NewlinePrefixOfJoin(j: string, b: string)
    requires |j| == 0 || j[|j| - 1] == NL
    requires NewlineFree(b)
    ensures NewlinePrefix(j + b) == j
    decreases |b|
  {
    if |b| == 0 {
      assert j + b == j;
    } else {
      var s := j + b;
      assert s[|s| - 1] == b[|b| - 1];
      assert s[..|s| - 1] == j + b[..|b| - 1];
      NewlinePrefixOfJoin(j, b[..|b| - 1]);
    }
  }

  /**
   * The yielded lines, each followed by a newline, are exactly the longest
   * prefix of the decompressed text that ends in a newline.
   */
  lemma LinesAreNewlinePrefix(chunks: seq<string>)
    ensures NoNewlines(ReadCompressedLines(chunks))
    ensures JoinLines(ReadCompressedLines(chunks)) == NewlinePrefix(Concat(chunks))
  {
    var p := Read(chunks);
    JoinLinesEndsInNewline(p.lines);
    NewlinePrefixOfJoin(JoinLines(p.lines), p.buf);
  }

  /**
   * Text after the last newline is never yielded: a final chunk without a
   * newline (such as the decompressor's flushed tail) adds no line.
   */
  lemma TailNeverYielded(chunks: seq<string>, tail: string)
    requires NewlineFree(tail)
    ensures ReadCompressedLines(chunks + [tail]) == ReadCompressedLines(chunks)
  {
    var before := Read(chunks);
    assert (chunks + [tail])[..|chunks|] == chunks;
    var d := Drain(before.buf + tail);
    assert NewlineFree(before.buf + tail);
    SplitUnique(d.lines, d.buf, [], before.buf + tail);
  }

  /** Lines written out with their newlines are read back unchanged, in one chunk or many. */
  lemma ReadsBackJoinedLines(lines: seq<string>, chunks: seq<string>)
    requires NoNewlines(lines)
    requires Concat(chunks) == JoinLines(lines)
    ensures ReadCompressedLines(chunks) == lines
  {
    var p := Read(chunks);
    SplitUnique(p.lines, p.buf, lines, "");
  }

  /** One more chunk is one more turn of the outer loop. */
  lemma ReadOneMore(chunks: seq<string>, k: nat)
    requires k < |chunks|
    ensures Read(chunks[..k + 1]) == Feed(Read(chunks[..k]), chunks[k])
  {
    assert chunks[..k + 1][..k] == chunks[..k];
  }

  /** One more turn of the inner loop. */
  lemma DrainOneMore(buf: string, pos: int)
    requires pos == FindChar(buf, NL) && pos >= 0
    ensures Drain(buf) == Pending([buf[..pos]] + Drain(buf[pos + 1..]).lines, Drain(buf[pos + 1..]).buf)
  {
  }

  /** The inner `while pos != -1` loop of the generator. */
  method DrainLoop(lines0: seq<string>, buf0: string) returns (lines: seq<string>, buf: string)
    ensures NewlineFree(buf)
    ensures lines == lines0 + Drain(buf0).lines && buf == Drain(buf0).buf
  {
    lines, buf := lines0, buf0;
    var pos := FindChar(buf, NL);
    while pos != -1
      invariant pos == FindChar(buf, NL)
      invariant lines0 + Drain(buf0).lines == lines + Drain(buf).lines
      invariant Drain(buf0).buf == Drain(buf).buf
      decreases |buf|
    {
      DrainOneMore(buf, pos);
      SeqAssoc(lines, [buf[..pos]], Drain(buf[pos + 1..]).lines);
      lines := lines + [buf[..pos]];
      buf := buf[pos + 1..];
      pos := FindChar(buf, NL);
    }
    assert Drain(buf) == Pending([], buf);
  }

  /**
   * The generator itself, loop for loop: `buf += chunk`, then cut off
   * `buf[:pos]` and keep `buf[pos + 1:]` while a newline remains.
   */
  method ReadCompressedLinesLoop(chunks: seq<string>) returns (lines: seq<string>)
    ensures NoNewlines(lines)
    ensures JoinLines(lines) == NewlinePrefix(Concat(chunks))
    ensures lines == ReadCompressedLines(chunks)
  {
    var buf := "";
    lines := [];
    var k := 0;
    while k < |chunks|
      invariant 0 <= k <= |chunks|
      invariant Read(chunks[..k]) == Pending(lines, buf)
    {
      ReadOneMore(chunks, k);
      lines, buf := DrainLoop(lines, buf + chunks[k]);
      k := k + 1;
    }
    assert chunks[..k] == chunks;
    LinesAreNewlinePrefix(chunks);
  }
}
