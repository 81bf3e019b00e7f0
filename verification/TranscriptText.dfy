/**
 Ingesting a byte range of a transcript: lines, entries and the texts in them.

 Cutting a file into pieces keeps the entries exactly when every cut touches a newline; the
 size cap keeps those of a piece exactly when it cuts off nothing but newlines.
 */
module TranscriptText {
  import opened Common

  const NEWLINE: byte := 10
  const MAX_DELTA := 2 * 1024 * 1024

  // ---------------------------------------------------------------------------
  // Lines and entries
  // ---------------------------------------------------------------------------

  /** Splitting at newlines: always at least one, possibly empty, line. */
  function Lines(s: Bytes): (r: seq<Bytes>)
    ensures |r| > 0
  {
    if s == [] then [[]]
    else
      var r := Lines(s[1..]);
      if s[0] == NEWLINE then [[]] + r else [[s[0]] + r[0]] + r[1..]
  }

  function NonEmpty(lines: seq<Bytes>): seq<Bytes> {
    if lines == [] then []
    else (if lines[0] == [] then [] else [lines[0]]) + NonEmpty(lines[1..])
  }

  /** The non-empty lines, the ones that can hold a transcript entry. */
  function Entries(s: Bytes): seq<Bytes> {
    NonEmpty(Lines(s))
  }

  /** `decode` stands for reading one line: the assistant text in it, or nothing. */
  type Decoder = Bytes -> string

  function Collect(entries: seq<Bytes>, decode: Decoder): seq<string> {
    if entries == [] then []
    else
      var t := decode(entries[|entries| - 1]);
      Collect(entries[..|entries| - 1], decode) + if t == "" then [] else [t]
  }

  function Texts(s: Bytes, decode: Decoder): seq<string> {
    Collect(Entries(s), decode)
  }

  lemma {:induction false} NonEmptyAppends(a: seq<Bytes>, b: seq<Bytes>)
    ensures NonEmpty(a + b) == NonEmpty(a) + NonEmpty(b)
  {
    if a == [] {
      assert a + b == b;
    } else {
      assert (a + b)[1..] == a[1..] + b;
      NonEmptyAppends(a[1..], b);
    }
  }

  lemma {:induction false} CollectAppends(a: seq<Bytes>, b: seq<Bytes>, decode: Decoder)
    ensures Collect(a + b, decode) == Collect(a, decode) + Collect(b, decode)
  {
    if b == [] {
      assert a + b == a;
    } else {
      assert (a + b)[..|a + b| - 1] == a + b[..|b| - 1];
      CollectAppends(a, b[..|b| - 1], decode);
    }
  }

  function LastLine(s: Bytes): Bytes {
    Lines(s)[|Lines(s)| - 1]
  }

  /** The last line of `x` and the first of `y` become one. */
  function Glue(x: seq<Bytes>, y: seq<Bytes>): (r: seq<Bytes>)
    requires |x| > 0 && |y| > 0
    ensures |r| > 0
  {
    x[..|x| - 1] + [x[|x| - 1] + y[0]] + y[1..]
  }

  lemma GlueAfterNewline(x: seq<Bytes>, y: seq<Bytes>)
    requires |x| > 0 && |y| > 0
    ensures Glue([[]] + x, y) == [[]] + Glue(x, y)
  {
  }

  lemma GlueAfterByte(c: byte, x: seq<Bytes>, y: seq<Bytes>)
    requires |x| > 0 && |y| > 0
    ensures Glue([[c] + x[0]] + x[1..], y) == [[c] + Glue(x, y)[0]] + Glue(x, y)[1..]
  {
    if |x| == 1 {
      assert [c] + (x[0] + y[0]) == ([c] + x[0]) + y[0];
      assert Glue(x, y) == [x[0] + y[0]] + y[1..];
    } else {
      var z := [[c] + x[0]] + x[1..];
      assert z[..|z| - 1] == [[c] + x[0]] + x[1..|x| - 1];
      assert x[..|x| - 1] == [x[0]] + x[1..|x| - 1];
    }
  }

  /** Gluing two stretches of bytes glues the last line of one to the first of the other. */
  lemma {:induction false} LinesJoin(a: Bytes, b: Bytes)
    ensures Lines(a + b) == Glue(Lines(a), Lines(b))
  {
    if a == [] {
      assert a + b == b;
      assert [] + Lines(b)[0] == Lines(b)[0];
    } else {
      assert (a + b)[1..] == a[1..] + b;
      LinesJoin(a[1..], b);
      if a[0] == NEWLINE {
        GlueAfterNewline(Lines(a[1..]), Lines(b));
      } else {
        GlueAfterByte(a[0], Lines(a[1..]), Lines(b));
      }
    }
  }

  lemma {:induction false} LastLineEmpty(a: Bytes)
    ensures LastLine(a) == [] <==> a == [] || a[|a| - 1] == NEWLINE
  {
    if a != [] {
      LastLineEmpty(a[1..]);
    }
  }

  lemma FirstLineEmpty(b: Bytes)
    ensures Lines(b)[0] == [] <==> b == [] || b[0] == NEWLINE
  {
  }

  /** The boundary between the two touches a newline. */
  predicate CleanJoin(a: Bytes, b: Bytes)
    requires a != [] && b != []
  {
    a[|a| - 1] == NEWLINE || b[0] == NEWLINE
  }

  function Solo(line: Bytes): seq<Bytes> {
    if line == [] then [] else [line]
  }

  lemma EntriesAtEnd(a: Bytes)
    ensures Entries(a) == NonEmpty(Lines(a)[..|Lines(a)| - 1]) + Solo(LastLine(a))
  {
    var init := Lines(a)[..|Lines(a)| - 1];
    assert Lines(a) == init + [LastLine(a)];
    NonEmptyAppends(init, [LastLine(a)]);
    assert NonEmpty([LastLine(a)]) == Solo(LastLine(a));
  }

  lemma EntriesGlued(x: seq<Bytes>, y: seq<Bytes>)
    requires |x| > 0 && |y| > 0
    ensures NonEmpty(Glue(x, y)) == NonEmpty(x[..|x| - 1]) + Solo(x[|x| - 1] + y[0]) + NonEmpty(y[1..])
  {
    var init, line := x[..|x| - 1], x[|x| - 1] + y[0];
    NonEmptyAppends(init + [line], y[1..]);
    NonEmptyAppends(init, [line]);
    assert NonEmpty([line]) == Solo(line);
  }

  /** A clean join keeps the entries; any other join merges two of them. */
  lemma EntriesJoin(a: Bytes, b: Bytes)
    requires a != [] && b != []
    ensures CleanJoin(a, b) ==> Entries(a + b) == Entries(a) + Entries(b)
    ensures !CleanJoin(a, b) ==> |Entries(a + b)| == |Entries(a)| + |Entries(b)| - 1
  {
    var u, v := LastLine(a), Lines(b)[0];
    LinesJoin(a, b);
    EntriesGlued(Lines(a), Lines(b));
    EntriesAtEnd(a);
    LastLineEmpty(a);
    FirstLineEmpty(b);
    SoloJoin(NonEmpty(Lines(a)[..|Lines(a)| - 1]), u, v, NonEmpty(Lines(b)[1..]));
  }

  lemma SoloJoin(before: seq<Bytes>, u: Bytes, v: Bytes, behind: seq<Bytes>)
    ensures u == [] || v == [] ==>
      before + Solo(u + v) + behind == (before + Solo(u)) + (Solo(v) + behind)
    ensures u != [] && v != [] ==>
      |before + Solo(u + v) + behind| == |before + Solo(u)| + |Solo(v) + behind| - 1
  {
    assert u == [] ==> u + v == v;
    assert v == [] ==> u + v == u;
  }

  // ---------------------------------------------------------------------------
  // How much an entry sequence holds
  // ---------------------------------------------------------------------------

  function Weight(entries: seq<Bytes>): nat {
    if entries == [] then 0 else |entries[0]| + Weight(entries[1..])
  }

  /** The bytes that are not newlines. */
  function Solid(s: Bytes): nat {
    if s == [] then 0 else (if s[0] == NEWLINE then 0 else 1) + Solid(s[1..])
  }

  lemma {:induction false} WeightAppends(a: seq<Bytes>, b: seq<Bytes>)
    ensures Weight(a + b) == Weight(a) + Weight(b)
  {
    if a == [] {
      assert a + b == b;
    } else {
      assert (a + b)[1..] == a[1..] + b;
      WeightAppends(a[1..], b);
    }
  }

  lemma {:induction false} SolidAppends(a: Bytes, b: Bytes)
    ensures Solid(a + b) == Solid(a) + Solid(b)
  {
    if a == [] {
      assert a + b == b;
    } else {
      assert (a + b)[1..] == a[1..] + b;
      SolidAppends(a[1..], b);
    }
  }

  lemma {:induction false} EntriesWeigh(s: Bytes)
    ensures Weight(Entries(s)) == Solid(s)
  {
    if s != [] {
      EntriesWeigh(s[1..]);
      var r := Lines(s[1..]);
      if s[0] == NEWLINE {
        assert ([[]] + r)[1..] == r;
        assert Entries(s) == Entries(s[1..]);
      } else {
        var tail := NonEmpty(r[1..]);
        assert Entries(s) == [[s[0]] + r[0]] + tail;
        WeightAppends([[s[0]] + r[0]], tail);
        WeightAppends(if r[0] == [] then [] else [r[0]], tail);
      }
    }
  }

  predicate OnlyNewlines(s: Bytes) {
    forall i :: 0 <= i < |s| ==> s[i] == NEWLINE
  }

  lemma {:induction false} OnlyNewlinesIffNotSolid(s: Bytes)
    ensures OnlyNewlines(s) <==> Solid(s) == 0
    ensures OnlyNewlines(s) ==> Entries(s) == []
  {
    if s != [] {
      OnlyNewlinesIffNotSolid(s[1..]);
      assert s == [s[0]] + s[1..];
    }
  }

  // ---------------------------------------------------------------------------
  // Pieces of a file
  // ---------------------------------------------------------------------------

  function Concat(chunks: seq<Bytes>): Bytes {
    if chunks == [] then [] else Concat(chunks[..|chunks| - 1]) + chunks[|chunks| - 1]
  }

  function EntriesOf(chunks: seq<Bytes>): seq<Bytes> {
    if chunks == [] then [] else EntriesOf(chunks[..|chunks| - 1]) + Entries(chunks[|chunks| - 1])
  }

  function Cap(chunk: Bytes): Bytes {
    if |chunk| > MAX_DELTA then chunk[..MAX_DELTA] else chunk
  }

  function Caps(chunks: seq<Bytes>): (r: seq<Bytes>)
    ensures |r| == |chunks|
  {
    seq(|chunks|, i requires 0 <= i < |chunks| => Cap(chunks[i]))
  }

  /** The size cap cuts off nothing but newlines. */
  predicate NothingLost(chunk: Bytes) {
    |chunk| > MAX_DELTA ==> OnlyNewlines(chunk[MAX_DELTA..])
  }

  ghost predicate CleanJoins(chunks: seq<Bytes>)
    requires forall i :: 0 <= i < |chunks| ==> chunks[i] != []
  {
    forall i, j :: 0 <= i < j < |chunks| && j == i + 1 ==> CleanJoin(chunks[i], chunks[j])
  }

  lemma CapKeeps(chunk: Bytes)
    ensures Solid(Cap(chunk)) <= Solid(chunk)
    ensures NothingLost(chunk) <==> Solid(Cap(chunk)) == Solid(chunk)
    ensures NothingLost(chunk) ==> Entries(Cap(chunk)) == Entries(chunk)
  {
    if |chunk| > MAX_DELTA {
      var a, b := chunk[..MAX_DELTA], chunk[MAX_DELTA..];
      assert chunk == a + b;
      SolidAppends(a, b);
      OnlyNewlinesIffNotSolid(b);
      if NothingLost(chunk) {
        EntriesJoin(a, b);
        assert Entries(a) + [] == Entries(a);
      }
    }
  }

  lemma {:induction false} ConcatEnds(chunks: seq<Bytes>)
    requires chunks != [] && forall i :: 0 <= i < |chunks| ==> chunks[i] != []
    ensures var c, last := Concat(chunks), chunks[|chunks| - 1];
            c != [] && c[|c| - 1] == last[|last| - 1]
  {
  }

  lemma CleanJoinsAppend(init: seq<Bytes>, last: Bytes)
    requires init != [] && last != [] && forall i :: 0 <= i < |init| ==> init[i] != []
    ensures CleanJoins(init + [last]) <==> CleanJoins(init) && CleanJoin(init[|init| - 1], last)
  {
    var chunks := init + [last];
    if CleanJoins(chunks) {
      forall i, j | 0 <= i < j < |init| && j == i + 1 ensures CleanJoin(init[i], init[j]) {
        assert CleanJoin(chunks[i], chunks[j]);
      }
      var i, j := |init| - 1, |init|;
      assert CleanJoin(chunks[i], chunks[j]);
    }
  }

  /** Entry counts: pieces never have fewer entries than the whole, and as many only when
      every join is clean, in which case the entries are the same. */
  lemma {:induction false} JoinsMergeEntries(chunks: seq<Bytes>)
    requires forall i :: 0 <= i < |chunks| ==> chunks[i] != []
    ensures |Entries(Concat(chunks))| <= |EntriesOf(chunks)|
    ensures CleanJoins(chunks) ==> Entries(Concat(chunks)) == EntriesOf(chunks)
    ensures |Entries(Concat(chunks))| == |EntriesOf(chunks)| ==> CleanJoins(chunks)
    decreases |chunks|
  {
    if chunks == [] {
      assert Entries([]) == [];
    } else {
      var init, last := chunks[..|chunks| - 1], chunks[|chunks| - 1];
      JoinsMergeEntries(init);
      if init == [] {
        assert Concat(init) + last == last;
        assert EntriesOf(init) + Entries(last) == Entries(last);
      } else {
        ConcatEnds(init);
        EntriesJoin(Concat(init), last);
        assert CleanJoin(Concat(init), last) <==> CleanJoin(init[|init| - 1], last);
        assert chunks == init + [last];
        CleanJoinsAppend(init, last);
      }
    }
  }

  predicate AllKept(chunks: seq<Bytes>) {
    forall i :: 0 <= i < |chunks| ==> NothingLost(chunks[i])
  }

  lemma CapsStep(init: seq<Bytes>, last: Bytes)
    ensures EntriesOf(Caps(init + [last])) == EntriesOf(Caps(init)) + Entries(Cap(last))
    ensures EntriesOf(init + [last]) == EntriesOf(init) + Entries(last)
    ensures Concat(init + [last]) == Concat(init) + last
    ensures AllKept(init + [last]) <==> AllKept(init) && NothingLost(last)
  {
    var chunks := init + [last];
    assert chunks[..|init|] == init;
    assert Caps(chunks)[..|init|] == Caps(init);
    assert chunks[|init|] == last;
  }

  /** Entry weights: the capped pieces weigh as much as the whole only when nothing is lost. */
  lemma {:induction false} CapsLoseWeight(chunks: seq<Bytes>)
    ensures Weight(EntriesOf(Caps(chunks))) <= Solid(Concat(chunks))
    ensures Weight(EntriesOf(Caps(chunks))) == Solid(Concat(chunks)) <==> AllKept(chunks)
    ensures AllKept(chunks) ==> EntriesOf(Caps(chunks)) == EntriesOf(chunks)
    decreases |chunks|
  {
    if chunks != [] {
      var init, last := chunks[..|chunks| - 1], chunks[|chunks| - 1];
      CapsLoseWeight(init);
      assert chunks == init + [last];
      CapsStep(init, last);
      WeightAppends(EntriesOf(Caps(init)), Entries(Cap(last)));
      EntriesWeigh(Cap(last));
      SolidAppends(Concat(init), last);
      CapKeeps(last);
    }
  }

  /** The exact condition under which ingesting the capped pieces sees the entries of the whole. */
  lemma PiecesSeeAllEntries(chunks: seq<Bytes>)
    requires forall i :: 0 <= i < |chunks| ==> chunks[i] != []
    ensures EntriesOf(Caps(chunks)) == Entries(Concat(chunks)) <==>
            CleanJoins(chunks) && AllKept(chunks)
  {
    EntriesWeigh(Concat(chunks));
    JoinsMergeEntries(chunks);
    CapsLoseWeight(chunks);
  }

  // ---------------------------------------------------------------------------
  // Decoders see entries
  // ---------------------------------------------------------------------------

  /** A decoder that keeps the whole line. */
  function Spell(line: Bytes): string {
    seq(|line|, i requires 0 <= i < |line| => line[i] as char)
  }

  lemma {:induction false} SpelledEntries(a: seq<Bytes>, b: seq<Bytes>)
    requires (forall i :: 0 <= i < |a| ==> a[i] != []) && (forall i :: 0 <= i < |b| ==> b[i] != [])
    requires Collect(a, Spell) == Collect(b, Spell)
    ensures a == b
    decreases |a|
  {
    CollectSpelled(a);
    CollectSpelled(b);
    forall i | 0 <= i < |a| ensures a[i] == b[i] {
      assert Spell(a[i]) == Spell(b[i]);
      forall k | 0 <= k < |a[i]| ensures a[i][k] == b[i][k] {
        assert Spell(a[i])[k] == Spell(b[i])[k];
      }
    }
  }

  lemma {:induction false} CollectSpelled(a: seq<Bytes>)
    requires forall i :: 0 <= i < |a| ==> a[i] != []
    ensures |Collect(a, Spell)| == |a| && forall i :: 0 <= i < |a| ==> Collect(a, Spell)[i] == Spell(a[i])
  {
    if a != [] {
      CollectSpelled(a[..|a| - 1]);
    }
  }

  lemma {:induction false} NonEmptyAreNonEmpty(lines: seq<Bytes>)
    ensures forall i :: 0 <= i < |NonEmpty(lines)| ==> NonEmpty(lines)[i] != []
  {
    if lines != [] {
      NonEmptyAreNonEmpty(lines[1..]);
    }
  }

  lemma {:induction false} EntriesOfAreNonEmpty(chunks: seq<Bytes>)
    ensures forall i :: 0 <= i < |EntriesOf(chunks)| ==> EntriesOf(chunks)[i] != []
  {
    if chunks != [] {
      EntriesOfAreNonEmpty(chunks[..|chunks| - 1]);
      NonEmptyAreNonEmpty(Lines(chunks[|chunks| - 1]));
    }
  }

  // ---------------------------------------------------------------------------
  // One ingest
  // ---------------------------------------------------------------------------

  /** The bytes an ingest of the range reads. */
  function ReadRange(file: Bytes, from: nat, to: nat): Bytes {
    if to <= from || |file| <= from then []
    else
      var limit := if to - from > MAX_DELTA then MAX_DELTA else to - from;
      if from + limit > |file| then file[from..] else file[from..from + limit]
  }

  /** What one more line adds. */
  lemma OneMoreLine(lines: seq<Bytes>, i: nat, decode: Decoder)
    requires i < |lines|
    ensures Collect(NonEmpty(lines[..i + 1]), decode)
         == Collect(NonEmpty(lines[..i]), decode)
            + if lines[i] == [] || decode(lines[i]) == "" then [] else [decode(lines[i])]
  {
    var before, line := NonEmpty(lines[..i]), lines[i];
    assert lines[..i + 1] == lines[..i] + [line];
    NonEmptyAppends(lines[..i], [line]);
    assert NonEmpty([line]) == if line == [] then [] else [line];
    CollectAppends(before, NonEmpty([line]), decode);
    assert [line][..0] == [];
  }

  method CollectTexts(data: Bytes, decode: Decoder) returns (texts: seq<string>)
    ensures texts == Texts(data, decode)
  {
    texts := [];
    var lines := Lines(data);
    for i := 0 to |lines|
      invariant texts == Collect(NonEmpty(lines[..i]), decode)
    {
      OneMoreLine(lines, i, decode);
      if |lines[i]| == 0 {
        continue;
      }
      var text := decode(lines[i]);
      if text != "" {
        texts := texts + [text];
      }
    }
    assert lines[..|lines|] == lines;
  }

  /** Reading at most `limit` bytes from position `from` on. */
  method ReadLimited(file: Bytes, from: nat, limit: nat) returns (data: Bytes)
    ensures data == if |file| <= from then []
                    else if from + limit > |file| then file[from..] else file[from..from + limit]
  {
    if |file| <= from {
      data := [];
    } else if from + limit > |file| {
      data := file[from..];
    } else {
      data := file[from..from + limit];
    }
  }

  /** The bytes read, in numbers: at most two mebibytes, and none behind the end of the file. */
  lemma RangeInNumbers(file: Bytes, from: nat, to: nat)
    ensures to <= from || |file| <= from ==> ReadRange(file, from, to) == []
    ensures from < to && from < |file| ==>
      var wanted := if to - from > 2_097_152 then from + 2_097_152 else to;
      ReadRange(file, from, to) == file[from..if wanted > |file| then |file| else wanted]
  {
  }

  method IngestTranscriptRange(file: Bytes, from: nat, to: nat, decode: Decoder) returns (texts: seq<string>)
    ensures texts == Texts(ReadRange(file, from, to), decode)
    ensures to <= from || |file| <= from ==> texts == []
    ensures from < to && from < |file| ==>
      var wanted := if to - from > 2_097_152 then from + 2_097_152 else to;
      texts == Texts(file[from..if wanted > |file| then |file| else wanted], decode)
  {
    NoBytesNoTexts(decode);
    RangeInNumbers(file, from, to);
    if to <= from {
      return [];
    }
    var limit := to - from;
    if limit > MAX_DELTA {
      limit := MAX_DELTA;
    }
    var data := ReadLimited(file, from, limit);
    assert data == ReadRange(file, from, to);
    if |data| == 0 {
      return [];
    }
    texts := CollectTexts(data, decode);
  }

  lemma NoBytesNoTexts(decode: Decoder)
    ensures Texts([], decode) == []
  {
  }

  lemma {:induction false} LineFirst(line: Bytes, rest: Bytes)
    requires (10 as byte) !in line
    ensures Lines(line + [10] + rest) == [line] + Lines(rest)
    ensures Lines(line) == [line]
  {
    var s: Bytes := line + [10] + rest;
    if line == [] {
      assert s[1..] == rest;
    } else {
      assert s[1..] == line[1..] + [10] + rest;
      LineFirst(line[1..], rest);
      assert line == [line[0]] + line[1..];
    }
  }

  lemma CollectOne(line: Bytes, decode: Decoder)
    requires line != []
    ensures Collect([line], decode) == if decode(line) == "" then [] else [decode(line)]
  {
    assert [line][..0] == [];
  }

  /** Line by line: up to the next newline byte, a line that is not empty and decodes to a text that
      is not empty gives that text; the rest follows. */
  lemma TextsLineByLine(line: Bytes, rest: Bytes, decode: Decoder)
    requires (10 as byte) !in line
    ensures var found := if line == [] || decode(line) == "" then [] else [decode(line)];
            Texts(line, decode) == found && Texts(line + [10] + rest, decode) == found + Texts(rest, decode)
  {
    LineFirst(line, rest);
    NonEmptyAppends([line], Lines(rest));
    assert NonEmpty([line]) == Solo(line);
    CollectAppends(Solo(line), Entries(rest), decode);
    if line != [] {
      CollectOne(line, decode);
    }
  }
}
