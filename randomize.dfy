/**
  randomize_lines: populate the records, shuffle them, and emit each one
  followed by a '\n'. The output stream is modelled as the returned
  sequence of characters.
 */
module Randomize {
  import opened Segments
  import opened Shuffler

  /** What the emission loop writes for `rs`: each record's characters, then '\n'. */
  function Emitted(text: seq<char>, rs: seq<TextSegment>): seq<char> {
    if rs == [] then [] else Bytes(text, rs[0]) + ['\n'] + Emitted(text, rs[1..])
  }

  lemma {:induction false} EmittedAppend(text: seq<char>, a: seq<TextSegment>, b: seq<TextSegment>)
    ensures Emitted(text, a + b) == Emitted(text, a) + Emitted(text, b)
  {
    if a == [] {
      assert a + b == b;
    } else {
      assert (a + b)[1..] == a[1..] + b;
      EmittedAppend(text, a[1..], b);
    }
  }

  /** Emitting one more record appends its characters and a '\n'. */
  lemma EmittedSnoc(text: seq<char>, rs: seq<TextSegment>, r: TextSegment)
    ensures Emitted(text, rs + [r]) == Emitted(text, rs) + Bytes(text, r) + ['\n']
  {
    EmittedAppend(text, rs, [r]);
    assert [r][1..] == [];
  }

  /** Emitting records that hold no '\n' writes exactly one '\n' per record. */
  lemma {:induction false} EmittedNewlineCount(text: seq<char>, rs: seq<TextSegment>)
    requires forall q :: 0 <= q < |rs| ==> NoNewline(Bytes(text, rs[q]))
    ensures NewlineCount(Emitted(text, rs)) == |rs|
  {
    if rs != [] {
      var line := Bytes(text, rs[0]);
      EmittedNewlineCount(text, rs[1..]);
      NoNewlineCount(line);
      NewlineCountAppend(line + ['\n'], Emitted(text, rs[1..]));
      NewlineCountAppend(line, ['\n']);
      assert ['\n'][..0] == [];
    }
  }

  /** The shuffled records are records of the text, so none of them holds a '\n'. */
  lemma ShuffledRecordsHaveNoNewline(text: seq<char>, lineCount: nat, words: seq<Word>)
    requires lineCount <= |words| + 1
    ensures forall q :: 0 <= q < lineCount ==>
      Shuffled(Records(text, 0, lineCount), words)[q] in Records(text, 0, lineCount) &&
      NoNewline(Bytes(text, Shuffled(Records(text, 0, lineCount), words)[q]))
  {
    var records := Records(text, 0, lineCount);
    var shuffled := Shuffled(records, words);
    RecordsAreLines(text, 0, lineCount);
    forall q | 0 <= q < lineCount
      ensures shuffled[q] in records && NoNewline(Bytes(text, shuffled[q]))
    {
      assert shuffled[q] in multiset(shuffled);
      assert shuffled[q] in records;
    }
  }

  /**
    The emission loop of randomize_lines: each record's characters
    (put_text_segment), then one '\n', in array order.
   */
  method EmitLines(text: seq<char>, lines: array<TextSegment>) returns (output: seq<char>)
    ensures output == Emitted(text, lines[..])
  {
    output := [];
    var i := 0;
    while i < lines.Length
      invariant i <= lines.Length
      invariant output == Emitted(text, lines[..i])
    {
      assert lines[..i + 1] == lines[..i] + [lines[i]];
      EmittedSnoc(text, lines[..i], lines[i]);
      output := output + Bytes(text, lines[i]) + ['\n'];
      i := i + 1;
    }
    assert lines[..lines.Length] == lines[..];
  }

  /**
    randomize_lines: the output is the shuffled records, each followed by
    '\n', so it holds exactly `lineCount` newlines; the count populate_lines
    reports always equals `lineCount`.
   */
  method RandomizeLines(text: seq<char>, lineCount: nat, words: seq<Word>) returns (output: seq<char>)
    requires lineCount <= |words| + 1
    ensures output == Emitted(text, Shuffled(Records(text, 0, lineCount), words))
    ensures NewlineCount(output) == lineCount
  {
    var lines := new TextSegment[lineCount](_ => TextSegment(0, 0));
    var count := PopulateLines(text, lines, lineCount);
    assert count == lineCount;
    assert lines[..] == lines[..lineCount];
    Shuffle(lines, words);
    output := EmitLines(text, lines);
    ShuffledRecordsHaveNoNewline(text, lineCount, words);
    EmittedNewlineCount(text, lines[..]);
  }

  /**
    For two or more lines, no line is emitted at the position it had in
    the text: the records are distinct and the shuffle moves every one.
   */
  lemma ShuffledLinesAllMove(text: seq<char>, lineCount: nat, words: seq<Word>)
    requires 2 <= lineCount <= |words| + 1
    ensures var rs := Records(text, 0, lineCount);
      forall p :: 0 <= p < lineCount ==> Shuffled(rs, words)[p] != rs[p]
  {
    var rs := Records(text, 0, lineCount);
    RecordsIncreasing(text, 0, lineCount);
    ShuffledIsDerangement(rs, words);
  }

  /** The text with a '\n' appended when its last line has none. */
  function Normalized(text: seq<char>): seq<char> {
    if text == [] || text[|text| - 1] == '\n' then text else text + ['\n']
  }

  /**
    The number of lines in the text: '\n'-terminated ones plus a final
    unterminated one. A text holding only "\n" counts as one empty line.
   */
  function IntendedLineCount(text: seq<char>): nat {
    if text == [] then 0
    else NewlineCount(text) + (if text[|text| - 1] == '\n' then 0 else 1)
  }

  /** count_lines always reports one line fewer than the text has. */
  lemma LineCountDropsOne(text: seq<char>)
    requires |text| > 0
    ensures LineCount(text) + 1 == IntendedLineCount(text)
  {
    assert text == text[..|text| - 1] + [text[|text| - 1]];
    NewlineCountAppend(text[..|text| - 1], [text[|text| - 1]]);
    assert [text[|text| - 1]][..0] == [];
  }

  /**
    The records populate_lines writes under count_lines are those of the
    intended count with the last one dropped.
   */
  lemma LineCountRecordsDropLast(text: seq<char>)
    requires |text| > 0
    ensures IntendedLineCount(text) >= 1
    ensures Records(text, 0, LineCount(text))
      == Records(text, 0, IntendedLineCount(text))[..IntendedLineCount(text) - 1]
  {
    LineCountDropsOne(text);
    RecordsPrefix(text, 0, IntendedLineCount(text), LineCount(text));
  }

  /** Under count_lines, "a\nb\nc\n" and "a\nb\nc" yield only the records "a" and "b". */
  lemma LastLineDropped()
    ensures LineCount("a\nb\nc\n") == 2 && LineCount("a\nb\nc") == 2
    ensures Emitted("a\nb\nc\n", Records("a\nb\nc\n", 0, 2)) == "a\nb\n"
    ensures Emitted("a\nb\nc", Records("a\nb\nc", 0, 2)) == "a\nb\n"
  {
    LastLineDroppedTerminated();
    LastLineDroppedUnterminated();
  }

  lemma LastLineDroppedTerminated()
    ensures LineCount("a\nb\nc\n") == 2
    ensures Emitted("a\nb\nc\n", Records("a\nb\nc\n", 0, 2)) == "a\nb\n"
  {
    var t := "a\nb\nc\n";
    assert t[..5] == "a\nb\nc" && "a\nb\nc"[..4] == "a\nb\n";
    NewlineCountIsMultiplicity("a\nb\n");
    assert LineEnd(t, 0) == 1;
    assert LineEnd(t, 2) == 3;
    assert Records(t, 0, 2) == [TextSegment(0, 1), TextSegment(2, 1)];
    assert Bytes(t, TextSegment(0, 1)) == "a";
    assert Bytes(t, TextSegment(2, 1)) == "b";
    assert [TextSegment(0, 1), TextSegment(2, 1)][..1] == [TextSegment(0, 1)];
    assert "a\nb\nc"[..4] == "a\nb\n";
  }

  lemma LastLineDroppedUnterminated()
    ensures LineCount("a\nb\nc") == 2
    ensures Emitted("a\nb\nc", Records("a\nb\nc", 0, 2)) == "a\nb\n"
  {
    var t := "a\nb\nc";
    assert t[..4] == "a\nb\n";
    NewlineCountIsMultiplicity("a\nb\n");
    assert LineEnd(t, 0) == 1;
    assert LineEnd(t, 2) == 3;
    assert Records(t, 0, 2) == [TextSegment(0, 1), TextSegment(2, 1)];
    assert Bytes(t, TextSegment(0, 1)) == "a";
    assert Bytes(t, TextSegment(2, 1)) == "b";
    assert [TextSegment(0, 1), TextSegment(2, 1)][..1] == [TextSegment(0, 1)];
  }

  /** The line at cursor `c` ends in a '\n': one line, then the lines after it. */
  lemma IntendedCountPastLineEnd(text: seq<char>, c: nat)
    requires c <= LineEnd(text, c) < |text|
    ensures IntendedLineCount(text[c..]) == 1 + IntendedLineCount(text[LineEnd(text, c) + 1..])
  {
    var e := LineEnd(text, c);
    NewlinesPastLineEnd(text, c);
    if e + 1 < |text| {
      assert text[c..][|text| - c - 1] == text[e + 1..][|text| - e - 2];
    }
  }

  lemma NormalizedAfterNewline(x: seq<char>, y: seq<char>)
    ensures Normalized(x + ['\n'] + y) == x + ['\n'] + Normalized(y)
  {
    if y != [] {
      assert (x + ['\n'] + y)[|x + ['\n'] + y| - 1] == y[|y| - 1];
    }
  }

  /** An unterminated last line is one record, emitted with a '\n' added. */
  lemma IntendedLastLine(text: seq<char>, c: nat)
    requires c < |text| && LineEnd(text, c) == |text|
    ensures Emitted(text, Records(text, c, IntendedLineCount(text[c..]))) == Normalized(text[c..])
  {
    var head := TextSegment(c, |text| - c);
    NewlinesPastLineEnd(text, c);
    assert IntendedLineCount(text[c..]) == 1;
    assert Records(text, c, 1) == [head];
    assert [head][1..] == [];
  }

  /** Emitting the records from a cursor whose line ends in '\n': that line, '\n', then the rest. */
  lemma EmittedPastLineEnd(text: seq<char>, c: nat, k: nat)
    requires c <= LineEnd(text, c) < |text|
    ensures Emitted(text, Records(text, c, k + 1))
      == text[c..LineEnd(text, c)] + ['\n'] + Emitted(text, Records(text, LineEnd(text, c) + 1, k))
  {
    var e := LineEnd(text, c);
    var head, tail := TextSegment(c, e - c), Records(text, e + 1, k);
    RecordsCons(text, c, k);
    assert ([head] + tail)[1..] == tail;
    assert Bytes(text, head) == text[c..e];
  }

  lemma NormalizedPastLineEnd(text: seq<char>, c: nat)
    requires c <= LineEnd(text, c) < |text|
    ensures Normalized(text[c..])
      == text[c..LineEnd(text, c)] + ['\n'] + Normalized(text[LineEnd(text, c) + 1..])
  {
    var e := LineEnd(text, c);
    NormalizedAfterNewline(text[c..e], text[e + 1..]);
    assert text[c..] == text[c..e] + ['\n'] + text[e + 1..];
  }

  /** A '\n'-terminated line is one record followed by the records of the text after it. */
  lemma IntendedTerminatedLine(text: seq<char>, c: nat)
    requires c <= LineEnd(text, c) < |text|
    requires Emitted(text, Records(text, LineEnd(text, c) + 1, IntendedLineCount(text[LineEnd(text, c) + 1..])))
      == Normalized(text[LineEnd(text, c) + 1..])
    ensures Emitted(text, Records(text, c, IntendedLineCount(text[c..]))) == Normalized(text[c..])
  {
    IntendedCountPastLineEnd(text, c);
    EmittedPastLineEnd(text, c, IntendedLineCount(text[LineEnd(text, c) + 1..]));
    NormalizedPastLineEnd(text, c);
  }

  /** The lines from cursor `c` on, segmented with the intended count and emitted in order, give back the rest of the text. */
  lemma {:induction false} IntendedRecordsFrom(text: seq<char>, c: nat)
    requires c <= |text|
    decreases |text| - c
    ensures Emitted(text, Records(text, c, IntendedLineCount(text[c..]))) == Normalized(text[c..])
  {
    if c < |text| {
      var e := LineEnd(text, c);
      if e == |text| {
        IntendedLastLine(text, c);
      } else {
        IntendedRecordsFrom(text, e + 1);
        IntendedTerminatedLine(text, c);
      }
    }
  }

  /**
    With the intended count, segmenting the text and emitting the records
    in their original order reproduces the text, with a '\n' added after an
    unterminated last line.
   */
  lemma IntendedCountCoversText(text: seq<char>)
    ensures Emitted(text, Records(text, 0, IntendedLineCount(text))) == Normalized(text)
  {
    IntendedRecordsFrom(text, 0);
    assert text[0..] == text;
  }

  /** Every one-line text makes count_lines report 0. */
  lemma OneLineTextCountsZero(text: seq<char>)
    requires |text| > 0 && IntendedLineCount(text) == 1
    ensures LineCount(text) == 0
  {
    LineCountDropsOne(text);
  }

  /**
    With the intended count, the shuffle permutes exactly the records
    whose in-order emission gives back the text (with a final '\n' added
    when it is missing).
   */
  lemma IntendedShuffleCoversText(text: seq<char>, words: seq<Word>)
    requires IntendedLineCount(text) <= |words| + 1
    ensures multiset(Shuffled(Records(text, 0, IntendedLineCount(text)), words))
      == multiset(Records(text, 0, IntendedLineCount(text)))
    ensures Emitted(text, Records(text, 0, IntendedLineCount(text))) == Normalized(text)
  {
    IntendedCountCoversText(text);
  }

  /**
    A one-line text makes count_lines report 0, and with count 0 the
    shuffle loop's bound `count - 1` wraps to the largest size_t, so the
    first step reaches position 0 of an empty array.
   */
  lemma SingleLineTextUnderflowsShuffle()
    ensures LineCount("x") == 0 && LineCount("x\n") == 0
    ensures 0 < SizeTMinusOne(0)
  {
    assert "x\n"[..1] == "x";
    assert "x"[..0] == [];
  }
}
