/**
  Line counting and zero-copy line segmentation of randln.

  The mapped file is a sequence of characters; a line record (`TextSegment`)
  is an offset/length pair into it rather than a pointer/length pair.
 */
module Segments {

  /** One line of the mapped text, without its terminator. */
  datatype TextSegment = TextSegment(start: nat, length: nat)

  /** Number of '\n' characters in `s`. */
  function NewlineCount(s: seq<char>): (n: nat)
    ensures n <= |s|
  {
    if s == [] then 0
    else NewlineCount(s[..|s| - 1]) + (if s[|s| - 1] == '\n' then 1 else 0)
  }

  predicate NoNewline(s: seq<char>) {
    forall j :: 0 <= j < |s| ==> s[j] != '\n'
  }

  lemma {:induction false} NewlineCountAppend(a: seq<char>, b: seq<char>)
    ensures NewlineCount(a + b) == NewlineCount(a) + NewlineCount(b)
  {
    if b == [] {
      assert a + b == a;
    } else {
      assert (a + b)[..|a + b| - 1] == a + b[..|b| - 1];
      NewlineCountAppend(a, b[..|b| - 1]);
    }
  }

  /** The counting function agrees with the multiplicity of '\n' in the text. */
  lemma {:induction false} NewlineCountIsMultiplicity(s: seq<char>)
    ensures NewlineCount(s) == multiset(s)['\n']
  {
    if s != [] {
      assert s == s[..|s| - 1] + [s[|s| - 1]];
      NewlineCountIsMultiplicity(s[..|s| - 1]);
    }
  }

  lemma {:induction false} NoNewlineCount(s: seq<char>)
    ensures NewlineCount(s) == 0 <==> NoNewline(s)
  {
    if s != [] {
      NoNewlineCount(s[..|s| - 1]);
    }
  }

  /** What count_lines returns: the '\n' characters before the last character. */
  function LineCount(text: seq<char>): nat
    requires |text| > 0
  {
    NewlineCount(text[..|text| - 1])
  }

  /**
    count_lines: counts every '\n' and then takes one back when the text
    ends in '\n'. The take-back never underflows, and the result is the
    number of '\n' strictly before the last character.
   */
  method CountLines(text: seq<char>) returns (count: nat)
    requires |text| > 0
    ensures count == NewlineCount(text) - (if text[|text| - 1] == '\n' then 1 else 0)
    ensures count == LineCount(text)
  {
    count := 0;
    var i := 0;
    while i < |text|
      invariant 0 <= i <= |text|
      invariant count == NewlineCount(text[..i])
    {
      assert text[..i + 1][..i] == text[..i];
      if text[i] == '\n' {
        count := count + 1;
      }
      i := i + 1;
    }
    assert text[..|text|] == text;
    if text[|text| - 1] == '\n' {
      count := count - 1;
    }
  }

  /**
    Where the inner scan of populate_lines stops when it starts at `c`:
    the first '\n' at or after `c`, or the end of the text, or `c` itself
    once the cursor has run past the end.
   */
  function LineEnd(text: seq<char>, c: nat): (e: nat)
    decreases |text| - c
    ensures c <= e
    ensures c <= |text| ==> e <= |text|
    ensures |text| <= c ==> e == c
    ensures e < |text| ==> text[e] == '\n'
    ensures forall j :: c <= j < e ==> j < |text| && text[j] != '\n'
  {
    if c >= |text| || text[c] == '\n' then c else LineEnd(text, c + 1)
  }

  /**
    The `k` records populate_lines writes when its cursor starts at `c`:
    each spans up to the next '\n' (or the end), and the cursor then skips
    one character.
   */
  function Records(text: seq<char>, c: nat, k: nat): (rs: seq<TextSegment>)
    decreases k
    ensures |rs| == k
    ensures k > 0 ==> rs[0].start == c
  {
    if k == 0 then []
    else
      var e := LineEnd(text, c);
      [TextSegment(c, e - c)] + Records(text, e + 1, k - 1)
  }

  /** One more record is the line at the cursor followed by the records past its terminator. */
  lemma RecordsCons(text: seq<char>, c: nat, k: nat)
    ensures Records(text, c, k + 1) == [TextSegment(c, LineEnd(text, c) - c)] + Records(text, LineEnd(text, c) + 1, k)
  {
  }

  /** The characters a record designates (nothing for a record past the end). */
  function Bytes(text: seq<char>, r: TextSegment): (b: seq<char>)
    ensures |b| <= r.length
  {
    if r.start + r.length <= |text| then text[r.start..r.start + r.length] else []
  }

  predicate InText(text: seq<char>, r: TextSegment) {
    r.length == 0 || r.start + r.length <= |text|
  }

  /**
    populate_lines: writes exactly `maxLines` records, in order, and
    reports `maxLines`; the rest of the array is untouched.
   */
  method PopulateLines(text: seq<char>, lines: array<TextSegment>, maxLines: nat) returns (count: nat)
    requires maxLines <= lines.Length
    modifies lines
    ensures count == maxLines
    ensures lines[..maxLines] == Records(text, 0, maxLines)
    ensures lines[maxLines..] == old(lines[maxLines..])
  {
    var i := 0;
    var c := 0;
    while i < maxLines
      invariant i <= maxLines
      invariant lines[..i] + Records(text, c, maxLines - i) == Records(text, 0, maxLines)
      invariant lines[maxLines..] == old(lines[maxLines..])
    {
      var lineStart := c;
      while c < |text| && text[c] != '\n'
        invariant lineStart <= c
        invariant LineEnd(text, c) == LineEnd(text, lineStart)
        decreases |text| - c
      {
        c := c + 1;
      }
      ghost var done := lines[..i];
      lines[i] := TextSegment(lineStart, c - lineStart);
      assert lines[..i + 1] == done + [TextSegment(lineStart, c - lineStart)];
      c := c + 1;
      i := i + 1;
    }
    count := i;
  }

  /** Record q + 1 starts just past the terminator of record q. */
  lemma {:induction false} RecordsLinked(text: seq<char>, c: nat, k: nat)
    decreases k
    ensures forall q :: 0 <= q < k - 1 ==>
      Records(text, c, k)[q + 1].start == Records(text, c, k)[q].start + Records(text, c, k)[q].length + 1
  {
    if k > 1 {
      var e := LineEnd(text, c);
      var rs, tail := Records(text, c, k), Records(text, e + 1, k - 1);
      assert rs == [TextSegment(c, e - c)] + tail;
      RecordsLinked(text, e + 1, k - 1);
      forall q | 0 <= q < k - 1
        ensures rs[q + 1].start == rs[q].start + rs[q].length + 1
      {
        if q > 0 {
          assert rs[q] == tail[q - 1] && rs[q + 1] == tail[q];
        }
      }
    }
  }

  /** Starts never precede the cursor and strictly increase, so no record occurs twice. */
  lemma {:induction false} RecordsIncreasing(text: seq<char>, c: nat, k: nat)
    decreases k
    ensures forall q :: 0 <= q < k ==> c <= Records(text, c, k)[q].start
    ensures forall p, q :: 0 <= p < q < k ==> Records(text, c, k)[p].start < Records(text, c, k)[q].start
  {
    if k > 0 {
      var e := LineEnd(text, c);
      var rs, tail := Records(text, c, k), Records(text, e + 1, k - 1);
      assert rs == [TextSegment(c, e - c)] + tail;
      RecordsIncreasing(text, e + 1, k - 1);
      assert forall q :: 1 <= q < k ==> rs[q] == tail[q - 1];
    }
  }

  /** Every record lies in the text (or is empty) and holds no '\n'. */
  lemma {:induction false} RecordsAreLines(text: seq<char>, c: nat, k: nat)
    decreases k
    ensures forall q :: 0 <= q < k ==>
      InText(text, Records(text, c, k)[q]) && NoNewline(Bytes(text, Records(text, c, k)[q]))
  {
    if k > 0 {
      var e := LineEnd(text, c);
      var rs, tail := Records(text, c, k), Records(text, e + 1, k - 1);
      assert rs == [TextSegment(c, e - c)] + tail;
      RecordsAreLines(text, e + 1, k - 1);
      assert forall q :: 1 <= q < k ==> rs[q] == tail[q - 1];
    }
  }

  /** The newlines from `c` on are the one that ends the line at `c` plus those after it. */
  lemma NewlinesPastLineEnd(text: seq<char>, c: nat)
    requires c <= |text|
    ensures LineEnd(text, c) < |text| ==>
      NewlineCount(text[c..]) == 1 + NewlineCount(text[LineEnd(text, c) + 1..])
    ensures LineEnd(text, c) == |text| ==> NewlineCount(text[c..]) == 0
  {
    var e := LineEnd(text, c);
    NoNewlineCount(text[c..e]);
    if e == |text| {
      assert text[c..] == text[c..e];
    } else {
      assert text[c..] == text[c..e] + [text[e]] + text[e + 1..];
      NewlineCountAppend(text[c..e] + [text[e]], text[e + 1..]);
      NewlineCountAppend(text[c..e], [text[e]]);
      assert [text[e]][..0] == [];
    }
  }

  /**
    When no more records are asked for than there are '\n' characters
    after the cursor, every record lies inside the text and is followed
    by a '\n'.
   */
  lemma {:induction false} RecordsTerminated(text: seq<char>, c: nat, k: nat)
    requires c <= |text|
    requires k <= NewlineCount(text[c..])
    decreases k
    ensures forall q :: 0 <= q < k ==>
      Records(text, c, k)[q].start + Records(text, c, k)[q].length < |text| &&
      text[Records(text, c, k)[q].start + Records(text, c, k)[q].length] == '\n'
  {
    if k > 0 {
      var e := LineEnd(text, c);
      var rs, tail := Records(text, c, k), Records(text, e + 1, k - 1);
      assert rs == [TextSegment(c, e - c)] + tail;
      NewlinesPastLineEnd(text, c);
      RecordsTerminated(text, e + 1, k - 1);
      assert forall q :: 1 <= q < k ==> rs[q] == tail[q - 1];
    }
  }

  /**
    With the count count_lines returns, every record lies inside the text
    and is followed by a '\n'.
   */
  lemma LineCountRecordsTerminated(text: seq<char>)
    requires |text| > 0
    ensures forall q :: 0 <= q < LineCount(text) ==>
      Records(text, 0, LineCount(text))[q].start + Records(text, 0, LineCount(text))[q].length < |text| &&
      text[Records(text, 0, LineCount(text))[q].start + Records(text, 0, LineCount(text))[q].length] == '\n'
  {
    assert text == text[..|text| - 1] + [text[|text| - 1]];
    NewlineCountAppend(text[..|text| - 1], [text[|text| - 1]]);
    assert text[0..] == text;
    RecordsTerminated(text, 0, LineCount(text));
  }

  /** Asking for fewer records yields a prefix of the longer run. */
  lemma {:induction false} RecordsPrefix(text: seq<char>, c: nat, k: nat, m: nat)
    decreases m
    requires m <= k
    ensures Records(text, c, m) == Records(text, c, k)[..m]
  {
    if m > 0 {
      var e := LineEnd(text, c);
      RecordsPrefix(text, e + 1, k - 1, m - 1);
    }
  }
}
