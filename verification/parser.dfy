/**
 * The question-text parser of main.py (`parse_questions`): the text after the
 * first `---START` marker is cut into blank-line-separated blocks, and every
 * block of at least six lines whose sixth line starts with `Correct: ` becomes
 * one question record.
 */
module QuestionParser {
  import opened Wrappers
  import opened Strings
  import opened Sequences

  const Marker := "---START"
  const BlockSeparator := "\n\n"
  const CorrectPrefix := "Correct: "

  /** One parsed question: the dictionary `{question, options, correct}`. */
  datatype Question = Question(question: string, options: seq<string>, correct: string)

  /** The lines of a block: `block.strip().split('\n')`. */
  function Lines(block: string): seq<string> {
    Split(Strip(block), "\n")
  }

  /** The prompt taken from the first line: the stripped line, cut after its first `:` if it has one. */
  function PromptText(line: string): (p: string)
    ensures IsStripped(p)
  {
    var question := Strip(line);
    if ':' in question then Strip(AfterFirst(question, ':')) else question
  }

  /** One option line: the stripped text after the first `)`, or the raw line when it has no `)`. */
  function OptionText(line: string): (o: string)
    ensures ')' in line ==> IsStripped(o)
    ensures ')' !in line ==> o == line
  {
    if ')' in line then Strip(AfterFirst(line, ')')) else line
  }

  /** The correct label of a `Correct: ` line: `correct_line.split('Correct: ')[1].strip()`. */
  function CorrectLabel(line: string): (correct: string)
    requires StartsWith(line, CorrectPrefix)
    ensures IsStripped(correct)
  {
    SplitAfterLeadingSeparator(line, CorrectPrefix);
    Strip(Split(line, CorrectPrefix)[1])
  }

  /** Builds the record of a block whose lines passed both checks. */
  function Extract(lines: seq<string>): Question
    requires |lines| >= 6 && StartsWith(lines[5], CorrectPrefix)
  {
    Question(PromptText(lines[0]),
             [OptionText(lines[1]), OptionText(lines[2]), OptionText(lines[3]), OptionText(lines[4])],
             CorrectLabel(lines[5]))
  }

  /** A block holds a question when it has six lines and the sixth starts with `Correct: `. */
  predicate WellFormed(lines: seq<string>) {
    |lines| >= 6 && StartsWith(lines[5], CorrectPrefix)
  }

  /** The record one block yields, or None when the loop skips it. */
  function ParseBlock(block: string): Option<Question> {
    var lines := Lines(block);
    if WellFormed(lines) then Some(Extract(lines)) else None
  }

  /** The records of a sequence of blocks, in block order. */
  function ParseBlocks(blocks: seq<string>): seq<Question> {
    FilterMap(blocks, ParseBlock)
  }

  /** The blocks of the text after the marker. */
  function Blocks(rest: string): seq<string> {
    Split(Strip(rest), BlockSeparator)
  }

  /** The records of the text after the marker. */
  function ParseBody(rest: string): seq<Question> {
    ParseBlocks(Blocks(rest))
  }

  /** What `parse_questions` returns; `None` stands for the document provider's failure. */
  function Parse(text: Option<string>): seq<Question> {
    if text.None? || |text.value| == 0 then []
    else
      var start := Find(text.value, Marker);
      if start == -1 then [] else ParseBody(text.value[start + |Marker|..])
  }

  /** `parse_questions`: locate the marker, then collect the records of the blocks after it. */
  method ParseQuestions(text: Option<string>) returns (questions: seq<Question>)
    ensures questions == Parse(text)
  {
    // Absent or empty text, and text without the marker, keep the empty result.
    questions := [];
    if text.Some? && |text.value| > 0 {
      var t := text.value;
      var startIndex := Find(t, Marker);
      if startIndex != -1 {
        var rest := t[startIndex + |Marker|..];
        var body := Strip(rest);
        var blocks := Split(body, BlockSeparator);
        questions := CollectQuestions(blocks);
      }
    }
  }

  /** The loop of `parse_questions`: skip malformed blocks, append a record for each other one. */
  method CollectQuestions(blocks: seq<string>) returns (questions: seq<Question>)
    ensures questions == ParseBlocks(blocks)
  {
    questions := [];
    for b := 0 to |blocks|
      invariant questions == ParseBlocks(blocks[..b])
    {
      assert blocks[..b + 1][..b] == blocks[..b];
      var lines := Lines(blocks[b]);
      if |lines| < 6 {
        continue;
      }
      var correctLine := lines[5];
      if !StartsWith(correctLine, CorrectPrefix) {
        continue;
      }
      questions := questions + [Extract(lines)];
    }
    assert blocks[..|blocks|] == blocks;
  }

  // ---------------------------------------------------------------------------
  // Properties of the parse

  /** Absent text, empty text and text without the marker give no questions. */
  lemma NoMarkerNoQuestions(text: Option<string>)
    requires text.None? || |text.value| == 0 || !Contains(text.value, Marker)
    ensures Parse(text) == []
  {
  }

  /** No proper suffix of the marker is also a prefix of it. */
  lemma MarkerHasNoBorder()
    ensures forall d | 0 < d < |Marker| :: Marker[d..] != Marker[..|Marker| - d]
  {
    forall d | 0 < d < |Marker|
      ensures Marker[d..] != Marker[..|Marker| - d]
    {
      if d <= 2 {
        assert Marker[d..][3 - d] == 'S' != '-' == Marker[..|Marker| - d][3 - d];
      } else {
        assert Marker[d..][0] != '-' == Marker[..|Marker| - d][0];
      }
    }
  }

  /** The marker cannot overlap itself: two occurrences are at least its length apart. */
  lemma MarkerDoesNotOverlap(s: string, i: int, j: int)
    requires OccursAt(s, Marker, i) && OccursAt(s, Marker, j) && i < j
    ensures i + |Marker| <= j
  {
    OverlapIsBorder(s, Marker, i, j);
    MarkerHasNoBorder();
  }

  /** With no marker in `prefix`, the first marker of `prefix + Marker + rest` is the one after `prefix`. */
  lemma FirstMarkerAfter(prefix: string, rest: string)
    requires !Contains(prefix, Marker)
    ensures Find(prefix + Marker + rest, Marker) == |prefix|
  {
    var s := prefix + Marker + rest;
    assert s[|prefix|..|prefix| + |Marker|] == Marker;
    forall i | 0 <= i < |prefix|
      ensures !OccursAt(s, Marker, i)
    {
      if i + |Marker| <= |prefix| {
        assert !OccursAt(prefix, Marker, i);
        assert s[i..i + |Marker|] == prefix[i..i + |Marker|];
      } else {
        OverlapIsBorder(s, Marker, i, |prefix|);
        MarkerHasNoBorder();
      }
    }
    FindIsFirst(s, Marker, |prefix|);
  }

  /** Only the text after the first marker is parsed. */
  lemma {:induction false} ParsesTextAfterMarker(prefix: string, rest: string)
    requires !Contains(prefix, Marker)
    ensures Parse(Some(prefix + Marker + rest)) == ParseBody(rest)
  {
    FirstMarkerAfter(prefix, rest);
    var s := prefix + Marker + rest;
    assert s[|prefix| + |Marker|..] == rest;
  }

  /** Changing the text before the first marker leaves the parse unchanged. */
  lemma PrefixIrrelevant(prefix1: string, prefix2: string, rest: string)
    requires !Contains(prefix1, Marker) && !Contains(prefix2, Marker)
    ensures Parse(Some(prefix1 + Marker + rest)) == Parse(Some(prefix2 + Marker + rest))
  {
    ParsesTextAfterMarker(prefix1, rest);
    ParsesTextAfterMarker(prefix2, rest);
  }

  /** A malformed block is dropped and the blocks around it parse as if it were absent. */
  lemma MalformedBlockSkipped(before: seq<string>, block: string, after: seq<string>)
    requires !WellFormed(Lines(block))
    ensures ParseBlock(block).None?
    ensures ParseBlocks(before + [block] + after) == ParseBlocks(before) + ParseBlocks(after)
  {
    assert ParseBlock(block).None?;
    var upTo := before + [block];
    assert upTo[..|upTo| - 1] == before;
    FilterMapAppend(upTo, after, ParseBlock);
  }

  /** A well-formed block contributes exactly its record, between those of its neighbours. */
  lemma WellFormedBlockKept(before: seq<string>, block: string, after: seq<string>)
    requires WellFormed(Lines(block))
    ensures ParseBlock(block).Some?
    ensures ParseBlocks(before + [block] + after)
         == ParseBlocks(before) + [ParseBlock(block).value] + ParseBlocks(after)
  {
    var upTo := before + [block];
    assert upTo[..|upTo| - 1] == before;
    FilterMapAppend(upTo, after, ParseBlock);
  }

  /**
   * The block each record came from: strictly increasing block indices, one
   * per record, covering every block that yields a record.
   */
  function SourceBlocks(blocks: seq<string>): (idx: seq<nat>)
    ensures |idx| == |ParseBlocks(blocks)| <= |blocks|
    ensures forall k | 0 <= k < |idx| :: idx[k] < |blocks| && ParseBlock(blocks[idx[k]]) == Some(ParseBlocks(blocks)[k])
    ensures forall k, l | 0 <= k < l < |idx| :: idx[k] < idx[l]
    ensures forall j | 0 <= j < |blocks| && ParseBlock(blocks[j]).Some? :: j in idx
  {
    Origins(blocks, ParseBlock)
  }

  /** Lines after the sixth never affect a block's record. */
  lemma LinesAfterSixthIgnored(block1: string, block2: string)
    requires |Lines(block1)| >= 6 && |Lines(block2)| >= 6
    requires Lines(block1)[..6] == Lines(block2)[..6]
    ensures ParseBlock(block1) == ParseBlock(block2)
  {
    SixLinesDecide(Lines(block1), Lines(block2));
  }

  /** Two line sequences that agree on their first six lines give the same check and the same record. */
  lemma SixLinesDecide(l1: seq<string>, l2: seq<string>)
    requires |l1| >= 6 && |l2| >= 6 && l1[..6] == l2[..6]
    ensures WellFormed(l1) == WellFormed(l2)
    ensures WellFormed(l1) ==> Extract(l1) == Extract(l2)
  {
    forall i | 0 <= i < 6
      ensures l1[i] == l2[i]
    {
      assert l1[..6][i] == l2[..6][i];
    }
  }

  /** Every record has exactly four options taken from lines 1-4, its prompt from line 0 and its label from line 5; options with a `)` are stripped, the others are the raw line. */
  lemma ParsedRecordShape(block: string)
    requires WellFormed(Lines(block))
    ensures var lines, q := Lines(block), ParseBlock(block).value;
            && |q.options| == 4
            && q.question == PromptText(lines[0]) && IsStripped(q.question)
            && q.correct == CorrectLabel(lines[5]) && IsStripped(q.correct)
            && (forall i | 0 <= i < 4 :: q.options[i] == OptionText(lines[i + 1]))
            && (forall i | 0 <= i < 4 ::
                  if ')' in lines[i + 1] then IsStripped(q.options[i]) else q.options[i] == lines[i + 1])
  {
    var lines := Lines(block);
    assert ParseBlock(block) == Some(Extract(lines));
    ExtractShape(lines);
  }

  /** The record built from six or more lines, field by field. */
  lemma ExtractShape(lines: seq<string>)
    requires WellFormed(lines)
    ensures var q := Extract(lines);
            && |q.options| == 4
            && q.question == PromptText(lines[0]) && IsStripped(q.question)
            && q.correct == CorrectLabel(lines[5]) && IsStripped(q.correct)
            && (forall i | 0 <= i < 4 :: q.options[i] == OptionText(lines[i + 1]))
            && (forall i | 0 <= i < 4 ::
                  if ')' in lines[i + 1] then IsStripped(q.options[i]) else q.options[i] == lines[i + 1])
  {
    var options := Extract(lines).options;
    forall i | 0 <= i < 4
      ensures options[i] == OptionText(lines[i + 1])
    {
      if i == 0 {
        assert options[0] == OptionText(lines[1]);
      } else if i == 1 {
        assert options[1] == OptionText(lines[2]);
      } else if i == 2 {
        assert options[2] == OptionText(lines[3]);
      } else {
        assert options[3] == OptionText(lines[4]);
      }
    }
  }

  // ---------------------------------------------------------------------------
  // What each line extractor recovers

  /** Any option line with a `)`: the option is the stripped text after the first `)`. */
  lemma OptionTextIs(pre: string, rest: string)
    requires ')' !in pre
    ensures OptionText(pre + [')'] + rest) == Strip(rest)
  {
    AfterFirstIs(pre, ')', rest);
  }

  /** Any prompt line whose stripped form has a `:`: the prompt is the stripped text after the first `:`. */
  lemma PromptTextIs(line: string, pre: string, rest: string)
    requires Strip(line) == pre + [':'] + rest && ':' !in pre
    ensures PromptText(line) == Strip(rest)
  {
    AfterFirstIs(pre, ':', rest);
  }

  /** A prompt line whose stripped form has no `:` is kept whole, stripped. */
  lemma PromptTextWithoutColon(line: string)
    requires ':' !in Strip(line)
    ensures PromptText(line) == Strip(line)
  {
  }

  /** The prompt of a line `tag: text` is `text`, whatever `text` holds after the first `:`. */
  lemma PromptOfTaggedLine(tag: string, text: string)
    requires |tag| > 0 && !IsSpace(tag[0]) && ':' !in tag
    requires IsStripped(text)
    ensures PromptText(PromptLine(tag, text)) == text
  {
    var line := PromptLine(tag, text);
    if |text| == 0 {
      assert line == tag + ":" + " ";
      assert line[..|tag| + 1] == tag + ":" && line[..0] == [] && line[|tag| + 1..] == " ";
      StripIs(line, 0, |tag| + 1);
      assert tag + ":" == tag + [':'] + [];
      AfterFirstIs(tag, ':', []);
    } else {
      assert line[|line| - 1] == text[|text| - 1];
      StripStripped(line);
      assert line == tag + [':'] + (" " + text);
      AfterFirstIs(tag, ':', " " + text);
      StripLeadingSpace(text);
    }
  }

  /** The option of a line `X) text` is `text`. */
  lemma OptionOfLabelledLine(letter: char, text: string)
    requires letter != ')' && IsStripped(text)
    ensures OptionText(OptionLine(letter, text)) == text
  {
    var line := OptionLine(letter, text);
    assert line == [letter] + [')'] + (" " + text);
    AfterFirstIs([letter], ')', " " + text);
    StripLeadingSpace(text);
  }

  /** A `Correct: ` line with no second `Correct: ` yields its stripped remainder. */
  lemma CorrectLabelOfLine(text: string)
    requires !Contains(text, CorrectPrefix)
    ensures StartsWith(CorrectLine(text), CorrectPrefix)
    ensures CorrectLabel(CorrectLine(text)) == Strip(text)
  {
    var line := CorrectLine(text);
    assert line[..|CorrectPrefix|] == CorrectPrefix && line[|CorrectPrefix|..] == text;
    SplitAfterLeadingSeparator(line, CorrectPrefix);
    SplitHead(text, CorrectPrefix);
  }

  /** A second `Correct: ` on the line cuts the label off there: only the text between the two is kept. */
  lemma CorrectLabelStopsAtSecondPrefix(text: string, tail: string)
    requires Find(text + CorrectPrefix, CorrectPrefix) == |text|
    ensures CorrectLabel(CorrectPrefix + text + CorrectPrefix + tail) == Strip(text)
  {
    var after := text + CorrectPrefix + tail;
    var line := CorrectPrefix + after;
    assert line == CorrectPrefix + text + CorrectPrefix + tail;
    assert line[..|CorrectPrefix|] == CorrectPrefix && line[|CorrectPrefix|..] == after;
    SplitAfterLeadingSeparator(line, CorrectPrefix);
    FirstSeparatorAfter(text, CorrectPrefix, tail);
    SplitHead(after, CorrectPrefix);
    assert after[..|text|] == text;
  }

  // ---------------------------------------------------------------------------
  // Writing records in the document format, and reading them back

  /** A field that fits on one line and has no surrounding whitespace. */
  predicate OneLine(s: string) {
    IsStripped(s) && '\n' !in s
  }

  /** A prompt tag such as `1` or `Q`: starts with a non-space and holds no `:` and no line break. */
  predicate ValidTag(tag: string) {
    |tag| > 0 && !IsSpace(tag[0]) && ':' !in tag && '\n' !in tag
  }

  /**
   * A record the document format can express: four one-line options, a
   * one-line prompt and a non-empty one-line label holding no `Correct: `.
   * Nothing requires the label to be one of A-D.
   */
  predicate Writable(q: Question) {
    && |q.options| == 4
    && OneLine(q.question)
    && (forall i | 0 <= i < 4 :: OneLine(q.options[i]))
    && OneLine(q.correct) && |q.correct| > 0 && !Contains(q.correct, CorrectPrefix)
  }

  /** The six lines of a question in the document format. */
  function RenderLines(tag: string, q: Question): seq<string>
    requires Writable(q)
  {
    [PromptLine(tag, q.question),
     OptionLine('A', q.options[0]), OptionLine('B', q.options[1]),
     OptionLine('C', q.options[2]), OptionLine('D', q.options[3]),
     CorrectLine(q.correct)]
  }

  /** The prompt line `tag: text`. */
  function PromptLine(tag: string, text: string): string {
    tag + ": " + text
  }

  /** The option line `X) text`. */
  function OptionLine(letter: char, text: string): string {
    [letter, ')', ' '] + text
  }

  /** The answer line `Correct: text`. */
  function CorrectLine(text: string): string {
    CorrectPrefix + text
  }

  /** One question block of a document. */
  function RenderBlock(tag: string, q: Question): string
    requires Writable(q)
  {
    Join(RenderLines(tag, q), "\n")
  }

  /** Reading a written block gives back the record, whatever its label. */
  lemma ParseRenderedBlock(tag: string, q: Question)
    requires ValidTag(tag) && Writable(q)
    ensures ParseBlock(RenderBlock(tag, q)) == Some(q)
  {
    RenderedBlockLines(tag, q);
    ExtractRendered(tag, q);
  }

  /** Each of the six written lines gives back its field. */
  lemma ExtractRendered(tag: string, q: Question)
    requires ValidTag(tag) && Writable(q)
    ensures WellFormed(RenderLines(tag, q)) && Extract(RenderLines(tag, q)) == q
  {
    var lines := RenderLines(tag, q);
    assert q.options == [q.options[0], q.options[1], q.options[2], q.options[3]];
    OptionOfLabelledLine('A', q.options[0]);
    OptionOfLabelledLine('B', q.options[1]);
    OptionOfLabelledLine('C', q.options[2]);
    OptionOfLabelledLine('D', q.options[3]);
    PromptOfTaggedLine(tag, q.question);
    CorrectLabelOfLine(q.correct);
    StripStripped(q.correct);
  }

  /**
   * A written block is already stripped, splits back into its six lines, starts
   * with the tag's first character, ends with the label's last, and holds no
   * blank line.
   */
  lemma RenderedBlockLines(tag: string, q: Question)
    requires ValidTag(tag) && Writable(q)
    ensures var block := RenderBlock(tag, q);
            && Strip(block) == block
            && Split(block, "\n") == RenderLines(tag, q)
            && |block| > 0 && block[0] == tag[0] && block[|block| - 1] == q.correct[|q.correct| - 1]
            && (forall i | 0 <= i < |block| - 1 :: !(block[i] == '\n' && block[i + 1] == '\n'))
  {
    var lines := RenderLines(tag, q);
    var block := RenderBlock(tag, q);
    forall k | 0 <= k < 6
      ensures |lines[k]| > 0 && '\n' !in lines[k]
    {
    }
    JoinEnds(lines, "\n");
    JoinNoDouble(lines, '\n');
    assert block[0] == block[..|lines[0]|][0] == lines[0][0];
    assert block[|block| - 1] == block[|block| - |lines[5]|..][|lines[5]| - 1] == lines[5][|lines[5]| - 1];
    StripStripped(block);
    forall k | 0 <= k < 5
      ensures Find(lines[k] + "\n", "\n") == |lines[k]|
    {
      FirstCharAfter(lines[k], '\n');
    }
    FirstCharAfter(lines[5], '\n');
    SplitJoin(lines, "\n");
  }

  /** The blocks of a document, one per record, in order. */
  function RenderBlocks(tags: seq<string>, qs: seq<Question>): (blocks: seq<string>)
    requires |tags| == |qs|
    requires forall k | 0 <= k < |qs| :: Writable(qs[k])
    ensures |blocks| == |qs|
    ensures forall k | 0 <= k < |qs| :: blocks[k] == RenderBlock(tags[k], qs[k])
  {
    if |qs| == 0 then [] else [RenderBlock(tags[0], qs[0])] + RenderBlocks(tags[1..], qs[1..])
  }

  /** A whole document: anything without a marker, the marker, then the blocks separated by blank lines. */
  function RenderDocument(preamble: string, tags: seq<string>, qs: seq<Question>): string
    requires |tags| == |qs| >= 1
    requires forall k | 0 <= k < |qs| :: Writable(qs[k])
  {
    preamble + Marker + "\n" + Join(RenderBlocks(tags, qs), BlockSeparator)
  }

  /** Parsing a written document gives back exactly the records written, in order. */
  lemma ParseRenderedDocument(preamble: string, tags: seq<string>, qs: seq<Question>)
    requires !Contains(preamble, Marker)
    requires |tags| == |qs| >= 1
    requires forall k | 0 <= k < |qs| :: ValidTag(tags[k]) && Writable(qs[k])
    ensures Parse(Some(RenderDocument(preamble, tags, qs))) == qs
  {
    var blocks := RenderBlocks(tags, qs);
    var rest := "\n" + Join(blocks, BlockSeparator);
    assert RenderDocument(preamble, tags, qs) == preamble + Marker + rest;
    ParsesTextAfterMarker(preamble, rest);
    RenderedBodyBlocks(tags, qs);
    forall k | 0 <= k < |blocks|
      ensures ParseBlock(blocks[k]) == Some(qs[k])
    {
      ParseRenderedBlock(tags[k], qs[k]);
    }
    FilterMapAllSome(blocks, ParseBlock, qs);
  }

  /** The text after the marker of a written document cuts back into the written blocks. */
  lemma RenderedBodyBlocks(tags: seq<string>, qs: seq<Question>)
    requires |tags| == |qs| >= 1
    requires forall k | 0 <= k < |qs| :: ValidTag(tags[k]) && Writable(qs[k])
    ensures Blocks("\n" + Join(RenderBlocks(tags, qs), BlockSeparator)) == RenderBlocks(tags, qs)
  {
    var blocks := RenderBlocks(tags, qs);
    forall k | 0 <= k < |blocks|
      ensures |blocks[k]| > 0 && !IsSpace(blocks[k][0]) && !IsSpace(blocks[k][|blocks[k]| - 1])
      ensures Find(blocks[k] + BlockSeparator, BlockSeparator) == |blocks[k]|
      ensures !Contains(blocks[k], BlockSeparator)
    {
      RenderedBlockLines(tags[k], qs[k]);
      NoDoubleFind(blocks[k], '\n');
    }
    StripAfterLineBreak(blocks);
    SplitJoin(blocks, BlockSeparator);
  }

  /** Joining blocks with no whitespace at their ends gives a text the marker's line break strips back to. */
  lemma StripAfterLineBreak(blocks: seq<string>)
    requires |blocks| >= 1
    requires forall k | 0 <= k < |blocks| :: |blocks[k]| > 0 && !IsSpace(blocks[k][0]) && !IsSpace(blocks[k][|blocks[k]| - 1])
    ensures Strip("\n" + Join(blocks, BlockSeparator)) == Join(blocks, BlockSeparator)
  {
    var body := Join(blocks, BlockSeparator);
    var rest := "\n" + body;
    var n := |blocks| - 1;
    JoinEnds(blocks, BlockSeparator);
    assert body[0] == body[..|blocks[0]|][0] == blocks[0][0];
    assert body[|body| - 1] == body[|body| - |blocks[n]|..][|blocks[n]| - 1] == blocks[n][|blocks[n]| - 1];
    assert rest[..1] == "\n" && rest[|rest|..] == [] && rest[1..|rest|] == body;
    StripIs(rest, 1, |rest|);
  }
}
