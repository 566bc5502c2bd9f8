/** The notes pad: the line-number gutter and its clear control. */
module BrainDump {
  import opened JsText

  /** `generateLineNumbers`: one number per line of the content, where the
      lines are what `split("\n")` yields, counting from 1. */
  function LineNumbers(content: string): (r: seq<nat>)
    ensures |r| == Count(content, '\n') + 1
    ensures forall i :: 0 <= i < |r| ==> r[i] == i + 1
  {
    var lines := Split(content, '\n');
    SplitCount(content, '\n');
    seq(|lines|, i requires 0 <= i < |lines| => i + 1)
  }

  /** An empty pad still shows line 1: splitting `""` yields one empty line. */
  lemma LineNumbersOfEmpty()
    ensures LineNumbers("") == [1]
  {
  }

  /** A pad without a line break shows exactly line 1. */
  lemma LineNumbersOfOneLine(content: string)
    requires '\n' !in content
    ensures LineNumbers(content) == [1]
  {
    SplitNoSeparator(content, '\n');
  }

  /** Each new line break adds one number to the gutter, and the numbers
      already there stay. */
  lemma LineNumbersNewline(content: string)
    ensures |LineNumbers(content + "\n")| == |LineNumbers(content)| + 1
    ensures LineNumbers(content + "\n") == LineNumbers(content) + [|LineNumbers(content)| + 1]
  {
    CountAppend(content, '\n', '\n');
  }

  /** The gutter numbers the lines the text splits into: as many numbers as
      lines, and joining those lines gives the text back. */
  lemma LineNumbersCountLines(content: string)
    ensures |LineNumbers(content)| == |Split(content, '\n')|
    ensures Join(Split(content, '\n'), '\n') == content
  {
    SplitCount(content, '\n');
    JoinSplit(content, '\n');
  }

  /** The clear-notes control appears when the trimmed content is non-empty. */
  predicate ShowClearNotes(content: string)
  {
    Trim(content) != []
  }

  /** The control appears exactly when the pad holds a character that is
      not white space. */
  lemma ShowClearNotesIff(content: string)
    ensures ShowClearNotes(content) <==> exists i :: 0 <= i < |content| && !IsWhitespace(content[i])
  {
    if !ShowClearNotes(content) {
      assert AllWhitespace(content);
    }
  }
}
