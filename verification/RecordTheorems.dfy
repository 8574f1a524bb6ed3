/** What repeated reads return, stated on the input as a whole: its split by the line or record
    terminator, and the maximal runs of non-blank lines for paragraphs. */
module RecordTheorems {
  import opened Text
  import opened RecordSplit
  import opened RecordReader

  /** The character that ends a record, or the lines a paragraph is made of. */
  function Terminator(mode: Mode): char {
    match mode
    case Single(sep) => sep
    case _ => '\n'
  }

  /** Terminated pieces are records, CR dropped if asked; the unterminated rest only if not empty. */
  function LineRecords(strip: bool, parts: seq<string>): seq<string>
    requires |parts| > 0
  {
    if |parts| == 1 then if parts[0] == "" then [] else parts
    else [if strip then StripCr(parts[0]) else parts[0]] + LineRecords(strip, parts[1..])
  }

  /** How many of the terminated lines at the front are blank. */
  function BlankRun(parts: seq<string>): (n: nat)
    requires |parts| > 0
    ensures n < |parts|
    ensures forall i :: 0 <= i < n ==> Blank(parts[i])
    ensures n < |parts| - 1 ==> !Blank(parts[n])
  {
    if |parts| == 1 || !Blank(parts[0]) then 0 else 1 + BlankRun(parts[1..])
  }

  /** How many of the terminated lines at the front are not blank. */
  function TextRun(parts: seq<string>): (n: nat)
    requires |parts| > 0
    ensures n < |parts|
    ensures forall i :: 0 <= i < n ==> !Blank(parts[i])
    ensures n < |parts| - 1 ==> Blank(parts[n])
  {
    if |parts| == 1 || Blank(parts[0]) then 0 else 1 + TextRun(parts[1..])
  }

  /** The maximal runs of non-blank lines; the unterminated last line joins the run it follows. */
  function Paragraphs(crlf: bool, parts: seq<string>): seq<string>
    requires |parts| > 0
    decreases |parts|
  {
    var body := parts[BlankRun(parts)..];
    var n := TextRun(body);
    if n < |body| - 1 then [Closed(crlf, body[..n])] + Paragraphs(crlf, body[n + 1..])
    else if body[n] != "" then [Gather(crlf, body[..n]) + body[n]]
    else if n == 0 then []
    else [Closed(crlf, body[..n])]
  }

  /** The records of a whole input, given its split by the terminator. */
  function Reference(mode: Mode, parts: seq<string>): seq<string>
    requires |parts| > 0
  {
    match mode
    case Newline => LineRecords(true, parts)
    case Single(_) => LineRecords(false, parts)
    case Paragraph(crlf) => Paragraphs(crlf, parts)
  }

  lemma CharsPiece(a: string, sep: char, b: string)
    ensures Chars(a + [sep] + b) == Chars(a) + ([Ch(sep)] + Chars(b))
  {
  }

  /** Reading up to the first separator. */
  lemma {:induction false} LineFromText(sep: char, strip: bool, cur: string, head: string, tail: seq<Item>)
    requires sep !in head
    ensures LineFrom(sep, strip, cur, Chars(head) + tail) == LineFrom(sep, strip, cur + head, tail)
    decreases |head|
  {
    if head == "" {
      assert Chars(head) + tail == tail && cur + head == cur;
    } else {
      assert (Chars(head) + tail)[1..] == Chars(head[1..]) + tail;
      LineFromText(sep, strip, cur + [head[0]], head[1..], tail);
      assert cur + [head[0]] + head[1..] == cur + head;
    }
  }

  lemma {:induction false} ParagraphFromText(crlf: bool, lines: seq<string>, cur: string, head: string, tail: seq<Item>)
    requires '\n' !in head
    ensures ParagraphFrom(crlf, lines, cur, Chars(head) + tail) == ParagraphFrom(crlf, lines, cur + head, tail)
    decreases |head|
  {
    if head == "" {
      assert Chars(head) + tail == tail && cur + head == cur;
    } else {
      assert (Chars(head) + tail)[1..] == Chars(head[1..]) + tail;
      ParagraphFromText(crlf, lines, cur + [head[0]], head[1..], tail);
      assert cur + [head[0]] + head[1..] == cur + head;
    }
  }

  /** The stream of a split: a terminated piece and the rest, or the last piece alone. */
  lemma CharsOfJoin(parts: seq<string>, sep: char)
    requires |parts| > 0
    ensures |parts| == 1 ==> Chars(Join(parts, [sep])) == Chars(parts[0]) + []
    ensures |parts| > 1 ==>
      Chars(Join(parts, [sep])) == Chars(parts[0]) + ([Ch(sep)] + Chars(Join(parts[1..], [sep])))
  {
    if |parts| > 1 {
      CharsPiece(parts[0], sep, Join(parts[1..], [sep]));
    }
  }

  lemma {:induction false} LineReadsAreReference(mode: Mode, parts: seq<string>, text: string)
    requires !mode.Paragraph? && IsSplit(parts, Terminator(mode), text)
    ensures ReadToEnd(mode, Chars(text)) == Run(Reference(mode, parts), EndOfInput, [])
    decreases |parts|
  {
    var sep, strip := Terminator(mode), mode.Newline?;
    CharsOfJoin(parts, sep);
    if |parts| == 1 {
      LineFromText(sep, strip, "", parts[0], []);
      assert "" + parts[0] == parts[0];
      ReadToEndStep(mode, Chars(text), NextRecord(mode, Chars(text)));
      ReadToEndStep(mode, [], NextRecord(mode, []));
    } else {
      var rest := Join(parts[1..], [sep]);
      LineFromText(sep, strip, "", parts[0], [Ch(sep)] + Chars(rest));
      assert "" + parts[0] == parts[0];
      assert ([Ch(sep)] + Chars(rest))[1..] == Chars(rest);
      ReadToEndStep(mode, Chars(text), NextRecord(mode, Chars(text)));
      LineReadsAreReference(mode, parts[1..], rest);
    }
  }

  /** A paragraph read, one line on. */
  lemma ParagraphLine(crlf: bool, lines: seq<string>, parts: seq<string>)
    requires |parts| > 0 && '\n' !in parts[0]
    ensures ParagraphFrom(crlf, lines, "", Chars(Join(parts, "\n"))) ==
            if |parts| == 1 then
              Step(if parts[0] != "" then Record(Gather(crlf, lines) + parts[0])
                   else if lines == [] then EndOfInput
                   else Record(Closed(crlf, lines)), [])
            else
              var rest := Chars(Join(parts[1..], "\n"));
              if !Blank(parts[0]) then ParagraphFrom(crlf, lines + [parts[0]], "", rest)
              else if lines == [] then ParagraphFrom(crlf, [], "", rest)
              else Step(Record(Closed(crlf, lines)), rest)
  {
    CharsOfJoin(parts, '\n');
    assert "" + parts[0] == parts[0];
    if |parts| == 1 {
      ParagraphFromText(crlf, lines, "", parts[0], []);
    } else {
      var rest := Chars(Join(parts[1..], "\n"));
      ParagraphFromText(crlf, lines, "", parts[0], [Ch('\n')] + rest);
      assert ([Ch('\n')] + rest)[1..] == rest;
    }
  }

  /** What a read makes of the lines `all`, with the `n`-th of `parts` as the line that comes after them. */
  ghost function AfterRun(crlf: bool, all: seq<string>, parts: seq<string>, n: nat): Step
    requires n < |parts|
  {
    if n == |parts| - 1 then
      Step(if parts[n] != "" then Record(Gather(crlf, all) + parts[n])
           else if all == [] then EndOfInput
           else Record(Closed(crlf, all)), [])
    else if all == [] then ParagraphFrom(crlf, [], "", Chars(Join(parts[n + 1..], "\n")))
    else Step(Record(Closed(crlf, all)), Chars(Join(parts[n + 1..], "\n")))
  }

  lemma AfterRunTail(crlf: bool, all: seq<string>, parts: seq<string>, n: nat)
    requires n + 1 < |parts|
    ensures AfterRun(crlf, all, parts[1..], n) == AfterRun(crlf, all, parts, n + 1)
  {
    assert parts[1..][n + 1..] == parts[n + 2..];
  }

  /** A paragraph read in the middle of a run of non-blank lines, up to the end of the run. */
  lemma {:induction false} ParagraphStep(crlf: bool, lines: seq<string>, parts: seq<string>)
    requires |parts| > 0 && (forall i :: 0 <= i < |parts| ==> '\n' !in parts[i])
    ensures ParagraphFrom(crlf, lines, "", Chars(Join(parts, "\n"))) == AfterRun(crlf, lines + parts[..TextRun(parts)], parts, TextRun(parts))
    decreases |parts|
  {
    ParagraphLine(crlf, lines, parts);
    if |parts| == 1 || Blank(parts[0]) {
      assert lines + parts[..0] == lines;
    } else {
      ParagraphStep(crlf, lines + [parts[0]], parts[1..]);
      var n := TextRun(parts[1..]);
      assert lines + [parts[0]] + parts[1..][..n] == lines + parts[..n + 1];
      AfterRunTail(crlf, lines + parts[..n + 1], parts, n);
    }
  }

  /** Blank lines in front of a paragraph are skipped. */
  lemma {:induction false} BlankLinesSkipped(crlf: bool, parts: seq<string>)
    requires |parts| > 0 && (forall i :: 0 <= i < |parts| ==> '\n' !in parts[i])
    ensures ParagraphFrom(crlf, [], "", Chars(Join(parts, "\n"))) ==
            ParagraphFrom(crlf, [], "", Chars(Join(parts[BlankRun(parts)..], "\n")))
    decreases |parts|
  {
    if |parts| > 1 && Blank(parts[0]) {
      ParagraphStep(crlf, [], parts);
      BlankLinesSkipped(crlf, parts[1..]);
      assert parts[1..][BlankRun(parts[1..])..] == parts[BlankRun(parts)..];
    } else {
      assert parts[0..] == parts;
    }
  }

  /** A paragraph read from the start. */
  lemma ParagraphRead(crlf: bool, parts: seq<string>)
    requires |parts| > 0 && (forall i :: 0 <= i < |parts| ==> '\n' !in parts[i])
    ensures var body := parts[BlankRun(parts)..];
            var n := TextRun(body);
            ParagraphFrom(crlf, [], "", Chars(Join(parts, "\n"))) == AfterRun(crlf, body[..n], body, n)
  {
    var body := parts[BlankRun(parts)..];
    BlankLinesSkipped(crlf, parts);
    ParagraphStep(crlf, [], body);
    assert [] + body[..TextRun(body)] == body[..TextRun(body)];
  }

  lemma {:induction false} ParagraphReadsAreReference(crlf: bool, parts: seq<string>)
    requires |parts| > 0 && (forall i :: 0 <= i < |parts| ==> '\n' !in parts[i])
    ensures ReadToEnd(Paragraph(crlf), Chars(Join(parts, "\n"))) == Run(Paragraphs(crlf, parts), EndOfInput, [])
    decreases |parts|
  {
    var mode := Paragraph(crlf);
    var s := Chars(Join(parts, "\n"));
    var body := parts[BlankRun(parts)..];
    var n := TextRun(body);
    ParagraphRead(crlf, parts);
    ReadToEndStep(mode, s, NextRecord(mode, s));
    if n < |body| - 1 {
      ParagraphReadsAreReference(crlf, body[n + 1..]);
    } else {
      ReadToEndStep(mode, [], NextRecord(mode, []));
    }
  }

  /** Reading an input to its end returns the reference records of its split. */
  lemma ReadsAreReference(mode: Mode, parts: seq<string>, text: string)
    requires IsSplit(parts, Terminator(mode), text)
    ensures ReadToEnd(mode, Chars(text)) == Run(Reference(mode, parts), EndOfInput, [])
  {
    if mode.Paragraph? {
      ParagraphReadsAreReference(mode.crlf, parts);
    } else {
      LineReadsAreReference(mode, parts, text);
    }
  }

  lemma EveryReference(mode: Mode, text: string)
    ensures forall parts :: IsSplit(parts, Terminator(mode), text) ==>
      ReadToEnd(mode, Chars(text)) == Run(Reference(mode, parts), EndOfInput, [])
  {
    forall parts | IsSplit(parts, Terminator(mode), text)
      ensures ReadToEnd(mode, Chars(text)) == Run(Reference(mode, parts), EndOfInput, [])
    {
      ReadsAreReference(mode, parts, text);
    }
  }
}
