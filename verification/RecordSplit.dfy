/** What one read of a record stream means, on the characters and faults still to come.

    The stream is the concatenation of everything the I/O handler will deliver: characters and
    failed reads. How it is cut into chunks does not appear here. */
module RecordSplit {

  /** RS unset, RS one character, RS empty (with the CRLF option off or on). */
  datatype Mode = Newline | Single(sep: char) | Paragraph(crlf: bool)

  /** One thing the handler can contribute to the stream. */
  datatype Item = Ch(ch: char) | Fault

  datatype Outcome = Record(text: string) | EndOfInput | IoError

  datatype Step = Step(outcome: Outcome, rest: seq<Item>)

  function Chars(s: string): (items: seq<Item>)
    ensures |items| == |s|
    ensures forall i :: 0 <= i < |s| ==> items[i] == Ch(s[i])
  {
    seq(|s|, i requires 0 <= i < |s| => Ch(s[i]))
  }

  predicate EndsWith(s: string, c: char) {
    |s| > 0 && s[|s| - 1] == c
  }

  /** A line without the carriage return that precedes its terminator. */
  function StripCr(line: string): string {
    if EndsWith(line, '\r') then line[..|line| - 1] else line
  }

  predicate Blank(line: string) {
    line == "" || line == "\r"
  }

  /** How a terminated line inside a paragraph is kept: the CRLF option keeps its CR. */
  function Body(crlf: bool, line: string): string {
    if crlf then line else StripCr(line)
  }

  /** Terminated lines as they accumulate inside a paragraph. */
  function Gather(crlf: bool, lines: seq<string>): string {
    if |lines| == 0 then ""
    else Gather(crlf, lines[..|lines| - 1]) + Body(crlf, lines[|lines| - 1]) + "\n"
  }

  /** The paragraph made of terminated lines: the last terminator goes, CR and all. */
  function Closed(crlf: bool, lines: seq<string>): string
    requires |lines| > 0
  {
    Gather(crlf, lines[..|lines| - 1]) + StripCr(lines[|lines| - 1])
  }

  /** One record ended by a single character, `cur` having been read of it. */
  function LineFrom(sep: char, strip: bool, cur: string, s: seq<Item>): Step
    decreases |s|
  {
    if s == [] then Step(if cur == "" then EndOfInput else Record(cur), [])
    else if s[0].Fault? then Step(IoError, s[1..])
    else if s[0].ch == sep then Step(Record(if strip then StripCr(cur) else cur), s[1..])
    else LineFrom(sep, strip, cur + [s[0].ch], s[1..])
  }

  /** One paragraph, of which `lines` and the unfinished line `cur` have been read. */
  function ParagraphFrom(crlf: bool, lines: seq<string>, cur: string, s: seq<Item>): Step
    decreases |s|
  {
    if s == [] then
      Step(if cur != "" then Record(Gather(crlf, lines) + cur)
           else if lines == [] then EndOfInput
           else Record(Closed(crlf, lines)), [])
    else if s[0].Fault? then Step(IoError, s[1..])
    else if s[0].ch != '\n' then ParagraphFrom(crlf, lines, cur + [s[0].ch], s[1..])
    else if !Blank(cur) then ParagraphFrom(crlf, lines + [cur], "", s[1..])
    else if lines == [] then ParagraphFrom(crlf, [], "", s[1..])
    else Step(Record(Closed(crlf, lines)), s[1..])
  }

  /** The next record of the stream and what remains of the stream after it. */
  function NextRecord(mode: Mode, s: seq<Item>): Step {
    match mode
    case Newline => LineFrom('\n', true, "", s)
    case Single(sep) => LineFrom(sep, false, "", s)
    case Paragraph(crlf) => ParagraphFrom(crlf, [], "", s)
  }

  lemma {:induction false} LineFromShrinks(sep: char, strip: bool, cur: string, s: seq<Item>)
    ensures var step := LineFrom(sep, strip, cur, s);
            |step.rest| <= |s| && (s != [] ==> |step.rest| < |s|) &&
            (step.outcome.EndOfInput? ==> step.rest == []) &&
            (s == [] && cur == "" ==> step.outcome.EndOfInput?) &&
            step.rest == s[|s| - |step.rest|..]
    decreases |s|
  {
    if s != [] && s[0].Ch? && s[0].ch != sep {
      LineFromShrinks(sep, strip, cur + [s[0].ch], s[1..]);
    }
  }

  lemma {:induction false} ParagraphFromShrinks(crlf: bool, lines: seq<string>, cur: string, s: seq<Item>)
    ensures var step := ParagraphFrom(crlf, lines, cur, s);
            |step.rest| <= |s| && (s != [] ==> |step.rest| < |s|) &&
            (step.outcome.EndOfInput? ==> step.rest == []) &&
            (s == [] && cur == "" && lines == [] ==> step.outcome.EndOfInput?) &&
            step.rest == s[|s| - |step.rest|..]
    decreases |s|
  {
    if s != [] && s[0].Ch? {
      if s[0].ch != '\n' { ParagraphFromShrinks(crlf, lines, cur + [s[0].ch], s[1..]); }
      else if !Blank(cur) { ParagraphFromShrinks(crlf, lines + [cur], "", s[1..]); }
      else if lines == [] { ParagraphFromShrinks(crlf, [], "", s[1..]); }
    }
  }

  /** Every read of a non-empty stream makes progress and leaves a suffix; end of input is reported
      only once nothing is left, and from then on always. */
  lemma NextRecordProgress(mode: Mode, s: seq<Item>)
    ensures var step := NextRecord(mode, s);
            && (s != [] ==> |step.rest| < |s|)
            && step.rest == s[|s| - |step.rest|..]
            && (step.outcome.EndOfInput? ==> step.rest == [])
            && (s == [] ==> step == Step(EndOfInput, []))
  {
    match mode
    case Newline => LineFromShrinks('\n', true, "", s);
    case Single(sep) => LineFromShrinks(sep, false, "", s);
    case Paragraph(crlf) => ParagraphFromShrinks(crlf, [], "", s);
  }

  /** Repeated reads: the records, the first answer that is not one, and what it left unread. */
  datatype Run = Run(records: seq<string>, last: Outcome, rest: seq<Item>)

  function After(records: seq<string>, run: Run): Run {
    run.(records := records + run.records)
  }

  function ReadToEnd(mode: Mode, s: seq<Item>): Run
    decreases |s|
  {
    var step := NextRecord(mode, s);
    if step.outcome.Record? then
      NextRecordProgress(mode, s);
      After([step.outcome.text], ReadToEnd(mode, step.rest))
    else Run([], step.outcome, step.rest)
  }

  lemma ReadToEndStep(mode: Mode, s: seq<Item>, step: Step)
    requires NextRecord(mode, s) == step
    ensures ReadToEnd(mode, s) ==
            if step.outcome.Record? then After([step.outcome.text], ReadToEnd(mode, step.rest))
            else Run([], step.outcome, step.rest)
    ensures step.outcome.Record? ==> |step.rest| < |s|
  {
    NextRecordProgress(mode, s);
  }
}
