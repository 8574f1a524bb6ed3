/** What the records of blank-line mode look like, line by line. A line is what lies between newlines,
    the last line of a record included. */
module ParagraphLines {
  import opened Text
  import opened RecordSplit
  import opened RecordTheorems

  function Lines(r: string): seq<string> {
    Pieces('\n', r)
  }

  /** The input a paragraph is made of: terminated lines, and an unterminated last one if there is one. */
  datatype Source = Source(lines: seq<string>, tail: string)

  ghost predicate TextLine(line: string) {
    !Blank(line) && '\n' !in line
  }

  ghost predicate Proper(p: Source) {
    && (forall i :: 0 <= i < |p.lines| ==> TextLine(p.lines[i])) && '\n' !in p.tail
    && (p.lines != [] || p.tail != "")
  }

  function TextOf(crlf: bool, p: Source): string
    requires p.lines != [] || p.tail != ""
  {
    if p.tail != "" then Gather(crlf, p.lines) + p.tail else Closed(crlf, p.lines)
  }

  function Bodies(crlf: bool, lines: seq<string>): seq<string> {
    seq(|lines|, i requires 0 <= i < |lines| => Body(crlf, lines[i]))
  }

  /** The lines of a paragraph as it is kept: under CRLF all but the last keep their CR. */
  function Kept(crlf: bool, p: Source): seq<string>
    requires p.lines != [] || p.tail != ""
  {
    if p.tail != "" then Bodies(crlf, p.lines) + [p.tail]
    else Bodies(crlf, p.lines[..|p.lines| - 1]) + [StripCr(p.lines[|p.lines| - 1])]
  }

  lemma {:induction false} GatherIsJoin(crlf: bool, lines: seq<string>, tail: string)
    ensures Gather(crlf, lines) + tail == Join(Bodies(crlf, lines) + [tail], "\n")
  {
    if lines == [] {
      assert Bodies(crlf, lines) + [tail] == [tail];
    } else {
      var front, last := lines[..|lines| - 1], lines[|lines| - 1];
      var bodies := Bodies(crlf, lines);
      assert bodies == Bodies(crlf, front) + [Body(crlf, last)];
      GatherIsJoin(crlf, front, Body(crlf, last));
      JoinSnoc(bodies, tail, "\n");
    }
  }

  lemma LinesOfGather(crlf: bool, lines: seq<string>, tail: string)
    requires (forall i :: 0 <= i < |lines| ==> '\n' !in lines[i]) && '\n' !in tail
    ensures Lines(Gather(crlf, lines) + tail) == Bodies(crlf, lines) + [tail]
  {
    GatherIsJoin(crlf, lines, tail);
    var parts := Bodies(crlf, lines) + [tail];
    forall i | 0 <= i < |parts| ensures '\n' !in parts[i] {
      if i < |lines| { assert '\n' !in lines[i]; }
    }
    SplitUnique(parts, '\n', Gather(crlf, lines) + tail);
  }

  /** The lines of a record are the lines kept of its source. */
  lemma LinesOfSource(crlf: bool, p: Source)
    requires Proper(p)
    ensures Lines(TextOf(crlf, p)) == Kept(crlf, p)
  {
    if p.tail != "" {
      LinesOfGather(crlf, p.lines, p.tail);
    } else {
      var last := p.lines[|p.lines| - 1];
      assert TextLine(last);
      LinesOfGather(crlf, p.lines[..|p.lines| - 1], StripCr(last));
    }
  }

  /** When a line of a record is a lone CR: its unterminated last line is one, or a line of two CRs loses
      one of them. Under CRLF only the last terminated line does, and only if nothing follows it. */
  predicate LoneCr(crlf: bool, p: Source) {
    p.tail == "\r" || exists i :: 0 <= i < |p.lines| && Loses(crlf, p, i)
  }

  predicate Loses(crlf: bool, p: Source, i: nat)
    requires i < |p.lines|
  {
    p.lines[i] == "\r\r" && (crlf ==> i == |p.lines| - 1 && p.tail == "")
  }

  lemma BodyIsLoneCr(line: string)
    requires TextLine(line)
    ensures StripCr(line) == "\r" <==> line == "\r\r"
    ensures StripCr(line) != "" && line != "\r" && line != ""
  {
    if StripCr(line) == "\r" { assert line == "\r" + "\r"; }
  }

  lemma KeptAt(crlf: bool, p: Source, i: nat)
    requires Proper(p) && i < |Kept(crlf, p)|
    ensures Kept(crlf, p)[i] != ""
    ensures Kept(crlf, p)[i] == "\r" <==>
            if i == |p.lines| then p.tail == "\r"
            else Loses(crlf, p, i)
  {
    if i < |p.lines| {
      assert TextLine(p.lines[i]);
      BodyIsLoneCr(p.lines[i]);
    }
  }

  /** No record has an empty line; and exactly when one of its lines is a lone CR. */
  lemma LoneCrExactly(crlf: bool, p: Source)
    requires Proper(p)
    ensures "" !in Lines(TextOf(crlf, p))
    ensures "\r" in Lines(TextOf(crlf, p)) <==> LoneCr(crlf, p)
  {
    LinesOfSource(crlf, p);
    var kept := Kept(crlf, p);
    forall i | 0 <= i < |kept|
      ensures kept[i] != ""
      ensures kept[i] == "\r" <==>
              if i == |p.lines| then p.tail == "\r"
              else Loses(crlf, p, i)
    {
      KeptAt(crlf, p, i);
    }
    if p.tail == "\r" { assert kept[|p.lines|] == "\r"; }
    if i :| 0 <= i < |p.lines| && Loses(crlf, p, i) {
      assert kept[i] == "\r";
    }
  }

  // ---------------------------------------------------------------- any stream

  /** A paragraph: not empty, no newline at either end, no empty line, and under CRLF no line that is a
      lone CR but perhaps the last. */
  ghost predicate ParagraphShape(crlf: bool, r: string) {
    && r != "" && r[0] != '\n' && r[|r| - 1] != '\n' && "" !in Lines(r)
    && (crlf ==> forall i :: 0 <= i < |Lines(r)| - 1 ==> Lines(r)[i] != "\r")
  }

  lemma {:induction false} NoEmptyLine(r: string)
    requires "" !in Lines(r)
    ensures r != "" && r[0] != '\n' && r[|r| - 1] != '\n'
    decreases |r|
  {
    var k := FirstIndex('\n', r);
    if k < |r| {
      var rest := r[k + 1..];
      assert Lines(r) == [r[..k]] + Lines(rest);
      assert Lines(r)[0] == r[..k];
      assert forall i :: 0 <= i < |Lines(rest)| ==> Lines(rest)[i] == Lines(r)[i + 1];
      NoEmptyLine(rest);
    }
  }

  lemma ShapeOfSource(crlf: bool, p: Source)
    requires Proper(p)
    ensures ParagraphShape(crlf, TextOf(crlf, p))
  {
    LoneCrExactly(crlf, p);
    NoEmptyLine(TextOf(crlf, p));
    LinesOfSource(crlf, p);
    var kept := Kept(crlf, p);
    if crlf {
      forall i | 0 <= i < |kept| - 1 ensures kept[i] != "\r" { KeptAt(crlf, p, i); }
    }
  }

  /** A record of blank-line mode has a source. */
  lemma {:induction false} SourceOfRead(crlf: bool, lines: seq<string>, cur: string, s: seq<Item>) returns (p: Source)
    requires (forall i :: 0 <= i < |lines| ==> TextLine(lines[i])) && '\n' !in cur
    ensures var outcome := ParagraphFrom(crlf, lines, cur, s).outcome;
            outcome.Record? ==> Proper(p) && outcome.text == TextOf(crlf, p)
    decreases |s|
  {
    p := Source(lines, if s == [] then cur else "");
    if s != [] && s[0].Ch? {
      if s[0].ch != '\n' { p := SourceOfRead(crlf, lines, cur + [s[0].ch], s[1..]); }
      else if !Blank(cur) { p := SourceOfRead(crlf, lines + [cur], "", s[1..]); }
      else if lines == [] { p := SourceOfRead(crlf, [], "", s[1..]); }
    }
  }

  /** Every record of blank-line mode, on any stream, is a well-shaped paragraph, and has a line that is a
      lone CR exactly when its source says so. */
  lemma ParagraphRecordShape(crlf: bool, s: seq<Item>) returns (p: Source)
    ensures var outcome := NextRecord(Paragraph(crlf), s).outcome;
            outcome.Record? ==>
              && Proper(p) && outcome.text == TextOf(crlf, p) && ParagraphShape(crlf, outcome.text)
              && ("\r" in Lines(outcome.text) <==> LoneCr(crlf, p))
  {
    p := SourceOfRead(crlf, [], "", s);
    if NextRecord(Paragraph(crlf), s).outcome.Record? {
      ShapeOfSource(crlf, p);
      LoneCrExactly(crlf, p);
    }
  }

  // ---------------------------------------------------------------- whole inputs

  /** The sources of the paragraphs of an input, which do not depend on the CRLF option. */
  function Sources(parts: seq<string>): seq<Source>
    requires |parts| > 0
    decreases |parts|
  {
    var body := parts[BlankRun(parts)..];
    var n := TextRun(body);
    if n < |body| - 1 then [Source(body[..n], "")] + Sources(body[n + 1..])
    else if body[n] != "" || n > 0 then [Source(body[..n], body[n])]
    else []
  }

  /** A run of `n` text lines, ended by a blank line or by the end of the input. */
  ghost predicate IsRun(body: seq<string>, n: nat, p: Source) {
    && n < |body| && (forall i :: 0 <= i < n ==> !Blank(body[i])) && (n < |body| - 1 ==> n > 0 && Blank(body[n]))
    && p == Source(body[..n], if n < |body| - 1 then "" else body[n])
  }

  lemma RunOf(parts: seq<string>) returns (b: nat, body: seq<string>, n: nat, p: Source)
    requires |parts| > 0
    ensures b < |parts| && b == BlankRun(parts) && body == parts[b..] && n == TextRun(body)
    ensures (forall i :: 0 <= i < b ==> Blank(parts[i])) && IsRun(body, n, p)
  {
    b := BlankRun(parts);
    body := parts[b..];
    n := TextRun(body);
    p := Source(body[..n], if n < |body| - 1 then "" else body[n]);
    assert b < |parts| - 1 ==> body[0] == parts[b];
  }

  lemma SourcesCut(parts: seq<string>, b: nat, body: seq<string>, n: nat, p: Source)
    requires |parts| > 0 && b == BlankRun(parts) && body == parts[b..] && n == TextRun(body) && IsRun(body, n, p)
    ensures Sources(parts) == if n < |body| - 1 then [p] + Sources(body[n + 1..]) else if p.tail != "" || n > 0 then [p] else []
  {
  }

  lemma ParagraphsCut(crlf: bool, parts: seq<string>, b: nat, body: seq<string>, n: nat, p: Source)
    requires |parts| > 0 && b == BlankRun(parts) && body == parts[b..] && n == TextRun(body) && IsRun(body, n, p)
    ensures Paragraphs(crlf, parts) ==
            if n < |body| - 1 then [TextOf(crlf, p)] + Paragraphs(crlf, body[n + 1..])
            else if p.tail != "" || n > 0 then [TextOf(crlf, p)] else []
  {
  }

  /** What an input starts with: blank lines, and the source of its first paragraph. */
  lemma CutInput(crlf: bool, parts: seq<string>) returns (b: nat, body: seq<string>, n: nat, p: Source)
    requires |parts| > 0
    ensures b < |parts| && body == parts[b..] && (forall i :: 0 <= i < b ==> Blank(parts[i])) && IsRun(body, n, p)
    ensures Sources(parts) == if n < |body| - 1 then [p] + Sources(body[n + 1..]) else if p.tail != "" || n > 0 then [p] else []
    ensures Paragraphs(crlf, parts) ==
            if n < |body| - 1 then [TextOf(crlf, p)] + Paragraphs(crlf, body[n + 1..])
            else if p.tail != "" || n > 0 then [TextOf(crlf, p)] else []
  {
    b, body, n, p := RunOf(parts);
    SourcesCut(parts, b, body, n, p);
    ParagraphsCut(crlf, parts, b, body, n, p);
  }

  lemma ProperRun(parts: seq<string>, n: nat, tail: string)
    requires n <= |parts| && (forall i :: 0 <= i < |parts| ==> '\n' !in parts[i]) && '\n' !in tail
    requires (forall i :: 0 <= i < n ==> !Blank(parts[i])) && (n > 0 || tail != "")
    ensures Proper(Source(parts[..n], tail))
  {
    forall i | 0 <= i < n ensures TextLine(parts[..n][i]) { assert parts[..n][i] == parts[i]; }
  }

  ghost predicate MadeOf(crlf: bool, records: seq<string>, sources: seq<Source>) {
    && |records| == |sources|
    && forall k :: 0 <= k < |sources| ==> Proper(sources[k]) && records[k] == TextOf(crlf, sources[k])
  }

  lemma MadeOfCons(crlf: bool, records: seq<string>, sources: seq<Source>, p: Source)
    requires MadeOf(crlf, records, sources) && Proper(p)
    ensures MadeOf(crlf, [TextOf(crlf, p)] + records, [p] + sources)
  {
  }

  /** The records of an input are the texts of its sources. */
  lemma {:induction false} ParagraphsOfSources(crlf: bool, parts: seq<string>)
    requires |parts| > 0 && forall i :: 0 <= i < |parts| ==> '\n' !in parts[i]
    ensures MadeOf(crlf, Paragraphs(crlf, parts), Sources(parts))
    decreases |parts|
  {
    var b, body, n, p := CutInput(crlf, parts);
    forall i | 0 <= i < |body| ensures '\n' !in body[i] { assert body[i] == parts[b + i]; }
    if n < |body| - 1 {
      ProperRun(body, n, "");
      ParagraphsOfSources(crlf, body[n + 1..]);
      MadeOfCons(crlf, Paragraphs(crlf, body[n + 1..]), Sources(body[n + 1..]), p);
    } else if p.tail != "" || n > 0 {
      ProperRun(body, n, p.tail);
    }
  }

  /** A terminated line that nothing follows in its paragraph. */
  predicate EndsParagraph(parts: seq<string>, i: nat)
    requires i + 1 < |parts|
  {
    if i + 1 < |parts| - 1 then Blank(parts[i + 1]) else parts[i + 1] == ""
  }

  /** A terminated line of two CRs that loses one. */
  predicate LosesCr(crlf: bool, parts: seq<string>, i: nat)
    requires i + 1 < |parts|
  {
    parts[i] == "\r\r" && (crlf ==> EndsParagraph(parts, i))
  }

  /** The same condition on the lines of an input. */
  predicate LoneCrIn(crlf: bool, parts: seq<string>)
    requires |parts| > 0
  {
    parts[|parts| - 1] == "\r" || exists i :: 0 <= i < |parts| - 1 && LosesCr(crlf, parts, i)
  }

  /** Lines in front of a part of the input, none of them two CRs, make no difference. */
  lemma LoneCrDrop(crlf: bool, parts: seq<string>, b: nat)
    requires b < |parts| && forall i :: 0 <= i < b ==> !LosesCr(crlf, parts, i)
    ensures LoneCrIn(crlf, parts) <==> LoneCrIn(crlf, parts[b..])
  {
    var rest := parts[b..];
    forall i | 0 <= i < |rest| - 1 ensures LosesCr(crlf, rest, i) <==> LosesCr(crlf, parts, b + i) {
      assert rest[i] == parts[b + i] && rest[i + 1] == parts[b + i + 1];
    }
    if i :| 0 <= i < |parts| - 1 && LosesCr(crlf, parts, i) { assert LosesCr(crlf, rest, i - b); }
    if i :| 0 <= i < |rest| - 1 && LosesCr(crlf, rest, i) { assert LosesCr(crlf, parts, b + i); }
  }

  lemma LosesInRun(crlf: bool, body: seq<string>, n: nat, p: Source, i: nat)
    requires IsRun(body, n, p) && i < n
    ensures LosesCr(crlf, body, i) <==> Loses(crlf, p, i)
  {
    assert p.lines[i] == body[i];
    assert i + 1 < n ==> !Blank(body[i + 1]);
  }

  /** The first paragraph of an input that starts with it. */
  lemma LoneCrFirst(crlf: bool, body: seq<string>, n: nat, p: Source)
    requires IsRun(body, n, p)
    ensures n < |body| - 1 ==> (LoneCrIn(crlf, body) <==> LoneCr(crlf, p) || LoneCrIn(crlf, body[n + 1..]))
    ensures n == |body| - 1 ==> (LoneCrIn(crlf, body) <==> LoneCr(crlf, p))
  {
    forall i | 0 <= i < n ensures LosesCr(crlf, body, i) <==> Loses(crlf, p, i) { LosesInRun(crlf, body, n, p, i); }
    if i :| 0 <= i < n && LosesCr(crlf, body, i) {
      assert Loses(crlf, p, i);
    } else if n < |body| - 1 {
      assert !LosesCr(crlf, body, n);
      LoneCrDrop(crlf, body, n + 1);
    }
  }

  ghost predicate AnyLoneCr(crlf: bool, sources: seq<Source>) {
    exists k :: 0 <= k < |sources| && LoneCr(crlf, sources[k])
  }

  lemma AnyLoneCrCons(crlf: bool, p: Source, sources: seq<Source>)
    ensures AnyLoneCr(crlf, [p] + sources) <==> LoneCr(crlf, p) || AnyLoneCr(crlf, sources)
  {
    var all := [p] + sources;
    if LoneCr(crlf, p) { assert LoneCr(crlf, all[0]); }
    if k :| 0 <= k < |sources| && LoneCr(crlf, sources[k]) { assert LoneCr(crlf, all[k + 1]); }
    if k :| 0 <= k < |all| && LoneCr(crlf, all[k]) { assert k > 0 ==> LoneCr(crlf, sources[k - 1]); }
  }

  /** Some record of an input has a line that is a lone CR exactly when the lines of the input say so. */
  lemma {:induction false} LoneCrOfInput(crlf: bool, parts: seq<string>)
    requires |parts| > 0
    ensures LoneCrIn(crlf, parts) <==> AnyLoneCr(crlf, Sources(parts))
    decreases |parts|
  {
    var b, body, n, p := CutInput(crlf, parts);
    LoneCrDrop(crlf, parts, b);
    LoneCrFirst(crlf, body, n, p);
    if n < |body| - 1 {
      LoneCrOfInput(crlf, body[n + 1..]);
      AnyLoneCrCons(crlf, p, Sources(body[n + 1..]));
    } else {
      AnyLoneCrCons(crlf, p, []);
      assert [p] + [] == [p];
    }
  }

  /** The records of a whole input, for both options: none has an empty line, and exactly when one has a
      line that is a lone CR. */
  lemma LoneCrInRecords(crlf: bool, parts: seq<string>)
    requires |parts| > 0 && forall i :: 0 <= i < |parts| ==> '\n' !in parts[i]
    ensures forall k :: 0 <= k < |Paragraphs(crlf, parts)| ==> ParagraphShape(crlf, Paragraphs(crlf, parts)[k])
    ensures LoneCrIn(crlf, parts) <==>
            exists k :: 0 <= k < |Paragraphs(crlf, parts)| && "\r" in Lines(Paragraphs(crlf, parts)[k])
  {
    ParagraphsOfSources(crlf, parts);
    LoneCrOfInput(crlf, parts);
    forall k | 0 <= k < |Sources(parts)|
      ensures ParagraphShape(crlf, Paragraphs(crlf, parts)[k])
      ensures "\r" in Lines(Paragraphs(crlf, parts)[k]) <==> LoneCr(crlf, Sources(parts)[k])
    {
      ShapeOfSource(crlf, Sources(parts)[k]);
      LoneCrExactly(crlf, Sources(parts)[k]);
    }
  }

  /** Reading one line of two CRs and then more. */
  lemma CrCrLine(crlf: bool, rest: string)
    ensures ParagraphFrom(crlf, [], "", Chars("\r\r" + "\n" + rest)) == ParagraphFrom(crlf, ["\r\r"], "", Chars(rest))
  {
    var parts := ["\r\r"] + Pieces('\n', rest);
    PiecesAreSplit('\n', rest);
    JoinCons("\r\r", Pieces('\n', rest), "\n");
    assert parts[1..] == Pieces('\n', rest) && [] + ["\r\r"] == ["\r\r"];
    ParagraphLine(crlf, [], parts);
  }

  /** Without CRLF, a line of two CRs opens this record with a lone CR. */
  lemma LoneCrFirstLine()
    ensures NextRecord(Paragraph(false), Chars("\r\r" + "\n" + "x")).outcome == Record("\r\nx")
  {
    CrCrLine(false, "x");
    ParagraphLine(false, ["\r\r"], ["x"]);
    assert ["\r\r"][..0] == [] && Gather(false, []) == "" && StripCr("\r\r") == "\r";
    assert Gather(false, ["\r\r"]) == "" + "\r" + "\n";
  }

  /** Under CRLF, an unterminated last line that is a CR is kept as it is. */
  lemma LoneCrLastLine()
    ensures NextRecord(Paragraph(true), Chars("x" + "\n" + "\r")).outcome == Record("x\n\r")
  {
    var parts := ["x", "\r"];
    assert parts[1..] == ["\r"] && [] + ["x"] == ["x"];
    assert Join(parts, "\n") == "x" + "\n" + "\r";
    ParagraphLine(true, [], parts);
    ParagraphLine(true, ["x"], ["\r"]);
    assert Gather(true, ["x"]) == "" + "x" + "\n" by { assert ["x"][..0] == []; }
  }

  /** And a paragraph can be a lone CR and nothing else. */
  lemma LoneCrRecord()
    ensures NextRecord(Paragraph(true), Chars("\r\r" + "\n" + "\n")).outcome == Record("\r")
  {
    CrCrLine(true, "\n");
    var parts := ["", ""];
    assert Join(parts, "\n") == "" + "\n" + "" by { assert parts[1..] == [""]; }
    ParagraphLine(true, ["\r\r"], parts);
    assert ["\r\r"][..0] == [] && Gather(true, []) == "" && StripCr("\r\r") == "\r";
  }
}
