/** What reading an input to its end returns, in terms of the lines and pieces of the input alone. */
module WholeInput {
  import opened Text
  import opened RecordSplit
  import opened RecordReader
  import opened RecordTheorems
  import opened ParagraphLines

  /** `cut` is `line` without the CR at its end, if there is one. */
  ghost predicate LessCr(line: string, cut: string) {
    if line != "" && line[|line| - 1] == '\r' then line == cut + "\r" else cut == line
  }

  /** Every terminated piece is a record, less its CR if asked, and the unterminated rest is if not empty. */
  ghost predicate PiecesAre(strip: bool, parts: seq<string>, records: seq<string>)
    requires |parts| > 0
  {
    var n := |parts| - 1;
    && |records| == (if parts[n] == "" then n else n + 1)
    && (forall i :: 0 <= i < n ==> if strip then LessCr(parts[i], records[i]) else records[i] == parts[i])
    && (parts[n] != "" ==> records[n] == parts[n])
  }

  /** A line that is text: not empty, and if it is terminated not a CR alone. */
  ghost predicate TextAt(parts: seq<string>, i: nat)
    requires i < |parts|
  {
    parts[i] != "" && (i < |parts| - 1 ==> parts[i] != "\r")
  }

  datatype Range = Range(lo: nat, hi: nat)

  /** The lines of a range are text, and those next to it are not. */
  ghost predicate MaximalRun(parts: seq<string>, r: Range) {
    && r.lo < r.hi <= |parts| && (forall i :: r.lo <= i < r.hi ==> TextAt(parts, i))
    && (r.lo > 0 ==> !TextAt(parts, r.lo - 1)) && (r.hi < |parts| ==> !TextAt(parts, r.hi))
  }

  ghost predicate Covered(runs: seq<Range>, i: nat) {
    exists k :: 0 <= k < |runs| && runs[k].lo <= i < runs[k].hi
  }

  /** All maximal runs of text from line `from` on, in order. */
  ghost predicate AreRuns(parts: seq<string>, from: nat, runs: seq<Range>) {
    && (forall k {:trigger MaximalRun(parts, runs[k])} :: 0 <= k < |runs| ==> MaximalRun(parts, runs[k]))
    && (forall k :: 0 <= k < |runs| ==> from <= runs[k].lo)
    && (forall j, k :: 0 <= j < k < |runs| ==> runs[j].hi < runs[k].lo)
    && (forall i: nat {:trigger Covered(runs, i)} :: from <= i < |parts| && TextAt(parts, i) ==> Covered(runs, i))
  }

  /** The record of a run. Under CRLF it is the piece of the input that the run makes up, less the CR of the
      last line if that line is terminated. Without it every terminated line loses its CR. */
  ghost predicate RecordOf(crlf: bool, parts: seq<string>, r: Range, record: string)
    requires r.lo < r.hi <= |parts|
  {
    if crlf then
      var piece := Join(parts[r.lo..r.hi], "\n");
      if r.hi == |parts| then record == piece else LessCr(piece, record)
    else exists kept: seq<string> :: record == Join(kept, "\n") && KeptOf(parts, r, kept)
  }

  ghost predicate KeptOf(parts: seq<string>, r: Range, kept: seq<string>)
    requires r.lo < r.hi <= |parts|
  {
    && |kept| == r.hi - r.lo
    && forall i :: 0 <= i < |kept| ==>
         if r.lo + i == |parts| - 1 then kept[i] == parts[r.lo + i] else LessCr(parts[r.lo + i], kept[i])
  }

  ghost predicate RecordsOf(crlf: bool, parts: seq<string>, runs: seq<Range>, records: seq<string>) {
    && |records| == |runs|
    && (forall k :: 0 <= k < |runs| ==> runs[k].lo < runs[k].hi <= |parts|)
    && forall k {:trigger RecordOf(crlf, parts, runs[k], records[k])} :: 0 <= k < |runs| ==> RecordOf(crlf, parts, runs[k], records[k])
  }

  /** One record for each maximal run of text lines. */
  ghost predicate ParagraphsAre(crlf: bool, parts: seq<string>, records: seq<string>) {
    exists runs :: AreRuns(parts, 0, runs) && RecordsOf(crlf, parts, runs, records)
  }

  ghost predicate RecordsAre(mode: Mode, parts: seq<string>, records: seq<string>)
    requires |parts| > 0
  {
    match mode
    case Newline => PiecesAre(true, parts, records)
    case Single(_) => PiecesAre(false, parts, records)
    case Paragraph(crlf) => ParagraphsAre(crlf, parts, records)
  }

  // ---------------------------------------------------------------- lines

  lemma StripIsLess(line: string)
    ensures LessCr(line, StripCr(line))
  {
  }

  lemma {:induction false} PiecesOfLines(strip: bool, parts: seq<string>)
    requires |parts| > 0
    ensures PiecesAre(strip, parts, LineRecords(strip, parts))
    decreases |parts|
  {
    if |parts| > 1 {
      PiecesOfLines(strip, parts[1..]);
      StripIsLess(parts[0]);
      var rest, records := LineRecords(strip, parts[1..]), LineRecords(strip, parts);
      forall i | 0 < i < |parts| ensures parts[i] == parts[1..][i - 1] && (i < |records| ==> records[i] == rest[i - 1]) {
      }
    }
  }

  // ---------------------------------------------------------------- paragraphs

  lemma TextIsJoin(crlf: bool, p: Source)
    requires p.lines != [] || p.tail != ""
    ensures TextOf(crlf, p) == Join(Kept(crlf, p), "\n")
  {
    if p.tail != "" {
      GatherIsJoin(crlf, p.lines, p.tail);
    } else {
      GatherIsJoin(crlf, p.lines[..|p.lines| - 1], StripCr(p.lines[|p.lines| - 1]));
    }
  }

  /** What a line is joined to. */
  function Before(front: seq<string>): string {
    if front == [] then "" else Join(front, "\n") + "\n"
  }

  lemma JoinLast(front: seq<string>, last: string)
    ensures Join(front + [last], "\n") == Before(front) + last
  {
    if front == [] {
      assert front + [last] == [last];
    } else {
      JoinSnoc(front, last, "\n");
    }
  }

  lemma LessCrAfter(head: string, last: string)
    requires last != ""
    ensures LessCr(head + last, head + StripCr(last))
  {
    var whole := head + last;
    assert whole[|whole| - 1] == last[|last| - 1];
    if last[|last| - 1] == '\r' {
      assert last == StripCr(last) + "\r";
      assert whole == head + StripCr(last) + "\r";
    }
  }

  /** Cutting the CR of the last line cuts it off the whole. */
  lemma CutLast(lines: seq<string>)
    requires lines != [] && lines[|lines| - 1] != ""
    ensures LessCr(Join(lines, "\n"), Join(lines[..|lines| - 1] + [StripCr(lines[|lines| - 1])], "\n"))
  {
    var front, last := lines[..|lines| - 1], lines[|lines| - 1];
    assert lines == front + [last];
    JoinLast(front, last);
    JoinLast(front, StripCr(last));
    LessCrAfter(Before(front), last);
  }

  /** The lines of a source are those of a range of the input. */
  ghost predicate SourceAt(parts: seq<string>, r: Range, p: Source) {
    && r.lo < r.hi <= |parts|
    && (if r.hi == |parts| then p.lines == parts[r.lo..r.hi - 1] && p.tail == parts[r.hi - 1] && p.tail != ""
        else p.lines == parts[r.lo..r.hi] && p.tail == "")
  }

  lemma RecordUnderCrlf(parts: seq<string>, r: Range, p: Source)
    requires SourceAt(parts, r, p) && parts[r.hi - 1] != ""
    ensures RecordOf(true, parts, r, Join(Kept(true, p), "\n"))
  {
    var lines := parts[r.lo..r.hi];
    if r.hi == |parts| {
      assert Kept(true, p) == lines;
    } else {
      assert Kept(true, p) == lines[..|lines| - 1] + [StripCr(lines[|lines| - 1])];
      CutLast(lines);
    }
  }

  lemma RecordWithoutCrlf(parts: seq<string>, r: Range, p: Source)
    requires SourceAt(parts, r, p)
    ensures RecordOf(false, parts, r, Join(Kept(false, p), "\n"))
  {
    var kept := Kept(false, p);
    forall i | 0 <= i < |kept|
      ensures if r.lo + i == |parts| - 1 then kept[i] == parts[r.lo + i] else kept[i] == StripCr(parts[r.lo + i])
    {
    }
    forall line ensures LessCr(line, StripCr(line)) { StripIsLess(line); }
    assert KeptOf(parts, r, kept);
  }

  lemma RecordOfSource(crlf: bool, parts: seq<string>, r: Range, p: Source)
    requires SourceAt(parts, r, p) && parts[r.hi - 1] != ""
    ensures RecordOf(crlf, parts, r, TextOf(crlf, p))
  {
    TextIsJoin(crlf, p);
    if crlf { RecordUnderCrlf(parts, r, p); } else { RecordWithoutCrlf(parts, r, p); }
  }

  /** The range of a run of `n` text lines from `lo` on, with an unterminated line that follows them. */
  function FirstRange(lo: nat, n: nat, body: seq<string>): Range
    requires n < |body|
  {
    Range(lo, lo + if n < |body| - 1 || body[n] == "" then n else n + 1)
  }

  /** A range of an input whose first run comes after `lo`. */
  ghost predicate FirstAt(parts: seq<string>, lo: nat, body: seq<string>, n: nat, p: Source) {
    && lo < |parts| && body == parts[lo..] && IsRun(body, n, p) && (lo > 0 ==> !TextAt(parts, lo - 1)) && (n > 0 || body[n] != "")
  }

  lemma FirstMaximal(parts: seq<string>, lo: nat, body: seq<string>, n: nat, p: Source)
    requires FirstAt(parts, lo, body, n, p)
    ensures MaximalRun(parts, FirstRange(lo, n, body))
  {
    var r := FirstRange(lo, n, body);
    forall i | r.lo <= i < r.hi ensures TextAt(parts, i) { assert parts[i] == body[i - lo]; }
    if r.hi < |parts| { assert parts[r.hi] == body[n]; }
  }

  lemma FirstSource(parts: seq<string>, lo: nat, body: seq<string>, n: nat, p: Source)
    requires FirstAt(parts, lo, body, n, p)
    ensures var r := FirstRange(lo, n, body); SourceAt(parts, r, p) && parts[r.hi - 1] != ""
  {
    var r := FirstRange(lo, n, body);
    assert parts[r.hi - 1] == body[r.hi - 1 - lo];
    assert body[..n] == parts[lo..lo + n];
    assert parts[lo + n] == body[n];
  }

  lemma RunsCons(parts: seq<string>, off: nat, r: Range, next: nat, runs: seq<Range>)
    requires MaximalRun(parts, r) && off <= r.lo && next == r.hi + 1 <= |parts| && AreRuns(parts, next, runs)
    requires forall i: nat {:trigger TextAt(parts, i)} :: off <= i < r.lo ==> !TextAt(parts, i)
    ensures AreRuns(parts, off, [r] + runs)
  {
    var all := [r] + runs;
    forall k | 0 <= k < |all| ensures MaximalRun(parts, all[k]) {
      if k > 0 { assert MaximalRun(parts, runs[k - 1]); }
    }
    forall i: nat | off <= i < |parts| && TextAt(parts, i) ensures Covered(all, i) {
      if i < r.hi {
        assert all[0].lo <= i < all[0].hi;
      } else {
        assert i >= next && Covered(runs, i);
        var k :| 0 <= k < |runs| && runs[k].lo <= i < runs[k].hi;
        assert all[k + 1] == runs[k];
      }
    }
  }

  lemma RecordsCons(crlf: bool, parts: seq<string>, r: Range, runs: seq<Range>, record: string, records: seq<string>)
    requires RecordsOf(crlf, parts, runs, records) && r.lo < r.hi <= |parts| && RecordOf(crlf, parts, r, record)
    ensures RecordsOf(crlf, parts, [r] + runs, [record] + records)
  {
    var all, those := [r] + runs, [record] + records;
    forall k | 0 <= k < |all| ensures all[k].lo < all[k].hi <= |parts| && RecordOf(crlf, parts, all[k], those[k]) {
      if k > 0 { assert RecordOf(crlf, parts, runs[k - 1], records[k - 1]); }
    }
  }

  /** Blank lines are no text. */
  lemma BlankIsNoText(parts: seq<string>, off: nat, b: nat)
    requires off + b < |parts| && forall i :: 0 <= i < b ==> Blank(parts[off..][i])
    ensures forall i: nat {:trigger TextAt(parts, i)} :: off <= i < off + b ==> !TextAt(parts, i)
  {
    forall i: nat | off <= i < off + b ensures !TextAt(parts, i) { assert parts[i] == parts[off..][i - off]; }
  }

  /** The first run of an input, and its record. */
  lemma OneRun(crlf: bool, parts: seq<string>, lo: nat, body: seq<string>, n: nat, p: Source) returns (r: Range)
    requires FirstAt(parts, lo, body, n, p)
    ensures r == FirstRange(lo, n, body) && MaximalRun(parts, r) && RecordOf(crlf, parts, r, TextOf(crlf, p))
  {
    r := FirstRange(lo, n, body);
    FirstMaximal(parts, lo, body, n, p);
    FirstSource(parts, lo, body, n, p);
    RecordOfSource(crlf, parts, r, p);
  }

  lemma LastRun(parts: seq<string>, off: nat, r: Range)
    requires MaximalRun(parts, r) && off <= r.lo && (r.hi == |parts| || (r.hi == |parts| - 1 && parts[r.hi] == ""))
    requires forall i: nat {:trigger TextAt(parts, i)} :: off <= i < r.lo ==> !TextAt(parts, i)
    ensures AreRuns(parts, off, [r])
  {
    var all := [r];
    forall i: nat | off <= i < |parts| && TextAt(parts, i) ensures Covered(all, i) {
      assert all[0].lo <= i < all[0].hi;
    }
  }

  /** The runs from line `off` on, and their records. */
  ghost predicate Described(crlf: bool, parts: seq<string>, off: nat, runs: seq<Range>, records: seq<string>) {
    AreRuns(parts, off, runs) && RecordsOf(crlf, parts, runs, records)
  }

  lemma DescribedNone(crlf: bool, parts: seq<string>, off: nat)
    requires |parts| > off && parts[|parts| - 1] == ""
    requires forall i: nat {:trigger TextAt(parts, i)} :: off <= i < |parts| - 1 ==> !TextAt(parts, i)
    ensures Described(crlf, parts, off, [], [])
  {
  }

  lemma DescribedNext(crlf: bool, parts: seq<string>, off: nat, lo: nat, body: seq<string>, n: nat, p: Source, rest: seq<Range>, records: seq<string>)
    requires FirstAt(parts, lo, body, n, p) && n < |body| - 1 && off <= lo && Described(crlf, parts, lo + n + 1, rest, records)
    requires forall i: nat {:trigger TextAt(parts, i)} :: off <= i < lo ==> !TextAt(parts, i)
    ensures Described(crlf, parts, off, [Range(lo, lo + n)] + rest, [TextOf(crlf, p)] + records)
  {
    var r := OneRun(crlf, parts, lo, body, n, p);
    RunsCons(parts, off, r, lo + n + 1, rest);
    RecordsCons(crlf, parts, r, rest, TextOf(crlf, p), records);
  }

  lemma DescribedLast(crlf: bool, parts: seq<string>, off: nat, lo: nat, body: seq<string>, n: nat, p: Source)
    requires FirstAt(parts, lo, body, n, p) && n == |body| - 1 && off <= lo
    requires forall i: nat {:trigger TextAt(parts, i)} :: off <= i < lo ==> !TextAt(parts, i)
    ensures Described(crlf, parts, off, [FirstRange(lo, n, body)], [TextOf(crlf, p)])
  {
    var r := OneRun(crlf, parts, lo, body, n, p);
    LastRun(parts, off, r);
  }

  /** No text comes right before a line. */
  ghost predicate Starts(parts: seq<string>, off: nat)
    requires off <= |parts|
  {
    off > 0 ==> !TextAt(parts, off - 1)
  }

  lemma Suffix(parts: seq<string>, a: nat, b: nat, c: nat)
    requires c == a + b <= |parts|
    ensures parts[a..][b..] == parts[c..]
  {
  }

  /** The first run of the lines from `off` on, if there is one, and the lines after it. */
  lemma CutAt(crlf: bool, parts: seq<string>, off: nat, suffix: seq<string>) returns (lo: nat, body: seq<string>, n: nat, p: Source, next: nat, after: seq<string>)
    requires off < |parts| && suffix == parts[off..] && Starts(parts, off)
    ensures off <= lo < |parts| && (forall i: nat {:trigger TextAt(parts, i)} :: off <= i < lo ==> !TextAt(parts, i)) && n < |body|
    ensures n < |body| - 1 ==>
              && FirstAt(parts, lo, body, n, p) && next == lo + n + 1 < |parts| && after == parts[next..] && Starts(parts, next)
              && Paragraphs(crlf, suffix) == [TextOf(crlf, p)] + Paragraphs(crlf, after)
    ensures n == |body| - 1 ==>
              if body[n] == "" && n == 0 then parts[|parts| - 1] == "" && lo == |parts| - 1 && Paragraphs(crlf, suffix) == []
              else FirstAt(parts, lo, body, n, p) && Paragraphs(crlf, suffix) == [TextOf(crlf, p)]
  {
    var b;
    b, body, n, p := CutInput(crlf, suffix);
    lo := off + b;
    Suffix(parts, off, b, lo);
    BlankIsNoText(parts, off, b);
    if lo > off { assert !TextAt(parts, lo - 1); }
    assert parts[lo + n] == body[n];
    next, after := lo + n + 1, body[n + 1..];
    Suffix(parts, lo, n + 1, next);
  }

  lemma {:induction false} ParagraphsFrom(crlf: bool, parts: seq<string>, off: nat, suffix: seq<string>) returns (runs: seq<Range>, records: seq<string>)
    requires off < |parts| && suffix == parts[off..] && Starts(parts, off)
    ensures records == Paragraphs(crlf, suffix) && Described(crlf, parts, off, runs, records)
    decreases |parts| - off
  {
    var lo, body, n, p, next, after := CutAt(crlf, parts, off, suffix);
    if n < |body| - 1 {
      var rest, more := ParagraphsFrom(crlf, parts, next, after);
      DescribedNext(crlf, parts, off, lo, body, n, p, rest, more);
      runs, records := [Range(lo, lo + n)] + rest, [TextOf(crlf, p)] + more;
    } else if body[n] == "" && n == 0 {
      DescribedNone(crlf, parts, off);
      runs, records := [], [];
    } else {
      DescribedLast(crlf, parts, off, lo, body, n, p);
      runs, records := [FirstRange(lo, n, body)], [TextOf(crlf, p)];
    }
  }

  /** The reference records of an input are what its pieces or runs of lines say. */
  lemma ReferenceIs(mode: Mode, parts: seq<string>)
    requires |parts| > 0
    ensures RecordsAre(mode, parts, Reference(mode, parts))
  {
    match mode
    case Newline => PiecesOfLines(true, parts);
    case Single(_) => PiecesOfLines(false, parts);
    case Paragraph(crlf) =>
      assert parts[0..] == parts;
      var runs, records := ParagraphsFrom(crlf, parts, 0, parts);
  }

  /** However an input is cut into non-empty chunks that fit the buffer, reading it record by record
      returns the records that its pieces or lines say, which are the reference records, and further reads
      keep reporting the end. */
  method SplitChunks(mode: Mode, capacity: nat, chunks: seq<string>, again: Mode)
    returns (records: seq<string>, last: Outcome, later: Outcome)
    requires capacity > 0
    requires forall i :: 0 <= i < |chunks| ==> 0 < |chunks[i]| <= capacity
    ensures forall parts :: IsSplit(parts, Terminator(mode), Concat(chunks)) ==>
              records == Reference(mode, parts) && RecordsAre(mode, parts, records)
    ensures last.EndOfInput? && later.EndOfInput?
  {
    var stream := new Stream(capacity, Deliver(chunks));
    FlattenChunks(chunks);
    ghost var text := Concat(chunks);
    EveryReference(mode, text);
    forall parts | IsSplit(parts, Terminator(mode), text) ensures RecordsAre(mode, parts, Reference(mode, parts)) {
      ReferenceIs(mode, parts);
    }
    ghost var rest;
    records, last, rest := stream.ReadAll(mode, Chars(text));
    PiecesAreSplit(Terminator(mode), text);
    assert rest == [] && last == EndOfInput;
    later := stream.ReadRecord(again);
    NextRecordProgress(again, []);
  }
}
