/** The buffered record reader of the run-time I/O layer. */
module RecordReader {
  import opened RecordSplit

  /** One answer of the user's read handler: some characters, a failure, or end of file. */
  datatype Delivery = Data(chars: string) | Fail | End

  /** The stream a handler's answers amount to. Nothing after the first end of file is ever read;
      a handler with no answer left reports end of file. */
  function Flatten(script: seq<Delivery>): seq<Item> {
    if script == [] then []
    else match script[0]
      case Data(chars) => Chars(chars) + Flatten(script[1..])
      case Fail => [Fault] + Flatten(script[1..])
      case End => []
  }

  /** All characters of a run of deliveries. */
  function Concat(chunks: seq<string>): string {
    if chunks == [] then "" else chunks[0] + Concat(chunks[1..])
  }

  function Deliver(chunks: seq<string>): seq<Delivery> {
    seq(|chunks|, i requires 0 <= i < |chunks| => Data(chunks[i]))
  }

  /** Chunk boundaries leave no trace in the stream. */
  lemma {:induction false} FlattenChunks(chunks: seq<string>)
    ensures Flatten(Deliver(chunks)) == Chars(Concat(chunks))
  {
    if chunks != [] {
      assert Deliver(chunks)[1..] == Deliver(chunks[1..]);
      FlattenChunks(chunks[1..]);
      assert Chars(chunks[0]) + Chars(Concat(chunks[1..])) == Chars(Concat(chunks));
    }
  }

  class Stream {
    const inbuf: array<char>
    var pos: nat
    var len: nat
    var eof: bool
    var eos: bool
    /** What the handler will answer, call by call. */
    var script: seq<Delivery>

    ghost predicate Valid()
      reads this
    {
      && pos <= len <= inbuf.Length
      && inbuf.Length > 0
      && (eof ==> pos == len)
      && (forall i :: 0 <= i < |script| && script[i].Data? ==> 0 < |script[i].chars| <= inbuf.Length)
    }

    /** The stream beyond the read buffer. */
    ghost function Beyond(): seq<Item>
      reads this
    {
      if eof then [] else Flatten(script)
    }

    /** Everything that is still to be read. */
    ghost function Pending(): seq<Item>
      requires Valid()
      reads this, inbuf
    {
      PendingAt(pos)
    }

    /** The same, were the read position at `p`. */
    ghost function PendingAt(p: nat): seq<Item>
      requires p <= len <= inbuf.Length
      reads this, inbuf
    {
      Chars(inbuf[p..len]) + Beyond()
    }

    constructor (capacity: nat, answers: seq<Delivery>)
      requires capacity > 0
      requires forall i :: 0 <= i < |answers| && answers[i].Data? ==> 0 < |answers[i].chars| <= capacity
      ensures Valid() && !eof && !eos && fresh(inbuf)
      ensures Pending() == Flatten(answers)
    {
      inbuf := new char[capacity];
      pos, len, eof, eos, script := 0, 0, false, false, answers;
      new;
      assert Chars(inbuf[pos..len]) == [];
    }

    /** The user's read handler: fills the buffer from its start. */
    method CallHandler() returns (x: int)
      requires Valid()
      modifies this`script, inbuf
      ensures Valid()
      ensures old(script) == [] ==> x == 0 && script == []
      ensures old(script) != [] ==> script == old(script)[1..]
      ensures old(script) != [] && old(script)[0].Fail? ==> x == -1
      ensures old(script) != [] && old(script)[0].End? ==> x == 0
      ensures old(script) != [] && old(script)[0].Data? ==>
        0 < x <= inbuf.Length && inbuf[..x] == old(script)[0].chars
    {
      if script == [] { return 0; }
      var answer := script[0];
      script := script[1..];
      match answer
      case Fail => x := -1;
      case End => x := 0;
      case Data(chars) =>
        forall i | 0 <= i < |chars| { inbuf[i] := chars[i]; }
        x := |chars|;
    }

    /** Looks for a newline from `pos` on. The slab from `pos` to `endPos` belongs to the record; a CR
        before the newline does not, and comes off the record if an earlier refill brought it. */
    method FindNewline(rec0: string, c0: char) returns (rec: string, c: char, endPos: nat, p: nat)
      requires Valid() && pos < len
      requires c0 == '\r' ==> EndsWith(rec0, '\r')
      ensures pos < p <= len && endPos <= len
      ensures forall i :: pos <= i < p - 1 ==> inbuf[i] != '\n'
      ensures endPos == len ==> p == len && rec == rec0 && c == inbuf[p - 1] && c != '\n'
      ensures endPos < len ==> inbuf[p - 1] == '\n'
      ensures endPos < len ==>
                if p - 1 == pos
                then endPos == pos && rec == if c0 == '\r' then rec0[..|rec0| - 1] else rec0
                else rec == rec0 && endPos == if inbuf[p - 2] == '\r' then p - 2 else p - 1
    {
      p, endPos, c, rec := pos, pos, c0, rec0;
      var more := true;
      while more
        invariant pos <= p <= len && endPos <= len
        invariant more ==> p < len && endPos == p && rec == rec0 && c == if p == pos then c0 else inbuf[p - 1]
        invariant forall i :: pos <= i < p - 1 ==> inbuf[i] != '\n'
        invariant pos < p && (more || endPos == len) ==> inbuf[p - 1] != '\n'
        invariant !more ==> pos < p
        invariant !more && endPos == len ==> p == len && rec == rec0 && c == inbuf[p - 1]
        invariant !more && endPos < len ==> inbuf[p - 1] == '\n'
        invariant !more && endPos < len ==>
                    if p - 1 == pos
                    then endPos == pos && rec == if c0 == '\r' then rec0[..|rec0| - 1] else rec0
                    else rec == rec0 && endPos == if inbuf[p - 2] == '\r' then p - 2 else p - 1
        decreases len - p, more
      {
        var pc := c;
        c := inbuf[p];
        p := p + 1;
        endPos := p;
        if c == '\n' {
          endPos := endPos - 1;
          if pc == '\r' {
            if endPos > pos {
              endPos := endPos - 1;
            } else {
              rec := rec[..|rec| - 1];
            }
          }
          more := false;
        } else {
          more := p < len;
        }
      }
    }

    /** Consumes the buffer up to a newline or its end. */
    method ScanNewline(rec0: string, c0: char) returns (rec: string, c: char, found: bool, p: nat)
      requires Valid() && pos < len
      requires c0 == '\r' <==> EndsWith(rec0, '\r')
      ensures pos < p <= len
      ensures found ==> LineFrom('\n', true, rec0, Pending()) == Step(Record(rec), PendingAt(p))
      ensures !found ==> p == len && (c == '\r' <==> EndsWith(rec, '\r'))
      ensures !found ==> LineFrom('\n', true, rec0, Pending()) == LineFrom('\n', true, rec, PendingAt(p))
    {
      var endPos;
      rec, c, endPos, p := FindNewline(rec0, c0);
      found := endPos < len;
      ghost var text := inbuf[..len];
      SlabIsSlice(inbuf, pos, endPos, len);
      SlabIsSlice(inbuf, pos, len, len);
      SlabIsSlice(inbuf, p, len, len);
      if found {
        NewlineSlab(rec0, c0, text, pos, p, Beyond(), rec, endPos);
      } else {
        CutCr(rec0, text, pos, p);
        LineText('\n', true, rec0, text, pos, p, Beyond());
      }
      rec := rec + inbuf[pos..endPos];
    }

    /** Consumes the buffer up to the separator character or its end. */
    method ScanSingle(sep: char, rec0: string) returns (rec: string, found: bool, p: nat)
      requires Valid() && pos < len
      ensures pos < p <= len
      ensures found ==> LineFrom(sep, false, rec0, Pending()) == Step(Record(rec), PendingAt(p))
      ensures !found ==> p == len && LineFrom(sep, false, rec0, Pending()) == LineFrom(sep, false, rec, PendingAt(p))
    {
      p := pos;
      var endPos: nat := p;
      var more := true;
      while more
        invariant pos <= p <= len && endPos <= len
        invariant more ==> p < len && endPos == p
        invariant forall i :: pos <= i < p - 1 ==> inbuf[i] != sep
        invariant pos < p && (more || endPos == len) ==> inbuf[p - 1] != sep
        invariant !more ==> pos < p && (endPos == p == len || (endPos == p - 1 && inbuf[p - 1] == sep))
        decreases len - p, more
      {
        var c := inbuf[p];
        p := p + 1;
        endPos := p;
        if c == sep {
          endPos := endPos - 1;
          more := false;
        } else {
          more := p < len;
        }
      }
      found := endPos < len;
      ghost var text := inbuf[..len];
      assert forall i :: pos <= i < len ==> text[i] == inbuf[i];
      LineSlab(sep, false, rec0, text, pos, p, Beyond());
      SlabIsSlice(inbuf, pos, endPos, len);
      SlabIsSlice(inbuf, pos, len, len);
      SlabIsSlice(inbuf, p, len, len);
      rec := rec0 + inbuf[pos..endPos];
    }

    /** Consumes the buffer up to a blank line that ends a paragraph, or to its end. `lines` and
        `cur` say what the record buffer and the line length stand for. */
    method ScanParagraph(crlf: bool, rec0: string, c0: char, lineLen0: nat,
                         ghost lines0: seq<string>, ghost cur0: string)
      returns (rec: string, c: char, lineLen: nat, done: bool, p: nat, ghost lines: seq<string>, ghost cur: string)
      requires Valid() && pos < len
      requires Represents(crlf, rec0, c0, lineLen0, lines0, cur0)
      ensures pos < p <= len
      ensures done ==> ParagraphFrom(crlf, lines0, cur0, Pending()) == Step(Record(rec), PendingAt(p))
      ensures !done ==> p == len && Represents(crlf, rec, c, lineLen, lines, cur)
      ensures !done ==> ParagraphFrom(crlf, lines0, cur0, Pending()) == ParagraphFrom(crlf, lines, cur, PendingAt(p))
    {
      rec, c, lineLen, lines, cur := rec0, c0, lineLen0, lines0, cur0;
      done := false;
      p := pos;
      ghost var text, rest := inbuf[..len], Beyond();
      ghost var goal := ParagraphFrom(crlf, lines0, cur0, Pending());
      assert text[p..] == inbuf[p..len];
      while !done && p < len
        invariant pos <= p <= len
        invariant done || p == len ==> pos < p
        invariant !done ==> Represents(crlf, rec, c, lineLen, lines, cur)
        invariant !done ==> Ahead(crlf, lines, cur, text, p, rest) == goal
        invariant done ==> Step(Record(rec), Chars(text[p..]) + rest) == goal
        decreases len - p, !done
      {
        var pc := c;
        c := inbuf[p];
        assert c == text[p];
        rec, lineLen, done, lines, cur := AdvanceChar(crlf, c, rec, pc, lineLen, lines, cur, text, p, rest, goal);
        p := p + 1;
      }
      SlabIsSlice(inbuf, p, len, len);
    }

    /** Scans what the buffer holds, in the way RS asks for. */
    method ScanBuffer(mode: Mode, rec0: string, c0: char, lineLen0: nat,
                      ghost lines0: seq<string>, ghost cur0: string)
      returns (rec: string, c: char, lineLen: nat, done: bool, p: nat, ghost lines: seq<string>, ghost cur: string)
      requires Valid() && pos < len
      requires InProgress(mode, rec0, c0, lineLen0, lines0, cur0)
      ensures pos < p <= len
      ensures done ==> Continue(mode, rec0, lines0, cur0, Pending()) == Step(Record(rec), PendingAt(p))
      ensures !done ==> p == len && InProgress(mode, rec, c, lineLen, lines, cur)
      ensures !done ==> Continue(mode, rec0, lines0, cur0, Pending()) == Continue(mode, rec, lines, cur, PendingAt(p))
    {
      c, lineLen, lines, cur := c0, lineLen0, lines0, cur0;
      match mode
      case Newline =>
        rec, c, done, p := ScanNewline(rec0, c0);
      case Paragraph(crlf) =>
        rec, c, lineLen, done, p, lines, cur := ScanParagraph(crlf, rec0, c0, lineLen0, lines0, cur0);
      case Single(sep) =>
        rec, done, p := ScanSingle(sep, rec0);
    }

    /** Asks the handler for more. Nothing of the stream is lost or duplicated. */
    method Refill() returns (x: int)
      requires Valid() && pos >= len && !eof
      modifies this`script, this`eof, this`len, this`pos, inbuf
      ensures Valid()
      ensures x <= -1 ==> !eof && old(Pending()) == [Fault] + Pending()
      ensures x == 0 ==> eof && old(Pending()) == [] && Pending() == []
      ensures x > 0 ==> !eof && pos < len && Pending() == old(Pending()) && |script| < |old(script)|
    {
      assert Pending() == Flatten(script);
      x := CallHandler();
      if x == 0 {
        eof := true;
      } else if x > 0 {
        len := x;
        pos := 0;
        assert inbuf[0..x] == inbuf[..x];
      }
    }

    /** Reads one record: for every way the handler may cut its stream into chunks, what comes back
        and what remains is what the stream alone determines. */
    method ReadRecord(mode: Mode) returns (outcome: Outcome)
      requires Valid()
      modifies this`script, this`eof, this`len, this`pos, inbuf
      ensures Valid()
      ensures Step(outcome, Pending()) ==
              if eos then Step(EndOfInput, old(Pending())) else NextRecord(mode, old(Pending()))
    {
      if eos { return EndOfInput; }
      var rec, c, lineLen: nat := "", '\0', 0;
      ghost var lines, cur := [], "";
      ghost var goal := NextRecord(mode, Pending());
      while true
        invariant Valid() && !eos
        invariant eof ==> rec == ""
        invariant InProgress(mode, rec, c, lineLen, lines, cur)
        invariant goal == Continue(mode, rec, lines, cur, Pending())
        decreases |script|, len - pos
      {
        if pos >= len {
          if eof {
            ContinueEnds(mode, rec, c, lineLen, lines, cur, []);
            outcome := if rec == "" then EndOfInput else Record(rec);
            return;
          }
          ghost var before := Pending();
          var x := Refill();
          if x <= -1 {
            ContinueEnds(mode, rec, c, lineLen, lines, cur, Pending());
            return IoError;
          }
          if x == 0 {
            outcome := AtEnd(mode, rec, c, lineLen, lines, cur);
            return;
          }
        }
        var done, p;
        rec, c, lineLen, done, p, lines, cur := ScanBuffer(mode, rec, c, lineLen, lines, cur);
        pos := p;
        if done { return Record(rec); }
      }
    }

    /** A read as one step of a run over the stream. */
    method ReadStep(mode: Mode, ghost before: seq<Item>) returns (outcome: Outcome, ghost after: seq<Item>)
      requires Valid() && !eos && before == Pending()
      modifies this`script, this`eof, this`len, this`pos, inbuf
      ensures Valid() && after == Pending()
      ensures outcome.Record? ==> |after| < |before|
      ensures ReadToEnd(mode, before) ==
              if outcome.Record? then After([outcome.text], ReadToEnd(mode, after)) else Run([], outcome, after)
    {
      outcome := ReadRecord(mode);
      after := Pending();
      ReadToEndStep(mode, before, Step(outcome, after));
    }

    /** Moves on to the next stream of a multi-stream console: `answer` is the handler's reply and
        `answers` what it will deliver from there. Unread characters of the old stream are dropped. */
    method NextStream(answer: int, answers: seq<Delivery>) returns (n: int)
      requires Valid()
      requires forall i :: 0 <= i < |answers| && answers[i].Data? ==> 0 < |answers[i].chars| <= inbuf.Length
      modifies this`script, this`eof, this`len, this`pos, this`eos
      ensures Valid()
      ensures n == (if old(eos) || answer == 0 then 0 else if answer <= -1 then -1 else 1)
      ensures eos == (old(eos) || answer == 0)
      ensures n == 1 ==> Pending() == Flatten(answers)
      ensures n != 1 ==> Pending() == old(Pending())
    {
      if eos { return 0; }
      if answer <= -1 { return -1; }
      if answer == 0 {
        eos := true;
        return 0;
      }
      eof, pos, len, script := false, 0, 0, answers;
      assert Chars(inbuf[pos..len]) == [];
      return 1;
    }

    /** Reads until a read returns something other than a record. */
    method ReadAll(mode: Mode, ghost before: seq<Item>) returns (records: seq<string>, last: Outcome, ghost rest: seq<Item>)
      requires Valid() && !eos && before == Pending()
      modifies this`script, this`eof, this`len, this`pos, inbuf
      ensures Valid() && rest == Pending()
      ensures Run(records, last, rest) == ReadToEnd(mode, before)
      decreases |before|
    {
      records := [];
      last, rest := ReadStep(mode, before);
      if last.Record? {
        var text := last.text;
        records, last, rest := ReadAll(mode, rest);
        records := [text] + records;
      }
    }
  }

  lemma SlabIsSlice(a: array<char>, lo: nat, hi: nat, n: nat)
    requires lo <= hi <= n <= a.Length
    ensures a[lo..hi] == a[..n][lo..hi]
  {
  }

  /** The CR before a newline is in the slab, or else at the end of the record so far. */
  lemma CutCr(rec0: string, text: string, start: nat, p: nat)
    requires start <= p <= |text|
    ensures EndsWith(rec0 + text[start..p], '\r') <==> if p == start then EndsWith(rec0, '\r') else text[p - 1] == '\r'
    ensures EndsWith(rec0 + text[start..p], '\r') ==>
      StripCr(rec0 + text[start..p]) == if p == start then rec0[..|rec0| - 1] + text[start..p] else rec0 + text[start..p - 1]
  {
  }

  /** One character of a slab moves from the stream into the record. */
  lemma LineAdvance(sep: char, strip: bool, rec0: string, text: string, start: nat, p: nat, rest: seq<Item>)
    requires start <= p < |text|
    ensures LineFrom(sep, strip, rec0 + text[start..p], Chars(text[p..]) + rest) ==
            if text[p] != sep then LineFrom(sep, strip, rec0 + text[start..p + 1], Chars(text[p + 1..]) + rest)
            else var seen := rec0 + text[start..p];
                 Step(Record(if strip then StripCr(seen) else seen), Chars(text[p + 1..]) + rest)
  {
    assert Chars(text[p..]) + rest == [Ch(text[p])] + (Chars(text[p + 1..]) + rest);
    assert rec0 + text[start..p] + [text[p]] == rec0 + text[start..p + 1];
  }

  /** Characters other than the terminator move from the stream into the record. */
  lemma {:induction false} LineText(sep: char, strip: bool, rec0: string, text: string, start: nat, p: nat, rest: seq<Item>)
    requires start <= p <= |text| && forall i :: start <= i < p ==> text[i] != sep
    ensures LineFrom(sep, strip, rec0, Chars(text[start..]) + rest) == LineFrom(sep, strip, rec0 + text[start..p], Chars(text[p..]) + rest)
    decreases p
  {
    if p == start {
      assert rec0 + text[start..p] == rec0;
    } else {
      LineText(sep, strip, rec0, text, start, p - 1, rest);
      LineAdvance(sep, strip, rec0, text, start, p - 1, rest);
    }
  }

  /** A slab read up to `p`, of which only the last character may be the terminator. */
  lemma LineSlab(sep: char, strip: bool, rec0: string, text: string, start: nat, p: nat, rest: seq<Item>)
    requires start < p <= |text| && forall i :: start <= i < p - 1 ==> text[i] != sep
    ensures LineFrom(sep, strip, rec0, Chars(text[start..]) + rest) ==
            if text[p - 1] != sep then LineFrom(sep, strip, rec0 + text[start..p], Chars(text[p..]) + rest)
            else var seen := rec0 + text[start..p - 1];
                 Step(Record(if strip then StripCr(seen) else seen), Chars(text[p..]) + rest)
  {
    LineText(sep, strip, rec0, text, start, p - 1, rest);
    LineAdvance(sep, strip, rec0, text, start, p - 1, rest);
  }

  lemma CutCrKept(rec0: string, c0: char, text: string, start: nat, q: nat, rec: string, end: nat)
    requires start <= q <= |text| && (c0 == '\r' <==> EndsWith(rec0, '\r'))
    requires if q == start then end == start && rec == if c0 == '\r' then rec0[..|rec0| - 1] else rec0
             else rec == rec0 && end == if text[q - 1] == '\r' then q - 1 else q
    ensures StripCr(rec0 + text[start..q]) == rec + text[start..end]
  {
    CutCr(rec0, text, start, q);
  }

  /** A slab that ends a line at the newline before `p`, and what of it belongs to the record. */
  lemma NewlineSlab(rec0: string, c0: char, text: string, start: nat, p: nat, rest: seq<Item>, rec: string, end: nat)
    requires start < p <= |text| && text[p - 1] == '\n' && forall i :: start <= i < p - 1 ==> text[i] != '\n'
    requires c0 == '\r' <==> EndsWith(rec0, '\r')
    requires if p - 1 == start then end == start && rec == if c0 == '\r' then rec0[..|rec0| - 1] else rec0
             else rec == rec0 && end == if text[p - 2] == '\r' then p - 2 else p - 1
    ensures LineFrom('\n', true, rec0, Chars(text[start..]) + rest) == Step(Record(rec + text[start..end]), Chars(text[p..]) + rest)
  {
    CutCrKept(rec0, c0, text, start, p - 1, rec, end);
    LineSlab('\n', true, rec0, text, start, p, rest);
  }

  /** A read in progress, resumed on the rest of the stream. */
  ghost function Continue(mode: Mode, rec: string, lines: seq<string>, cur: string, s: seq<Item>): Step {
    match mode
    case Newline => LineFrom('\n', true, rec, s)
    case Single(sep) => LineFrom(sep, false, rec, s)
    case Paragraph(crlf) => ParagraphFrom(crlf, lines, cur, s)
  }

  /** What the locals of a read mean while it is in progress. */
  ghost predicate InProgress(mode: Mode, rec: string, c: char, lineLen: nat, lines: seq<string>, cur: string) {
    match mode
    case Newline => c == '\r' <==> EndsWith(rec, '\r')
    case Single(_) => true
    case Paragraph(crlf) => Represents(crlf, rec, c, lineLen, lines, cur)
  }

  lemma ContinueEnds(mode: Mode, rec: string, c: char, lineLen: nat, lines: seq<string>, cur: string, s: seq<Item>)
    requires InProgress(mode, rec, c, lineLen, lines, cur)
    ensures Continue(mode, rec, lines, cur, [Fault] + s) == Step(IoError, s)
    ensures rec == "" ==> Continue(mode, rec, lines, cur, []) == Step(EndOfInput, [])
  {
    if mode.Paragraph? { GatherShape(mode.crlf, lines); }
    assert ([Fault] + s)[1..] == s;
  }

  /** End of file inside a record: a paragraph loses its last line terminator. */
  method AtEnd(mode: Mode, rec: string, c: char, lineLen: nat, ghost lines: seq<string>, ghost cur: string)
    returns (outcome: Outcome)
    requires InProgress(mode, rec, c, lineLen, lines, cur)
    ensures Step(outcome, []) == Continue(mode, rec, lines, cur, [])
  {
    ContinueEnds(mode, rec, c, lineLen, lines, cur, []);
    if rec == "" { return EndOfInput; }
    var kept := rec;
    if mode.Paragraph? {
      GatherShape(mode.crlf, lines);
      assert cur != "" ==> EndsWith(rec, cur[|cur| - 1]) && cur[|cur| - 1] != '\n';
      if EndsWith(kept, '\n') {
        assert rec == Gather(mode.crlf, lines);
        kept := kept[..|kept| - 1];
        if mode.crlf && EndsWith(kept, '\r') { kept := kept[..|kept| - 1]; }
      }
    }
    outcome := Record(kept);
  }

  /** The record buffer, the last character and the line length of a paragraph in progress. */
  ghost predicate Represents(crlf: bool, rec: string, c: char, lineLen: nat, lines: seq<string>, cur: string) {
    && rec == Gather(crlf, lines) + cur
    && lineLen == |cur|
    && (c == '\r' <==> EndsWith(cur, '\r'))
    && '\n' !in cur
    && forall i :: 0 <= i < |lines| ==> !Blank(lines[i])
  }

  lemma GatherSnoc(crlf: bool, lines: seq<string>, cur: string)
    ensures Gather(crlf, lines + [cur]) == Gather(crlf, lines) + Body(crlf, cur) + "\n"
  {
    assert (lines + [cur])[..|lines|] == lines;
  }

  lemma ClosedLine(crlf: bool, front: string, last: string)
    requires !Blank(last)
    ensures var g := front + Body(crlf, last) + "\n";
            front + StripCr(last) == if crlf then StripCr(g[..|g| - 1]) else g[..|g| - 1]
  {
    var g := front + Body(crlf, last) + "\n";
    assert g[..|g| - 1] == front + Body(crlf, last);
    assert (front + last)[..|front + last| - 1] == front + last[..|last| - 1];
  }

  /** The buffer of complete lines ends in a newline, and closing it drops that newline with its CR. */
  lemma GatherShape(crlf: bool, lines: seq<string>)
    requires forall i :: 0 <= i < |lines| ==> !Blank(lines[i])
    ensures lines == [] <==> Gather(crlf, lines) == ""
    ensures lines != [] ==> EndsWith(Gather(crlf, lines), '\n')
    ensures lines != [] ==>
      var g := Gather(crlf, lines);
      Closed(crlf, lines) == (if crlf then StripCr(g[..|g| - 1]) else g[..|g| - 1])
  {
    if lines != [] {
      var last := lines[|lines| - 1];
      ClosedLine(crlf, Gather(crlf, lines[..|lines| - 1]), last);
    }
  }

  /** The next character of a slab, as a paragraph sees it. */
  lemma ParagraphAdvance(crlf: bool, lines: seq<string>, cur: string, text: string, rest: seq<Item>)
    requires text != ""
    ensures ParagraphFrom(crlf, lines, cur, Chars(text) + rest) ==
            var after := Chars(text[1..]) + rest;
            if text[0] != '\n' then ParagraphFrom(crlf, lines, cur + [text[0]], after)
            else if !Blank(cur) then ParagraphFrom(crlf, lines + [cur], "", after)
            else if lines == [] then ParagraphFrom(crlf, [], "", after)
            else Step(Record(Closed(crlf, lines)), after)
  {
    assert Chars(text) + rest == [Ch(text[0])] + (Chars(text[1..]) + rest);
  }

  /** What a paragraph in progress comes to with the text from `p` on. */
  ghost function Ahead(crlf: bool, lines: seq<string>, cur: string, text: string, p: nat, rest: seq<Item>): Step
    requires p <= |text|
  {
    ParagraphFrom(crlf, lines, cur, Chars(text[p..]) + rest)
  }

  /** Dropping the CR before a newline leaves the stripped line in the buffer. */
  lemma DropCr(front: string, cur: string)
    requires EndsWith(cur, '\r')
    ensures EndsWith(front + cur, '\r')
    ensures (front + cur)[..|front + cur| - 1] == front + StripCr(cur)
    ensures Blank(cur) <==> |cur| == 1
  {
  }

  /** One character of a paragraph. */
  method TakeChar(crlf: bool, ch: char, rec0: string, pc: char, lineLen0: nat, ghost lines0: seq<string>, ghost cur0: string)
    returns (rec: string, lineLen: nat, done: bool, ghost lines: seq<string>, ghost cur: string)
    requires Represents(crlf, rec0, pc, lineLen0, lines0, cur0)
    ensures done <==> ch == '\n' && Blank(cur0) && lines0 != []
    ensures done ==> rec == Closed(crlf, lines0)
    ensures !done ==> Represents(crlf, rec, ch, lineLen, lines, cur)
    ensures !done ==> cur == if ch == '\n' then "" else cur0 + [ch]
    ensures !done ==> lines == if ch == '\n' && !Blank(cur0) then lines0 + [cur0] else lines0
  {
    if ch == '\n' {
      rec, lineLen, done, lines, cur := EndLine(crlf, rec0, pc, lineLen0, lines0, cur0);
    } else {
      lineLen := lineLen0 + 1;
      rec := rec0 + [ch];
      done, lines, cur := false, lines0, cur0 + [ch];
      assert rec == Gather(crlf, lines) + cur;
    }
  }

  /** The same, with what it means for the paragraph that is read. */
  method AdvanceChar(crlf: bool, ch: char, rec0: string, pc: char, lineLen0: nat, ghost lines0: seq<string>, ghost cur0: string,
                     ghost text: string, ghost p: nat, ghost rest: seq<Item>, ghost goal: Step)
    returns (rec: string, lineLen: nat, done: bool, ghost lines: seq<string>, ghost cur: string)
    requires Represents(crlf, rec0, pc, lineLen0, lines0, cur0)
    requires p < |text| && text[p] == ch && Ahead(crlf, lines0, cur0, text, p, rest) == goal
    ensures !done ==> Represents(crlf, rec, ch, lineLen, lines, cur)
    ensures !done ==> Ahead(crlf, lines, cur, text, p + 1, rest) == goal
    ensures done ==> Step(Record(rec), Chars(text[p + 1..]) + rest) == goal
  {
    ParagraphAdvance(crlf, lines0, cur0, text[p..], rest);
    assert text[p..][1..] == text[p + 1..];
    rec, lineLen, done, lines, cur := TakeChar(crlf, ch, rec0, pc, lineLen0, lines0, cur0);
  }

  /** A newline inside a paragraph: a blank line ends the record or is skipped, any other line joins it. */
  method EndLine(crlf: bool, rec0: string, pc: char, lineLen0: nat, ghost lines0: seq<string>, ghost cur0: string)
    returns (rec: string, lineLen: nat, done: bool, ghost lines: seq<string>, ghost cur: string)
    requires Represents(crlf, rec0, pc, lineLen0, lines0, cur0)
    ensures done <==> Blank(cur0) && lines0 != []
    ensures done ==> rec == Closed(crlf, lines0)
    ensures !done ==> cur == "" && lines == (if Blank(cur0) then [] else lines0 + [cur0])
    ensures !done ==> Represents(crlf, rec, '\n', lineLen, lines, cur)
  {
    GatherSnoc(crlf, lines0, cur0);
    ghost var g := Gather(crlf, lines0);
    rec, lineLen, lines, cur, done := rec0, lineLen0, lines0, cur0, false;
    if pc == '\r' && |rec| > 0 {
      DropCr(g, cur0);
      lineLen := lineLen - 1;
      if !crlf { rec := rec[..|rec| - 1]; }
    }
    assert lineLen == 0 <==> Blank(cur0);
    assert rec == g + Body(crlf, cur0);
    if lineLen == 0 {
      rec, done := CloseParagraph(crlf, rec, lines0, cur0);
      if !done { lines, cur := [], ""; }
    } else {
      lineLen := 0;
      rec := rec + "\n";
      lines, cur := lines + [cur], "";
      assert rec == Gather(crlf, lines) + cur;
    }
  }

  /** A blank line: nothing to return yet when the record is empty, else its last terminator goes. */
  method CloseParagraph(crlf: bool, rec0: string, ghost lines: seq<string>, ghost cur: string)
    returns (rec: string, done: bool)
    requires Blank(cur) && forall i :: 0 <= i < |lines| ==> !Blank(lines[i])
    requires rec0 == Gather(crlf, lines) + Body(crlf, cur)
    ensures done <==> lines != []
    ensures rec == if done then Closed(crlf, lines) else ""
  {
    GatherShape(crlf, lines);
    ghost var g := Gather(crlf, lines);
    rec := rec0;
    if crlf {
      if EndsWith(rec, '\r') { rec := rec[..|rec| - 1]; }
      assert rec == g;
      if rec == "" { return rec, false; }
      rec := rec[..|rec| - 1];
      if EndsWith(rec, '\r') { rec := rec[..|rec| - 1]; }
    } else {
      assert rec == g;
      if rec == "" { return rec, false; }
      rec := rec[..|rec| - 1];
    }
    done := true;
  }
}
