/** Splitting a record into fields by a separator string. */
module Fields {
  import opened Common
  import opened Text

  /** The character traits a run-time context supplies. */
  datatype Traits = Traits(isSpace: char -> bool, toUpper: char -> char, ignoreCase: bool)

  datatype Delimiting = Trimming | EveryChar | Spaces | NoSpaces | Composite

  /** The first token of a text, as a place in it, and where the rest begins if there is a rest. */
  datatype Token = Token(start: nat, len: nat, next: Option<nat>)

  /** One past the last index in `lo..hi` whose character satisfies `p`, or `lo`. */
  function EndWhere(p: char -> bool, s: string, lo: nat, hi: nat): (k: nat)
    requires lo <= hi <= |s|
    ensures lo <= k <= hi && (k > lo ==> p(s[k - 1]))
    ensures forall i :: k <= i < hi ==> !p(s[i])
    decreases hi - lo
  {
    if hi == lo || p(s[hi - 1]) then hi else EndWhere(p, s, lo, hi - 1)
  }

  /** Whether a character is one of the delimiters, ignoring case if so asked. */
  function Delim(t: Traits, delim: string): char -> bool {
    c => if t.ignoreCase then exists i :: 0 <= i < |delim| && t.toUpper(c) == t.toUpper(delim[i]) else c in delim
  }

  /** What counts as text, and what ends a token, under a composite delimiter. */
  function InnerText(t: Traits): char -> bool {
    c => !t.isSpace(if t.ignoreCase then t.toUpper(c) else c)
  }

  function InnerDelim(t: Traits, delim: string): char -> bool {
    c => InnerText(t)(c) && Delim(t, delim)(c)
  }

  /** How a delimiter string is taken. */
  function DelimitingOf(t: Traits, delim: Option<string>): Delimiting {
    match delim
    case None => Trimming
    case Some(d) =>
      if d == "" then EveryChar
      else if FirstWhere(Not(t.isSpace), d, 0) == |d| then (if |d| == 1 && d[0] != ' ' then NoSpaces else Spaces)
      else if FirstWhere(t.isSpace, d, 0) == |d| then NoSpaces
      else Composite
  }

  /** A token lies in its text, and the rest is a shorter text. */
  predicate InBounds(token: Token, len: nat) {
    token.start + token.len <= len && (token.next.Some? ==> 0 < token.next.value <= len)
  }

  /** The text in `lo..hi`, or no token if there is none; the rest begins at `next` if it is in the text. */
  function Place(lo: nat, hi: nat, len: nat, next: nat): (token: Token)
    requires lo <= hi <= len && (next < len ==> next > 0)
    ensures InBounds(token, len)
  {
    var rest := if next < len then Some(next) else None;
    if lo == hi then Token(0, 0, rest) else Token(lo, hi - lo, rest)
  }

  /** The text in `lo..hi`, ended by the delimiter at `hi` if that is in the text. */
  function Ended(lo: nat, end: nat, hi: nat, len: nat): (token: Token)
    requires lo <= end <= len && hi <= len
    ensures InBounds(token, len)
  {
    var rest := if hi < len then Some(hi + 1) else None;
    if lo == end then Token(0, 0, rest) else Token(lo, end - lo, rest)
  }

  /** The first token of `s`, mode by mode. */
  function FirstToken(t: Traits, delim: Option<string>, s: string): (token: Token)
    ensures InBounds(token, |s|)
  {
    var text := Not(t.isSpace);
    var a := FirstWhere(text, s, 0);
    match DelimitingOf(t, delim)
    case Trimming => Place(a, EndWhere(text, s, a, |s|), |s|, |s|)
    case EveryChar => if s == "" then Token(0, 0, None) else Place(0, 1, |s|, 1)
    case Spaces =>
      var b := FirstWhere(t.isSpace, s, a);
      assert a < |s| ==> text(s[a]);
      Place(a, b, |s|, FirstWhere(text, s, b))
    case NoSpaces =>
      var k := FirstWhere(Delim(t, delim.value), s, 0);
      Ended(0, k, k, |s|)
    case Composite =>
      var k := FirstWhere(InnerDelim(t, delim.value), s, a);
      var b := FirstWhere(InnerText(t), s, a);
      if b < k then Ended(b, EndWhere(InnerText(t), s, b, k), k, |s|) else Ended(0, 0, k, |s|)
  }

  lemma EndWhereIs(p: char -> bool, s: string, lo: nat, hi: nat, k: nat)
    requires lo <= k <= hi <= |s| && (k > lo ==> p(s[k - 1]))
    requires forall i :: k <= i < hi ==> !p(s[i])
    ensures EndWhere(p, s, lo, hi) == k
  {
    var f := EndWhere(p, s, lo, hi);
  }

  /** Skips the characters that satisfy `p`. */
  method Skip(p: char -> bool, s: string, from: nat) returns (k: nat)
    requires from <= |s|
    ensures k == FirstWhere(Not(p), s, from)
  {
    k := from;
    while k < |s| && p(s[k])
      invariant from <= k <= |s|
      invariant forall i :: from <= i < k ==> p(s[i])
    {
      k := k + 1;
    }
    FirstWhereIs(Not(p), s, from, k);
  }

  /** Classifies the delimiter, looking at its characters only as long as needed. */
  method Classify(t: Traits, delim: Option<string>) returns (mode: Delimiting)
    ensures mode == DelimitingOf(t, delim)
  {
    if delim.None? { return Trimming; }
    var d := delim.value;
    mode := EveryChar;
    var i := 0;
    while i < |d|
      invariant 0 <= i <= |d|
      invariant i == 0 <==> mode == EveryChar
      invariant mode == Spaces ==> forall j :: 0 <= j < i ==> t.isSpace(d[j])
      invariant mode == NoSpaces ==> forall j :: 0 <= j < i ==> !t.isSpace(d[j])
      invariant mode in {EveryChar, Spaces, NoSpaces}
    {
      var space := t.isSpace(d[i]);
      if mode == (if space then NoSpaces else Spaces) {
        assert t.isSpace(d[0]) != t.isSpace(d[i]);
        return Composite;
      }
      if mode == EveryChar { mode := if space then Spaces else NoSpaces; }
      i := i + 1;
    }
    if mode == Spaces && |d| == 1 && d[0] != ' ' { mode := NoSpaces; }
  }

  /** Whether `c` equals one of the delimiters. */
  method MatchesDelim(t: Traits, delim: string, c: char) returns (found: bool)
    ensures found == Delim(t, delim)(c)
  {
    var i := 0;
    while i < |delim|
      invariant 0 <= i <= |delim|
      invariant forall j :: 0 <= j < i ==> !(if t.ignoreCase then t.toUpper(c) == t.toUpper(delim[j]) else c == delim[j])
    {
      if if t.ignoreCase then t.toUpper(c) == t.toUpper(delim[i]) else c == delim[i] { return true; }
      i := i + 1;
    }
    return false;
  }

  /** The tokenizer. */
  method NextToken(t: Traits, delim: Option<string>, s: string) returns (token: Token)
    ensures token == FirstToken(t, delim, s)
  {
    var mode := Classify(t, delim);
    match mode
    case Trimming => token := TrimToken(t, s);
    case EveryChar => token := if s == "" then Token(0, 0, None) else Token(0, 1, if 1 < |s| then Some(1) else None);
    case Spaces =>
      var a := Skip(t.isSpace, s, 0);
      var b := a;
      while b < |s| && !t.isSpace(s[b])
        invariant a <= b <= |s|
        invariant forall i :: a <= i < b ==> !t.isSpace(s[i])
      {
        b := b + 1;
      }
      FirstWhereIs(t.isSpace, s, a, b);
      var n := Skip(t.isSpace, s, b);
      token := Place(a, b, |s|, n);
    case NoSpaces =>
      var k := 0;
      while k < |s|
        invariant 0 <= k <= |s|
        invariant forall i :: 0 <= i < k ==> !Delim(t, delim.value)(s[i])
      {
        var hit := MatchesDelim(t, delim.value, s[k]);
        if hit { break; }
        k := k + 1;
      }
      FirstWhereIs(Delim(t, delim.value), s, 0, k);
      token := Ended(0, k, k, |s|);
    case Composite => token := CompositeToken(t, delim.value, s);
  }

  method TrimToken(t: Traits, s: string) returns (token: Token)
    ensures token == var text := Not(t.isSpace); var a := FirstWhere(text, s, 0); Place(a, EndWhere(text, s, a, |s|), |s|, |s|)
  {
    var a := Skip(t.isSpace, s, 0);
    var p, e := a, a;
    while p < |s|
      invariant a <= e <= p <= |s|
      invariant e > a ==> !t.isSpace(s[e - 1])
      invariant forall i :: e <= i < p ==> t.isSpace(s[i])
    {
      if !t.isSpace(s[p]) { e := p + 1; }
      p := p + 1;
    }
    EndWhereIs(Not(t.isSpace), s, a, |s|, e);
    token := Place(a, e, |s|, |s|);
  }

  method CompositeToken(t: Traits, delim: string, s: string) returns (token: Token)
    ensures token ==
            var a := FirstWhere(Not(t.isSpace), s, 0);
            var k := FirstWhere(InnerDelim(t, delim), s, a);
            var b := FirstWhere(InnerText(t), s, a);
            if b < k then Ended(b, EndWhere(InnerText(t), s, b, k), k, |s|) else Ended(0, 0, k, |s|)
  {
    var a := Skip(t.isSpace, s, 0);
    forall c: char ensures InnerDelim(t, delim)(c) == (InnerText(t)(c) && Delim(t, delim)(c)) {
      InnerDelimAt(t, delim, c);
    }
    var k, started, b, e := ScanComposite(t, delim, InnerText(t), InnerDelim(t, delim), s, a);
    token := CompositePlace(InnerText(t), s, a, k, started, b, e);
  }

  /** Looks for the delimiter that ends a token, remembering where its text began and last went on. */
  method ScanComposite(t: Traits, delim: string, text: char -> bool, ghost stop: char -> bool, s: string, a: nat)
    returns (p: nat, started: bool, b: nat, e: nat)
    requires a <= |s| && forall c :: stop(c) == (text(c) && Delim(t, delim)(c))
    ensures p == FirstWhere(stop, s, a) && a <= b <= e <= p
    ensures started ==> b < e && text(s[b]) && text(s[e - 1]) && forall i :: a <= i < b || e <= i < p ==> !text(s[i])
    ensures !started ==> (forall i :: a <= i < p ==> !text(s[i]))
  {
    p := a;
    started, b, e := false, a, a;
    while p < |s|
      invariant a <= b <= e <= p <= |s|
      invariant forall i :: a <= i < p ==> !stop(s[i])
      invariant !started ==> e == a && forall i :: a <= i < p ==> !text(s[i])
      invariant started ==> b < e && text(s[b]) && text(s[e - 1])
      invariant started ==> forall i :: a <= i < b || e <= i < p ==> !text(s[i])
    {
      if text(s[p]) {
        var hit := MatchesDelim(t, delim, s[p]);
        if hit { break; }
        if !started { started, b := true, p; }
        e := p + 1;
      }
      p := p + 1;
    }
    FirstWhereIs(stop, s, a, p);
  }

  lemma InnerDelimAt(t: Traits, delim: string, c: char)
    ensures InnerDelim(t, delim)(c) == (InnerText(t)(c) && Delim(t, delim)(c))
  {
  }

  /** The token found before the delimiter at `k`, or none. */
  method CompositePlace(text: char -> bool, s: string, a: nat, k: nat, started: bool, b: nat, e: nat) returns (token: Token)
    requires a <= b <= e <= k <= |s|
    requires started ==> b < e && text(s[b]) && text(s[e - 1]) && forall i :: a <= i < b || e <= i < k ==> !text(s[i])
    requires !started ==> (forall i :: a <= i < k ==> !text(s[i]))
    ensures token == var f := FirstWhere(text, s, a);
                     if f < k then Ended(f, EndWhere(text, s, f, k), k, |s|) else Ended(0, 0, k, |s|)
  {
    if started {
      FirstWhereIs(text, s, a, b);
      EndWhereIs(text, s, b, k, e);
      token := Ended(b, e, k, |s|);
    } else {
      token := Ended(0, 0, k, |s|);
    }
  }

  /** A way to find the first token of any text. */
  type Tokenizer = string -> Token

  ghost predicate Bounded(next: Tokenizer) {
    forall s {:trigger next(s)} :: InBounds(next(s), |s|)
  }

  ghost predicate Tokenizes(next: Tokenizer, t: Traits, fs: string) {
    forall s {:trigger FirstToken(t, Some(fs), s)} :: next(s) == FirstToken(t, Some(fs), s)
  }

  /** The fields of a text; an empty text has none if none came before it. */
  ghost function FieldsFrom(next: Tokenizer, s: string, first: bool): seq<string>
    requires Bounded(next)
    decreases |s|
  {
    var token := next(s);
    if first && token.next.None? && token.len == 0 then []
    else
      [s[token.start..token.start + token.len]] +
      if token.next.None? then [] else FieldsFrom(next, s[token.next.value..], false)
  }

  function TokenizerFor(t: Traits, fs: string): Tokenizer {
    s => FirstToken(t, Some(fs), s)
  }

  lemma TokenizerFits(t: Traits, fs: string)
    ensures Bounded(TokenizerFor(t, fs)) && Tokenizes(TokenizerFor(t, fs), t, fs)
  {
  }

  /** The fields of a record when FS is at most one character; FS not set stands for a blank. */
  ghost function RecordFields(t: Traits, fs: Option<string>, line: string): seq<string> {
    var sep := if fs.None? then " " else fs.value;
    TokenizerFits(t, sep);
    FieldsFrom(TokenizerFor(t, sep), line, true)
  }

  method TokenAt(t: Traits, fs: string, s: string, ghost next: Tokenizer) returns (token: Token)
    requires Tokenizes(next, t, fs)
    ensures token == next(s)
  {
    token := NextToken(t, Some(fs), s);
  }

  /** One more field, and the fields after it. */
  lemma FieldsStep(next: Tokenizer, s: string, first: bool) returns (tail: seq<string>)
    requires Bounded(next)
    ensures var token := next(s);
            if first && token.next.None? && token.len == 0 then tail == FieldsFrom(next, s, first) == []
            else
              && FieldsFrom(next, s, first) == [s[token.start..token.start + token.len]] + tail
              && tail == if token.next.None? then [] else FieldsFrom(next, s[token.next.value..], false)
  {
    var token := next(s);
    tail := if token.next.None? then [] else FieldsFrom(next, s[token.next.value..], false);
  }

  lemma Shift(goal: seq<string>, fields: seq<string>, tail: seq<string>, field: string, after: seq<string>)
    requires goal == fields + tail && tail == [field] + after
    ensures goal == (fields + [field]) + after
  {
  }

  /** The splitting loop: takes token after token while there is a rest. */
  method SplitLoop(t: Traits, fs: string, line: string, ghost next: Tokenizer) returns (fields: seq<string>)
    requires Tokenizes(next, t, fs) && Bounded(next)
    ensures fields == FieldsFrom(next, line, true)
  {
    fields := [];
    var rest := line;
    ghost var tail := FieldsFrom(next, line, true);
    ghost var goal := tail;
    var more := true;
    while more
      invariant goal == fields + tail
      invariant more ==> tail == FieldsFrom(next, rest, |fields| == 0)
      invariant !more ==> tail == []
      decreases more, |rest|
    {
      var token := TokenAt(t, fs, rest, next);
      ghost var after := FieldsStep(next, rest, |fields| == 0);
      if |fields| == 0 && token.next.None? && token.len == 0 { return; }
      var field := rest[token.start..token.start + token.len];
      Shift(goal, fields, tail, field, after);
      fields := fields + [field];
      tail := after;
      if token.next.None? {
        more := false;
      } else {
        rest := rest[token.next.value..];
      }
    }
  }

  method SplitRecord(t: Traits, fs: Option<string>, line: string) returns (fields: seq<string>)
    requires fs.Some? ==> |fs.value| <= 1
    ensures fields == RecordFields(t, fs, line)
  {
    var sep := if fs.None? then " " else fs.value;
    TokenizerFits(t, sep);
    fields := SplitLoop(t, sep, line, TokenizerFor(t, sep));
  }

  /** The same character, or the same letter if case is ignored. */
  predicate Alike(t: Traits, a: char, b: char) {
    if t.ignoreCase then t.toUpper(a) == t.toUpper(b) else a == b
  }

  lemma DelimIsAlike(t: Traits, c: char, x: char)
    ensures Delim(t, [c])(x) <==> Alike(t, x, c)
  {
    assert [c][0] == c;
  }

  /** A text none of whose characters is the separator. */
  ghost predicate Free(t: Traits, c: char, s: string) {
    forall i :: 0 <= i < |s| ==> !Alike(t, s[i], c)
  }

  /** With one non-blank separator the first token ends at its first occurrence. */
  lemma SingleSeparatorToken(t: Traits, c: char, s: string)
    requires c != ' '
    ensures FirstToken(t, Some([c]), s) == var k := FirstWhere(Delim(t, [c]), s, 0); Ended(0, k, k, |s|)
  {
  }

  lemma TokenOfPiece(t: Traits, c: char, piece: string, rest: string, last: bool)
    requires c != ' ' && Free(t, c, piece) && (last ==> rest == "")
    ensures var s := if last then piece else piece + [c] + rest;
            FirstToken(t, Some([c]), s) == Token(0, |piece|, if last then None else Some(|piece| + 1))
  {
    var s := if last then piece else piece + [c] + rest;
    SingleSeparatorToken(t, c, s);
    forall i | 0 <= i < |s| ensures Delim(t, [c])(s[i]) <==> Alike(t, s[i], c) { DelimIsAlike(t, c, s[i]); }
    assert forall i :: 0 <= i < |piece| ==> s[i] == piece[i];
    assert !last ==> s[|piece|] == c;
    FirstWhereIs(Delim(t, [c]), s, 0, |piece|);
  }

  lemma {:induction false} FieldsOfJoin(next: Tokenizer, t: Traits, c: char, parts: seq<string>, first: bool)
    requires c != ' ' && |parts| > 0 && (first ==> parts != [""]) && Bounded(next) && Tokenizes(next, t, [c])
    requires forall k :: 0 <= k < |parts| ==> Free(t, c, parts[k])
    ensures FieldsFrom(next, Join(parts, [c]), first) == parts
    decreases |parts|
  {
    if |parts| == 1 {
      TokenOfPiece(t, c, parts[0], "", true);
      assert parts == [parts[0]] && parts[0][0..|parts[0]|] == parts[0];
    } else {
      var rest := Join(parts[1..], [c]);
      TokenOfPiece(t, c, parts[0], rest, false);
      var s := parts[0] + [c] + rest;
      assert s[0..|parts[0]|] == parts[0] && s[|parts[0]| + 1..] == rest;
      FieldsOfJoin(next, t, c, parts[1..], false);
    }
  }

  /** Splitting undoes joining: with FS a single character other than a blank, any list of fields none
      of which contains the separator comes back, except the list of one empty field. */
  lemma SplitUndoesJoin(t: Traits, c: char, parts: seq<string>)
    requires c != ' ' && parts != [""]
    requires forall k :: 0 <= k < |parts| ==> Free(t, c, parts[k])
    ensures RecordFields(t, Some([c]), Join(parts, [c])) == parts
  {
    TokenizerFits(t, [c]);
    if parts == [] {
      TokenOfPiece(t, c, "", "", true);
    } else {
      FieldsOfJoin(TokenizerFor(t, [c]), t, c, parts, true);
    }
  }

  /** The excepted list: a record of one empty field is a record of no fields. */
  lemma EmptyRecordHasNoFields(t: Traits, c: char)
    requires c != ' '
    ensures RecordFields(t, Some([c]), Join([""], [c])) == []
  {
    TokenizerFits(t, [c]);
    TokenOfPiece(t, c, "", "", true);
  }


  /** The first field of a text, and the text after the separator that ends it. */
  lemma FieldsCut(next: Tokenizer, t: Traits, c: char, s: string, first: bool) returns (k: nat, tail: seq<string>)
    requires c != ' ' && Bounded(next) && Tokenizes(next, t, [c])
    ensures k <= |s| && Free(t, c, s[..k]) && (k < |s| ==> Alike(t, s[k], c))
    ensures FieldsFrom(next, s, first) == if first && s == "" then [] else [s[..k]] + tail
    ensures tail == if k < |s| then FieldsFrom(next, s[k + 1..], false) else []
  {
    k := FirstWhere(Delim(t, [c]), s, 0);
    forall i | 0 <= i < |s| ensures Delim(t, [c])(s[i]) <==> Alike(t, s[i], c) { DelimIsAlike(t, c, s[i]); }
    SingleSeparatorToken(t, c, s);
    tail := FieldsStep(next, s, first);
    assert s[0..k] == s[..k];
  }

  lemma {:induction false} FieldsAreFree(next: Tokenizer, t: Traits, c: char, s: string, first: bool)
    requires c != ' ' && Bounded(next) && Tokenizes(next, t, [c])
    ensures forall j :: 0 <= j < |FieldsFrom(next, s, first)| ==> Free(t, c, FieldsFrom(next, s, first)[j])
    decreases |s|
  {
    var k, tail := FieldsCut(next, t, c, s, first);
    if k < |s| { FieldsAreFree(next, t, c, s[k + 1..], false); }
    assert forall j :: 0 <= j < |tail| ==> Free(t, c, tail[j]);
  }

  /** A text with every delimiter in it written as the separator itself. */
  ghost function Respelled(t: Traits, c: char, s: string): string {
    seq(|s|, i requires 0 <= i < |s| => if Alike(t, s[i], c) then c else s[i])
  }

  lemma RespelledCut(t: Traits, c: char, s: string, k: nat)
    requires k <= |s| && Free(t, c, s[..k]) && (k < |s| ==> Alike(t, s[k], c))
    ensures Respelled(t, c, s) == if k < |s| then s[..k] + [c] + Respelled(t, c, s[k + 1..]) else s[..k]
  {
    forall i | 0 <= i < k ensures !Alike(t, s[i], c) { assert s[..k][i] == s[i]; }
  }

  lemma {:induction false} JoinOfFields(next: Tokenizer, t: Traits, c: char, s: string, first: bool)
    requires c != ' ' && Bounded(next) && Tokenizes(next, t, [c])
    ensures Join(FieldsFrom(next, s, first), [c]) == Respelled(t, c, s) && (!first ==> FieldsFrom(next, s, first) != [])
    decreases |s|
  {
    var k, tail := FieldsCut(next, t, c, s, first);
    if k < |s| {
      JoinOfFields(next, t, c, s[k + 1..], false);
      JoinCons(s[..k], tail, [c]);
    }
    RespelledCut(t, c, s, k);
  }

  /** Exactly which field lists survive being joined and split again. */
  lemma SplitUndoesJoinExactly(t: Traits, c: char, parts: seq<string>)
    requires c != ' '
    ensures RecordFields(t, Some([c]), Join(parts, [c])) == parts <==>
            parts != [""] && forall k :: 0 <= k < |parts| ==> Free(t, c, parts[k])
  {
    TokenizerFits(t, [c]);
    EmptyRecordHasNoFields(t, c);
    FieldsAreFree(TokenizerFor(t, [c]), t, c, Join(parts, [c]), true);
    if parts != [""] && forall k :: 0 <= k < |parts| ==> Free(t, c, parts[k]) {
      SplitUndoesJoin(t, c, parts);
    }
  }

  /** Joining the fields of a line gives the line with every delimiter written as the separator; that is the
      line itself exactly when it has no delimiter that differs from the separator, as it can have when case
      is ignored. */
  lemma JoinUndoesSplit(t: Traits, c: char, line: string)
    requires c != ' '
    ensures var joined := Join(RecordFields(t, Some([c]), line), [c]);
            && joined == Respelled(t, c, line)
            && (joined == line <==> forall i :: 0 <= i < |line| && Alike(t, line[i], c) ==> line[i] == c)
            && (!t.ignoreCase ==> joined == line)
  {
    TokenizerFits(t, [c]);
    JoinOfFields(TokenizerFor(t, [c]), t, c, line, true);
    var joined := Respelled(t, c, line);
    assert forall i :: 0 <= i < |line| ==> (joined[i] == line[i] <==> (Alike(t, line[i], c) ==> line[i] == c));
    assert !t.ignoreCase ==> joined == line;
  }

  // ---------------------------------------------------------------- a blank as the separator

  ghost predicate AllOf(p: char -> bool, s: string) {
    forall i :: 0 <= i < |s| ==> p(s[i])
  }

  /** A text as words set apart by spaces: some in front of each but perhaps the first, some at the end. */
  ghost predicate Spaced(t: Traits, gap: string, words: seq<(string, string)>) {
    && AllOf(t.isSpace, gap)
    && forall k :: 0 <= k < |words| ==>
         && words[k].0 != "" && AllOf(Not(t.isSpace), words[k].0)
         && AllOf(t.isSpace, words[k].1) && (k < |words| - 1 ==> words[k].1 != "")
  }

  /** Each word followed by its gap. */
  function Run(words: seq<(string, string)>): string {
    if words == [] then "" else words[0].0 + (words[0].1 + Run(words[1..]))
  }

  function Words(words: seq<(string, string)>): seq<string> {
    seq(|words|, i requires 0 <= i < |words| => words[i].0)
  }

  lemma RunStartsWithText(t: Traits, words: seq<(string, string)>)
    requires Spaced(t, "", words) && words != []
    ensures Run(words) != "" && !t.isSpace(Run(words)[0])
  {
    assert Run(words)[0] == words[0].0[0];
    assert Not(t.isSpace)(words[0].0[0]);
  }

  lemma SpacesTokenAt(t: Traits, s: string, a: nat, b: nat, n: nat)
    requires t.isSpace(' ') && a <= b <= n <= |s|
    requires forall i :: 0 <= i < a || b <= i < n ==> t.isSpace(s[i])
    requires forall i :: a <= i < b ==> !t.isSpace(s[i])
    requires n < |s| ==> !t.isSpace(s[n]) && b < n
    requires a == b ==> n == |s| && a == |s|
    ensures FirstToken(t, Some(" "), s) == Place(a, b, |s|, n)
  {
    assert DelimitingOf(t, Some(" ")) == Spaces by { FirstWhereIs(Not(t.isSpace), " ", 0, 1); }
    FirstWhereIs(Not(t.isSpace), s, 0, a);
    FirstWhereIs(t.isSpace, s, a, b);
    FirstWhereIs(Not(t.isSpace), s, b, n);
  }

  lemma SpacesToken(t: Traits, gap: string, word: string, after: string, rest: string)
    requires t.isSpace(' ') && AllOf(t.isSpace, gap) && AllOf(t.isSpace, after) && word != "" && AllOf(Not(t.isSpace), word)
    requires rest != "" ==> after != "" && !t.isSpace(rest[0])
    ensures FirstToken(t, Some(" "), gap + (word + (after + rest))) ==
            Token(|gap|, |word|, if rest != "" then Some(|gap| + |word| + |after|) else None)
  {
    var tail := after + rest;
    var s1 := word + tail;
    var s := gap + s1;
    var a, b := |gap|, |gap| + |word|;
    var n := b + |after|;
    forall i | 0 <= i < a ensures t.isSpace(s[i]) { assert s[i] == gap[i]; }
    forall i | b <= i < n ensures t.isSpace(s[i]) { assert s[i] == s1[i - a] == tail[i - b] == after[i - b]; }
    forall i | a <= i < b ensures !t.isSpace(s[i]) { assert s[i] == s1[i - a] == word[i - a] && Not(t.isSpace)(word[i - a]); }
    assert rest != "" ==> s[n] == s1[n - a] == tail[n - b] == rest[0];
    SpacesTokenAt(t, s, a, b, n);
  }

  lemma SpacedTail(t: Traits, gap: string, words: seq<(string, string)>)
    requires Spaced(t, gap, words) && words != []
    ensures Spaced(t, "", words[1..])
  {
    var tail := words[1..];
    forall k | 0 <= k < |tail|
      ensures tail[k].0 != "" && AllOf(Not(t.isSpace), tail[k].0) && AllOf(t.isSpace, tail[k].1) && (k < |tail| - 1 ==> tail[k].1 != "")
    {
      assert tail[k] == words[k + 1];
    }
  }

  lemma {:induction false} FieldsOfRun(next: Tokenizer, t: Traits, gap: string, words: seq<(string, string)>, first: bool)
    requires t.isSpace(' ') && Spaced(t, gap, words) && words != [] && Bounded(next) && Tokenizes(next, t, " ")
    ensures FieldsFrom(next, gap + Run(words), first) == Words(words)
    decreases |words|
  {
    var word, after, rest := words[0].0, words[0].1, Run(words[1..]);
    SpacedTail(t, gap, words);
    if |words| > 1 { RunStartsWithText(t, words[1..]); }
    FieldsOfWord(next, t, gap, word, after, rest, first);
    WordsStep(words);
    if |words| > 1 {
      FieldsOfRun(next, t, "", words[1..], false);
      assert "" + rest == rest;
    }
  }

  /** A word with spaces around it is the first field. */
  lemma FieldsOfWord(next: Tokenizer, t: Traits, gap: string, word: string, after: string, rest: string, first: bool)
    requires t.isSpace(' ') && AllOf(t.isSpace, gap) && AllOf(t.isSpace, after) && word != "" && AllOf(Not(t.isSpace), word)
    requires rest != "" ==> after != "" && !t.isSpace(rest[0])
    requires Bounded(next) && Tokenizes(next, t, " ")
    ensures FieldsFrom(next, gap + (word + (after + rest)), first) ==
            [word] + if rest == "" then [] else FieldsFrom(next, rest, false)
  {
    var s := gap + (word + (after + rest));
    assert next(s) == Token(|gap|, |word|, if rest != "" then Some(|gap| + |word| + |after|) else None) by {
      SpacesToken(t, gap, word, after, rest);
    }
    CutToken(gap, word, after, rest);
    FieldsOfToken(next, s, first, word, rest);
  }

  lemma FieldsOfToken(next: Tokenizer, s: string, first: bool, field: string, rest: string)
    requires Bounded(next) && next(s).len > 0 && s[next(s).start..next(s).start + next(s).len] == field
    requires if next(s).next.Some? then rest != "" && s[next(s).next.value..] == rest else rest == ""
    ensures FieldsFrom(next, s, first) == [field] + if rest == "" then [] else FieldsFrom(next, rest, false)
  {
  }

  lemma WordsStep(words: seq<(string, string)>)
    requires words != []
    ensures Words(words) == [words[0].0] + Words(words[1..])
  {
  }

  lemma CutToken(gap: string, word: string, after: string, rest: string)
    ensures var s := gap + (word + (after + rest));
            s[|gap|..|gap| + |word|] == word && s[|gap| + |word| + |after|..] == rest
  {
  }

  /** With FS a blank, or not set, the fields are the maximal runs of non-space characters: however the
      line is written as words with spaces around and between them, the fields are the words. */
  lemma BlankSplitsWords(t: Traits, gap: string, words: seq<(string, string)>)
    requires t.isSpace(' ') && Spaced(t, gap, words)
    ensures RecordFields(t, None, gap + Run(words)) == Words(words)
    ensures RecordFields(t, Some(" "), gap + Run(words)) == Words(words)
  {
    TokenizerFits(t, " ");
    if words == [] {
      assert gap + Run(words) == gap;
      SpacesTokenAt(t, gap, |gap|, |gap|, |gap|);
    } else {
      FieldsOfRun(TokenizerFor(t, " "), t, gap, words, true);
    }
  }

  lemma SpacedCons(t: Traits, word: string, gap: string, words: seq<(string, string)>)
    requires word != "" && AllOf(Not(t.isSpace), word) && AllOf(t.isSpace, gap) && (words != [] ==> gap != "")
    requires Spaced(t, "", words)
    ensures Spaced(t, "", [(word, gap)] + words) && Run([(word, gap)] + words) == word + (gap + Run(words))
  {
    assert ([(word, gap)] + words)[1..] == words;
  }

  /** A text that does not start with a space is a run of words. */
  lemma {:induction false} RunOfText(t: Traits, s: string) returns (words: seq<(string, string)>)
    requires s != "" ==> !t.isSpace(s[0])
    ensures Spaced(t, "", words) && Run(words) == s
    decreases |s|
  {
    if s == "" {
      words := [];
    } else {
      var b := FirstWhere(t.isSpace, s, 0);
      var n := FirstWhere(Not(t.isSpace), s, b);
      var rest := RunOfText(t, s[n..]);
      if rest != [] { RunStartsWithText(t, rest); }
      SpacedCons(t, s[..b], s[b..n], rest);
      words := [(s[..b], s[b..n])] + rest;
      assert s == s[..b] + (s[b..n] + s[n..]);
    }
  }

  /** Every line can be put together so, which makes the last lemma one about all lines. */
  lemma LineIsSpaced(t: Traits, line: string) returns (gap: string, words: seq<(string, string)>)
    requires t.isSpace(' ')
    ensures Spaced(t, gap, words) && gap + Run(words) == line
    ensures RecordFields(t, Some(" "), line) == Words(words) && RecordFields(t, None, line) == Words(words)
  {
    var n := FirstWhere(Not(t.isSpace), line, 0);
    gap := line[..n];
    words := RunOfText(t, line[n..]);
    assert gap + line[n..] == line;
    BlankSplitsWords(t, gap, words);
  }

  // ---------------------------------------------------------------- the other ways of delimiting

  function Chars(s: string): seq<string> {
    seq(|s|, i requires 0 <= i < |s| => [s[i]])
  }

  lemma {:induction false} FieldsOfChars(next: Tokenizer, t: Traits, s: string, first: bool)
    requires s != "" && Bounded(next) && Tokenizes(next, t, "")
    ensures FieldsFrom(next, s, first) == Chars(s)
    decreases |s|
  {
    assert next(s) == FirstToken(t, Some(""), s) == Token(0, 1, if 1 < |s| then Some(1) else None);
    var tail := FieldsStep(next, s, first);
    assert s[0..1] == [s[0]];
    assert Chars(s) == [[s[0]]] + Chars(s[1..]);
    if |s| > 1 {
      FieldsOfChars(next, t, s[1..], false);
    }
  }

  /** With an empty FS the fields are the single characters of the line. */
  lemma EmptySeparatorSplitsChars(t: Traits, line: string)
    ensures RecordFields(t, Some(""), line) == Chars(line)
  {
    TokenizerFits(t, "");
    if line == "" {
      assert FirstToken(t, Some(""), line) == Token(0, 0, None);
    } else {
      FieldsOfChars(TokenizerFor(t, ""), t, line, true);
    }
  }

  /** One of several delimiters. */
  predicate AnyOf(t: Traits, d: string, x: char) {
    exists i :: 0 <= i < |d| && Alike(t, x, d[i])
  }

  /** A text with spaces around it. */
  ghost predicate Trimmed(t: Traits, gap: string, word: string, after: string) {
    && AllOf(t.isSpace, gap) && AllOf(t.isSpace, after)
    && word != "" && !t.isSpace(word[0]) && !t.isSpace(word[|word| - 1])
  }

  lemma TrimmedAt(t: Traits, gap: string, word: string, after: string, rest: string, s: string)
    requires Trimmed(t, gap, word, after) && s == gap + (word + (after + rest))
    ensures var a, b := |gap|, |gap| + |word|;
            && a < b <= b + |after| <= |s| && s[a] == word[0] && s[b - 1] == word[|word| - 1]
            && (forall i :: 0 <= i < a || b <= i < b + |after| ==> t.isSpace(s[i]))
            && (forall i :: a <= i < b ==> s[i] == word[i - a])
            && (rest != "" ==> b + |after| < |s| && s[b + |after|] == rest[0])
            && |s| == b + |after| + |rest|
  {
    var a, b := |gap|, |gap| + |word|;
    forall i | 0 <= i < a ensures t.isSpace(s[i]) { assert s[i] == gap[i]; }
    forall i | b <= i < b + |after| ensures t.isSpace(s[i]) { assert s[i] == after[i - b]; }
  }

  /** Without a delimiter the token is the text without the spaces around it, and nothing comes after it. */
  lemma TrimmingToken(t: Traits, gap: string, word: string, after: string)
    requires Trimmed(t, gap, word, after)
    ensures FirstToken(t, None, gap + (word + (after + ""))) == Token(|gap|, |word|, None)
  {
    var s := gap + (word + (after + ""));
    TrimmedAt(t, gap, word, after, "", s);
    FirstWhereIs(Not(t.isSpace), s, 0, |gap|);
    EndWhereIs(Not(t.isSpace), s, |gap|, |s|, |gap| + |word|);
  }

  /** With several delimiters that are no spaces a token ends at the first of them, whichever it is. */
  lemma SeveralToken(t: Traits, d: string, piece: string, rest: string)
    requires d != "" && AllOf(Not(t.isSpace), d)
    requires (forall i :: 0 <= i < |piece| ==> !AnyOf(t, d, piece[i])) && (rest != "" ==> AnyOf(t, d, rest[0]))
    ensures FirstToken(t, Some(d), piece + rest) == Token(0, |piece|, if rest == "" then None else Some(|piece| + 1))
  {
    var s := piece + rest;
    assert Not(t.isSpace)(d[0]);
    FirstWhereIs(Not(t.isSpace), d, 0, 0);
    FirstWhereIs(t.isSpace, d, 0, |d|);
    forall i | 0 <= i < |s| ensures Delim(t, d)(s[i]) <==> AnyOf(t, d, s[i]) { DelimIsAnyOf(t, d, s[i]); }
    assert forall i :: 0 <= i < |piece| ==> s[i] == piece[i];
    FirstWhereIs(Delim(t, d), s, 0, |piece|);
  }

  lemma DelimIsAnyOf(t: Traits, d: string, x: char)
    ensures Delim(t, d)(x) <==> AnyOf(t, d, x)
  {
    if !t.ignoreCase && x in d {
      var i :| 0 <= i < |d| && d[i] == x;
      assert Alike(t, x, d[i]);
    }
  }

  /** Delimiters of which some are spaces and some are not. */
  ghost predicate Mixed(t: Traits, d: string) {
    (exists i :: 0 <= i < |d| && t.isSpace(d[i])) && (exists i :: 0 <= i < |d| && !t.isSpace(d[i]))
  }

  lemma MixedTokenAt(t: Traits, d: string, s: string, a: nat, b: nat, k: nat)
    requires DelimitingOf(t, Some(d)) == Composite && a < b <= k <= |s|
    requires forall c: char :: InnerText(t)(c) == !t.isSpace(c)
    requires forall i :: 0 <= i < a || b <= i < k ==> t.isSpace(s[i])
    requires !t.isSpace(s[a]) && !t.isSpace(s[b - 1])
    requires forall i :: a <= i < b && !t.isSpace(s[i]) ==> !Delim(t, d)(s[i])
    requires k < |s| ==> !t.isSpace(s[k]) && Delim(t, d)(s[k])
    ensures FirstToken(t, Some(d), s) == Token(a, b - a, if k == |s| then None else Some(k + 1))
  {
    forall i | 0 <= i < |s| ensures InnerDelim(t, d)(s[i]) == (InnerText(t)(s[i]) && Delim(t, d)(s[i])) { InnerDelimAt(t, d, s[i]); }
    MixedPlaces(t.isSpace, InnerText(t), InnerDelim(t, d), s, a, b, k);
  }

  lemma MixedPlaces(space: char -> bool, text: char -> bool, stop: char -> bool, s: string, a: nat, b: nat, k: nat)
    requires a < b <= k <= |s| && forall i :: 0 <= i < |s| ==> text(s[i]) == !space(s[i])
    requires forall i :: 0 <= i < a || b <= i < k ==> space(s[i])
    requires text(s[a]) && text(s[b - 1])
    requires (forall i :: a <= i < k ==> !stop(s[i])) && (k < |s| ==> stop(s[k]))
    ensures FirstWhere(Not(space), s, 0) == a && FirstWhere(stop, s, a) == k
    ensures FirstWhere(text, s, a) == a && EndWhere(text, s, a, k) == b
  {
    FirstWhereIs(Not(space), s, 0, a);
    FirstWhereIs(stop, s, a, k);
    FirstWhereIs(text, s, a, a);
    EndWhereIs(text, s, a, k, b);
  }

  /** With spaces and other characters as delimiters, a token ends at the first of the others and goes without
      the spaces around it; spaces inside it stay. */
  lemma MixedToken(t: Traits, d: string, gap: string, word: string, after: string, rest: string)
    requires Mixed(t, d) && (forall c :: t.isSpace(t.toUpper(c)) == t.isSpace(c))
    requires Trimmed(t, gap, word, after)
    requires forall i :: 0 <= i < |word| && !t.isSpace(word[i]) ==> !AnyOf(t, d, word[i])
    requires rest != "" ==> !t.isSpace(rest[0]) && AnyOf(t, d, rest[0])
    ensures FirstToken(t, Some(d), gap + (word + (after + rest))) ==
            Token(|gap|, |word|, if rest == "" then None else Some(|gap| + |word| + |after| + 1))
  {
    var s := gap + (word + (after + rest));
    TrimmedAt(t, gap, word, after, rest, s);
    forall i | 0 <= i < |s| ensures Delim(t, d)(s[i]) <==> AnyOf(t, d, s[i]) { DelimIsAnyOf(t, d, s[i]); }
    assert DelimitingOf(t, Some(d)) == Composite;
    MixedTokenAt(t, d, s, |gap|, |gap| + |word|, |gap| + |word| + |after|);
  }
}
