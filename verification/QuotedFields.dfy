/** Splitting a record whose fields may be quoted and escaped, rewriting the record in place. */
module QuotedFields {
  import opened Common
  import opened Text
  import opened Fields

  /** The field separator, the escaper and the two quotes: FS is a question mark and these four. */
  datatype Quoting = Quoting(fs: char, ec: char, lq: char, rq: char)

  /** The first field with quotes and escapes resolved, and where the rest begins if there is a rest. */
  datatype Field = Field(text: string, next: Option<nat>)

  /** Where the text after the separator at `p` begins: a run of space separators counts as one. */
  function AfterSeparator(sp: char -> bool, fs: char, s: string, p: nat): (next: Option<nat>)
    requires p < |s|
    ensures next.Some? ==> p < next.value <= |s|
  {
    if !sp(fs) then Some(p + 1)
    else
      var k := FirstWhere(Other(fs), s, p + 1);
      if k < |s| then Some(k) else None
  }

  function Other(fs: char): char -> bool {
    c => c != fs
  }

  /** What a character does inside a field: whether it is put out, whether it counts as more than
      trailing space, and what it leaves escaped and quoted. */
  datatype Effect = Effect(put: bool, counts: bool, escaped: bool, quoted: bool)

  function EffectOf(sp: char -> bool, q: Quoting, escaped: bool, quoted: bool, c: char): Effect {
    if escaped then Effect(true, true, false, quoted)
    else if c == q.ec then Effect(false, false, true, quoted)
    else if quoted then (if c == q.rq then Effect(false, false, false, false) else Effect(true, true, false, true))
    else if c == q.lq then Effect(false, false, false, true)
    else Effect(true, !sp(c), false, false)
  }

  /** Whether a character ends the field. */
  predicate Separates(q: Quoting, escaped: bool, quoted: bool, c: char) {
    !escaped && c != q.ec && !quoted && c == q.fs
  }

  /** The scanner at `p`: `out` has been put out, of which `keep` characters count so far; the rest is
      trailing space. */
  function Scan(sp: char -> bool, q: Quoting, s: string, p: nat, escaped: bool, quoted: bool, out: string, keep: nat): (f: Field)
    requires p <= |s| && keep <= |out|
    ensures f.next.Some? ==> p < f.next.value <= |s|
    decreases |s| - p
  {
    if p == |s| then Field(out[..keep] + if escaped then [q.ec] else "", None)
    else if Separates(q, escaped, quoted, s[p]) then Field(out[..keep], AfterSeparator(sp, q.fs, s, p))
    else
      var e := EffectOf(sp, q, escaped, quoted, s[p]);
      var out' := if e.put then out + [s[p]] else out;
      Scan(sp, q, s, p + 1, e.escaped, e.quoted, out', if e.put && e.counts then |out'| else keep)
  }

  function FirstField(sp: char -> bool, q: Quoting, s: string): (f: Field)
    ensures f.next.Some? ==> 0 < f.next.value <= |s|
  {
    Scan(sp, q, s, FirstWhere(Not(sp), s, 0), false, false, "", 0)
  }

  /** The in-place scanner: takes the field that begins at `str`, moving its characters down over the
      quotes and escapes dropped before them. No write passes the read position, so everything from
      `next` on, and everything before `str`, stays as it was. */
  method TakeField(sp: char -> bool, q: Quoting, a: array<char>, str: nat) returns (start: nat, len: nat, next: Option<nat>)
    requires str <= a.Length
    modifies a
    ensures str <= start && start + len <= a.Length
    ensures var f := FirstField(sp, q, old(a[str..]));
            && a[start..start + len] == f.text
            && next == (if f.next.Some? then Some(str + f.next.value) else None)
    ensures forall i :: 0 <= i < str ==> a[i] == old(a[i])
    ensures next.Some? ==> start + len <= next.value <= a.Length && forall i :: next.value <= i < a.Length ==> a[i] == old(a[i])
  {
    ghost var s := a[str..];
    start := str;
    while start < a.Length && sp(a[start])
      invariant str <= start <= a.Length
      invariant forall i :: str <= i < start ==> sp(a[i])
    {
      start := start + 1;
    }
    FirstWhereIs(Not(sp), s, 0, start - str);
    len, next := MoveField(sp, q, a, str, start, s);
  }

  /** The scanner proper, on the field whose text begins at `start`. */
  method MoveField(sp: char -> bool, q: Quoting, a: array<char>, str: nat, start: nat, ghost s: string) returns (len: nat, next: Option<nat>)
    requires str <= start <= a.Length && |s| == a.Length - str
    requires forall i :: str <= i < a.Length ==> a[i] == s[i - str]
    modifies a
    ensures start + len <= a.Length
    ensures var f := Scan(sp, q, s, start - str, false, false, "", 0);
            && a[start..start + len] == f.text
            && next == (if f.next.Some? then Some(str + f.next.value) else None)
    ensures forall i :: 0 <= i < str ==> a[i] == old(a[i])
    ensures next.Some? ==> start + len <= next.value <= a.Length && forall i :: next.value <= i < a.Length ==> a[i] == old(a[i])
  {
    var p, xp, escaped;
    ghost var out;
    p, xp, escaped, out := Compact(sp, q, a, str, start, s);
    len := xp - start;
    assert a[start..xp] == out[..len];
    if p < a.Length {
      next := SkipSeparator(sp, q.fs, a, str, p, s);
    } else {
      next := None;
      if escaped {
        a[xp] := q.ec;
        len := len + 1;
        assert a[start..start + len] == a[start..xp] + [q.ec];
      }
    }
  }

  /** Moves the characters of the field down, up to its separator or the end of the text. */
  method Compact(sp: char -> bool, q: Quoting, a: array<char>, str: nat, start: nat, ghost s: string)
    returns (p: nat, xp: nat, escaped: bool, ghost out: string)
    requires str <= start <= a.Length && |s| == a.Length - str
    requires forall i :: str <= i < a.Length ==> a[i] == s[i - str]
    modifies a
    ensures start <= xp <= p <= a.Length && (escaped ==> xp < p) && xp - start <= |out|
    ensures forall i :: start <= i < xp ==> a[i] == out[i - start]
    ensures forall i :: p <= i < a.Length ==> a[i] == s[i - str]
    ensures forall i :: 0 <= i < str ==> a[i] == old(a[i])
    ensures Scan(sp, q, s, start - str, false, false, "", 0) ==
            if p < a.Length then Field(out[..xp - start], AfterSeparator(sp, q.fs, s, p - str))
            else Field(out[..xp - start] + if escaped then [q.ec] else "", None)
  {
    p, xp, escaped := start, start, false;
    var tp, quoted := start, false;
    out := "";
    ghost var goal := Scan(sp, q, s, start - str, false, false, "", 0);
    while p < a.Length && !Separates(q, escaped, quoted, a[p])
      invariant start <= xp <= tp <= p <= a.Length && |out| == tp - start && (escaped ==> tp < p)
      invariant forall i :: start <= i < tp ==> a[i] == out[i - start]
      invariant forall i :: p <= i < a.Length ==> a[i] == s[i - str]
      invariant forall i :: 0 <= i < str ==> a[i] == old(a[i])
      invariant goal == Scan(sp, q, s, p - str, escaped, quoted, out, xp - start)
    {
      escaped, quoted, tp, xp, out := CompactChar(sp, q, a, p, tp, xp, escaped, quoted, str, start, s, out, goal);
      p := p + 1;
    }
  }

  /** One character of the field. */
  method CompactChar(sp: char -> bool, q: Quoting, a: array<char>, p: nat, tp0: nat, xp0: nat, escaped0: bool, quoted0: bool,
                     ghost str: nat, start: nat, ghost s: string, ghost out0: string, ghost goal: Field)
    returns (escaped: bool, quoted: bool, tp: nat, xp: nat, ghost out: string)
    requires str <= start <= xp0 <= tp0 <= p < a.Length && |s| == a.Length - str && |out0| == tp0 - start
    requires forall i :: start <= i < tp0 ==> a[i] == out0[i - start]
    requires forall i :: p <= i < a.Length ==> a[i] == s[i - str]
    requires !Separates(q, escaped0, quoted0, a[p]) && (escaped0 ==> tp0 < p)
    requires goal == Scan(sp, q, s, p - str, escaped0, quoted0, out0, xp0 - start)
    modifies a
    ensures start <= xp <= tp <= p + 1 && |out| == tp - start && (escaped ==> tp < p + 1)
    ensures forall i :: start <= i < tp ==> a[i] == out[i - start]
    ensures forall i :: p + 1 <= i < a.Length ==> a[i] == s[i - str]
    ensures forall i :: 0 <= i < str ==> a[i] == old(a[i])
    ensures goal == Scan(sp, q, s, p + 1 - str, escaped, quoted, out, xp - start)
  {
    var e := EffectOf(sp, q, escaped0, quoted0, a[p]);
    ScanStep(sp, q, s, p - str, escaped0, quoted0, out0, xp0 - start);
    escaped, quoted, tp, xp, out := e.escaped, e.quoted, tp0, xp0, out0;
    if e.put {
      out := MoveChar(a, tp, p, str, start, s, out);
      tp := tp + 1;
      if e.counts { xp := tp; }
    }
  }

  /** Copies a character down, or onto itself. */
  method MoveChar(a: array<char>, tp: nat, p: nat, ghost str: nat, ghost start: nat, ghost s: string, ghost out: string)
    returns (ghost out': string)
    requires str <= start <= tp <= p < a.Length && |s| == a.Length - str && |out| == tp - start
    requires forall i :: start <= i < tp ==> a[i] == out[i - start]
    requires forall i :: p <= i < a.Length ==> a[i] == s[i - str]
    modifies a
    ensures out' == out + [s[p - str]]
    ensures forall i :: start <= i < tp + 1 ==> a[i] == out'[i - start]
    ensures forall i :: p + 1 <= i < a.Length ==> a[i] == s[i - str]
    ensures forall i :: 0 <= i < str ==> a[i] == old(a[i])
  {
    out' := out + [s[p - str]];
    a[tp] := a[p];
  }

  lemma ScanStep(sp: char -> bool, q: Quoting, s: string, p: nat, escaped: bool, quoted: bool, out: string, keep: nat)
    requires p < |s| && keep <= |out| && !Separates(q, escaped, quoted, s[p])
    ensures var e := EffectOf(sp, q, escaped, quoted, s[p]);
            var out' := if e.put then out + [s[p]] else out;
            Scan(sp, q, s, p, escaped, quoted, out, keep) ==
            Scan(sp, q, s, p + 1, e.escaped, e.quoted, out', if e.put && e.counts then |out'| else keep)
  {
  }

  method SkipSeparator(sp: char -> bool, fs: char, a: array<char>, str: nat, p: nat, ghost s: string) returns (next: Option<nat>)
    requires str <= p < a.Length && |s| == a.Length - str
    requires forall i :: p <= i < a.Length ==> a[i] == s[i - str]
    ensures var after := AfterSeparator(sp, fs, s, p - str);
            next == if after.Some? then Some(str + after.value) else None
  {
    var k := p + 1;
    if sp(fs) {
      while k < a.Length && a[k] == fs
        invariant p < k <= a.Length
        invariant forall i :: p < i < k ==> a[i] == fs
      {
        k := k + 1;
      }
      forall i | p - str + 1 <= i < k - str ensures !Other(fs)(s[i]) {
        assert s[i] == a[i + str];
      }
      FirstWhereIs(Other(fs), s, p - str + 1, k - str);
      if k >= a.Length { return None; }
    }
    return Some(k);
  }

  /** The fields of a text; an empty text has none if none came before it. */
  function FieldsIn(sp: char -> bool, q: Quoting, s: string, first: bool): seq<string>
    decreases |s|
  {
    var f := FirstField(sp, q, s);
    if first && f.next.None? && f.text == "" then []
    else [f.text] + if f.next.None? then [] else FieldsIn(sp, q, s[f.next.value..], false)
  }

  lemma FieldsInStep(sp: char -> bool, q: Quoting, s: string, first: bool, f: Field) returns (after: seq<string>)
    requires f == FirstField(sp, q, s)
    ensures f.next.None? ==> after == []
    ensures f.next.Some? ==> after == FieldsIn(sp, q, s[f.next.value..], false)
    ensures FieldsIn(sp, q, s, first) == if first && f.next.None? && f.text == "" then [] else [f.text] + after
  {
    after := if f.next.None? then [] else FieldsIn(sp, q, s[f.next.value..], false);
  }

  /** Splits a record on a copy of it, field by field. */
  method SplitQuoted(sp: char -> bool, q: Quoting, line: string) returns (fields: seq<string>)
    ensures fields == FieldsIn(sp, q, line, true)
  {
    var a := new char[|line|](i requires 0 <= i < |line| => line[i]);
    fields := [];
    var p := 0;
    var more := true;
    ghost var tail := FieldsIn(sp, q, line, true);
    ghost var goal := tail;
    assert a[0..] == line;
    while more
      invariant 0 <= p <= a.Length
      invariant goal == fields + tail
      invariant more ==> tail == FieldsIn(sp, q, a[p..], |fields| == 0)
      invariant !more ==> tail == []
      decreases more, a.Length - p
    {
      var field, next; ghost var after;
      field, next, after := TakeNext(sp, q, a, p, |fields| == 0);
      if |fields| == 0 && next.None? && |field| == 0 { return; }
      Shift(goal, fields, tail, field, after);
      fields := fields + [field];
      tail := after;
      if next.None? {
        more := false;
      } else {
        p := next.value;
      }
    }
  }

  /** The field that begins at `p`, and the fields of the text after it. */
  method TakeNext(sp: char -> bool, q: Quoting, a: array<char>, p: nat, ghost first: bool)
    returns (field: string, next: Option<nat>, ghost after: seq<string>)
    requires p <= a.Length
    modifies a
    ensures FieldsIn(sp, q, old(a[p..]), first) == if first && next.None? && field == "" then [] else [field] + after
    ensures next.None? ==> after == []
    ensures next.Some? ==> p < next.value <= a.Length && after == FieldsIn(sp, q, a[next.value..], false)
  {
    ghost var s := a[p..];
    var start, len;
    start, len, next := TakeField(sp, q, a, p);
    field := a[start..start + len];
    ghost var f := FirstField(sp, q, s);
    after := FieldsInStep(sp, q, s, first, f);
    if next.Some? { assert a[next.value..] == s[f.next.value..]; }
  }

  /** A field's text with the escaper in front of every escaper and right quote. */
  function Escape(q: Quoting, f: string): string {
    if f == "" then ""
    else (if f[0] == q.ec || f[0] == q.rq then [q.ec, f[0]] else [f[0]]) + Escape(q, f[1..])
  }

  function Quote(q: Quoting, f: string): string {
    [q.lq] + Escape(q, f) + [q.rq]
  }

  function QuoteAll(q: Quoting, fields: seq<string>): seq<string> {
    seq(|fields|, i requires 0 <= i < |fields| => Quote(q, fields[i]))
  }

  /** A record written from fields: each quoted, the separator in between. */
  function Encode(q: Quoting, fields: seq<string>): string {
    Join(QuoteAll(q, fields), [q.fs])
  }

  /** Characters that can be told apart where they have to be. */
  predicate Usable(sp: char -> bool, q: Quoting) {
    !sp(q.lq) && q.lq != q.ec && q.lq != q.fs && q.rq != q.ec && q.fs != q.ec
  }

  // ---------------------------------------------------------------- what a record says

  /** A piece of a field as it is written: a character that is nothing special, an escaped character, or a
      text in quotes with `inner` between them. */
  datatype Part = Bare(c: char) | Escaped(c: char) | Quoted(inner: string, text: string)

  /** Between quotes `inner` is `text` with the escaper in front of some characters: of any, but of every
      escaper and right quote. */
  ghost predicate Spells(q: Quoting, inner: string, text: string)
    decreases |inner|
  {
    if inner == "" then text == ""
    else if inner[0] == q.ec then |inner| > 1 && text != "" && inner[1] == text[0] && Spells(q, inner[2..], text[1..])
    else inner[0] != q.rq && text != "" && inner[0] == text[0] && Spells(q, inner[1..], text[1..])
  }

  ghost predicate Fits(q: Quoting, x: Part) {
    match x
    case Bare(c) => c != q.ec && c != q.lq && c != q.fs
    case Escaped(_) => true
    case Quoted(inner, text) => Spells(q, inner, text)
  }

  function PartText(q: Quoting, x: Part): string {
    match x
    case Bare(c) => [c]
    case Escaped(c) => [q.ec, c]
    case Quoted(inner, _) => [q.lq] + inner + [q.rq]
  }

  function PartValue(x: Part): string {
    match x
    case Bare(c) => [c]
    case Escaped(c) => [c]
    case Quoted(_, text) => text
  }

  /** The first `n` parts, as they are written and what they stand for. */
  function Written(q: Quoting, parts: seq<Part>, n: nat): string
    requires n <= |parts|
  {
    if n == 0 then "" else Written(q, parts, n - 1) + PartText(q, parts[n - 1])
  }

  function Value(parts: seq<Part>, n: nat): string
    requires n <= |parts|
  {
    if n == 0 then "" else Value(parts, n - 1) + PartValue(parts[n - 1])
  }

  /** A bare space, or nothing in quotes. */
  predicate Blank(sp: char -> bool, x: Part) {
    (x.Bare? && sp(x.c)) || (x.Quoted? && x.text == "")
  }

  /** How many parts there are without the blank ones at the end. */
  function Solid(sp: char -> bool, parts: seq<Part>, n: nat): (k: nat)
    requires n <= |parts|
    ensures k <= n
  {
    if n > 0 && Blank(sp, parts[n - 1]) then Solid(sp, parts, n - 1) else n
  }

  /** What a field stands for. */
  function Meaning(sp: char -> bool, parts: seq<Part>): string {
    Value(parts, Solid(sp, parts, |parts|))
  }

  ghost predicate AllFit(q: Quoting, parts: seq<Part>) {
    forall i {:trigger Fits(q, parts[i])} :: 0 <= i < |parts| ==> Fits(q, parts[i])
  }

  /** How a record may end after the parts of its last field: just so, with more separators if they are
      spaces, with an escaper, or with a quote left open. */
  datatype Ending = Plain | Separators(n: nat) | LoneEscaper | OpenQuote(inner: string, text: string)

  function EndText(q: Quoting, end: Ending): string {
    match end
    case Plain => ""
    case Separators(n) => seq(n, _ => q.fs)
    case LoneEscaper => [q.ec]
    case OpenQuote(inner, _) => [q.lq] + inner
  }

  /** The escaper is kept, and what the open quote has. */
  function EndValue(sp: char -> bool, q: Quoting, parts: seq<Part>, end: Ending): string {
    match end
    case Plain => Meaning(sp, parts)
    case Separators(_) => Meaning(sp, parts)
    case LoneEscaper => Meaning(sp, parts) + [q.ec]
    case OpenQuote(_, text) => if text == "" then Meaning(sp, parts) else Value(parts, |parts|) + text
  }

  ghost predicate EndFits(sp: char -> bool, q: Quoting, end: Ending) {
    (end.Separators? ==> sp(q.fs)) && (end.OpenQuote? ==> Spells(q, end.inner, end.text))
  }

  /** A field as it is written: spaces, and parts of which the first does not begin with a space. */
  datatype Raw = Raw(lead: string, parts: seq<Part>)

  function Body(q: Quoting, raw: Raw): string {
    Written(q, raw.parts, |raw.parts|)
  }

  function RawText(q: Quoting, raw: Raw): string {
    raw.lead + Body(q, raw)
  }

  ghost predicate RawFits(sp: char -> bool, q: Quoting, raw: Raw, rest: string) {
    && (forall i :: 0 <= i < |raw.lead| ==> sp(raw.lead[i]))
    && AllFit(q, raw.parts)
    && (var body := Body(q, raw) + rest; body != "" ==> !sp(body[0]))
  }

  /** Inside quotes, a text is put out however it is spelled. */
  lemma {:induction false} ScanSpelled(sp: char -> bool, q: Quoting, s: string, p: nat, inner: string, text: string, out: string, keep: nat)
    requires Usable(sp, q) && Spells(q, inner, text) && At(s, p, inner) && keep <= |out|
    ensures Scan(sp, q, s, p, false, true, out, keep) ==
            Scan(sp, q, s, p + |inner|, false, true, out + text, if text == "" then keep else |out + text|)
    decreases |inner|
  {
    if inner == "" {
      assert out + text == out;
    } else {
      AtChar(s, p, inner);
      ScanStep(sp, q, s, p, false, true, out, keep);
      var n := 1;
      if inner[0] == q.ec {
        AtChar(s, p + 1, inner[1..]);
        ScanStep(sp, q, s, p + 1, true, true, out, keep);
        assert inner[1..][1..] == inner[2..];
        n := 2;
      }
      ScanSpelled(sp, q, s, p + n, inner[n..], text[1..], out + [text[0]], |out| + 1);
      assert out + [text[0]] + text[1..] == out + text;
    }
  }

  lemma ScanQuoted(sp: char -> bool, q: Quoting, s: string, p: nat, inner: string, text: string, out: string, keep: nat)
    requires Usable(sp, q) && Spells(q, inner, text) && At(s, p, [q.lq] + inner) && keep <= |out|
    ensures Scan(sp, q, s, p, false, false, out, keep) ==
            Scan(sp, q, s, p + 1 + |inner|, false, true, out + text, if text == "" then keep else |out + text|)
  {
    AtChar(s, p, [q.lq] + inner);
    assert ([q.lq] + inner)[1..] == inner;
    ScanStep(sp, q, s, p, false, false, out, keep);
    ScanSpelled(sp, q, s, p + 1, inner, text, out, keep);
  }

  /** One part puts out its value, and unless it is blank it counts. */
  lemma ScanPart(sp: char -> bool, q: Quoting, s: string, p: nat, x: Part, out: string, keep: nat)
    requires Usable(sp, q) && Fits(q, x) && At(s, p, PartText(q, x)) && keep <= |out|
    ensures var out' := out + PartValue(x);
            Scan(sp, q, s, p, false, false, out, keep) ==
            Scan(sp, q, s, p + |PartText(q, x)|, false, false, out', if Blank(sp, x) then keep else |out'|)
  {
    match x
    case Bare(c) =>
      AtChar(s, p, PartText(q, x));
      ScanStep(sp, q, s, p, false, false, out, keep);
    case Escaped(c) =>
      AtChar(s, p, PartText(q, x));
      AtChar(s, p + 1, PartText(q, x)[1..]);
      ScanStep(sp, q, s, p, false, false, out, keep);
      ScanStep(sp, q, s, p + 1, true, false, out, keep);
    case Quoted(inner, text) =>
      AtParts(s, p, [q.lq] + inner, [q.rq]);
      AtChar(s, p + 1 + |inner|, [q.rq]);
      ScanQuoted(sp, q, s, p, inner, text, out, keep);
      var keep' := if text == "" then keep else |out + text|;
      ScanStep(sp, q, s, p + 1 + |inner|, false, true, out + text, keep');
  }

  lemma {:induction false} ValuePrefix(parts: seq<Part>, k: nat, n: nat)
    requires k <= n <= |parts|
    ensures Value(parts, k) <= Value(parts, n)
  {
    if k < n { ValuePrefix(parts, k, n - 1); }
  }

  /** `v` has been put out after `n` parts, and `k` characters of it count. */
  ghost predicate PutOut(sp: char -> bool, parts: seq<Part>, n: nat, v: string, k: nat)
    requires n <= |parts|
  {
    v == Value(parts, n) && k <= |v| && v[..k] == Value(parts, Solid(sp, parts, n))
  }

  lemma PutOutPart(sp: char -> bool, parts: seq<Part>, n: nat, v': string, k': nat) returns (v: string, k: nat)
    requires n < |parts| && PutOut(sp, parts, n + 1, v', k')
    ensures PutOut(sp, parts, n, v, k) && v' == v + PartValue(parts[n]) && k' == if Blank(sp, parts[n]) then k else |v'|
  {
    v, k := CountedSoFar(sp, parts, n);
    var w, x := v + PartValue(parts[n]), if Blank(sp, parts[n]) then k else |v + PartValue(parts[n])|;
    assert |v'[..k']| == k';
  }

  lemma CountedSoFar(sp: char -> bool, parts: seq<Part>, n: nat) returns (v: string, k: nat)
    requires n <= |parts|
    ensures PutOut(sp, parts, n, v, k)
  {
    ValuePrefix(parts, Solid(sp, parts, n), n);
    v, k := Value(parts, n), |Value(parts, Solid(sp, parts, n))|;
  }

  /** The scanner is at `p` after `n` parts. */
  ghost predicate Passed(sp: char -> bool, q: Quoting, s: string, p: nat, parts: seq<Part>, n: nat, f: Field)
    requires n <= |parts|
  {
    p <= |s| && forall v, k {:trigger PutOut(sp, parts, n, v, k)} ::
      PutOut(sp, parts, n, v, k) ==> f == Scan(sp, q, s, p, false, false, v, k)
  }

  lemma PassPart(sp: char -> bool, q: Quoting, s: string, p: nat, end: nat, parts: seq<Part>, n: nat, f: Field)
    requires Usable(sp, q) && 0 < n <= |parts| && Fits(q, parts[n - 1]) && At(s, p, PartText(q, parts[n - 1]))
    requires Passed(sp, q, s, p, parts, n - 1, f) && end == p + |PartText(q, parts[n - 1])|
    ensures Passed(sp, q, s, end, parts, n, f)
  {
    forall v', k' {:trigger PutOut(sp, parts, n, v', k')} | PutOut(sp, parts, n, v', k')
      ensures f == Scan(sp, q, s, end, false, false, v', k')
    {
      var v, k := PutOutPart(sp, parts, n - 1, v', k');
      ScanPart(sp, q, s, p, parts[n - 1], v, k);
    }
  }

  lemma LastPart(q: Quoting, s: string, p: nat, end: nat, parts: seq<Part>, n: nat) returns (mid: nat)
    requires 0 < n <= |parts| && At(s, p, Written(q, parts, n)) && end == p + |Written(q, parts, n)|
    ensures mid == p + |Written(q, parts, n - 1)| && end == mid + |PartText(q, parts[n - 1])|
    ensures At(s, p, Written(q, parts, n - 1)) && At(s, mid, PartText(q, parts[n - 1]))
  {
    mid := p + |Written(q, parts, n - 1)|;
    AtParts(s, p, Written(q, parts, n - 1), PartText(q, parts[n - 1]));
  }

  lemma {:induction false} ScanParts(sp: char -> bool, q: Quoting, s: string, p: nat, end: nat, parts: seq<Part>, n: nat, f: Field)
    requires Usable(sp, q) && AllFit(q, parts) && Passed(sp, q, s, p, parts, 0, f)
    requires n <= |parts| && At(s, p, Written(q, parts, n)) && end == p + |Written(q, parts, n)|
    ensures Passed(sp, q, s, end, parts, n, f)
  {
    if n > 0 {
      var mid := LastPart(q, s, p, end, parts, n);
      assert Fits(q, parts[n - 1]);
      ScanParts(sp, q, s, p, mid, parts, n - 1, f);
      PassPart(sp, q, s, mid, end, parts, n, f);
    }
  }

  /** Where the first field begins, and what is there. */
  lemma InFront(sp: char -> bool, lead: string, text: string, rest: string, s: string)
    requires s == lead + text + rest && (text + rest != "" ==> !sp((text + rest)[0]))
    requires forall i :: 0 <= i < |lead| ==> sp(lead[i])
    ensures FirstWhere(Not(sp), s, 0) == |lead| && At(s, |lead|, text)
  {
    var n := |lead|;
    assert s == lead + (text + rest);
    assert n < |s| ==> s[n] == (text + rest)[0];
    FirstWhereIs(Not(sp), s, 0, n);
  }

  /** The spaces in front are skipped, and the parts put out. */
  lemma ScanRaw(sp: char -> bool, q: Quoting, raw: Raw, rest: string, s: string) returns (v: string, k: nat)
    requires Usable(sp, q) && RawFits(sp, q, raw, rest) && s == RawText(q, raw) + rest
    ensures PutOut(sp, raw.parts, |raw.parts|, v, k)
    ensures FirstField(sp, q, s) == Scan(sp, q, s, |RawText(q, raw)|, false, false, v, k)
  {
    InFront(sp, raw.lead, Body(q, raw), rest, s);
    ScanParts(sp, q, s, |raw.lead|, |RawText(q, raw)|, raw.parts, |raw.parts|, FirstField(sp, q, s));
    v, k := CountedSoFar(sp, raw.parts, |raw.parts|);
  }

  /** A field that a separator follows. */
  lemma FieldBefore(sp: char -> bool, q: Quoting, raw: Raw, rest: string, s: string)
    requires Usable(sp, q) && RawFits(sp, q, raw, rest) && s == RawText(q, raw) + rest && rest != "" && rest[0] == q.fs
    ensures FirstField(sp, q, s) == Field(Meaning(sp, raw.parts), AfterSeparator(sp, q.fs, s, |RawText(q, raw)|))
  {
    var v, k := ScanRaw(sp, q, raw, rest, s);
    assert s[|RawText(q, raw)|] == q.fs;
  }

  /** The last field of a record. */
  lemma FieldAtEnd(sp: char -> bool, q: Quoting, raw: Raw, end: Ending)
    requires Usable(sp, q) && RawFits(sp, q, raw, EndText(q, end)) && EndFits(sp, q, end)
    ensures FirstField(sp, q, RawText(q, raw) + EndText(q, end)) == Field(EndValue(sp, q, raw.parts, end), None)
  {
    var n, rest := |RawText(q, raw)|, EndText(q, end);
    var s := RawText(q, raw) + rest;
    if end.Separators? && end.n > 0 {
      FieldBefore(sp, q, raw, rest, s);
      forall i | n + 1 <= i < |s| ensures !Other(q.fs)(s[i]) { assert s[i] == rest[i - n]; }
      FirstWhereIs(Other(q.fs), s, n + 1, |s|);
    } else {
      var v, k := ScanRaw(sp, q, raw, rest, s);
      match end
      case Plain => assert s == RawText(q, raw);
      case Separators(_) => assert s == RawText(q, raw);
      case LoneEscaper =>
        ScanStep(sp, q, s, n, false, false, v, k);
      case OpenQuote(inner, text) =>
        ScanOpen(sp, q, raw.parts, s, n, inner, text, v, k);
    }
  }

  lemma ScanOpen(sp: char -> bool, q: Quoting, parts: seq<Part>, s: string, n: nat, inner: string, text: string, v: string, k: nat)
    requires Usable(sp, q) && Spells(q, inner, text) && PutOut(sp, parts, |parts|, v, k)
    requires At(s, n, [q.lq] + inner) && |s| == n + 1 + |inner|
    ensures Scan(sp, q, s, n, false, false, v, k) == Field(EndValue(sp, q, parts, OpenQuote(inner, text)), None)
  {
    ScanQuoted(sp, q, s, n, inner, text, v, k);
    assert (v + text)[..|v + text|] == v + text;
    assert (v + text)[..k] == v[..k];
  }

  // ---------------------------------------------------------------- whole records

  /** A record from its field `i` on: fields with the separator in between. */
  function RecordText(q: Quoting, raws: seq<Raw>, end: Ending, i: nat): string
    requires i < |raws|
    decreases |raws| - i
  {
    RawText(q, raws[i]) + if i == |raws| - 1 then EndText(q, end) else [q.fs] + RecordText(q, raws, end, i + 1)
  }

  /** Each field is told from its neighbours: none is blank where the separator is a space. */
  ghost predicate RecordFits(sp: char -> bool, q: Quoting, raws: seq<Raw>, end: Ending) {
    && raws != [] && EndFits(sp, q, end)
    && (forall i :: 0 <= i < |raws| - 1 ==> RawFits(sp, q, raws[i], [q.fs]))
    && RawFits(sp, q, raws[|raws| - 1], EndText(q, end))
    && (sp(q.fs) && |raws| > 1 ==> Body(q, raws[|raws| - 1]) + EndText(q, end) != "")
  }

  function Values(sp: char -> bool, q: Quoting, raws: seq<Raw>, end: Ending, i: nat): seq<string>
    requires i < |raws|
    decreases |raws| - i
  {
    if i == |raws| - 1 then [EndValue(sp, q, raws[i].parts, end)]
    else [Meaning(sp, raws[i].parts)] + Values(sp, q, raws, end, i + 1)
  }

  /** Where the separator leads: past no more than spaces in front of the next field. */
  lemma PastSeparator(sp: char -> bool, fs: char, a: string, rest: string, s: string, m: nat) returns (j: nat)
    requires s == a + ([fs] + rest) && m <= |rest| && (sp(fs) ==> m < |rest| && rest[m] != fs)
    ensures j <= m && AfterSeparator(sp, fs, s, |a|) == Some(|a| + 1 + j) && s[|a| + 1 + j..] == rest[j..]
  {
    j := 0;
    if sp(fs) {
      assert s[|a| + 1 + m] == rest[m];
      j := FirstWhere(Other(fs), s, |a| + 1) - (|a| + 1);
      assert Other(fs)(s[|a| + 1 + m]);
    }
  }

  /** A field without some of the spaces in front of it. */
  function Shorten(raw: Raw, j: nat): Raw
    requires j <= |raw.lead|
  {
    Raw(raw.lead[j..], raw.parts)
  }

  lemma ShortFits(sp: char -> bool, q: Quoting, raw: Raw, rest: string, j: nat)
    requires RawFits(sp, q, raw, rest) && j <= |raw.lead|
    ensures RawFits(sp, q, Shorten(raw, j), rest)
  {
    assert forall i :: 0 <= i < |raw.lead[j..]| ==> raw.lead[j..][i] == raw.lead[i + j];
  }

  lemma ShortText(q: Quoting, raw: Raw, rest: string, j: nat)
    requires j <= |raw.lead|
    ensures j <= |RawText(q, raw) + rest| && (RawText(q, raw) + rest)[j..] == RawText(q, Shorten(raw, j)) + rest
  {
    assert RawText(q, raw) + rest == raw.lead + (Body(q, raw) + rest);
    assert RawText(q, Shorten(raw, j)) + rest == raw.lead[j..] + (Body(q, raw) + rest);
  }

  lemma NoSeparator(sp: char -> bool, q: Quoting, raw: Raw, rest: string, more: string, s: string)
    requires RawFits(sp, q, raw, rest) && sp(q.fs) && s == RawText(q, raw) + (rest + more)
    requires Body(q, raw) + rest != ""
    ensures |raw.lead| < |s| && s[|raw.lead|] != q.fs
  {
    var body := Body(q, raw);
    assert s == raw.lead + ((body + rest) + more);
    assert s[|raw.lead|] == (body + rest)[0];
  }

  /** Where the text of a field after the first begins, there is no separator. */
  lemma NextBody(sp: char -> bool, q: Quoting, raws: seq<Raw>, end: Ending, i: nat)
    requires Usable(sp, q) && RecordFits(sp, q, raws, end) && 0 < i < |raws|
    ensures var m, s := |raws[i].lead|, RecordText(q, raws, end, i);
            m <= |s| && (sp(q.fs) ==> m < |s| && s[m] != q.fs)
  {
    var s := RecordText(q, raws, end, i);
    if sp(q.fs) {
      if i == |raws| - 1 {
        assert EndText(q, end) + "" == EndText(q, end);
        NoSeparator(sp, q, raws[i], EndText(q, end), "", s);
      } else {
        NoSeparator(sp, q, raws[i], [q.fs], RecordText(q, raws, end, i + 1), s);
      }
    }
  }

  lemma BeforeMore(sp: char -> bool, q: Quoting, raw: Raw, more: string)
    requires RawFits(sp, q, raw, [q.fs])
    ensures RawFits(sp, q, raw, [q.fs] + more)
  {
    assert (Body(q, raw) + ([q.fs] + more))[0] == (Body(q, raw) + [q.fs])[0];
  }

  /** The fields of a record whose first field a separator follows. */
  lemma FieldsBefore(sp: char -> bool, q: Quoting, raw: Raw, rest: string, s: string, first: bool, n: nat, others: string)
    requires Usable(sp, q) && RawFits(sp, q, raw, rest) && s == RawText(q, raw) + rest && rest != "" && rest[0] == q.fs
    requires n <= |s| && AfterSeparator(sp, q.fs, s, |RawText(q, raw)|) == Some(n) && others == s[n..]
    ensures FieldsIn(sp, q, s, first) == [Meaning(sp, raw.parts)] + FieldsIn(sp, q, others, false)
  {
    FieldBefore(sp, q, raw, rest, s);
    var after := FieldsInStep(sp, q, s, first, FirstField(sp, q, s));
  }

  /** One field of several, less some spaces in front, and the rest of the record. */
  lemma NextOfRecord(sp: char -> bool, q: Quoting, raw: Raw, more: string, s: string, first: bool, m: nat) returns (j: nat)
    requires Usable(sp, q) && RawFits(sp, q, raw, [q.fs]) && s == RawText(q, raw) + ([q.fs] + more)
    requires m <= |more| && (sp(q.fs) ==> m < |more| && more[m] != q.fs)
    ensures j <= m && FieldsIn(sp, q, s, first) == [Meaning(sp, raw.parts)] + FieldsIn(sp, q, more[j..], false)
  {
    j := PastSeparator(sp, q.fs, RawText(q, raw), more, s, m);
    BeforeMore(sp, q, raw, more);
    FieldsBefore(sp, q, raw, [q.fs] + more, s, first, |RawText(q, raw)| + 1 + j, more[j..]);
  }

  lemma LastOfRecord(sp: char -> bool, q: Quoting, raw: Raw, end: Ending, j: nat, first: bool, s: string)
    requires Usable(sp, q) && RawFits(sp, q, raw, EndText(q, end)) && EndFits(sp, q, end) && j <= |raw.lead|
    requires s == RawText(q, raw) + EndText(q, end)
    ensures var value := EndValue(sp, q, raw.parts, end);
            j <= |s| && FieldsIn(sp, q, s[j..], first) == if first && value == "" then [] else [value]
  {
    ShortText(q, raw, EndText(q, end), j);
    ShortFits(sp, q, raw, EndText(q, end), j);
    FieldAtEnd(sp, q, Shorten(raw, j), end);
  }

  /** What a list of fields becomes: a record of one field without a value has no field. */
  function Counted(first: bool, values: seq<string>): seq<string> {
    if first && values == [""] then [] else values
  }

  lemma RecordLast(sp: char -> bool, q: Quoting, raws: seq<Raw>, end: Ending, i: nat, j: nat, first: bool)
    requires Usable(sp, q) && RecordFits(sp, q, raws, end) && i == |raws| - 1 && j <= |raws[i].lead|
    ensures j <= |RecordText(q, raws, end, i)|
    ensures FieldsIn(sp, q, RecordText(q, raws, end, i)[j..], first) == Counted(first, Values(sp, q, raws, end, i))
  {
    LastOfRecord(sp, q, raws[i], end, j, first, RecordText(q, raws, end, i));
  }

  lemma FieldOfRecord(sp: char -> bool, q: Quoting, raw: Raw, more: string, j: nat, first: bool, s: string, m: nat) returns (k: nat)
    requires Usable(sp, q) && RawFits(sp, q, raw, [q.fs]) && j <= |raw.lead| && s == RawText(q, raw) + ([q.fs] + more)
    requires m <= |more| && (sp(q.fs) ==> m < |more| && more[m] != q.fs)
    ensures k <= m && j <= |s| && FieldsIn(sp, q, s[j..], first) == [Meaning(sp, raw.parts)] + FieldsIn(sp, q, more[k..], false)
  {
    ShortText(q, raw, [q.fs] + more, j);
    ShortFits(sp, q, raw, [q.fs], j);
    k := NextOfRecord(sp, q, Shorten(raw, j), more, s[j..], first, m);
  }

  lemma RecordStep(sp: char -> bool, q: Quoting, raws: seq<Raw>, end: Ending, i: nat, j: nat, first: bool) returns (k: nat)
    requires Usable(sp, q) && RecordFits(sp, q, raws, end) && i < |raws| - 1 && j <= |raws[i].lead|
    ensures k <= |raws[i + 1].lead| && k <= |RecordText(q, raws, end, i + 1)| && j <= |RecordText(q, raws, end, i)|
    ensures FieldsIn(sp, q, RecordText(q, raws, end, i + 1)[k..], false) == Values(sp, q, raws, end, i + 1) ==>
            FieldsIn(sp, q, RecordText(q, raws, end, i)[j..], first) == Counted(first, Values(sp, q, raws, end, i))
  {
    var s, more := RecordText(q, raws, end, i), RecordText(q, raws, end, i + 1);
    NextBody(sp, q, raws, end, i + 1);
    k := FieldOfRecord(sp, q, raws[i], more, j, first, s, |raws[i + 1].lead|);
    NotOneEmpty(Meaning(sp, raws[i].parts), Values(sp, q, raws, end, i + 1));
  }

  /** What the fields of a record are from field `i` on, some spaces in front of it left out: bare
      characters, escaped characters and the texts in quotes, put together, without the spaces around
      them. */
  lemma {:induction false} FieldsOfRecord(sp: char -> bool, q: Quoting, raws: seq<Raw>, end: Ending, i: nat, j: nat, first: bool)
    requires Usable(sp, q) && RecordFits(sp, q, raws, end) && i < |raws| && j <= |raws[i].lead|
    ensures j <= |RecordText(q, raws, end, i)|
    ensures FieldsIn(sp, q, RecordText(q, raws, end, i)[j..], first) == Counted(first, Values(sp, q, raws, end, i))
    decreases |raws| - i
  {
    if i == |raws| - 1 {
      RecordLast(sp, q, raws, end, i, j, first);
    } else {
      var k := RecordStep(sp, q, raws, end, i, j, first);
      FieldsOfRecord(sp, q, raws, end, i + 1, k, false);
    }
  }

  lemma NotOneEmpty(head: string, tail: seq<string>)
    requires tail != []
    ensures [head] + tail != [""]
  {
    assert |[head] + tail| > 1;
  }

  /** A field written as `text`, wherever it stands in a record, has the value `value`. */
  ghost predicate Says(sp: char -> bool, q: Quoting, raw: Raw, text: string, value: string) {
    && RawText(q, raw) == text && Meaning(sp, raw.parts) == value
    && RawFits(sp, q, raw, "") && RawFits(sp, q, raw, [q.fs])
  }

  lemma SaidFits(sp: char -> bool, q: Quoting, raws: seq<Raw>, texts: seq<string>, values: seq<string>)
    requires |raws| == |texts| == |values| > 0
    requires forall i :: 0 <= i < |raws| ==> Says(sp, q, raws[i], texts[i], values[i])
    ensures RecordFits(sp, q, raws, Plain)
  {
    assert Says(sp, q, raws[|raws| - 1], texts[|raws| - 1], values[|raws| - 1]);
  }

  lemma {:induction false} SaidText(sp: char -> bool, q: Quoting, raws: seq<Raw>, texts: seq<string>, i: nat)
    requires |raws| == |texts| && i < |raws|
    requires forall i :: 0 <= i < |raws| ==> RawText(q, raws[i]) == texts[i]
    ensures RecordText(q, raws, Plain, i) == Join(texts[i..], [q.fs])
    decreases |raws| - i
  {
    if i < |raws| - 1 {
      SaidText(sp, q, raws, texts, i + 1);
      assert texts[i..] == [texts[i]] + texts[i + 1..];
      JoinCons(texts[i], texts[i + 1..], [q.fs]);
      Regroup(texts[i], [q.fs], Join(texts[i + 1..], [q.fs]));
    } else {
      assert texts[i..] == [texts[i]];
    }
  }

  lemma Regroup(a: string, b: string, c: string)
    ensures a + b + c == a + (b + c)
  {
  }

  lemma {:induction false} SaidValues(sp: char -> bool, q: Quoting, raws: seq<Raw>, values: seq<string>, i: nat)
    requires |raws| == |values| && i < |raws|
    requires forall i :: 0 <= i < |raws| ==> Meaning(sp, raws[i].parts) == values[i]
    ensures Values(sp, q, raws, Plain, i) == values[i..]
    decreases |raws| - i
  {
    if i < |raws| - 1 { SaidValues(sp, q, raws, values, i + 1); }
  }

  lemma FieldsSaid(sp: char -> bool, q: Quoting, raws: seq<Raw>, texts: seq<string>, values: seq<string>)
    requires Usable(sp, q) && |raws| == |texts| == |values| > 0
    requires forall i :: 0 <= i < |raws| ==> Says(sp, q, raws[i], texts[i], values[i])
    ensures FieldsIn(sp, q, Join(texts, [q.fs]), true) == if values == [""] then [] else values
  {
    SaidFits(sp, q, raws, texts, values);
    SaidText(sp, q, raws, texts, 0);
    SaidValues(sp, q, raws, values, 0);
    assert texts[0..] == texts && values[0..] == values;
    var s := Join(texts, [q.fs]);
    assert s[0..] == s;
    FieldsOfRecord(sp, q, raws, Plain, 0, 0, true);
  }

  // ---------------------------------------------------------------- fields without quotes

  /** A text without the spaces around it. */
  function Trim(sp: char -> bool, f: string): string {
    if f != "" && sp(f[0]) then Trim(sp, f[1..])
    else if f != "" && sp(f[|f| - 1]) then Trim(sp, f[..|f| - 1])
    else f
  }

  function TrimAll(sp: char -> bool, fields: seq<string>): seq<string> {
    seq(|fields|, i requires 0 <= i < |fields| => Trim(sp, fields[i]))
  }

  function Bares(f: string): seq<Part> {
    seq(|f|, i requires 0 <= i < |f| => Bare(f[i]))
  }

  /** A field without quotes as it is written. */
  function Unquoted(sp: char -> bool, f: string): Raw {
    var n := FirstWhere(Not(sp), f, 0);
    Raw(f[..n], Bares(f[n..]))
  }

  lemma {:induction false} BaresAre(q: Quoting, f: string, n: nat)
    requires n <= |f|
    ensures Written(q, Bares(f), n) == f[..n] && Value(Bares(f), n) == f[..n]
  {
    if n > 0 { BaresAre(q, f, n - 1); }
  }

  lemma {:induction false} SolidBares(sp: char -> bool, q: Quoting, f: string, n: nat)
    requires n <= |f| && (f != "" ==> !sp(f[0]))
    ensures f[..Solid(sp, Bares(f), n)] == Trim(sp, f[..n])
  {
    if n > 0 && sp(f[n - 1]) {
      SolidBares(sp, q, f, n - 1);
      assert f[..n][..n - 1] == f[..n - 1];
    }
  }

  lemma {:induction false} TrimLead(sp: char -> bool, f: string, n: nat)
    requires n <= |f| && forall i :: 0 <= i < n ==> sp(f[i])
    ensures Trim(sp, f) == Trim(sp, f[n..])
    decreases n
  {
    if n == 0 {
      assert f[n..] == f;
    } else {
      TrimLead(sp, f[1..], n - 1);
      assert f[1..][n - 1..] == f[n..];
    }
  }

  lemma BaresFit(q: Quoting, f: string, n: nat)
    requires q.fs !in f && q.ec !in f && q.lq !in f && n <= |f|
    ensures AllFit(q, Bares(f[n..]))
  {
    assert forall i :: 0 <= i < |f[n..]| ==> f[n..][i] in f;
  }

  lemma UnquotedMeaning(sp: char -> bool, q: Quoting, f: string, n: nat)
    requires n == FirstWhere(Not(sp), f, 0)
    ensures Meaning(sp, Bares(f[n..])) == Trim(sp, f)
  {
    var body := f[n..];
    TrimLead(sp, f, n);
    SolidBares(sp, q, body, |body|);
    assert body[..|body|] == body;
    BaresAre(q, body, Solid(sp, Bares(body), |body|));
  }

  lemma UnquotedText(sp: char -> bool, q: Quoting, f: string)
    ensures Body(q, Unquoted(sp, f)) == f[FirstWhere(Not(sp), f, 0)..] && RawText(q, Unquoted(sp, f)) == f
  {
    var n := FirstWhere(Not(sp), f, 0);
    var body := f[n..];
    BaresAre(q, body, |body|);
    assert body[..|body|] == body && f[..n] + body == f;
  }

  lemma UnquotedIs(sp: char -> bool, q: Quoting, f: string)
    requires q.fs !in f && q.ec !in f && q.lq !in f && !sp(q.fs)
    ensures Says(sp, q, Unquoted(sp, f), f, Trim(sp, f))
  {
    var n := FirstWhere(Not(sp), f, 0);
    BaresFit(q, f, n);
    UnquotedText(sp, q, f);
    UnquotedMeaning(sp, q, f, n);
  }

  /** Fields in which nothing is special come back without the spaces around them; those inside stay. */
  lemma UnquotedFields(sp: char -> bool, q: Quoting, fields: seq<string>)
    requires Usable(sp, q) && !sp(q.fs) && fields != []
    requires forall i :: 0 <= i < |fields| ==> q.fs !in fields[i] && q.ec !in fields[i] && q.lq !in fields[i]
    ensures FieldsIn(sp, q, Join(fields, [q.fs]), true) ==
            if |fields| == 1 && Trim(sp, fields[0]) == "" then [] else TrimAll(sp, fields)
  {
    var raws := seq(|fields|, i requires 0 <= i < |fields| => Unquoted(sp, fields[i]));
    var values := TrimAll(sp, fields);
    forall i | 0 <= i < |fields| ensures Says(sp, q, raws[i], fields[i], values[i]) { UnquotedIs(sp, q, fields[i]); }
    FieldsSaid(sp, q, raws, fields, values);
  }

  // ---------------------------------------------------------------- quoted fields

  lemma {:induction false} EscapeSpells(q: Quoting, f: string)
    ensures Spells(q, Escape(q, f), f)
  {
    if f != "" {
      EscapeSpells(q, f[1..]);
      var e := Escape(q, f);
      if f[0] == q.ec || f[0] == q.rq {
        assert e[2..] == Escape(q, f[1..]);
      } else {
        assert e[1..] == Escape(q, f[1..]);
      }
    }
  }

  lemma QuotedIs(sp: char -> bool, q: Quoting, f: string)
    requires Usable(sp, q)
    ensures Says(sp, q, Raw("", [Quoted(Escape(q, f), f)]), Quote(q, f), f)
  {
    EscapeSpells(q, f);
    var parts := [Quoted(Escape(q, f), f)];
    assert Written(q, parts, 1) == "" + Quote(q, f) == Quote(q, f);
    assert Value(parts, 1) == "" + f == f;
  }

  /** A record of one quoted empty field is a record of no fields. */
  lemma QuotedEmptyFieldIsLost(sp: char -> bool, q: Quoting)
    requires Usable(sp, q)
    ensures FieldsIn(sp, q, Encode(q, [""]), true) == []
  {
    QuotedIs(sp, q, "");
    FieldsSaid(sp, q, [Raw("", [Quoted(Escape(q, ""), "")])], [Quote(q, "")], [""]);
    assert QuoteAll(q, [""]) == [Quote(q, "")];
  }

  /** Splitting undoes quoting: whatever the fields contain, every list of fields comes back but the list
      of one empty field. */
  lemma SplitUndoesQuoting(sp: char -> bool, q: Quoting, fields: seq<string>)
    requires Usable(sp, q)
    ensures FieldsIn(sp, q, Encode(q, fields), true) == fields <==> fields != [""]
  {
    if fields == [] {
      assert Encode(q, fields) == "";
    } else {
      var raws := seq(|fields|, i requires 0 <= i < |fields| => Raw("", [Quoted(Escape(q, fields[i]), fields[i])]));
      var texts := QuoteAll(q, fields);
      forall i | 0 <= i < |fields| ensures Says(sp, q, raws[i], texts[i], fields[i]) { QuotedIs(sp, q, fields[i]); }
      FieldsSaid(sp, q, raws, texts, fields);
    }
  }
}
