/** The loop behind sub and gsub, over any matcher. */
module Substitution {
  import opened Common
  import opened Text

  /** What the matcher finds in the text from a position on. */
  datatype Match = NoMatch | At(start: nat, len: nat) | Error

  /** A part of the source that is replaced. */
  datatype Span = Span(start: nat, len: nat)

  /** Matches lie in what was looked at. */
  ghost predicate Inside(m: nat -> Match, s: string) {
    forall c: nat {:trigger m(c)} :: c <= |s| && m(c).At? ==> c <= m(c).start && m(c).start + m(c).len <= |s|
  }

  /** The replacement for one match: `&` stands for the match, and `\&` for an ampersand. */
  function Expand(repl: string, mat: string): string {
    if repl == "" then ""
    else if |repl| > 1 && repl[0] == '\\' && repl[1] == '&' then "&" + Expand(repl[2..], mat)
    else if repl[0] == '&' then mat + Expand(repl[1..], mat)
    else [repl[0]] + Expand(repl[1..], mat)
  }

  /** The state of the search: where it goes on, where the match before ended, and how many there were. */
  datatype Pos = Pos(cur: nat, prev: Option<nat>, count: nat)

  /** What the search finds; a `max` of zero is no limit. */
  function Found(m: nat -> Match, s: string, max: nat, pos: Pos): Match {
    if pos.cur > |s| || (max != 0 && pos.count >= max) then NoMatch else m(pos.cur)
  }

  /** An empty match where the one before ended is passed over. */
  predicate PassedOver(found: Match, prev: Option<nat>)
    requires found.At?
  {
    found.len == 0 && prev == Some(found.start)
  }

  /** The state after a match: an empty one moves the search on by a character. */
  function Move(found: Match, pos: Pos): Pos
    requires found.At?
  {
    var end := found.start + found.len;
    if PassedOver(found, pos.prev) then pos.(cur := pos.cur + 1)
    else Pos(if found.len == 0 then end + 1 else end, Some(end), pos.count + 1)
  }

  /** The spans replaced from a state on. */
  ghost function Taken(m: nat -> Match, s: string, max: nat, pos: Pos): seq<Span>
    requires Inside(m, s)
    decreases |s| + 1 - pos.cur
  {
    var f := Found(m, s, max, pos);
    if !f.At? then []
    else if PassedOver(f, pos.prev) then Taken(m, s, max, Move(f, pos))
    else [Span(f.start, f.len)] + Taken(m, s, max, Move(f, pos))
  }

  /** Whether the matcher fails on the way. */
  ghost predicate Fails(m: nat -> Match, s: string, max: nat, pos: Pos)
    requires Inside(m, s)
    decreases |s| + 1 - pos.cur
  {
    var f := Found(m, s, max, pos);
    if !f.At? then f.Error? else Fails(m, s, max, Move(f, pos))
  }

  const START := Pos(0, None, 0)

  /** Spans in order, apart from each other, inside the source; and no empty one where the one before
      ends. */
  ghost predicate Ordered(s: string, spans: seq<Span>, from: nat, prev: Option<nat>)
    decreases |spans|
  {
    spans != [] ==>
      var x := spans[0];
      && from <= x.start && x.start + x.len <= |s|
      && (x.len == 0 ==> prev != Some(x.start))
      && Ordered(s, spans[1..], x.start + x.len, Some(x.start + x.len))
  }

  /** The source from `from` on with each span replaced. */
  function Render(s: string, repl: string, from: nat, spans: seq<Span>): string
    requires from <= |s|
    decreases |spans|
  {
    if spans == [] then s[from..]
    else
      var x := spans[0];
      if from <= x.start && x.start + x.len <= |s| then
        s[from..x.start] + (Expand(repl, s[x.start..x.start + x.len]) + Render(s, repl, x.start + x.len, spans[1..]))
      else ""
  }

  lemma {:induction false} OrderedFrom(s: string, spans: seq<Span>, from: nat, prev: Option<nat>, from': nat)
    requires Ordered(s, spans, from, prev) && (spans != [] ==> from' <= spans[0].start)
    ensures Ordered(s, spans, from', prev)
  {
  }

  /** What is taken is in order, starts where the search does, and is no more than the limit allows. */
  lemma {:induction false} TakenOrdered(m: nat -> Match, s: string, max: nat, pos: Pos)
    requires Inside(m, s) && (pos.prev.Some? ==> pos.prev.value <= pos.cur)
    ensures var t := Taken(m, s, max, pos);
            Ordered(s, t, pos.cur, pos.prev) && (max != 0 && pos.count <= max ==> pos.count + |t| <= max)
    decreases |s| + 1 - pos.cur
  {
    var f := Found(m, s, max, pos);
    if f.At? {
      var next := Move(f, pos);
      var rest := Taken(m, s, max, next);
      TakenOrdered(m, s, max, next);
      if PassedOver(f, pos.prev) {
        OrderedFrom(s, rest, next.cur, pos.prev, pos.cur);
      } else {
        OrderedFrom(s, rest, next.cur, next.prev, f.start + f.len);
        assert ([Span(f.start, f.len)] + rest)[1..] == rest;
      }
    }
  }

  // ---------------------------------------------------------------- nothing is missed

  /** Where the search goes on after a span, or at the start. */
  function Resume(last: Option<Span>): nat {
    match last
    case None => 0
    case Some(x) => x.start + x.len + if x.len == 0 then 1 else 0
  }

  function EndOf(last: Option<Span>): Option<nat> {
    if last.None? then None else Some(last.value.start + last.value.len)
  }

  /** What the matcher has to offer after a span: what it finds from the place where the search goes on,
      unless that is an empty match right at the end of the span, which yields to what it finds from the
      next character on. */
  function Offer(m: nat -> Match, s: string, last: Option<Span>): Match {
    var c := Resume(last);
    if c > |s| then NoMatch
    else if m(c) == At(c, 0) && EndOf(last) == Some(c) then if c < |s| then m(c + 1) else NoMatch
    else m(c)
  }

  /** What comes before the `k`-th of the spans that follow `last`. */
  function Before(last: Option<Span>, spans: seq<Span>, k: nat): Option<Span>
    requires k <= |spans|
  {
    if k == 0 then last else Some(spans[k - 1])
  }

  lemma BeforeCons(last: Option<Span>, x: Span, rest: seq<Span>, k: nat)
    requires 0 < k <= |rest| + 1
    ensures Before(last, [x] + rest, k) == Before(Some(x), rest, k - 1)
  {
  }

  /** The first span taken is what the matcher has to offer, if the limit allows it. */
  lemma TakenFirst(m: nat -> Match, s: string, max: nat, last: Option<Span>, count: nat)
    requires Inside(m, s)
    ensures var t := Taken(m, s, max, Pos(Resume(last), EndOf(last), count));
            var f := Offer(m, s, last);
            if (max != 0 && count >= max) || !f.At? then t == []
            else
              var x := Span(f.start, f.len);
              t == [x] + Taken(m, s, max, Pos(Resume(Some(x)), EndOf(Some(x)), count + 1)) && Resume(Some(x)) > Resume(last)
  {
    var pos := Pos(Resume(last), EndOf(last), count);
    var f := Found(m, s, max, pos);
    if f.At? && PassedOver(f, pos.prev) {
      var pos2 := Move(f, pos);
      var f2 := Found(m, s, max, pos2);
      assert f2.At? ==> !PassedOver(f2, pos2.prev);
    }
  }

  /** Each span is what the matcher has to offer after the one before, and after the last one it has
      nothing to offer, or the limit is reached. */
  ghost predicate Complete(m: nat -> Match, s: string, max: nat, last: Option<Span>, count: nat, spans: seq<Span>) {
    && (forall k :: 0 <= k < |spans| ==> Offer(m, s, Before(last, spans, k)) == At(spans[k].start, spans[k].len))
    && ((max != 0 && count + |spans| == max) || !Offer(m, s, Before(last, spans, |spans|)).At?)
  }

  lemma CompleteCons(m: nat -> Match, s: string, max: nat, last: Option<Span>, count: nat, x: Span, rest: seq<Span>)
    requires Complete(m, s, max, Some(x), count + 1, rest) && Offer(m, s, last) == At(x.start, x.len)
    ensures Complete(m, s, max, last, count, [x] + rest)
  {
    var t := [x] + rest;
    forall k | 0 <= k < |t| ensures Offer(m, s, Before(last, t, k)) == At(t[k].start, t[k].len) {
      if k > 0 { BeforeCons(last, x, rest, k); }
    }
    BeforeCons(last, x, rest, |t|);
  }

  /** The search misses nothing. */
  lemma {:induction false} NothingMissed(m: nat -> Match, s: string, max: nat, last: Option<Span>, count: nat, spans: seq<Span>)
    requires Inside(m, s) && (max != 0 ==> count <= max)
    requires spans == Taken(m, s, max, Pos(Resume(last), EndOf(last), count))
    ensures Complete(m, s, max, last, count, spans)
    decreases |s| + 1 - Resume(last)
  {
    TakenFirst(m, s, max, last, count);
    var f := Offer(m, s, last);
    if (max != 0 && count >= max) || !f.At? {
      CompleteNil(m, s, max, last, count);
    } else {
      var x, rest := Span(f.start, f.len), spans[1..];
      assert spans == [x] + rest;
      NothingMissed(m, s, max, Some(x), count + 1, rest);
      CompleteCons(m, s, max, last, count, x, rest);
    }
  }

  lemma CompleteNil(m: nat -> Match, s: string, max: nat, last: Option<Span>, count: nat)
    requires (max != 0 && count == max) || !Offer(m, s, last).At?
    ensures Complete(m, s, max, last, count, [])
  {
  }

  /** Of two complete lists the one agrees with the other as far as it goes. */
  lemma {:induction false} CompleteUnique(m: nat -> Match, s: string, max: nat, last: Option<Span>, count: nat, a: seq<Span>, b: seq<Span>, n: nat)
    requires Complete(m, s, max, last, count, a) && Complete(m, s, max, last, count, b) && n <= |a|
    requires max != 0 ==> count + |a| <= max
    ensures n <= |b| && forall k :: 0 <= k < n ==> a[k] == b[k]
  {
    if n > 0 {
      CompleteUnique(m, s, max, last, count, a, b, n - 1);
      SameOffer(m, s, max, last, count, a, b, n - 1);
    }
  }

  /** The spans replaced are the only complete list: completeness says all there is to say about them. */
  lemma OnlyComplete(m: nat -> Match, s: string, max: nat, spans: seq<Span>)
    requires Inside(m, s)
    ensures Complete(m, s, max, None, 0, spans) && (max != 0 ==> |spans| <= max) <==> spans == Taken(m, s, max, START)
  {
    var t := Taken(m, s, max, START);
    NothingMissed(m, s, max, None, 0, t);
    TakenOrdered(m, s, max, START);
    if Complete(m, s, max, None, 0, spans) && (max != 0 ==> |spans| <= max) {
      CompleteUnique(m, s, max, None, 0, spans, t, |spans|);
      CompleteUnique(m, s, max, None, 0, t, spans, |t|);
    }
  }

  lemma SameOffer(m: nat -> Match, s: string, max: nat, last: Option<Span>, count: nat, a: seq<Span>, b: seq<Span>, k: nat)
    requires Complete(m, s, max, last, count, a) && Complete(m, s, max, last, count, b) && k < |a| && k <= |b|
    requires max != 0 ==> count + |a| <= max
    requires k > 0 ==> a[k - 1] == b[k - 1]
    ensures k < |b| && a[k] == b[k]
  {
    assert Before(last, a, k) == Before(last, b, k);
    assert Offer(m, s, Before(last, a, k)) == At(a[k].start, a[k].len);
    if k < |b| { assert Offer(m, s, Before(last, b, k)) == At(b[k].start, b[k].len); }
  }

  lemma Regroup(a: string, b: string, c: string)
    ensures (a + b) + c == a + (b + c)
  {
  }

  lemma GapSkip(s: string, from: nat, end: nat, after: string)
    requires from < end <= |s|
    ensures s[from..end] + after == [s[from]] + (s[from + 1..end] + after)
  {
    assert s[from..end] == [s[from]] + s[from + 1..end];
    Regroup([s[from]], s[from + 1..end], after);
  }

  /** What follows the gap does not depend on where the gap begins. */
  lemma RenderGap(s: string, repl: string, from: nat, spans: seq<Span>) returns (after: string)
    requires spans != [] && from < spans[0].start && spans[0].start + spans[0].len <= |s|
    ensures Render(s, repl, from, spans) == s[from..spans[0].start] + after
    ensures Render(s, repl, from + 1, spans) == s[from + 1..spans[0].start] + after
  {
    var x := spans[0];
    after := Expand(repl, s[x.start..x.start + x.len]) + Render(s, repl, x.start + x.len, spans[1..]);
  }

  /** One unreplaced character. */
  lemma RenderSkip(s: string, repl: string, from: nat, spans: seq<Span>)
    requires from < |s| && (spans != [] ==> from < spans[0].start && spans[0].start + spans[0].len <= |s|)
    ensures Render(s, repl, from, spans) == [s[from]] + Render(s, repl, from + 1, spans)
  {
    if spans == [] {
      assert s[from..] == [s[from]] + s[from + 1..];
    } else {
      var after := RenderGap(s, repl, from, spans);
      GapSkip(s, from, spans[0].start, after);
    }
  }

  /** Passing over a character, or over the end. */
  lemma SkipChar(s: string, repl: string, cur: nat, spans: seq<Span>, prev: Option<nat>, text: string, goal: string)
    requires cur <= |s| && Ordered(s, spans, cur + 1, prev) && goal == text + Render(s, repl, cur, spans)
    ensures goal == if cur < |s| then (text + [s[cur]]) + Render(s, repl, cur + 1, spans) else text
  {
    if cur < |s| {
      RenderSkip(s, repl, cur, spans);
      Regroup(text, [s[cur]], Render(s, repl, cur + 1, spans));
    } else {
      assert spans == [] && s[cur..] == "";
    }
  }

  /** One replacement, and the text up to it. */
  lemma RenderSpan(s: string, repl: string, from: nat, x: Span, rest: seq<Span>)
    requires from <= x.start && x.start + x.len <= |s|
    ensures Render(s, repl, from, [x] + rest) ==
            s[from..x.start] + (Expand(repl, s[x.start..x.start + x.len]) + Render(s, repl, x.start + x.len, rest))
  {
    assert ([x] + rest)[1..] == rest;
  }

  lemma AmpersandIsMatch(mat: string)
    ensures Expand("&", mat) == mat
  {
    assert "&"[1..] == "" && mat + "" == mat;
  }

  lemma InThree(s: string, from: nat, a: nat, b: nat, mat: string, tail: string)
    requires from <= a <= b <= |s| && mat == s[a..b] && tail == s[b..]
    ensures s[from..a] + (mat + tail) == s[from..]
  {
  }

  lemma RenderFirst(s: string, repl: string, from: nat, spans: seq<Span>, mat: string, tail: string)
    requires spans != [] && from <= spans[0].start && spans[0].start + spans[0].len <= |s|
    requires var x := spans[0];
             mat == Expand(repl, s[x.start..x.start + x.len]) && tail == Render(s, repl, x.start + x.len, spans[1..])
    ensures Render(s, repl, from, spans) == s[from..spans[0].start] + (mat + tail)
  {
  }

  /** A match replaced by itself, with the source after it as it was. */
  lemma MatchInPlace(s: string, from: nat, spans: seq<Span>)
    requires from <= |s| && spans != [] && from <= spans[0].start && spans[0].start + spans[0].len <= |s|
    requires var end := spans[0].start + spans[0].len; Render(s, "&", end, spans[1..]) == s[end..]
    ensures Render(s, "&", from, spans) == s[from..]
  {
    var start, end := spans[0].start, spans[0].start + spans[0].len;
    AmpersandIsMatch(s[start..end]);
    RenderFirst(s, "&", from, spans, s[start..end], s[end..]);
    InThree(s, from, start, end, s[start..end], s[end..]);
  }

  /** Replacing every match by itself changes nothing: the source is its gaps and matches in order. */
  lemma {:induction false} AmpersandIsIdentity(s: string, from: nat, spans: seq<Span>, prev: Option<nat>)
    requires from <= |s| && Ordered(s, spans, from, prev)
    ensures Render(s, "&", from, spans) == s[from..]
    decreases |spans|
  {
    if spans != [] {
      var end := spans[0].start + spans[0].len;
      AmpersandIsIdentity(s, end, spans[1..], Some(end));
      MatchInPlace(s, from, spans);
    }
  }

  /** So replacing by an ampersand returns the source, for every matcher and limit. */
  lemma ReplacingByMatch(m: nat -> Match, s: string, max: nat)
    requires Inside(m, s)
    ensures Render(s, "&", 0, Taken(m, s, max, START)) == s
  {
    TakenOrdered(m, s, max, START);
    AmpersandIsIdentity(s, 0, Taken(m, s, max, START), None);
  }

  /** A text with a backslash before every ampersand. */
  function EscapeAmp(t: string): (e: string)
    ensures |e| >= |t|
  {
    if t == "" then "" else (if t[0] == '&' then "\\&" else [t[0]]) + EscapeAmp(t[1..])
  }

  lemma EscapeAmpHead(t: string)
    ensures EscapeAmp(t) != "" ==> EscapeAmp(t)[0] != '&'
  {
  }

  /** An escaped text stands for itself, whatever was matched. */
  lemma {:induction false} EscapedIsLiteral(t: string, mat: string)
    ensures Expand(EscapeAmp(t), mat) == t
  {
    if t != "" {
      var rest := EscapeAmp(t[1..]);
      EscapedIsLiteral(t[1..], mat);
      EscapeAmpHead(t[1..]);
      assert t == [t[0]] + t[1..];
      if t[0] == '&' {
        assert EscapeAmp(t)[2..] == rest;
      } else {
        assert EscapeAmp(t)[1..] == rest;
      }
    }
  }

  predicate EndsInBackslash(t: string) {
    t != "" && t[|t| - 1] == '\\'
  }

  /** Whatever comes behind it, an escaped text stands for itself, unless a backslash at its end meets an
      ampersand. */
  lemma {:induction false} ExpandText(t: string, rest: string, mat: string)
    requires !(EndsInBackslash(t) && rest != "" && rest[0] == '&')
    ensures Expand(EscapeAmp(t) + rest, mat) == t + Expand(rest, mat)
  {
    if t == "" {
      assert EscapeAmp(t) + rest == rest;
    } else {
      ExpandText(t[1..], rest, mat);
      EscapeAmpHead(t[1..]);
      EscapeAmpParts(t);
      if t[0] == '&' {
        ExpandEscape(EscapeAmp(t[1..]), rest, t[1..], mat);
      } else {
        ExpandChar(t[0], EscapeAmp(t[1..]), rest, t[1..], mat);
      }
    }
  }

  lemma {:induction false} EscapeAmpParts(t: string)
    requires t != ""
    ensures EscapeAmp(t) == (if t[0] == '&' then "\\&" else [t[0]]) + EscapeAmp(t[1..]) && t == [t[0]] + t[1..]
  {
  }

  /** An escaped ampersand in front of an escaped text that stands for `t`. */
  lemma ExpandEscape(esc: string, rest: string, t: string, mat: string)
    requires Expand(esc + rest, mat) == t + Expand(rest, mat)
    ensures Expand("\\&" + esc + rest, mat) == "&" + t + Expand(rest, mat)
  {
    assert ("\\&" + esc + rest)[2..] == esc + rest;
    Regroup("&", t, Expand(rest, mat));
  }

  /** Another character in front of it. */
  lemma ExpandChar(c: char, esc: string, rest: string, t: string, mat: string)
    requires c != '&' && !(c == '\\' && esc + rest != "" && (esc + rest)[0] == '&')
    requires Expand(esc + rest, mat) == t + Expand(rest, mat)
    ensures Expand([c] + esc + rest, mat) == [c] + t + Expand(rest, mat)
  {
    assert ([c] + esc + rest)[1..] == esc + rest;
    Regroup([c], t, Expand(rest, mat));
  }

  /** The one exception: then the ampersand is literal and the backslash goes. */
  lemma BackslashBefore(t: string, rest: string, mat: string)
    ensures Expand(EscapeAmp(t + "\\") + ("&" + rest), mat) == t + ("&" + Expand(rest, mat))
  {
    EscapeAmpSnoc(t);
    assert EscapeAmp(t + "\\") + ("&" + rest) == EscapeAmp(t) + ("\\&" + rest);
    ExpandText(t, "\\&" + rest, mat);
    assert ("\\&" + rest)[2..] == rest;
  }

  lemma {:induction false} EscapeAmpSnoc(t: string)
    ensures EscapeAmp(t + "\\") == EscapeAmp(t) + "\\"
  {
    if t == "" {
      assert t + "\\" == "\\" && "\\"[1..] == "";
    } else {
      EscapeAmpSnoc(t[1..]);
      assert (t + "\\")[1..] == t[1..] + "\\";
    }
  }

  function EscapeAll(texts: seq<string>): seq<string> {
    seq(|texts|, i requires 0 <= i < |texts| => EscapeAmp(texts[i]))
  }

  /** No text that an ampersand follows ends in a backslash. */
  ghost predicate Apart(texts: seq<string>) {
    forall i :: 0 <= i < |texts| - 1 ==> !EndsInBackslash(texts[i])
  }

  /** A replacement of texts with bare ampersands in between is those texts with the match in between. */
  lemma {:induction false} MixedReplacement(texts: seq<string>, mat: string)
    requires texts != [] && Apart(texts)
    ensures Expand(Join(EscapeAll(texts), "&"), mat) == Join(texts, mat)
  {
    var escaped := EscapeAll(texts);
    if |texts| == 1 {
      ExpandText(texts[0], "", mat);
      assert EscapeAmp(texts[0]) + "" == EscapeAmp(texts[0]) && texts[0] + "" == texts[0];
    } else {
      assert escaped[1..] == EscapeAll(texts[1..]);
      var rest := Join(escaped[1..], "&");
      MixedReplacement(texts[1..], mat);
      assert escaped[0] + "&" + rest == EscapeAmp(texts[0]) + ("&" + rest);
      ExpandText(texts[0], "&" + rest, mat);
      assert ("&" + rest)[1..] == rest;
      assert texts[0] + (mat + Join(texts[1..], mat)) == texts[0] + mat + Join(texts[1..], mat);
    }
  }

  /** A text put in front of the first of a list. */
  function Prepend(t: string, texts: seq<string>): seq<string>
    requires texts != []
  {
    [t + texts[0]] + texts[1..]
  }

  lemma JoinPrepend(t: string, texts: seq<string>, sep: string)
    requires texts != []
    ensures Join(Prepend(t, texts), sep) == t + Join(texts, sep)
  {
    assert Prepend(t, texts)[1..] == texts[1..];
    if |texts| > 1 {
      assert t + texts[0] + sep + Join(texts[1..], sep) == t + (texts[0] + sep + Join(texts[1..], sep));
    }
  }

  lemma EscapePrepend(c: char, texts: seq<string>)
    requires texts != []
    ensures EscapeAll(Prepend([c], texts)) == Prepend(EscapeAmp([c]), EscapeAll(texts))
  {
    EscapeAmpCons(c, texts[0]);
  }

  lemma EscapeAmpCons(c: char, t: string)
    ensures EscapeAmp([c] + t) == EscapeAmp([c]) + EscapeAmp(t)
  {
    assert ([c] + t)[1..] == t && [c][1..] == "";
    var x := if c == '&' then "\\&" else [c];
    assert x + "" == x;
  }

  /** And every replacement is one of these, so that this is all there is to say about replacements. */
  lemma {:induction false} EveryReplacement(repl: string) returns (texts: seq<string>)
    ensures texts != [] && Apart(texts) && repl == Join(EscapeAll(texts), "&")
    ensures forall mat :: Expand(repl, mat) == Join(texts, mat)
    decreases |repl|
  {
    texts := Parts(repl);
    forall mat ensures Expand(repl, mat) == Join(texts, mat) { MixedReplacement(texts, mat); }
  }

  lemma {:induction false} Parts(repl: string) returns (texts: seq<string>)
    ensures texts != [] && Apart(texts) && repl == Join(EscapeAll(texts), "&")
    decreases |repl|
  {
    if repl == "" {
      texts := [""];
    } else if |repl| > 1 && repl[0] == '\\' && repl[1] == '&' {
      var rest := Parts(repl[2..]);
      texts := Prepend("&", rest);
      EscapePrepend('&', rest);
      assert EscapeAmp("&") == "\\&" by { assert "&"[1..] == ""; }
      JoinPrepend("\\&", EscapeAll(rest), "&");
      PrependApart('&', rest);
      assert repl == "\\&" + repl[2..];
    } else if repl[0] == '&' {
      var rest := Parts(repl[1..]);
      texts := [""] + rest;
      assert EscapeAll(texts) == [""] + EscapeAll(rest);
      JoinCons("", EscapeAll(rest), "&");
      assert repl == "" + "&" + repl[1..];
    } else {
      var rest := Parts(repl[1..]);
      texts := Prepend([repl[0]], rest);
      EscapePrepend(repl[0], rest);
      assert EscapeAmp([repl[0]]) == [repl[0]] by { assert [repl[0]][1..] == ""; }
      JoinPrepend([repl[0]], EscapeAll(rest), "&");
      if rest[0] == "" && |rest| > 1 { assert EscapeAll(rest)[0] == "" && repl[1..][0] == '&'; }
      PrependApart(repl[0], rest);
      assert repl == [repl[0]] + repl[1..];
    }
  }

  lemma PrependApart(c: char, rest: seq<string>)
    requires rest != [] && Apart(rest) && (c == '\\' && |rest| > 1 ==> rest[0] != "")
    ensures Apart(Prepend([c], rest))
  {
    var texts := Prepend([c], rest);
    forall i | 0 <= i < |texts| - 1 ensures !EndsInBackslash(texts[i]) {
      if i > 0 { assert texts[i] == rest[i]; }
    }
  }

  /** The source between the spans. */
  function Gaps(s: string, from: nat, spans: seq<Span>): seq<string>
    requires from <= |s|
    decreases |spans|
  {
    if spans == [] || !(from <= spans[0].start && spans[0].start + spans[0].len <= |s|) then [s[from..]]
    else [s[from..spans[0].start]] + Gaps(s, spans[0].start + spans[0].len, spans[1..])
  }

  /** Replacing by a literal text puts it between the gaps. */
  lemma {:induction false} LiteralBetweenGaps(s: string, t: string, from: nat, spans: seq<Span>, prev: Option<nat>)
    requires from <= |s| && Ordered(s, spans, from, prev)
    ensures Render(s, EscapeAmp(t), from, spans) == Join(Gaps(s, from, spans), t)
    decreases |spans|
  {
    if spans != [] {
      var x := spans[0];
      var end := x.start + x.len;
      EscapedIsLiteral(t, s[x.start..end]);
      LiteralBetweenGaps(s, t, end, spans[1..], Some(end));
      var gaps := Gaps(s, end, spans[1..]);
      JoinCons(s[from..x.start], gaps, t);
      RenderFirst(s, EscapeAmp(t), from, spans, t, Join(gaps, t));
      assert s[from..x.start] + (t + Join(gaps, t)) == s[from..x.start] + t + Join(gaps, t);
    }
  }

  /** sub replaces the first of the matches gsub replaces. */
  lemma SubIsFirstOfGsub(m: nat -> Match, s: string)
    requires Inside(m, s)
    ensures var all := Taken(m, s, 0, START);
            Taken(m, s, 1, START) == if all == [] then [] else [all[0]]
  {
    var f := m(0);
    if f.At? {
      assert Taken(m, s, 1, Move(f, START)) == [];
    }
  }

  /** The result of a substitution: the new text and the number of replacements. */
  datatype Outcome = Replaced(text: string, count: nat) | Failed

  method ExpandInto(text: string, repl: string, mat: string) returns (r: string)
    ensures r == text + Expand(repl, mat)
  {
    r := text;
    var i := 0;
    assert repl[0..] == repl;
    while i < |repl|
      invariant 0 <= i <= |repl|
      invariant r + Expand(repl[i..], mat) == text + Expand(repl, mat)
    {
      var rest := repl[i..];
      assert rest[1..] == repl[i + 1..];
      if i + 1 < |repl| && repl[i] == '\\' && repl[i + 1] == '&' {
        assert rest[2..] == repl[i + 2..];
        r := r + "&";
        i := i + 1;
      } else if repl[i] == '&' {
        r := r + mat;
      } else {
        r := r + [repl[i]];
      }
      i := i + 1;
    }
  }

  /** The substitution loop. For every matcher whose matches lie in the text looked at, it ends; the
      result is the source with each span taken replaced by its expansion. */
  method Substitute(s: string, repl: string, max: nat, m: nat -> Match) returns (r: Outcome)
    requires Inside(m, s)
    ensures r == if Fails(m, s, max, START) then Failed
                 else var spans := Taken(m, s, max, START); Replaced(Render(s, repl, 0, spans), |spans|)
  {
    var text, cur: nat, count: nat := "", 0, 0;
    var prev: Option<nat> := None;
    ghost var pos, rest := START, Taken(m, s, max, START);
    ghost var total, goal := |rest|, Render(s, repl, 0, rest);
    while cur <= |s|
      invariant pos == Pos(cur, prev, count) && cur <= |s| + 1 && (prev.Some? ==> prev.value <= cur)
      invariant rest == Taken(m, s, max, pos) && total == count + |rest|
      invariant Fails(m, s, max, START) == Fails(m, s, max, pos)
      invariant goal == text + if cur <= |s| then Render(s, repl, cur, rest) else ""
      decreases |s| + 1 - cur
    {
      var found := if max == 0 || count < max then m(cur) else NoMatch;
      if found.Error? { return Failed; }
      if found.NoMatch? {
        text := text + s[cur..];
        return Replaced(text, count);
      }
      text, cur, prev, count, pos, rest := ReplaceMatch(s, repl, max, m, found, text, pos, rest, goal, cur, prev, count);
    }
    return Replaced(text, count);
  }

  /** One round of the loop with a match: the gap and the replacement, or nothing if the match is passed
      over, and then one more character if the match is empty. */
  method ReplaceMatch(s: string, repl: string, ghost max: nat, ghost m: nat -> Match, found: Match, text0: string,
                      ghost pos0: Pos, ghost rest0: seq<Span>, ghost goal: string, cur0: nat, prev0: Option<nat>, count0: nat)
    returns (text: string, cur: nat, prev: Option<nat>, count: nat, ghost pos: Pos, ghost rest: seq<Span>)
    requires Inside(m, s) && cur0 <= |s| && pos0 == Pos(cur0, prev0, count0) && (prev0.Some? ==> prev0.value <= cur0)
    requires found == Found(m, s, max, pos0) && found.At?
    requires rest0 == Taken(m, s, max, pos0) && goal == text0 + Render(s, repl, cur0, rest0)
    ensures cur0 < cur <= |s| + 1 && pos == Pos(cur, prev, count) && (prev.Some? ==> prev.value <= cur)
    ensures rest == Taken(m, s, max, pos) && count + |rest| == count0 + |rest0|
    ensures Fails(m, s, max, pos) == Fails(m, s, max, pos0)
    ensures goal == text + if cur <= |s| then Render(s, repl, cur, rest) else ""
  {
    text, cur, prev, count := text0, cur0, prev0, count0;
    pos, rest := TakeStep(m, s, max, pos0, found);
    if !PassedOver(found, prev) {
      text := ReplaceSpan(s, repl, text, cur, found, rest0, rest, goal);
      count := count + 1;
      cur := found.start + found.len;
      prev := Some(cur);
    }
    if found.len == 0 {
      TakenOrdered(m, s, max, pos);
      text, cur := CopyChar(s, repl, text, cur, rest, prev, goal);
    }
  }

  /** One match of the search. */
  lemma TakeStep(m: nat -> Match, s: string, max: nat, pos: Pos, found: Match) returns (next: Pos, after: seq<Span>)
    requires Inside(m, s) && found == Found(m, s, max, pos) && found.At?
    ensures next == Move(found, pos) && after == Taken(m, s, max, next)
    ensures Fails(m, s, max, pos) == Fails(m, s, max, next)
    ensures if PassedOver(found, pos.prev) then Taken(m, s, max, pos) == after
            else Taken(m, s, max, pos) == [Span(found.start, found.len)] + after && |Taken(m, s, max, pos)| == 1 + |after|
  {
    next := Move(found, pos);
    after := Taken(m, s, max, next);
  }

  /** After an empty match one character is copied, if there is one. */
  method CopyChar(s: string, repl: string, text: string, cur: nat, ghost rest: seq<Span>, ghost prev: Option<nat>, ghost goal: string)
    returns (r: string, next: nat)
    requires cur <= |s| && Ordered(s, rest, cur + 1, prev) && goal == text + Render(s, repl, cur, rest)
    ensures next == cur + 1
    ensures goal == r + if next <= |s| then Render(s, repl, next, rest) else ""
  {
    SkipChar(s, repl, cur, rest, prev, text, goal);
    r := text;
    if cur < |s| { r := r + [s[cur]]; }
    next := cur + 1;
    assert r + "" == r;
  }

  /** Copies the gap before a match and puts out its replacement. */
  method ReplaceSpan(s: string, repl: string, text: string, cur: nat, found: Match,
                     ghost rest: seq<Span>, ghost after: seq<Span>, ghost goal: string)
    returns (r: string)
    requires found.At? && cur <= found.start && found.start + found.len <= |s|
    requires rest == [Span(found.start, found.len)] + after && goal == text + Render(s, repl, cur, rest)
    ensures goal == r + Render(s, repl, found.start + found.len, after)
  {
    var gap, mat := s[cur..found.start], s[found.start..found.start + found.len];
    r := ExpandInto(text + gap, repl, mat);
    ghost var tail := Render(s, repl, found.start + found.len, after);
    RenderSpan(s, repl, cur, Span(found.start, found.len), after);
    Regroup(text, gap, Expand(repl, mat) + tail);
    Regroup(text + gap, Expand(repl, mat), tail);
  }
}
