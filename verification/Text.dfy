/** Strings joined by a separator, and the declarative notion of a split they induce. */
module Text {

  /** The parts written one after the other with `sep` between neighbours. */
  function Join(parts: seq<string>, sep: string): string {
    if |parts| == 0 then ""
    else if |parts| == 1 then parts[0]
    else parts[0] + sep + Join(parts[1..], sep)
  }

  /** `parts` is what lies between the occurrences of the character `sep` in `text`. */
  ghost predicate IsSplit(parts: seq<string>, sep: char, text: string) {
    && |parts| > 0
    && (forall i :: 0 <= i < |parts| ==> sep !in parts[i])
    && Join(parts, [sep]) == text
  }

  lemma {:induction false} JoinSnoc(parts: seq<string>, last: string, sep: string)
    requires |parts| > 0
    ensures Join(parts + [last], sep) == Join(parts, sep) + sep + last
  {
    if |parts| == 1 {
      assert (parts + [last])[1..] == [last];
    } else {
      assert (parts + [last])[1..] == parts[1..] + [last];
      JoinSnoc(parts[1..], last, sep);
    }
  }

  /** The index of the first occurrence of `c`, or the length when there is none. */
  function FirstIndex(c: char, s: string): (k: nat)
    ensures k <= |s| && (k < |s| ==> s[k] == c)
    ensures forall i :: 0 <= i < k ==> s[i] != c
  {
    if s == "" || s[0] == c then 0 else 1 + FirstIndex(c, s[1..])
  }

  lemma FirstIndexIs(c: char, s: string, k: nat)
    requires k <= |s| && (k < |s| ==> s[k] == c) && forall i :: 0 <= i < k ==> s[i] != c
    ensures FirstIndex(c, s) == k
  {
  }

  function Pieces(sep: char, text: string): (parts: seq<string>)
    ensures |parts| > 0
    decreases |text|
  {
    var k := FirstIndex(sep, text);
    if k == |text| then [text] else [text[..k]] + Pieces(sep, text[k + 1..])
  }

  lemma JoinCons(head: string, tail: seq<string>, sep: string)
    requires |tail| > 0
    ensures Join([head] + tail, sep) == head + sep + Join(tail, sep)
  {
    assert ([head] + tail)[1..] == tail;
  }

  /** Every text has a split. */
  lemma {:induction false} PiecesAreSplit(sep: char, text: string)
    ensures IsSplit(Pieces(sep, text), sep, text)
    decreases |text|
  {
    var k := FirstIndex(sep, text);
    if k < |text| {
      PiecesAreSplit(sep, text[k + 1..]);
      JoinCons(text[..k], Pieces(sep, text[k + 1..]), [sep]);
      assert text == text[..k] + [sep] + text[k + 1..];
    }
  }

  /** And only one. */
  lemma {:induction false} SplitUnique(parts: seq<string>, sep: char, text: string)
    requires IsSplit(parts, sep, text)
    ensures parts == Pieces(sep, text)
    decreases |parts|
  {
    var k := FirstIndex(sep, text);
    if |parts| > 1 {
      var rest := Join(parts[1..], [sep]);
      assert text == parts[0] + [sep] + rest;
      assert text[|parts[0]|] == sep;
      assert forall i :: 0 <= i < |parts[0]| ==> text[i] == parts[0][i];
      assert text[..k] == parts[0] && text[k + 1..] == rest;
      SplitUnique(parts[1..], sep, rest);
      assert parts == [parts[0]] + parts[1..];
    }
  }

  /** The first index not before `from` whose character satisfies `p`, or the length. */
  function FirstWhere(p: char -> bool, s: string, from: nat): (k: nat)
    requires from <= |s|
    ensures from <= k <= |s| && (k < |s| ==> p(s[k]))
    ensures forall i :: from <= i < k ==> !p(s[i])
    decreases |s| - from
  {
    if from == |s| || p(s[from]) then from else FirstWhere(p, s, from + 1)
  }

  function Not(p: char -> bool): char -> bool {
    c => !p(c)
  }

  /** An index with the properties of the first is the first. */
  lemma {:induction false} FirstWhereIs(p: char -> bool, s: string, from: nat, k: nat)
    requires from <= k <= |s| && (k < |s| ==> p(s[k]))
    requires forall i :: from <= i < k ==> !p(s[i])
    ensures FirstWhere(p, s, from) == k
  {
    var f := FirstWhere(p, s, from);
  }

  predicate CharAt(s: string, p: nat, t: string, i: nat)
    requires i < |t| && p + |t| <= |s|
  {
    s[p + i] == t[i]
  }

  /** The text `t` is at `p`. */
  ghost predicate At(s: string, p: nat, t: string) {
    p + |t| <= |s| && forall i: nat {:trigger CharAt(s, p, t, i)} :: i < |t| ==> CharAt(s, p, t, i)
  }

  lemma AtParts(s: string, p: nat, a: string, b: string)
    requires At(s, p, a + b)
    ensures At(s, p, a) && At(s, p + |a|, b)
  {
    var mid := p + |a|;
    forall i: nat {:trigger CharAt(s, p, a, i)} | i < |a| ensures CharAt(s, p, a, i) { assert CharAt(s, p, a + b, i); }
    forall i: nat {:trigger CharAt(s, mid, b, i)} | i < |b| ensures CharAt(s, mid, b, i) { assert CharAt(s, p, a + b, |a| + i); }
  }

  lemma AtChar(s: string, p: nat, t: string)
    requires At(s, p, t) && t != ""
    ensures p < |s| && s[p] == t[0] && At(s, p + 1, t[1..])
  {
    assert t == [t[0]] + t[1..];
    AtParts(s, p, [t[0]], t[1..]);
    assert CharAt(s, p, t, 0);
  }

  lemma AtSlice(s: string, p: nat, t: string)
    requires At(s, p, t)
    ensures s[p..p + |t|] == t
  {
    forall i: nat | i < |t| ensures s[p..p + |t|][i] == t[i] { assert CharAt(s, p, t, i); }
  }
}
