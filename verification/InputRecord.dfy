/** The input record: $0, $1 to $NF, and NF, kept in step by in-place updates any of which may fail. */
module InputRecord {
  import opened Common
  import opened Text
  import opened Fields
  import QuotedFields

  /** FS as far as it is modelled: unset or at most one character, or a question mark and four. */
  datatype Separator = Plain(fs: Option<string>) | Quoted(q: QuotedFields.Quoting)

  ghost predicate Supported(sep: Separator) {
    sep.Plain? && sep.fs.Some? ==> |sep.fs.value| <= 1
  }

  /** The fields FS makes of a line. */
  ghost function SplitLine(t: Traits, sep: Separator, line: string): seq<string> {
    match sep
    case Plain(fs) => RecordFields(t, fs, line)
    case Quoted(q) => QuotedFields.FieldsIn(t.isSpace, q, line, true)
  }

  /** The fields after assigning `text` to field `n`, counted from one. */
  function Assigned(fields: seq<string>, n: nat, text: string): seq<string>
    requires n > 0
  {
    var max := if n > |fields| then n else |fields|;
    seq(max, i requires 0 <= i < max => if i == n - 1 then text else if i < |fields| then fields[i] else "")
  }

  /** The laws of assignment: the field reads back, other fields keep their text and skipped ones are
      empty, assigning a field its own text changes nothing, the last of two assignments to one field
      counts, and assignments to two fields commute. */
  lemma AssignmentLaws(fields: seq<string>, n: nat, text: string, m: nat, other: string)
    requires n > 0 && m > 0
    ensures |Assigned(fields, n, text)| == (if n > |fields| then n else |fields|) && Assigned(fields, n, text)[n - 1] == text
    ensures n <= |fields| ==> Assigned(fields, n, fields[n - 1]) == fields
    ensures Assigned(Assigned(fields, n, other), n, text) == Assigned(fields, n, text)
    ensures n != m ==>
              var both := Assigned(Assigned(fields, n, text), m, other);
              && both == Assigned(Assigned(fields, m, other), n, text)
              && |both| >= n && |both| >= m && both[n - 1] == text && both[m - 1] == other
              && forall i :: 0 <= i < |both| && i != n - 1 && i != m - 1 ==> both[i] == if i < |fields| then fields[i] else ""
    ensures n == |fields| + 1 ==> Assigned(fields, n, text) == fields + [text]
  {
  }

  /** A value is its place in the store; the empty string value always exists. */
  const EMPTY := 0

  ghost function Count(flds: seq<nat>, v: nat): nat {
    if flds == [] then 0 else (if flds[0] == v then 1 else 0) + Count(flds[1..], v)
  }

  ghost predicate RefAt(refs: seq<int>, flds: seq<nat>, d0: Option<nat>, v: nat)
    requires v < |refs|
  {
    refs[v] == Count(flds, v) + if d0 == Some(v) then 1 else 0
  }

  /** The record holds one reference for each counted field, one for $0 if it is set, and no other. */
  ghost predicate References(refs: seq<int>, flds: seq<nat>, d0: Option<nat>) {
    && (forall i :: 0 <= i < |flds| ==> flds[i] < |refs|)
    && (d0.Some? ==> d0.value < |refs|)
    && forall v: nat {:trigger RefAt(refs, flds, d0, v)} :: v < |refs| ==> RefAt(refs, flds, d0, v)
  }

  function Up(refs: seq<int>, v: nat): seq<int>
    requires v < |refs|
  {
    refs[v := refs[v] + 1]
  }

  function Down(refs: seq<int>, v: nat): seq<int>
    requires v < |refs|
  {
    refs[v := refs[v] - 1]
  }

  lemma {:induction false} CountSnoc(flds: seq<nat>, w: nat, v: nat)
    ensures Count(flds + [w], v) == Count(flds, v) + if w == v then 1 else 0
  {
    if flds == [] {
      assert flds + [w] == [w];
    } else {
      assert (flds + [w])[1..] == flds[1..] + [w];
      CountSnoc(flds[1..], w, v);
    }
  }

  lemma {:induction false} CountUpdate(flds: seq<nat>, i: nat, w: nat, v: nat)
    requires i < |flds|
    ensures Count(flds[i := w], v) + (if flds[i] == v then 1 else 0) == Count(flds, v) + if w == v then 1 else 0
  {
    if i == 0 {
      assert flds[0 := w][1..] == flds[1..];
    } else {
      assert flds[i := w][1..] == flds[1..][i - 1 := w];
      CountUpdate(flds[1..], i - 1, w, v);
    }
  }

  lemma {:induction false} CountMember(flds: seq<nat>, i: nat)
    requires i < |flds|
    ensures Count(flds, flds[i]) > 0
  {
    if i > 0 { CountMember(flds[1..], i - 1); }
  }

  lemma ReferencesAppend(refs: seq<int>, flds: seq<nat>, d0: Option<nat>, w: nat)
    requires References(refs, flds, d0) && w < |refs|
    ensures References(Up(refs, w), flds + [w], d0)
  {
    var refs', flds' := Up(refs, w), flds + [w];
    forall v: nat | v < |refs'| ensures RefAt(refs', flds', d0, v) {
      assert RefAt(refs, flds, d0, v);
      CountSnoc(flds, w, v);
    }
  }

  lemma ReferencesReplace(refs: seq<int>, flds: seq<nat>, d0: Option<nat>, i: nat, w: nat)
    requires References(refs, flds, d0) && w < |refs| && i < |flds|
    ensures refs[flds[i]] > 0 && References(Up(Down(refs, flds[i]), w), flds[i := w], d0)
  {
    CountMember(flds, i);
    assert RefAt(refs, flds, d0, flds[i]);
    var refs', flds' := Up(Down(refs, flds[i]), w), flds[i := w];
    forall v: nat | v < |refs'| ensures RefAt(refs', flds', d0, v) {
      assert RefAt(refs, flds, d0, v);
      CountUpdate(flds, i, w, v);
    }
  }

  lemma ReferencesDropHead(refs: seq<int>, flds: seq<nat>)
    requires References(refs, flds, None) && flds != []
    ensures refs[flds[0]] > 0 && References(Down(refs, flds[0]), flds[1..], None)
  {
    assert RefAt(refs, flds, None, flds[0]);
    var refs', flds' := Down(refs, flds[0]), flds[1..];
    forall v: nat | v < |refs'| ensures RefAt(refs', flds', None, v) {
      assert RefAt(refs, flds, None, v);
    }
  }

  lemma ReferencesForget(refs: seq<int>, flds: seq<nat>, w: nat)
    requires References(refs, flds, Some(w))
    ensures refs[w] > 0 && References(Down(refs, w), flds, None)
  {
    assert RefAt(refs, flds, Some(w), w);
    var refs' := Down(refs, w);
    forall v: nat | v < |refs'| ensures RefAt(refs', flds, None, v) {
      assert RefAt(refs, flds, Some(w), v);
    }
  }

  lemma ReferencesRemember(refs: seq<int>, flds: seq<nat>, w: nat)
    requires References(refs, flds, None) && w < |refs|
    ensures References(Up(refs, w), flds, Some(w))
  {
    var refs' := Up(refs, w);
    forall v: nat | v < |refs'| ensures RefAt(refs', flds, Some(w), v) {
      assert RefAt(refs, flds, None, v);
    }
  }

  lemma {:induction false} CountBeyond(flds: seq<nat>, v: nat)
    requires forall i :: 0 <= i < |flds| ==> flds[i] < v
    ensures Count(flds, v) == 0
  {
    if flds != [] { CountBeyond(flds[1..], v); }
  }

  lemma ReferencesNew(refs: seq<int>, flds: seq<nat>, d0: Option<nat>)
    requires References(refs, flds, d0)
    ensures References(refs + [0], flds, d0)
  {
    var refs' := refs + [0];
    CountBeyond(flds, |refs|);
    forall v: nat | v < |refs'| ensures RefAt(refs', flds, d0, v) {
      if v < |refs| { assert RefAt(refs, flds, d0, v); }
    }
  }

  lemma NothingHeld(refs: seq<int>)
    requires References(refs, [], None)
    ensures forall v :: 0 <= v < |refs| ==> refs[v] == 0
  {
    forall v | 0 <= v < |refs| ensures refs[v] == 0 {
      assert RefAt(refs, [], None, v);
    }
  }

  /** The texts of a list of values. */
  function TextsOf(store: seq<string>, flds: seq<nat>): (texts: seq<string>)
    requires forall i :: 0 <= i < |flds| ==> flds[i] < |store|
    ensures |texts| == |flds| && forall i :: 0 <= i < |flds| ==> texts[i] == store[flds[i]]
  {
    seq(|flds|, i requires 0 <= i < |flds| => store[flds[i]])
  }

  class Record {
    const traits: Traits
    var line: string
    var flds: seq<nat>
    var maxflds: nat
    var nf: int
    var d0: Option<nat>
    /** The text of every value ever made, and how many references to it the record holds. */
    var store: seq<string>
    var refs: seq<int>

    ghost predicate Held()
      reads this
    {
      && |store| == |refs| > 0 && store[EMPTY] == ""
      && |flds| <= maxflds
      && References(refs, flds, d0)
    }

    /** The texts of the fields. */
    ghost function Texts(): seq<string>
      requires Held()
      reads this
    {
      TextsOf(store, flds)
    }

    /** NF is the number of fields, and $0 if it is set is the line. */
    ghost predicate Coherent()
      reads this
    {
      Held() && nf == |flds| && (d0.Some? ==> store[d0.value] == line)
    }

    /** NF may be out of date, but only while there are no fields. */
    ghost predicate Settled()
      reads this
    {
      Held() && (flds != [] ==> nf == |flds|) && (d0.Some? ==> store[d0.value] == line)
    }

    /** No fields, no $0, no reference left to any value. */
    ghost predicate Cleared()
      reads this
    {
      Held() && flds == [] && d0.None? && forall v :: 0 <= v < |refs| ==> refs[v] == 0
    }

    constructor (t: Traits)
      ensures Coherent() && Cleared() && line == "" && traits == t
    {
      traits := t;
      line, flds, maxflds, nf, d0 := "", [], 0, 0, None;
      store, refs := [""], [0];
    }

    method RefUp(v: nat)
      requires v < |refs|
      modifies this`refs
      ensures refs == Up(old(refs), v)
    {
      refs := refs[v := refs[v] + 1];
    }

    /** A reference is given back only while it is held. */
    method RefDown(v: nat)
      requires v < |refs| && refs[v] > 0
      modifies this`refs
      ensures refs == Down(old(refs), v)
    {
      refs := refs[v := refs[v] - 1];
    }

    method MakeValue(text: string, good: bool) returns (v: Option<nat>)
      requires Held()
      modifies this`store, this`refs
      ensures Held() && old(store) <= store && |refs| >= |old(refs)|
      ensures v.Some? ==> v.value < |store| && store[v.value] == text
      ensures Texts() == old(Texts()) && (good ==> v.Some?)
    {
      var ok := Attempt(good);
      if !ok { return None; }
      ReferencesNew(refs, flds, d0);
      v := Some(|store|);
      store := store + [text];
      refs := refs + [0];
    }

    /** Gives back every reference once. NF is set to zero if there were fields; `resets` says whether
        that succeeds, and if it does not NF stays as it was. */
    method Clear(skipLine: bool, resets: bool) returns (ok: bool)
      requires Held()
      modifies this`line, this`flds, this`nf, this`d0, this`refs
      ensures Cleared() && line == if skipLine then old(line) else ""
      ensures ok == (old(flds) == [] || resets) && nf == if old(flds) != [] && resets then 0 else old(nf)
    {
      ok := true;
      if d0.Some? {
        ReferencesForget(refs, flds, d0.value);
        RefDown(d0.value);
        d0 := None;
      }
      assert |flds| == 0 ==> flds == [];
      if |flds| > 0 {
        var i := 0;
        assert flds[0..] == flds;
        while i < |flds|
          invariant 0 <= i <= |flds| && |refs| == |store|
          invariant d0.None? && flds == old(flds) && line == old(line) && nf == old(nf)
          invariant References(refs, flds[i..], None)
        {
          ReferencesDropHead(refs, flds[i..]);
          assert flds[i..][1..] == flds[i + 1..];
          RefDown(flds[i]);
          i := i + 1;
        }
        assert flds[i..] == [];
        flds := [];
        ok := resets;
        if ok { nf := 0; }
      }
      NothingHeld(refs);
      if !skipLine { line := ""; }
    }

    /** Makes a value of a text and counts it as the next field. */
    method AppendField(text: string, good: bool) returns (ok: bool)
      requires Held()
      modifies this`store, this`refs, this`flds, this`maxflds
      ensures Held() && Texts() == old(Texts()) + if ok then [text] else []
      ensures old(store) <= store && (good ==> ok)
    {
      if |flds| >= maxflds {
        var grown := Attempt(good);
        if !grown { return false; }
        maxflds := if |flds| < 16 then 32 else |flds| * 2;
      }
      var v := MakeValue(text, good);
      if v.None? { return false; }
      ReferencesAppend(refs, flds, d0, v.value);
      RefUp(v.value);
      flds := flds + [v.value];
      return true;
    }

    /** Splits the line into fields and sets NF. A line without fields leaves NF as clearing left it. */
    method Split(sep: Separator, good: bool) returns (ok: bool)
      requires Held() && flds == [] && Supported(sep) && d0.Some? && store[d0.value] == line
      modifies this`store, this`refs, this`flds, this`maxflds, this`nf
      ensures Held() && store[d0.value] == line && (good ==> ok)
      ensures ok ==> Texts() == SplitLine(traits, sep, line) && nf == if flds == [] then old(nf) else |flds|
      ensures !ok ==> nf == old(nf)
    {
      var texts: seq<string>;
      match sep {
        case Plain(fs) => texts := SplitRecord(traits, fs, line);
        case Quoted(q) => texts := QuotedFields.SplitQuoted(traits.isSpace, q, line);
      }
      if texts == [] { return true; }
      ok := AppendAll(texts, good);
      if !ok { return; }
      ok := Attempt(good);
      if ok { nf := |flds|; }
    }

    /** Counts a list of texts as fields, one by one. */
    method AppendAll(texts: seq<string>, good: bool) returns (ok: bool)
      requires Held() && flds == []
      modifies this`store, this`refs, this`flds, this`maxflds
      ensures Held() && old(store) <= store
      ensures (ok ==> Texts() == texts) && (good ==> ok)
    {
      for i := 0 to |texts|
        invariant Held() && old(store) <= store
        invariant Texts() == texts[..i]
      {
        var made := AppendField(texts[i], good);
        if !made { return false; }
        assert texts[..i] + [texts[i]] == texts[..i + 1];
      }
      assert texts[..|texts|] == texts;
      return true;
    }

    /** $0 is assigned: the old record is cleared, the line stored and split. `same` says that the new
        text is the stored line itself, which then is not copied. On failure nothing is left held. A record
        without fields before and after keeps the NF it had. */
    method SetRecord(text: string, same: bool, sep: Separator, good: bool, resets: bool) returns (ok: bool)
      requires Held() && Supported(sep) && (same ==> text == line)
      modifies this
      ensures Settled()
      ensures ok ==> line == text && d0.Some? && Texts() == SplitLine(traits, sep, text)
      ensures ok && flds == [] ==> nf == if old(flds) == [] then old(nf) else 0
      ensures !ok ==> Cleared() && (!same ==> line == "")
      ensures !ok ==> nf == 0 || nf == old(nf)
      ensures !ok && old(flds) != [] ==> (nf == 0 <==> resets || old(nf) == 0)
      ensures !ok && old(nf) == |old(flds)| ==> (nf == |flds| <==> resets || old(flds) == [])
      ensures (ok ==> resets || old(flds) == []) && (good && (resets || old(flds) == []) ==> ok)
    {
      ok := Clear(same, resets);
      if !ok { return; }
      if !same {
        var copied := Attempt(good);
        if !copied {
          var _ := Clear(false, resets);
          return false;
        }
        line := text;
      }
      var v := MakeValue(text, good);
      if v.None? {
        var _ := Clear(false, resets);
        return false;
      }
      ReferencesRemember(refs, flds, v.value);
      d0 := v;
      RefUp(v.value);
      ok := Split(sep, good);
      if !ok {
        var _ := Clear(false, resets);
      }
    }

    /** Puts a new value of `text` in place of field `i`, or after the last field. */
    method PutField(i: nat, text: string, good: bool) returns (ok: bool)
      requires Held() && i <= |flds| && i < maxflds
      modifies this`store, this`refs, this`flds
      ensures Held() && old(store) <= store
      ensures (!ok ==> flds == old(flds)) && (good ==> ok)
      ensures ok ==> Texts() == if i < |old(flds)| then old(Texts())[i := text] else old(Texts()) + [text]
    {
      var v := MakeValue(text, good);
      if v.None? { return false; }
      if i < |flds| {
        ReferencesReplace(refs, flds, d0, i, v.value);
        RefDown(flds[i]);
        flds := flds[i := v.value];
      } else {
        ReferencesAppend(refs, flds, d0, v.value);
        flds := flds + [v.value];
      }
      RefUp(v.value);
      return true;
    }

    /** A skipped field is the empty string value. */
    method PutEmpty()
      requires Held() && |flds| < maxflds
      modifies this`refs, this`flds
      ensures Held() && Texts() == old(Texts()) + [""]
    {
      ReferencesAppend(refs, flds, d0, EMPTY);
      flds := flds + [EMPTY];
      RefUp(EMPTY);
    }

    /** What the recomposition has done after `i` fields. */
    ghost predicate Recomposed(i: nat, was: seq<string>, want: seq<string>, ofs: string)
      reads this
    {
      && Held() && |was| <= |want| <= maxflds && i <= |want|
      && Texts() == want[..i] + (if i < |was| then was[i..] else [])
      && line == Join(want[..i], ofs)
    }

    /** One field of the recomposition. */
    method RecomposeField(i: nat, n: nat, text: string, ghost was: seq<string>, count: nat, ofs: string, good: bool) returns (ok: bool)
      requires n > 0 && count == |was| && i < |Assigned(was, n, text)| && Recomposed(i, was, Assigned(was, n, text), ofs)
      modifies this`store, this`refs, this`flds, this`line
      ensures Held() && old(store) <= store && |flds| >= |old(flds)| && (good ==> ok)
      ensures ok ==> Recomposed(i + 1, was, Assigned(was, n, text), ofs)
    {
      ghost var want := Assigned(was, n, text);
      JoinNext(want, i, ofs);
      RestNext(want, was, i);
      if i > 0 {
        var room := Attempt(good);
        if !room { return false; }
        line := line + ofs;
      }
      var room := Attempt(good);
      if !room { return false; }
      if i == n - 1 {
        line := line + text;
        ok := PutField(i, text, good);
      } else if i >= count {
        PutEmpty();
        ok := true;
      } else {
        line := line + store[flds[i]];
        ok := true;
      }
    }

    /** All fields of the recomposition. */
    method RecomposeAll(n: nat, text: string, ghost was: seq<string>, count: nat, max: nat, ofs: string, good: bool) returns (ok: bool)
      requires Held() && line == "" && n > 0 && was == Texts() && count == |flds| && max == (if n > count then n else count) <= maxflds
      modifies this`store, this`refs, this`flds, this`line
      ensures Held() && |flds| >= |old(flds)| && (good ==> ok)
      ensures ok ==> Texts() == Assigned(was, n, text) && line == Join(Texts(), ofs)
    {
      ghost var want := Assigned(was, n, text);
      assert want[..0] == [] && [] + was[0..] == was;
      var i := 0;
      while i < max
        invariant 0 <= i <= max && Recomposed(i, was, want, ofs) && |flds| >= |old(flds)|
      {
        ok := RecomposeField(i, n, text, was, count, ofs, good);
        if !ok { return; }
        i := i + 1;
      }
      assert want[..max] + [] == want[..max] == want;
      ok := true;
    }

    /** Field `n` is assigned: the fields from the old count up to `n` become empty, the line is written
        anew from all fields with OFS in between, and NF is set if it changes. */
    method Recompose(n: nat, text: string, ofs: string, good: bool) returns (ok: bool)
      requires Held() && n > 0
      modifies this`store, this`refs, this`flds, this`line, this`maxflds, this`nf
      ensures Held() && |flds| >= |old(flds)| && (good ==> ok)
      ensures ok ==> nf == |flds| && Texts() == Assigned(old(Texts()), n, text) && line == Join(Texts(), ofs)
      ensures !ok ==> nf == old(nf)
    {
      ghost var was := Texts();
      var count := |flds|;
      var max := if n > count then n else count;
      if max > maxflds {
        var grown := Attempt(good);
        if !grown { return false; }
        maxflds := max;
      }
      line := "";
      var done := RecomposeAll(n, text, was, count, max, ofs, good);
      if !done { return false; }
      if nf != max {
        var stored := Attempt(good);
        if !stored { return false; }
        nf := max;
      }
      return true;
    }

    /** A field other than $0 is assigned. On failure, whenever it strikes, nothing is left held; NF is then
        zero if there were fields and NF can be reset. Success brings NF up to date in any case. */
    method SetField(n: nat, text: string, ofs: string, good: bool, resets: bool) returns (ok: bool)
      requires Held() && n > 0
      modifies this
      ensures Settled()
      ensures ok ==> nf == |flds| && d0.Some? && Texts() == Assigned(old(Texts()), n, text) && line == Join(Texts(), ofs)
      ensures ok ==> |flds| == (if n > |old(flds)| then n else |old(flds)|) && Texts()[n - 1] == text
      ensures ok ==> forall i :: 0 <= i < |flds| && i != n - 1 ==> Texts()[i] == if i < |old(flds)| then old(Texts())[i] else ""
      ensures !ok ==> Cleared() && line == ""
      ensures !ok && old(flds) != [] && old(nf) == |old(flds)| ==> (nf == |flds| <==> resets)
      ensures !ok && resets ==> nf == 0 || (old(flds) == [] && nf == old(nf))
      ensures !ok && !resets ==> nf == old(nf) || nf == if n > |old(flds)| then n else |old(flds)|
      ensures good ==> ok
    {
      ok := Recompose(n, text, ofs, good);
      if !ok {
        var _ := Clear(false, resets);
        return;
      }
      var v := MakeValue(line, good);
      if v.None? {
        var _ := Clear(false, resets);
        return false;
      }
      SwapRecord(v.value);
    }

    /** $0 is replaced by another value. */
    method SwapRecord(v: nat)
      requires Held() && v < |store|
      modifies this`d0, this`refs
      ensures Held() && d0 == Some(v)
    {
      if d0.Some? {
        ReferencesForget(refs, flds, d0.value);
        RefDown(d0.value);
        d0 := None;
      }
      ReferencesRemember(refs, flds, v);
      d0 := Some(v);
      RefUp(v);
    }

    /** A record composed with OFS and then read again with FS the same character, a non-blank that no
        field contains, has the same line and fields as before, unless it is one empty field. */
    method Reread(c: char, good: bool, resets: bool) returns (ok: bool)
      requires Held() && c != ' ' && line == Join(Texts(), [c]) && Texts() != [""]
      requires forall k :: 0 <= k < |Texts()| ==> Free(traits, c, Texts()[k])
      modifies this
      ensures ok ==> Settled() && Texts() == old(Texts()) && line == old(line)
      ensures !ok ==> Cleared()
      ensures good && (resets || old(flds) == []) ==> ok
    {
      SplitUndoesJoin(traits, c, Texts());
      ok := SetRecord(line, true, Plain(Some([c])), good, resets);
    }

    /** The line and the fields. */
    ghost function Contents(): Contents
      requires Held()
      reads this
    {
      Content(line, Texts())
    }

    /** Any sequence of assignments, each of which may fail at any point: what the record holds is what
        the assignments since the last failure make of an empty record. Assignments fail only for a
        reason, references are always right, and NF is right at the end if it can always be reset. */
    method Run(ops: seq<Assignment>) returns (oks: seq<bool>)
      requires Held() && AllSensible(ops)
      modifies this
      ensures Held() && (old(Settled()) || ops != [] ==> Settled()) && |oks| == |ops|
      ensures Contents() == Replay(traits, old(Contents()), ops, oks)
      ensures forall k :: 0 <= k < |ops| && ops[k].good && ops[k].resets ==> oks[k]
      ensures old(Coherent()) && (forall k :: 0 <= k < |ops| ==> ops[k].resets) ==> Coherent()
    {
      oks := [];
      for i := 0 to |ops|
        invariant Held() && (old(Settled()) || i > 0 ==> Settled()) && |oks| == i && AllSensible(ops[..i])
        invariant Contents() == Replay(traits, old(Contents()), ops[..i], oks)
        invariant forall k :: 0 <= k < i && ops[k].good && ops[k].resets ==> oks[k]
        invariant old(Coherent()) && (forall k :: 0 <= k < i ==> ops[k].resets) ==> Coherent()
      {
        var ok := Assign(ops[i]);
        ReplayNext(traits, old(Contents()), ops, i, oks, ok);
        oks := oks + [ok];
      }
      assert ops[..|ops|] == ops;
    }

    method Assign(op: Assignment) returns (ok: bool)
      requires Held() && Sensible(op)
      modifies this
      ensures Settled() && Contents() == Outcome(traits, old(Contents()), op, ok)
      ensures op.good && op.resets ==> ok
      ensures old(nf) == |old(flds)| && op.resets ==> Coherent()
    {
      match op {
        case ToRecord(text, sep, good, resets) => ok := SetRecord(text, false, sep, good, resets);
        case ToField(n, text, ofs, good, resets) => ok := SetField(n, text, ofs, good, resets);
      }
    }
  }

  // ---------------------------------------------------------------- two assignments

  /** Two assignments to fields of a record. */
  method AssignTwo(r: Record, n: nat, x: string, m: nat, y: string, ofs: string, good: bool) returns (ok: bool)
    requires r.Held() && n > 0 && m > 0
    modifies r
    ensures r.Settled() && (good ==> ok)
    ensures ok ==> r.Texts() == Assigned(Assigned(old(r.Texts()), n, x), m, y) && r.line == Join(r.Texts(), ofs) && r.nf == |r.Texts()|
  {
    ok := r.SetField(n, x, ofs, good, good);
    if ok { ok := r.SetField(m, y, ofs, good, good); }
  }

  /** Assigning two fields of one record and of another like it in the opposite order makes the same
      record; both fields read back, and the others are as they were. */
  method EitherOrder(a: Record, b: Record, n: nat, x: string, m: nat, y: string, ofs: string, good: bool) returns (ok: bool)
    requires a != b && a.Held() && b.Held() && a.Texts() == b.Texts() && n > 0 && m > 0 && n != m
    modifies a, b
    ensures a.Held() && b.Held() && (good ==> ok)
    ensures ok ==> a.Contents() == b.Contents() && a.line == Join(a.Texts(), ofs) && a.nf == b.nf == |a.Texts()|
    ensures ok ==> var most := if n > m then n else m;
                   |a.Texts()| == if most > |old(a.Texts())| then most else |old(a.Texts())|
    ensures ok ==> |a.Texts()| >= n && |a.Texts()| >= m && a.Texts()[n - 1] == x && a.Texts()[m - 1] == y
    ensures ok ==> forall i :: 0 <= i < |a.Texts()| && i != n - 1 && i != m - 1 ==>
                     a.Texts()[i] == if i < |old(a.Texts())| then old(a.Texts())[i] else ""
  {
    AssignmentLaws(a.Texts(), n, x, m, y);
    ok := AssignTwo(a, n, x, m, y, ofs, good);
    if ok { ok := AssignTwo(b, m, y, n, x, ofs, good); }
  }

  /** Of two assignments to the same field only the last counts, and assigning a field what it is leaves
      the fields alone. */
  method LastCounts(a: Record, b: Record, n: nat, x: string, y: string, ofs: string, good: bool) returns (ok: bool)
    requires a != b && a.Held() && b.Held() && a.Texts() == b.Texts() && n > 0
    modifies a, b
    ensures a.Held() && b.Held() && (good ==> ok)
    ensures ok ==> a.Contents() == b.Contents() && |a.Texts()| >= n && a.Texts()[n - 1] == y
    ensures ok && n <= |old(a.Texts())| && y == old(a.Texts())[n - 1] ==> a.Texts() == old(a.Texts())
  {
    AssignmentLaws(a.Texts(), n, y, n, x);
    ok := AssignTwo(a, n, x, n, y, ofs, good);
    if ok { ok := b.SetField(n, y, ofs, good, good); }
  }

  // ---------------------------------------------------------------- runs

  datatype Contents = Content(line: string, fields: seq<string>)

  /** An assignment to $0 or to a field; `good` says that nothing it needs fails, `resets` that NF can be
      set to zero when the record is cleared. */
  datatype Assignment =
    | ToRecord(text: string, sep: Separator, good: bool, resets: bool)
    | ToField(n: nat, text: string, ofs: string, good: bool, resets: bool)

  ghost predicate Sensible(op: Assignment) {
    match op
    case ToRecord(_, sep, _, _) => Supported(sep)
    case ToField(n, _, _, _, _) => n > 0
  }

  ghost predicate AllSensible(ops: seq<Assignment>) {
    forall k {:trigger Sensible(ops[k])} :: 0 <= k < |ops| ==> Sensible(ops[k])
  }

  /** What an assignment makes of a record; one that fails empties it. */
  ghost function Outcome(t: Traits, c: Contents, op: Assignment, ok: bool): Contents
    requires Sensible(op)
  {
    if !ok then Content("", [])
    else match op {
      case ToRecord(text, sep, _, _) => Content(text, SplitLine(t, sep, text))
      case ToField(n, text, ofs, _, _) =>
        var fields := Assigned(c.fields, n, text);
        Content(Join(fields, ofs), fields)
    }
  }

  ghost function Replay(t: Traits, c: Contents, ops: seq<Assignment>, oks: seq<bool>): Contents
    requires |oks| == |ops| && AllSensible(ops)
  {
    if ops == [] then c
    else Outcome(t, Replay(t, c, ops[..|ops| - 1], oks[..|ops| - 1]), ops[|ops| - 1], oks[|ops| - 1])
  }

  lemma ReplayNext(t: Traits, c: Contents, ops: seq<Assignment>, n: nat, oks: seq<bool>, ok: bool)
    requires n < |ops| && |oks| == n && AllSensible(ops)
    ensures AllSensible(ops[..n]) && AllSensible(ops[..n + 1])
    ensures Replay(t, c, ops[..n + 1], oks + [ok]) == Outcome(t, Replay(t, c, ops[..n], oks), ops[n], ok)
  {
    assert ops[..n + 1][..n] == ops[..n] && (oks + [ok])[..n] == oks;
  }

  lemma JoinNext(want: seq<string>, i: nat, ofs: string)
    requires i < |want|
    ensures Join(want[..i + 1], ofs) == (if i > 0 then Join(want[..i], ofs) + ofs else "") + want[i]
  {
    assert want[..i + 1] == want[..i] + [want[i]];
    if i > 0 {
      JoinSnoc(want[..i], want[i], ofs);
    }
  }

  /** The field list before and after its `i`-th entry becomes the wanted one. */
  lemma RestNext(want: seq<string>, was: seq<string>, i: nat)
    requires i < |want| && |was| <= |want|
    ensures var now := want[..i] + (if i < |was| then was[i..] else []);
            var then' := want[..i + 1] + (if i + 1 < |was| then was[i + 1..] else []);
            && |now| == (if i < |was| then |was| else i)
            && (i < |was| ==> then' == now[i := want[i]] && now[i] == was[i])
            && (i < |was| && want[i] == was[i] ==> then' == now)
            && (i >= |was| ==> then' == now + [want[i]])
  {
  }
}
