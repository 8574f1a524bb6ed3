/** The generator of the case tables, and the reader of the tables it emits: one page of offsets for
    every 512 codes, with equal pages stored once. */
module CasePages {
  import opened Pointers

  const PAGE_SIZE := 512

  /** The declared size of the map. */
  function PageCount(maxChar: nat): nat { (maxChar + PAGE_SIZE) / PAGE_SIZE }

  /** The case functions of the locale. */
  datatype Mapping = Mapping(upper: int -> int, lower: int -> int)

  /** Links are indices into the memory of the generator. */
  datatype Page = Page(no: nat, upper: seq<int>, lower: seq<int>, next: int)

  function UpperRow(m: Mapping, start: int): seq<int> {
    seq(PAGE_SIZE, c => start + c - m.upper(start + c))
  }

  function LowerRow(m: Mapping, start: int): seq<int> {
    seq(PAGE_SIZE, c => m.lower(start + c) - (start + c))
  }

  lemma SameRow(s: seq<int>, row: seq<int>)
    requires |s| == |row| && forall c :: 0 <= c < |row| ==> s[c] == row[c]
    ensures s == row
  {
  }

  /** The codes of two blocks have the same offsets. */
  predicate SameOffsets(m: Mapping, j: nat, k: nat) {
    && UpperRow(m, j * PAGE_SIZE) == UpperRow(m, k * PAGE_SIZE)
    && LowerRow(m, j * PAGE_SIZE) == LowerRow(m, k * PAGE_SIZE)
  }

  // ---------------------------------------------------------------- emitted tables

  datatype Entry = Entry(upper: int, lower: int)

  /** The pages by number, and the number of the page for each block of codes. */
  datatype Table = Table(pages: map<nat, seq<Entry>>, index: seq<nat>)

  /** What a 16-bit member holds after it is initialized with `x`. */
  function Narrow(x: int): (r: int)
    ensures -32768 <= r <= 32767
    ensures r == x <==> -32768 <= x <= 32767
  {
    (x + 32768) % 65536 - 32768
  }

  function Entries(p: Page): seq<Entry>
    requires |p.upper| == |p.lower|
  {
    seq(|p.upper|, i requires 0 <= i < |p.upper| => Entry(Narrow(p.upper[i]), Narrow(p.lower[i])))
  }

  /** Every code up to the highest has an entry. */
  predicate Covers(t: Table, maxChar: nat) {
    && |t.index| * PAGE_SIZE > maxChar
    && forall k :: 0 <= k < |t.index| ==> t.index[k] in t.pages && |t.pages[t.index[k]]| == PAGE_SIZE
  }

  function ToUpper(t: Table, maxChar: nat, c: int): int
    requires Covers(t, maxChar)
  {
    if 0 <= c <= maxChar then c - t.pages[t.index[c / PAGE_SIZE]][c % PAGE_SIZE].upper else c
  }

  function ToLower(t: Table, maxChar: nat, c: int): int
    requires Covers(t, maxChar)
  {
    if 0 <= c <= maxChar then c + t.pages[t.index[c / PAGE_SIZE]][c % PAGE_SIZE].lower else c
  }

  /** Page `k` of the emitted table holds the offsets of its block, each in 16 bits. */
  ghost predicate HoldsBlock(t: Table, m: Mapping, k: nat) {
    && k < |t.index| && t.index[k] in t.pages && |t.pages[t.index[k]]| == PAGE_SIZE
    && forall c :: 0 <= c < PAGE_SIZE ==>
         t.pages[t.index[k]][c] == Entry(Narrow(UpperRow(m, k * PAGE_SIZE)[c]), Narrow(LowerRow(m, k * PAGE_SIZE)[c]))
  }

  /** Looking up a code gives its case in the locale exactly when the offset fits in 16 bits. */
  lemma LookupIsExact(t: Table, m: Mapping, maxChar: nat, c: int)
    requires Covers(t, maxChar) && forall k: nat :: k < |t.index| ==> HoldsBlock(t, m, k)
    requires 0 <= c <= maxChar
    ensures ToUpper(t, maxChar, c) == m.upper(c) <==> -32768 <= c - m.upper(c) <= 32767
    ensures ToLower(t, maxChar, c) == m.lower(c) <==> -32768 <= m.lower(c) - c <= 32767
  {
    var k, j := c / PAGE_SIZE, c % PAGE_SIZE;
    assert HoldsBlock(t, m, k);
    assert UpperRow(m, k * PAGE_SIZE)[j] == c - m.upper(c) && LowerRow(m, k * PAGE_SIZE)[j] == m.lower(c) - c;
  }

  /** A letter whose capital is too far away, as U+0265 with the capital U+A78D, is looked up wrongly. */
  lemma FarCapitalIsLost(t: Table, m: Mapping)
    requires Covers(t, 0xFFFF) && forall k: nat :: k < |t.index| ==> HoldsBlock(t, m, k)
    requires m.upper(0x265) == 0xA78D
    ensures ToUpper(t, 0xFFFF, 0x265) != m.upper(0x265)
    ensures ToUpper(t, 0xFFFF, 0x265) == 0xA78D - 65536
  {
    LookupIsExact(t, m, 0xFFFF, 0x265);
    assert HoldsBlock(t, m, 1);
    assert UpperRow(m, PAGE_SIZE)[0x65] == 0x265 - 0xA78D;
  }

  /** The loop over the codes makes as many pages as the map is declared for, and covers the highest
      code, exactly when the highest code does not start a page. */
  lemma PagesMade(maxChar: nat, made: nat)
    requires (made == 0 || (made - 1) * PAGE_SIZE < maxChar) && maxChar <= made * PAGE_SIZE
    ensures made <= PageCount(maxChar)
    ensures made == PageCount(maxChar) <==> maxChar % PAGE_SIZE != 0
    ensures made * PAGE_SIZE > maxChar <==> maxChar % PAGE_SIZE != 0
  {
  }

  /** Both settings of the highest code are of that kind. */
  lemma BothSettings()
    ensures 0xFFFF % PAGE_SIZE != 0 && PageCount(0xFFFF) == 128
    ensures 0x10FFFF % PAGE_SIZE != 0 && PageCount(0x10FFFF) == 2176
  {
  }

  // ---------------------------------------------------------------- the generator

  class Generator {
    var memory: seq<Page>
    var pages: int
    var pageCount: nat
    const maps: array<int>
    var mapCount: nat
    const mapping: Mapping

    /** The pages are chained newest first and numbered in the order they were made. */
    ghost predicate Chained()
      reads this
    {
      && pageCount == |memory| && pages == |memory| - 1
      && forall i :: 0 <= i < |memory| ==>
           && memory[i].no == i && memory[i].next == i - 1
           && |memory[i].upper| == PAGE_SIZE && |memory[i].lower| == PAGE_SIZE
    }

    /** No two pages are equal. */
    ghost predicate Distinct()
      reads this
    {
      forall i, j :: 0 <= i < j < |memory| ==> !(memory[i].upper == memory[j].upper && memory[i].lower == memory[j].lower)
    }

    ghost predicate Mapped(k: nat)
      reads this, maps
      requires k < maps.Length
    {
      && 0 <= maps[k] < |memory|
      && memory[maps[k]].upper == UpperRow(mapping, k * PAGE_SIZE)
      && memory[maps[k]].lower == LowerRow(mapping, k * PAGE_SIZE)
    }

    ghost predicate Used(i: int)
      reads this, maps
    {
      exists k :: 0 <= k < mapCount && k < maps.Length && maps[k] == i
    }

    /** Every block mapped so far leads to the page with its offsets, and no page is made for nothing. */
    ghost predicate Valid()
      reads this, maps
    {
      && Chained() && Distinct() && mapCount <= maps.Length
      && (forall k: nat {:trigger Mapped(k)} :: k < mapCount ==> Mapped(k))
      && (forall i :: 0 <= i < |memory| ==> Used(i))
    }

    constructor (m: Mapping, size: nat)
      ensures Valid() && mapping == m && maps.Length == size && mapCount == 0 && memory == [] && fresh(maps)
    {
      memory, pages, pageCount := [], NULL, 0;
      maps, mapCount, mapping := new int[size], 0, m;
    }

    /** The offsets of the codes from `start` to `end`. */
    method Offsets(start: int, end: int) returns (upper: array<int>, lower: array<int>)
      requires end == start + PAGE_SIZE - 1
      ensures fresh(upper) && fresh(lower)
      ensures upper[..] == UpperRow(mapping, start) && lower[..] == LowerRow(mapping, start)
    {
      upper, lower := new int[PAGE_SIZE](_ => 0), new int[PAGE_SIZE](_ => 0);
      ghost var us, ls := UpperRow(mapping, start), LowerRow(mapping, start);
      var code := start;
      while code <= end
        invariant start <= code <= end + 1
        invariant forall c :: 0 <= c < code - start ==> upper[c] == us[c] && lower[c] == ls[c]
      {
        var c := code - start;
        upper[c] := code - mapping.upper(code);
        lower[c] := mapping.lower(code) - code;
        code := code + 1;
      }
      SameRow(upper[..], us);
      SameRow(lower[..], ls);
    }

    /** The page with the offsets, if there is one. */
    method Find(upper: seq<int>, lower: seq<int>) returns (page: int)
      requires Chained()
      ensures page == NULL || (0 <= page < |memory| && memory[page].upper == upper && memory[page].lower == lower)
      ensures page == NULL ==> forall i :: 0 <= i < |memory| ==> !(memory[i].upper == upper && memory[i].lower == lower)
    {
      page := pages;
      while page != NULL
        invariant NULL <= page < |memory|
        invariant forall i :: page < i < |memory| ==> !(memory[i].upper == upper && memory[i].lower == lower)
      {
        if upper == memory[page].upper && lower == memory[page].lower { return; }
        page := memory[page].next;
      }
    }

    /** Maps the next block of codes to the page with its offsets, made only if there is none yet. */
    method MakePage(start: int, end: int)
      requires Valid() && mapCount < maps.Length && start == mapCount * PAGE_SIZE && end == start + PAGE_SIZE - 1
      modifies this, maps
      ensures Valid() && mapCount == old(mapCount) + 1
      ensures old(memory) <= memory && |memory| <= |old(memory)| + 1
      ensures forall k :: 0 <= k < old(mapCount) ==> maps[k] == old(maps[k])
    {
      var upper, lower := Offsets(start, end);
      var page := Find(upper[..], lower[..]);
      if page == NULL {
        page := |memory|;
        memory := memory + [Page(pageCount, upper[..], lower[..], pages)];
        pageCount := pageCount + 1;
        pages := page;
      }
      forall k: nat | k < mapCount ensures Mapped(k) {
        assert old(Mapped(k));
      }
      forall i | 0 <= i < |memory| && i != page ensures Used(i) {
        assert old(Used(i));
      }
      Enter(page);
    }

    /** Enters a page at the end of the map. */
    method Enter(page: int)
      requires Chained() && Distinct() && mapCount < maps.Length && 0 <= page < |memory|
      requires forall k: nat {:trigger Mapped(k)} :: k < mapCount ==> Mapped(k)
      requires forall i :: 0 <= i < |memory| && i != page ==> Used(i)
      requires memory[page].upper == UpperRow(mapping, mapCount * PAGE_SIZE)
      requires memory[page].lower == LowerRow(mapping, mapCount * PAGE_SIZE)
      modifies this`mapCount, maps
      ensures Valid() && mapCount == old(mapCount) + 1
      ensures forall k :: 0 <= k < old(mapCount) ==> maps[k] == old(maps[k])
    {
      maps[mapCount] := page;
      mapCount := mapCount + 1;
      forall k: nat | k < mapCount ensures Mapped(k) {
        if k < mapCount - 1 { assert old(Mapped(k)); }
      }
      forall i | 0 <= i < |memory| ensures Used(i) {
        if i == page {
          assert maps[mapCount - 1] == i;
        } else {
          assert old(Used(i));
          var k :| 0 <= k < old(mapCount) && k < maps.Length && old(maps[k]) == i;
          assert maps[k] == i;
        }
      }
    }

    /** Prints the pages from the newest on, and then the map by page numbers. */
    method Emit() returns (t: Table)
      requires Valid()
      ensures |t.index| == mapCount && forall k: nat :: k < mapCount ==> HoldsBlock(t, mapping, k)
      ensures forall i: nat :: i in t.pages <==> i < |memory|
      ensures forall i: nat :: i in t.pages ==> i in t.index
      ensures forall j, k :: 0 <= j < k < mapCount ==> (t.index[j] == t.index[k] <==> SameOffsets(mapping, j, k))
    {
      var printed: map<nat, seq<Entry>> := map[];
      var page := pages;
      while page != NULL
        invariant NULL <= page < |memory|
        invariant forall i: nat :: i in printed <==> page < i < |memory|
        invariant forall i: nat :: page < i < |memory| ==> printed[i] == Entries(memory[i])
      {
        printed := printed[memory[page].no := Entries(memory[page])];
        page := memory[page].next;
      }
      var index: seq<nat> := [];
      for k := 0 to mapCount
        invariant |index| == k && forall j :: 0 <= j < k ==> index[j] == maps[j]
      {
        assert Mapped(k);
        index := index + [memory[maps[k]].no];
      }
      t := Table(printed, index);
      forall k: nat | k < mapCount ensures HoldsBlock(t, mapping, k) { assert Mapped(k); }
      forall i: nat | i < |memory| ensures i in index {
        assert Used(i);
        var k :| 0 <= k < mapCount && k < maps.Length && maps[k] == i;
        assert index[k] == i;
      }
      forall j, k | 0 <= j < k < mapCount ensures index[j] == index[k] <==> SameOffsets(mapping, j, k) {
        assert Mapped(j) && Mapped(k);
      }
    }
  }

  /** The whole generator. The map is filled to its declared size, and covers every code up to the
      highest, exactly when the highest code does not start a page; a lookup is right exactly when the
      offset fits in 16 bits. The pages are numbered from zero on, each is used, and two
      blocks of codes share a page exactly when they have the same offsets. */
  method Generate(m: Mapping, maxChar: nat) returns (t: Table, count: nat)
    ensures forall k: nat :: k < |t.index| ==> HoldsBlock(t, m, k)
    ensures |t.index| == PageCount(maxChar) <==> maxChar % PAGE_SIZE != 0
    ensures Covers(t, maxChar) <==> maxChar % PAGE_SIZE != 0
    ensures Covers(t, maxChar) ==> forall c :: 0 <= c <= maxChar ==>
              && (ToUpper(t, maxChar, c) == m.upper(c) <==> -32768 <= c - m.upper(c) <= 32767)
              && (ToLower(t, maxChar, c) == m.lower(c) <==> -32768 <= m.lower(c) - c <= 32767)
    ensures count <= |t.index| && forall i: nat :: i in t.pages <==> i < count
    ensures forall i: nat :: i in t.pages ==> i in t.index
    ensures forall j, k :: 0 <= j < k < |t.index| ==> (t.index[j] == t.index[k] <==> SameOffsets(m, j, k))
  {
    var g := new Generator(m, PageCount(maxChar));
    var code := 0;
    while code < maxChar
      invariant g.Valid() && g.mapCount * PAGE_SIZE == code && g.mapCount <= g.maps.Length
      invariant |g.memory| <= g.mapCount && code < maxChar + PAGE_SIZE
      invariant fresh(g) && fresh(g.maps)
      decreases maxChar - code
    {
      g.MakePage(code, code + PAGE_SIZE - 1);
      code := code + PAGE_SIZE;
    }
    t := g.Emit();
    count := g.pageCount;
    PagesMade(maxChar, g.mapCount);
    forall k | 0 <= k < |t.index| ensures t.index[k] in t.pages && |t.pages[t.index[k]]| == PAGE_SIZE {
      assert HoldsBlock(t, m, k);
    }
    if Covers(t, maxChar) {
      forall c | 0 <= c <= maxChar
        ensures (ToUpper(t, maxChar, c) == m.upper(c) <==> -32768 <= c - m.upper(c) <= 32767)
        ensures (ToLower(t, maxChar, c) == m.lower(c) <==> -32768 <= m.lower(c) - c <= 32767)
      {
        LookupIsExact(t, m, maxChar, c);
      }
    }
  }
}
