/** The rewriters of the URL rewriting server and the doubly linked lists they are chained on. */
module RewriterLinks {
  import opened Wire
  import opened Pointers

  /** The request a rewriter works on. `body` is the packet buffer behind its header: first the URL
      and a newline, later overwritten by the output read back. */
  datatype Work = Work(from: nat, hdr: Header, body: seq<byte>, urllen: nat, urlpos: nat, outlen: nat)

  /** `pio` says that the rewriting process exists. Links are indices into the array of rewriters. */
  datatype Rewriter = Rewriter(pio: bool, free: bool, busy: bool, faulty: bool, inMux: bool,
                               prev: int, next: int, work: Work)

  /** Equal in everything but the links. */
  predicate Alike(r: Rewriter, r': Rewriter) {
    r' == r.(prev := r'.prev, next := r'.next)
  }

  ghost predicate LinkedAt(rw: seq<Rewriter>, list: seq<int>, k: nat)
    requires k < |list|
  {
    && 0 <= list[k] < |rw|
    && rw[list[k]].next == Successor(list, k)
    && rw[list[k]].prev == Predecessor(list, k)
  }

  /** `list` is the doubly linked list that starts at `head`. */
  ghost predicate Linked(rw: seq<Rewriter>, head: int, list: seq<int>) {
    && NoDup(list)
    && head == (if list == [] then NULL else list[0])
    && forall k: nat {:trigger LinkedAt(rw, list, k)} :: k < |list| ==> LinkedAt(rw, list, k)
  }

  /** `rw` with `i` put in front of the list that starts at `head`. */
  ghost function Front(rw: seq<Rewriter>, head: int, i: int): seq<Rewriter>
    requires 0 <= i < |rw| && NULL <= head < |rw|
  {
    var rw1 := rw[i := rw[i].(prev := NULL, next := head)];
    if head != NULL then rw1[head := rw1[head].(prev := i)] else rw1
  }

  lemma LinkedMembers(rw: seq<Rewriter>, head: int, list: seq<int>)
    requires Linked(rw, head, list)
    ensures forall k :: 0 <= k < |list| ==> 0 <= list[k] < |rw|
    ensures NULL <= head < |rw| && (head == NULL <==> list == [])
  {
    forall k | 0 <= k < |list| ensures 0 <= list[k] < |rw| {
      assert LinkedAt(rw, list, k);
    }
  }

  /** A list none of whose links change stays linked. */
  lemma LinkedFrame(rw: seq<Rewriter>, rw': seq<Rewriter>, head: int, list: seq<int>)
    requires Linked(rw, head, list) && |rw'| == |rw|
    requires forall x :: 0 <= x < |rw| && x in list ==> rw'[x].next == rw[x].next && rw'[x].prev == rw[x].prev
    ensures Linked(rw', head, list)
  {
    forall k: nat | k < |list| ensures LinkedAt(rw', list, k) {
      assert LinkedAt(rw, list, k);
    }
  }

  lemma LinkFront(rw: seq<Rewriter>, head: int, list: seq<int>, i: int)
    requires Linked(rw, head, list) && 0 <= i < |rw| && NULL <= head < |rw| && i !in list
    ensures Linked(Front(rw, head, i), i, [i] + list)
  {
    LinkedMembers(rw, head, list);
    var rw', list' := Front(rw, head, i), [i] + list;
    forall k: nat | k < |list'| ensures LinkedAt(rw', list', k) {
      if k > 0 {
        assert list'[k] == list[k - 1];
        assert LinkedAt(rw, list, k - 1);
      }
    }
  }

  /** `rw` after `i` is unchained from a list. */
  ghost function Unlinked(rw: seq<Rewriter>, head: int, i: int): seq<Rewriter>
    requires 0 <= i < |rw| && NULL <= rw[i].next < |rw| && (i != head ==> 0 <= rw[i].prev < |rw|)
  {
    var rw1 := if rw[i].next != NULL then rw[rw[i].next := rw[rw[i].next].(prev := rw[i].prev)] else rw;
    if i == head then rw1 else rw1[rw[i].prev := rw1[rw[i].prev].(next := rw[i].next)]
  }

  lemma UnlinkPossible(rw: seq<Rewriter>, head: int, list: seq<int>, k: nat)
    requires Linked(rw, head, list) && k < |list|
    ensures var i := list[k];
            0 <= i < |rw| && NULL <= rw[i].next < |rw| && (i != head ==> 0 <= rw[i].prev < |rw|) && (i == head <==> k == 0)
  {
    assert LinkedAt(rw, list, k);
    if k + 1 < |list| { assert LinkedAt(rw, list, k + 1); }
    if k > 0 { assert LinkedAt(rw, list, k - 1); }
  }

  lemma LinkOut(rw: seq<Rewriter>, head: int, list: seq<int>, k: nat)
    requires Linked(rw, head, list) && k < |list|
    requires var i := list[k];
             0 <= i < |rw| && NULL <= rw[i].next < |rw| && (i != head ==> 0 <= rw[i].prev < |rw|)
    ensures Linked(Unlinked(rw, head, list[k]), if list[k] == head then rw[list[k]].next else head, Without(list, k))
  {
    UnlinkPossible(rw, head, list, k);
    LinkedMembers(rw, head, list);
    var i := list[k];
    var rw', list' := Unlinked(rw, head, i), Without(list, k);
    assert LinkedAt(rw, list, k);
    forall j: nat | j < |list'| ensures LinkedAt(rw', list', j) {
      var o := if j < k then j else j + 1;
      assert list'[j] == list[o] && LinkedAt(rw, list, o);
    }
  }

  /** The flags of a rewriter say which list it is on. */
  ghost predicate FlagAt(r: Rewriter, i: int, fl: seq<int>, bl: seq<int>) {
    (r.free <==> i in fl) && (r.busy <==> i in bl) && !(r.free && r.busy)
  }

  /** Both lists well linked, flags equal to membership, and the free count equal to the length. */
  ghost predicate PoolLinks(rw: seq<Rewriter>, freeHead: int, freeCount: int, fl: seq<int>, busyHead: int, bl: seq<int>) {
    && Linked(rw, freeHead, fl) && Linked(rw, busyHead, bl)
    && freeCount == |fl|
    && forall i {:trigger FlagAt(rw[i], i, fl, bl)} :: 0 <= i < |rw| ==> FlagAt(rw[i], i, fl, bl)
  }

  lemma PoolMembers(rw: seq<Rewriter>, freeHead: int, freeCount: int, fl: seq<int>, busyHead: int, bl: seq<int>)
    requires PoolLinks(rw, freeHead, freeCount, fl, busyHead, bl)
    ensures forall x :: x in fl || x in bl ==> 0 <= x < |rw|
    ensures forall x :: x in fl ==> x !in bl && rw[x].free && !rw[x].busy
    ensures forall x :: x in bl ==> x !in fl && rw[x].busy && !rw[x].free
    ensures NULL <= freeHead < |rw| && (freeHead == NULL <==> fl == [])
    ensures NULL <= busyHead < |rw| && (busyHead == NULL <==> bl == [])
  {
    LinkedMembers(rw, freeHead, fl);
    LinkedMembers(rw, busyHead, bl);
    forall x | x in fl ensures 0 <= x < |rw| && x !in bl && rw[x].free && !rw[x].busy {
      assert FlagAt(rw[x], x, fl, bl);
    }
    forall x | x in bl ensures 0 <= x < |rw| && x !in fl && rw[x].busy && !rw[x].free {
      assert FlagAt(rw[x], x, fl, bl);
    }
  }

  /** Chaining an unlisted rewriter to the free list. */
  lemma ChainedFree(rw: seq<Rewriter>, freeHead: int, freeCount: int, fl: seq<int>, busyHead: int, bl: seq<int>, i: int)
    requires PoolLinks(rw, freeHead, freeCount, fl, busyHead, bl) && 0 <= i < |rw| && NULL <= freeHead < |rw|
    requires !rw[i].free && !rw[i].busy
    ensures PoolLinks(Front(rw[i := rw[i].(free := true)], freeHead, i), i, freeCount + 1, [i] + fl, busyHead, bl)
  {
    PoolMembers(rw, freeHead, freeCount, fl, busyHead, bl);
    assert FlagAt(rw[i], i, fl, bl);
    var rw1 := rw[i := rw[i].(free := true)];
    var rw' := Front(rw1, freeHead, i);
    LinkedFrame(rw, rw1, freeHead, fl);
    LinkFront(rw1, freeHead, fl, i);
    LinkedFrame(rw, rw', busyHead, bl);
    forall x | 0 <= x < |rw'| ensures FlagAt(rw'[x], x, [i] + fl, bl) {
      assert FlagAt(rw[x], x, fl, bl);
    }
  }

  /** Chaining an unlisted rewriter to the busy list. */
  lemma ChainedBusy(rw: seq<Rewriter>, freeHead: int, freeCount: int, fl: seq<int>, busyHead: int, bl: seq<int>, i: int)
    requires PoolLinks(rw, freeHead, freeCount, fl, busyHead, bl) && 0 <= i < |rw| && NULL <= busyHead < |rw|
    requires !rw[i].free && !rw[i].busy
    ensures PoolLinks(Front(rw[i := rw[i].(busy := true)], busyHead, i), freeHead, freeCount, fl, i, [i] + bl)
  {
    PoolMembers(rw, freeHead, freeCount, fl, busyHead, bl);
    assert FlagAt(rw[i], i, fl, bl);
    var rw1 := rw[i := rw[i].(busy := true)];
    var rw' := Front(rw1, busyHead, i);
    LinkedFrame(rw, rw1, busyHead, bl);
    LinkFront(rw1, busyHead, bl, i);
    LinkedFrame(rw, rw', freeHead, fl);
    forall x | 0 <= x < |rw'| ensures FlagAt(rw'[x], x, fl, [i] + bl) {
      assert FlagAt(rw[x], x, fl, bl);
    }
  }

  /** Unchaining from the free list. */
  lemma DechainedFree(rw: seq<Rewriter>, freeHead: int, freeCount: int, fl: seq<int>, busyHead: int, bl: seq<int>, k: nat)
    requires PoolLinks(rw, freeHead, freeCount, fl, busyHead, bl) && k < |fl|
    ensures var i := fl[k];
            && 0 <= i < |rw| && NULL <= rw[i].next < |rw| && (i != freeHead ==> 0 <= rw[i].prev < |rw|)
            && var rw1 := Unlinked(rw, freeHead, i);
               PoolLinks(rw1[i := rw1[i].(free := false)], if i == freeHead then rw[i].next else freeHead,
                         freeCount - 1, Without(fl, k), busyHead, bl)
  {
    PoolMembers(rw, freeHead, freeCount, fl, busyHead, bl);
    UnlinkPossible(rw, freeHead, fl, k);
    LinkOut(rw, freeHead, fl, k);
    WithoutMembers(fl, k);
    var i := fl[k];
    var rw1 := Unlinked(rw, freeHead, i);
    var rw' := rw1[i := rw1[i].(free := false)];
    UnlinkedNeighbours(rw, freeHead, fl, k);
    LinkedFrame(rw1, rw', if i == freeHead then rw[i].next else freeHead, Without(fl, k));
    LinkedFrame(rw, rw', busyHead, bl);
    forall x | 0 <= x < |rw'| ensures FlagAt(rw'[x], x, Without(fl, k), bl) {
      assert FlagAt(rw[x], x, fl, bl);
    }
  }

  /** Unchaining from the busy list. */
  lemma DechainedBusy(rw: seq<Rewriter>, freeHead: int, freeCount: int, fl: seq<int>, busyHead: int, bl: seq<int>, k: nat)
    requires PoolLinks(rw, freeHead, freeCount, fl, busyHead, bl) && k < |bl|
    ensures var i := bl[k];
            && 0 <= i < |rw| && NULL <= rw[i].next < |rw| && (i != busyHead ==> 0 <= rw[i].prev < |rw|)
            && var rw1 := Unlinked(rw, busyHead, i);
               PoolLinks(rw1[i := rw1[i].(busy := false)], freeHead, freeCount, fl,
                         if i == busyHead then rw[i].next else busyHead, Without(bl, k))
  {
    PoolMembers(rw, freeHead, freeCount, fl, busyHead, bl);
    UnlinkPossible(rw, busyHead, bl, k);
    LinkOut(rw, busyHead, bl, k);
    WithoutMembers(bl, k);
    var i := bl[k];
    var rw1 := Unlinked(rw, busyHead, i);
    var rw' := rw1[i := rw1[i].(busy := false)];
    UnlinkedNeighbours(rw, busyHead, bl, k);
    LinkedFrame(rw1, rw', if i == busyHead then rw[i].next else busyHead, Without(bl, k));
    LinkedFrame(rw, rw', freeHead, fl);
    forall x | 0 <= x < |rw'| ensures FlagAt(rw'[x], x, fl, Without(bl, k)) {
      assert FlagAt(rw[x], x, fl, bl);
    }
  }

  /** Unchaining touches links only, and only those of rewriters on the same list. */
  lemma UnlinkedNeighbours(rw: seq<Rewriter>, head: int, list: seq<int>, k: nat)
    requires Linked(rw, head, list) && k < |list|
    requires var i := list[k];
             0 <= i < |rw| && NULL <= rw[i].next < |rw| && (i != head ==> 0 <= rw[i].prev < |rw|)
    ensures var rw' := Unlinked(rw, head, list[k]);
            && |rw'| == |rw|
            && (forall x :: 0 <= x < |rw| ==> Alike(rw[x], rw'[x]))
            && (forall x :: 0 <= x < |rw| && x !in list ==> rw'[x] == rw[x])
  {
    UnlinkPossible(rw, head, list, k);
    assert LinkedAt(rw, list, k);
    assert k + 1 < |list| ==> rw[list[k]].next == list[k + 1];
    assert k > 0 ==> rw[list[k]].prev == list[k - 1];
  }

  /** The rewriters flagged as free. */
  ghost function Free(rw: seq<Rewriter>): set<int> {
    set i | 0 <= i < |rw| && rw[i].free
  }

  /** The free count of a well-formed pool is the number of rewriters flagged as free. */
  lemma FreeCountForced(rw: seq<Rewriter>, freeHead: int, freeCount: int, fl: seq<int>, busyHead: int, bl: seq<int>)
    requires PoolLinks(rw, freeHead, freeCount, fl, busyHead, bl)
    ensures freeCount == |Free(rw)|
  {
    PoolMembers(rw, freeHead, freeCount, fl, busyHead, bl);
    forall i | 0 <= i < |rw| ensures i in fl <==> rw[i].free {
      assert FlagAt(rw[i], i, fl, bl);
    }
    NoDupLength(fl);
    assert SetOf(fl) == Free(rw);
  }

  /** Walking a list from an entry that leads back to its head follows the old list. */
  lemma {:induction false} Walk(rw: seq<Rewriter>, head: int, fl: seq<int>, rw': seq<Rewriter>, k: nat, list: seq<int>, j: nat)
    requires Linked(rw, head, fl) && k < |fl| && |rw'| == |rw| && 0 <= fl[k] < |rw| && rw'[fl[k]].next == head
    requires forall x :: 0 <= x < |rw| && x != fl[k] ==> rw'[x].next == rw[x].next
    requires Linked(rw', fl[k], list) && j <= k
    ensures j + 1 < |list| && list[j + 1] == fl[j]
  {
    LinkedMembers(rw, head, fl);
    assert list[0] == fl[k];
    if j == 0 {
      assert LinkedAt(rw', list, 0);
    } else {
      Walk(rw, head, fl, rw', k, list, j - 1);
      assert LinkedAt(rw', list, j) && LinkedAt(rw, fl, j - 1);
    }
  }

  /** An entry of a list put in front of it once more closes a circle: no list starts there. */
  lemma Circle(rw: seq<Rewriter>, head: int, fl: seq<int>, rw': seq<Rewriter>, k: nat, list: seq<int>)
    requires Linked(rw, head, fl) && k < |fl| && |rw'| == |rw| && 0 <= fl[k] < |rw| && rw'[fl[k]].next == head
    requires forall x :: 0 <= x < |rw| && x != fl[k] ==> rw'[x].next == rw[x].next
    ensures !Linked(rw', fl[k], list)
  {
    if Linked(rw', fl[k], list) {
      Walk(rw, head, fl, rw', k, list, k);
    }
  }

  /** Concretely: a lone free rewriter chained to the free list again links to itself both ways. */
  lemma ChainedTwice(r: Rewriter)
    requires r.free && !r.busy && r.prev == NULL && r.next == NULL
    ensures PoolLinks([r], 0, 1, [0], NULL, [])
    ensures var rw := Front([r], 0, 0);
            rw[0].next == 0 && rw[0].prev == 0 && forall list :: !Linked(rw, 0, list)
  {
    assert LinkedAt([r], [0], 0) && FlagAt([r][0], 0, [0], []);
    var rw := Front([r], 0, 0);
    forall list ensures !Linked(rw, 0, list) {
      Circle([r], 0, [0], rw, 0, list);
    }
  }
}
