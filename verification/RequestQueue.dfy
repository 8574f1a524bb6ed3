/** The queue of requests that found no free rewriter, on top of recycled memory blocks. */
module RequestQueue {
  import opened Wire
  import opened Pointers

  const XREQ_BLOCK_SIZE := 2048
  const XREQ_MAX_BLOCKS := 32

  /** A block of memory: room for `capacity` packet bytes after its link. Pointers are indices into
      the memory of the queue. */
  datatype Block = Block(capacity: nat, next: int, req: Request)

  /** The size class of a 16-bit packet length. C truncates (0 - 1) / 2048 to zero. */
  function BlockClass(pktlen: nat): nat {
    if pktlen == 0 then 0 else (pktlen - 1) / XREQ_BLOCK_SIZE
  }

  /** The lists blocks are on: the free chains 0..31 and the queue. */
  const QUEUE := XREQ_MAX_BLOCKS
  const LIST_COUNT := XREQ_MAX_BLOCKS + 1
  /** Where a block is while its request is being copied. */
  const NOWHERE := LIST_COUNT

  /** `list` is what one meets following `next` from `start` up to the null link. */
  ghost predicate Chained(mem: seq<Block>, start: int, list: seq<int>) {
    && (forall k :: 0 <= k < |list| ==> 0 <= list[k] < |mem|)
    && start == (if list == [] then NULL else list[0])
    && (forall k :: 0 <= k < |list| ==> mem[list[k]].next == Successor(list, k))
  }

  /** One list, all of whose blocks have it as their home. */
  ghost predicate ListOk(mem: seq<Block>, start: int, list: seq<int>, home: seq<int>, a: int) {
    && |home| == |mem|
    && Chained(mem, start, list)
    && NoDup(list)
    && forall k :: 0 <= k < |list| ==> home[list[k]] == a
  }

  /** A block is on the list that is its home, unless it is the one held. */
  ghost predicate Placed(lists: seq<seq<int>>, home: seq<int>, b: int, held: int)
    requires |lists| == LIST_COUNT && 0 <= b < |home|
  {
    if b == held then home[b] == NOWHERE else 0 <= home[b] < LIST_COUNT && b in lists[home[b]]
  }

  /** Well-formed lists that share no block, and every block other than `held` is on one of them. */
  ghost predicate Lists(mem: seq<Block>, starts: seq<int>, lists: seq<seq<int>>, home: seq<int>, held: int) {
    && |starts| == |lists| == LIST_COUNT && |home| == |mem|
    && (forall a {:trigger ListOk(mem, starts[a], lists[a], home, a)} ::
          0 <= a < LIST_COUNT ==> ListOk(mem, starts[a], lists[a], home, a))
    && (forall b {:trigger Placed(lists, home, b, held)} :: 0 <= b < |home| ==> Placed(lists, home, b, held))
  }

  /** A block is as large as the class of its chain, or of the packet in it, says. */
  ghost predicate BlockSized(block: Block, home: int) {
    && (0 <= home < QUEUE ==> block.capacity == (home + 1) * XREQ_BLOCK_SIZE)
    && (home >= QUEUE ==> Holds(block))
  }

  ghost predicate Sized(mem: seq<Block>, home: seq<int>) {
    && |home| == |mem|
    && forall b {:trigger BlockSized(mem[b], home[b])} :: 0 <= b < |mem| ==> BlockSized(mem[b], home[b])
  }

  /** A packet that fits its block, which is of the packet's class. */
  ghost predicate Holds(block: Block) {
    && Sendable(block.req)
    && block.capacity == (BlockClass(PacketLength(block.req)) + 1) * XREQ_BLOCK_SIZE
    && PacketLength(block.req) <= block.capacity
  }

  /** Every 16-bit packet length has a class among the 32: the smallest whose blocks it fits. */
  lemma ClassInRange(pktlen: nat)
    requires pktlen <= 0xFFFF
    ensures BlockClass(pktlen) < XREQ_MAX_BLOCKS == 32
    ensures pktlen <= (BlockClass(pktlen) + 1) * 2048
    ensures BlockClass(pktlen) > 0 ==> BlockClass(pktlen) * 2048 < pktlen
  {
  }

  lemma ListPop(mem: seq<Block>, start: int, list: seq<int>, home: seq<int>, a: int)
    requires ListOk(mem, start, list, home, a) && start != NULL
    ensures 0 <= start < |mem| && list != [] && list[0] == start && home[start] == a
    ensures start !in list[1..]
    ensures ListOk(mem, mem[start].next, list[1..], home[start := NOWHERE], a)
  {
    var rest := list[1..];
    assert mem[list[0]].next == Successor(list, 0);
    forall k | 0 <= k < |rest| ensures mem[rest[k]].next == Successor(rest, k) {
      assert rest[k] == list[k + 1] && mem[list[k + 1]].next == Successor(list, k + 1);
    }
  }

  lemma ListPush(mem: seq<Block>, start: int, list: seq<int>, home: seq<int>, a: int, b: int)
    requires ListOk(mem, start, list, home, a) && 0 <= b < |mem| && home[b] == NOWHERE && a != NOWHERE
    ensures ListOk(mem[b := mem[b].(next := start)], b, [b] + list, home[b := a], a)
  {
    var list' := [b] + list;
    var mem' := mem[b := mem[b].(next := start)];
    forall k | 0 <= k < |list'| ensures mem'[list'[k]].next == Successor(list', k) {
      if k > 0 { assert list'[k] == list[k - 1] && mem[list[k - 1]].next == Successor(list, k - 1); }
    }
  }

  lemma ListAppend(mem: seq<Block>, start: int, list: seq<int>, home: seq<int>, a: int, b: int)
    requires ListOk(mem, start, list, home, a) && 0 <= b < |mem| && home[b] == NOWHERE && a != NOWHERE && mem[b].next == NULL
    ensures list == [] ==> ListOk(mem, b, [b], home[b := a], a)
    ensures list != [] ==>
      var last := list[|list| - 1];
      0 <= last < |mem| && ListOk(mem[last := mem[last].(next := b)], start, list + [b], home[b := a], a)
  {
    var list' := list + [b];
    assert forall k :: 0 <= k < |list| ==> list'[k] == list[k];
  }

  /** A list none of whose blocks change stays well-formed. */
  lemma ListFrame(mem: seq<Block>, mem': seq<Block>, start: int, list: seq<int>, home: seq<int>, home': seq<int>, a: int)
    requires ListOk(mem, start, list, home, a) && |mem| <= |mem'| == |home'|
    requires forall b :: 0 <= b < |mem| && home[b] == a ==> mem'[b].next == mem[b].next && home'[b] == home[b]
    ensures ListOk(mem', start, list, home', a)
  {
  }

  /** Taking the first block off a list. */
  lemma DetachHead(mem: seq<Block>, starts: seq<int>, lists: seq<seq<int>>, home: seq<int>, a: int)
    requires Lists(mem, starts, lists, home, NULL) && 0 <= a < LIST_COUNT && starts[a] != NULL
    ensures var b := starts[a];
            && 0 <= b < |mem| && lists[a] != [] && lists[a][0] == b && home[b] == a
            && Lists(mem, starts[a := mem[b].next], lists[a := lists[a][1..]], home[b := NOWHERE], b)
  {
    var b := starts[a];
    assert ListOk(mem, starts[a], lists[a], home, a);
    ListPop(mem, starts[a], lists[a], home, a);
    var starts', lists', home' := starts[a := mem[b].next], lists[a := lists[a][1..]], home[b := NOWHERE];
    forall c | 0 <= c < LIST_COUNT ensures ListOk(mem, starts'[c], lists'[c], home', c) {
      assert ListOk(mem, starts[c], lists[c], home, c);
      if c != a { ListFrame(mem, mem, starts[c], lists[c], home, home', c); }
    }
    assert lists[a] == [b] + lists'[a];
    forall d | 0 <= d < |home'| ensures Placed(lists', home', d, b) {
      assert Placed(lists, home, d, NULL);
    }
  }

  /** A block on no list may change freely. */
  lemma ChangeHeld(mem: seq<Block>, starts: seq<int>, lists: seq<seq<int>>, home: seq<int>, b: int, block: Block)
    requires Lists(mem, starts, lists, home, b) && 0 <= b < |mem|
    ensures Lists(mem[b := block], starts, lists, home, b)
  {
    forall c | 0 <= c < LIST_COUNT ensures ListOk(mem[b := block], starts[c], lists[c], home, c) {
      assert ListOk(mem, starts[c], lists[c], home, c) && Placed(lists, home, b, b);
      ListFrame(mem, mem[b := block], starts[c], lists[c], home, home, c);
    }
  }

  /** Fresh memory is on no list. */
  lemma Allocate(mem: seq<Block>, starts: seq<int>, lists: seq<seq<int>>, home: seq<int>, block: Block)
    requires Lists(mem, starts, lists, home, NULL)
    ensures Lists(mem + [block], starts, lists, home + [NOWHERE], |mem|)
  {
    forall c | 0 <= c < LIST_COUNT ensures ListOk(mem + [block], starts[c], lists[c], home + [NOWHERE], c) {
      assert ListOk(mem, starts[c], lists[c], home, c);
      ListFrame(mem, mem + [block], starts[c], lists[c], home, home + [NOWHERE], c);
    }
    forall d | 0 <= d < |home + [NOWHERE]| ensures Placed(lists, home + [NOWHERE], d, |mem|) {
      if d < |mem| { assert Placed(lists, home, d, NULL); }
    }
  }

  /** Pushing the held block onto the front of a list. */
  lemma PushHead(mem: seq<Block>, starts: seq<int>, lists: seq<seq<int>>, home: seq<int>, b: int, a: int)
    requires Lists(mem, starts, lists, home, b) && 0 <= b < |mem| && 0 <= a < LIST_COUNT
    ensures Lists(mem[b := mem[b].(next := starts[a])], starts[a := b], lists[a := [b] + lists[a]], home[b := a], NULL)
  {
    assert ListOk(mem, starts[a], lists[a], home, a) && Placed(lists, home, b, b);
    ListPush(mem, starts[a], lists[a], home, a, b);
    var mem', starts' := mem[b := mem[b].(next := starts[a])], starts[a := b];
    var lists', home' := lists[a := [b] + lists[a]], home[b := a];
    forall c | 0 <= c < LIST_COUNT ensures ListOk(mem', starts'[c], lists'[c], home', c) {
      assert ListOk(mem, starts[c], lists[c], home, c);
      if c != a { ListFrame(mem, mem', starts[c], lists[c], home, home', c); }
    }
    forall d | 0 <= d < |home'| ensures Placed(lists', home', d, NULL) {
      assert Placed(lists, home, d, b);
    }
  }

  /** Appending the held block, whose link is null, to a list through the list's last block. */
  lemma Append(mem: seq<Block>, starts: seq<int>, lists: seq<seq<int>>, home: seq<int>, b: int, a: int)
    requires Lists(mem, starts, lists, home, b) && 0 <= b < |mem| && 0 <= a < LIST_COUNT && mem[b].next == NULL
    ensures lists[a] == [] ==> Lists(mem, starts[a := b], lists[a := [b]], home[b := a], NULL)
    ensures lists[a] != [] ==>
      var last := lists[a][|lists[a]| - 1];
      0 <= last < |mem| && last != b && Lists(mem[last := mem[last].(next := b)], starts, lists[a := lists[a] + [b]], home[b := a], NULL)
  {
    assert ListOk(mem, starts[a], lists[a], home, a) && Placed(lists, home, b, b);
    ListAppend(mem, starts[a], lists[a], home, a, b);
    var empty := lists[a] == [];
    var last := if empty then b else lists[a][|lists[a]| - 1];
    var mem' := if empty then mem else mem[last := mem[last].(next := b)];
    var starts' := if empty then starts[a := b] else starts;
    var lists', home' := lists[a := lists[a] + [b]], home[b := a];
    assert [] + [b] == [b];
    forall c | 0 <= c < LIST_COUNT ensures ListOk(mem', starts'[c], lists'[c], home', c) {
      assert ListOk(mem, starts[c], lists[c], home, c);
      if c != a { ListFrame(mem, mem', starts[c], lists[c], home, home', c); }
    }
    forall d | 0 <= d < |home'| ensures Placed(lists', home', d, NULL) {
      assert Placed(lists, home, d, b);
    }
  }

  lemma SizedUpdate(mem: seq<Block>, home: seq<int>, b: int, block: Block, h: int)
    requires Sized(mem, home) && 0 <= b < |mem| && BlockSized(block, h)
    ensures Sized(mem[b := block], home[b := h])
  {
    var mem', home' := mem[b := block], home[b := h];
    forall d | 0 <= d < |mem| ensures BlockSized(mem'[d], home'[d]) {
      assert BlockSized(mem[d], home[d]);
    }
  }

  lemma SizedSnoc(mem: seq<Block>, home: seq<int>, block: Block, h: int)
    requires Sized(mem, home) && BlockSized(block, h)
    ensures Sized(mem + [block], home + [h])
  {
    forall d | 0 <= d < |mem + [block]| ensures BlockSized((mem + [block])[d], (home + [h])[d]) {
      if d < |mem| { assert BlockSized(mem[d], home[d]); }
    }
  }

  /** The blocks of one list, and where it starts. */
  lemma OnList(mem: seq<Block>, starts: seq<int>, lists: seq<seq<int>>, home: seq<int>, held: int, a: int)
    requires Lists(mem, starts, lists, home, held) && 0 <= a < LIST_COUNT
    ensures forall k :: 0 <= k < |lists[a]| ==> 0 <= lists[a][k] < |mem| && home[lists[a][k]] == a
    ensures lists[a] == [] <==> starts[a] == NULL
  {
    assert ListOk(mem, starts[a], lists[a], home, a);
  }

  class Queue {
    var mem: seq<Block>
    var head: int
    var tail: int
    var count: nat
    var free: seq<int>
    ghost var lists: seq<seq<int>>
    ghost var home: seq<int>

    ghost predicate Inv(held: int)
      reads this
    {
      && |free| == XREQ_MAX_BLOCKS
      && Lists(mem, free + [head], lists, home, held)
      && Sized(mem, home)
      && count == |lists[QUEUE]|
      && (count > 0 ==> tail == lists[QUEUE][count - 1])
    }

    ghost predicate Valid()
      reads this
    {
      Inv(NULL)
    }

    /** The waiting requests, first come first. */
    ghost function Waiting(): seq<Request>
      reads this
    {
      if |lists| == LIST_COUNT then Requests(mem, lists[QUEUE]) else []
    }

    constructor ()
      ensures Valid() && Waiting() == []
    {
      mem, head, tail, count := [], NULL, NULL, 0;
      free := seq(XREQ_MAX_BLOCKS, _ => NULL);
      lists := seq(LIST_COUNT, _ => []);
      home := [];
    }

    /** A block for a packet of class `blkidx`: a recycled one, or fresh memory if there is any. */
    method TakeBlock(blkidx: nat, req: Request, memoryLeft: bool) returns (b: int)
      requires Valid() && blkidx < XREQ_MAX_BLOCKS && Sendable(req) && blkidx == BlockClass(PacketLength(req))
      modifies this`mem, this`free, this`lists, this`home
      ensures b != NULL ==> Inv(b) && 0 <= b < |mem| && mem[b].next == NULL && mem[b].req == req
      ensures b == NULL ==> Valid()
      ensures Waiting() == old(Waiting())
      ensures b == NULL <==> old(free[blkidx]) == NULL && !memoryLeft
    {
      ClassInRange(PacketLength(req));
      b := free[blkidx];
      ghost var waiting, starts := lists[QUEUE], free + [head];
      OnList(mem, starts, lists, home, NULL, QUEUE);
      if b != NULL {
        DetachHead(mem, starts, lists, home, blkidx);
        assert BlockSized(mem[b], home[b]);
        free := free[blkidx := mem[b].next];
        lists := lists[blkidx := lists[blkidx][1..]];
        home := home[b := NOWHERE];
        assert free + [head] == starts[blkidx := mem[b].next];
        SizedUpdate(mem, old(home), b, mem[b].(next := NULL, req := req), NOWHERE);
      } else {
        if !memoryLeft { return; }
        b := |mem|;
        var block := Block((blkidx + 1) * XREQ_BLOCK_SIZE, NULL, req);
        Allocate(mem, starts, lists, home, block);
        SizedSnoc(mem, home, block, NOWHERE);
        mem := mem + [block];
        home := home + [NOWHERE];
      }
      ChangeHeld(mem, free + [head], lists, home, b, mem[b].(next := NULL, req := req));
      mem := mem[b := mem[b].(next := NULL, req := req)];
      RequestsFrame(old(mem), mem, waiting);
    }

    /** Puts a request at the end of the queue, unless there is no memory for it. */
    method Enqueue(req: Request, memoryLeft: bool) returns (ok: bool)
      requires Valid() && Sendable(req)
      modifies this
      ensures Valid()
      ensures Waiting() == if ok then old(Waiting()) + [req] else old(Waiting())
      ensures memoryLeft ==> ok
    {
      ClassInRange(PacketLength(req));
      var b := TakeBlock(BlockClass(PacketLength(req)), req, memoryLeft);
      if b == NULL { return false; }
      ghost var waiting, starts := lists[QUEUE], free + [head];
      Append(mem, starts, lists, home, b, QUEUE);
      OnList(mem, starts, lists, home, b, QUEUE);
      assert Placed(lists, home, b, b) && BlockSized(mem[b], home[b]);
      SizedUpdate(mem, home, b, mem[b], QUEUE);
      ghost var home1 := home[b := QUEUE];
      ghost var mem1 := mem;
      if count > 0 {
        assert BlockSized(mem[b := mem[b]][tail], home1[tail]);
        SizedUpdate(mem, home1, tail, mem[tail].(next := b), home1[tail]);
        mem := mem[tail := mem[tail].(next := b)];
        tail := b;
      } else {
        head := b;
        tail := b;
        assert free + [head] == starts[QUEUE := b];
      }
      count := count + 1;
      lists := lists[QUEUE := waiting + [b]];
      home := home[b := QUEUE];
      assert waiting == [] ==> waiting + [b] == [b];
      RequestsFrame(mem1, mem, waiting);
      RequestsSnoc(mem, waiting, b);
      return true;
    }

    /** Takes the block of the longest waiting request off the queue, or null if there is none. */
    method Dequeue() returns (b: int)
      requires Valid()
      modifies this`head, this`tail, this`count, this`lists, this`home
      ensures b == NULL <==> old(Waiting()) == []
      ensures b == NULL ==> Valid() && Waiting() == []
      ensures b != NULL ==> Inv(b) && 0 <= b < |mem| && Holds(mem[b])
      ensures b != NULL ==> mem[b].req == old(Waiting())[0] && Waiting() == old(Waiting())[1..]
    {
      b := NULL;
      if count > 0 {
        b := head;
        ghost var waiting, starts := lists[QUEUE], free + [head];
        OnList(mem, starts, lists, home, NULL, QUEUE);
        DetachHead(mem, starts, lists, home, QUEUE);
        assert BlockSized(mem[b], home[b]);
        SizedUpdate(mem, home, b, mem[b], NOWHERE);
        head := mem[b].next;
        if count == 1 { tail := head; }
        count := count - 1;
        lists := lists[QUEUE := waiting[1..]];
        home := home[b := NOWHERE];
        assert free + [head] == starts[QUEUE := mem[b].next];
        assert Requests(mem, waiting)[1..] == Requests(mem, waiting[1..]);
      }
    }

    /** Recycles the block of a request that has been copied. */
    method Release(b: int)
      requires Inv(b) && 0 <= b < |mem| && Holds(mem[b])
      modifies this`mem, this`free, this`lists, this`home
      ensures Valid() && Waiting() == old(Waiting())
    {
      var blkidx := BlockClass(PacketLength(mem[b].req));
      ClassInRange(PacketLength(mem[b].req));
      ghost var waiting, starts := lists[QUEUE], free + [head];
      PushHead(mem, starts, lists, home, b, blkidx);
      OnList(mem, starts, lists, home, b, QUEUE);
      assert Placed(lists, home, b, b);
      SizedUpdate(mem, home, b, mem[b].(next := free[blkidx]), blkidx);
      mem := mem[b := mem[b].(next := free[blkidx])];
      free := free[blkidx := b];
      lists := lists[blkidx := [b] + lists[blkidx]];
      home := home[b := blkidx];
      assert free + [head] == starts[blkidx := b];
      RequestsFrame(old(mem), mem, waiting);
    }
  }

  ghost function Requests(mem: seq<Block>, list: seq<int>): seq<Request> {
    seq(|list|, k requires 0 <= k < |list| => if 0 <= list[k] < |mem| then mem[list[k]].req else NoRequest())
  }

  function NoRequest(): Request {
    Request(0, 0, Header(0, 0, 0), [])
  }

  lemma RequestsFrame(mem: seq<Block>, mem': seq<Block>, list: seq<int>)
    requires |mem| <= |mem'|
    requires forall k :: 0 <= k < |list| ==> 0 <= list[k] < |mem| && mem'[list[k]].req == mem[list[k]].req
    ensures Requests(mem', list) == Requests(mem, list)
  {
  }

  lemma RequestsSnoc(mem: seq<Block>, list: seq<int>, b: int)
    requires 0 <= b < |mem|
    ensures Requests(mem, list + [b]) == Requests(mem, list) + [mem[b].req]
  {
  }
}
