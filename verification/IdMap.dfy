/** The map from ids to nodes that extension modules hand out handles with: a list of live nodes, a
    list of parked ones whose ids can be used again, and a table from id to node. */
module IdMap {
  import opened Common
  import opened Pointers

  const INT_MAX := 0x7FFF_FFFF
  const GROWTH := 64

  /** Links are indices into the memory of the map. A parked node is linked by `next` alone. */
  datatype Node = Node(prev: int, next: int, id: int)

  ghost predicate LiveAt(nodes: seq<Node>, live: seq<int>, k: nat)
    requires k < |live|
  {
    && 0 <= live[k] < |nodes|
    && nodes[live[k]].next == Successor(live, k) && nodes[live[k]].prev == Predecessor(live, k)
  }

  /** The doubly linked list of live nodes. */
  ghost predicate LiveList(nodes: seq<Node>, head: int, tail: int, live: seq<int>) {
    && NoDup(live)
    && head == (if live == [] then NULL else live[0])
    && tail == (if live == [] then NULL else live[|live| - 1])
    && forall k: nat {:trigger LiveAt(nodes, live, k)} :: k < |live| ==> LiveAt(nodes, live, k)
  }

  ghost predicate ParkedAt(nodes: seq<Node>, parked: seq<int>, k: nat)
    requires k < |parked|
  {
    0 <= parked[k] < |nodes| && nodes[parked[k]].next == Successor(parked, k)
  }

  /** The singly linked list of parked nodes. */
  ghost predicate ParkedList(nodes: seq<Node>, free: int, parked: seq<int>) {
    && NoDup(parked)
    && free == (if parked == [] then NULL else parked[0])
    && forall k: nat {:trigger ParkedAt(nodes, parked, k)} :: k < |parked| ==> ParkedAt(nodes, parked, k)
  }

  /** The id of a listed node is its own, and below the high mark. */
  ghost predicate Owns(nodes: seq<Node>, owner: seq<int>, x: int) {
    0 <= x < |nodes| && 0 <= nodes[x].id < |owner| && owner[nodes[x].id] == x
  }

  /** An id below the high mark belongs to a node that is live, and then the table leads to it, or else
      parked, and then the table slot is empty. */
  ghost predicate IdAt(nodes: seq<Node>, owner: seq<int>, live: seq<int>, parked: seq<int>, tab: seq<int>, id: int)
    requires 0 <= id < |owner| <= |tab|
  {
    var x := owner[id];
    && 0 <= x < |nodes| && nodes[x].id == id
    && (x in live || x in parked) && !(x in live && x in parked)
    && tab[id] == (if x in live then x else NULL)
  }

  ghost predicate Ids(nodes: seq<Node>, owner: seq<int>, live: seq<int>, parked: seq<int>, tab: seq<int>) {
    && |owner| <= |tab|
    && (forall x {:trigger Owns(nodes, owner, x)} :: x in live || x in parked ==> Owns(nodes, owner, x))
    && (forall id {:trigger IdAt(nodes, owner, live, parked, tab, id)} ::
          0 <= id < |owner| ==> IdAt(nodes, owner, live, parked, tab, id))
    && (forall id :: |owner| <= id < |tab| ==> tab[id] == NULL)
  }

  /** The table grows with every new id, so ids run out long before the table could hold no more. */
  ghost predicate Sized(high: int, capa: int) {
    && 0 <= high && 0 <= capa <= INT_MAX
    && ((capa % GROWTH == 0 && GROWTH * high <= capa) || (capa == INT_MAX && GROWTH * high <= INT_MAX + 1))
  }

  /** Never more than 33554432 ids, however many slots the table has. */
  lemma FewerIdsThanSlots(high: int, capa: int)
    requires Sized(high, capa)
    ensures high <= 33_554_432 && high <= capa
  {
  }

  // ---------------------------------------------------------------- list lemmas

  lemma LiveMembers(nodes: seq<Node>, head: int, tail: int, live: seq<int>)
    requires LiveList(nodes, head, tail, live)
    ensures forall k :: 0 <= k < |live| ==> 0 <= live[k] < |nodes|
    ensures head == NULL <==> live == []
  {
    forall k | 0 <= k < |live| ensures 0 <= live[k] < |nodes| { assert LiveAt(nodes, live, k); }
  }

  lemma ParkedMembers(nodes: seq<Node>, free: int, parked: seq<int>)
    requires ParkedList(nodes, free, parked)
    ensures forall k :: 0 <= k < |parked| ==> 0 <= parked[k] < |nodes|
    ensures free == NULL <==> parked == []
  {
    forall k | 0 <= k < |parked| ensures 0 <= parked[k] < |nodes| { assert ParkedAt(nodes, parked, k); }
  }

  /** The memory after `x` is appended to the live list. */
  ghost function Appended(nodes: seq<Node>, tail: int, x: int): seq<Node>
    requires 0 <= x < |nodes| && NULL <= tail < |nodes|
  {
    var n1 := nodes[x := nodes[x].(next := NULL, prev := tail)];
    if tail != NULL then n1[tail := n1[tail].(next := x)] else n1
  }

  lemma AppendLive(nodes: seq<Node>, head: int, tail: int, live: seq<int>, x: int)
    requires LiveList(nodes, head, tail, live) && 0 <= x < |nodes| && x !in live
    ensures NULL <= tail < |nodes|
    ensures LiveList(Appended(nodes, tail, x), if tail == NULL then x else head, x, live + [x])
  {
    LiveMembers(nodes, head, tail, live);
    var nodes', live' := Appended(nodes, tail, x), live + [x];
    forall k: nat | k < |live'| ensures LiveAt(nodes', live', k) {
      if k < |live| { assert LiveAt(nodes, live, k); }
    }
  }

  /** The memory after `x` is taken out of the live list. */
  ghost function Removed(nodes: seq<Node>, x: int): seq<Node>
    requires 0 <= x < |nodes| && NULL <= nodes[x].prev < |nodes| && NULL <= nodes[x].next < |nodes|
  {
    var p, n := nodes[x].prev, nodes[x].next;
    var n1 := if p != NULL then nodes[p := nodes[p].(next := n)] else nodes;
    if n != NULL then n1[n := n1[n].(prev := p)] else n1
  }

  lemma LinksInRange(nodes: seq<Node>, head: int, tail: int, live: seq<int>, k: nat)
    requires LiveList(nodes, head, tail, live) && k < |live|
    ensures var x := live[k];
            && 0 <= x < |nodes| && NULL <= nodes[x].prev < |nodes| && NULL <= nodes[x].next < |nodes|
            && nodes[x].next == Successor(live, k) && nodes[x].prev == Predecessor(live, k)
            && (x == head <==> k == 0) && (x == tail <==> k == |live| - 1)
  {
    LiveMembers(nodes, head, tail, live);
    assert LiveAt(nodes, live, k);
  }

  lemma RemoveLive(nodes: seq<Node>, head: int, tail: int, live: seq<int>, k: nat)
    requires LiveList(nodes, head, tail, live) && k < |live|
    requires var x := live[k];
             0 <= x < |nodes| && NULL <= nodes[x].prev < |nodes| && NULL <= nodes[x].next < |nodes|
    ensures var x := live[k];
            LiveList(Removed(nodes, x), if head == x then nodes[x].next else head,
                     if tail == x then nodes[x].prev else tail, Without(live, k))
  {
    LinksInRange(nodes, head, tail, live, k);
    LiveMembers(nodes, head, tail, live);
    var x := live[k];
    var nodes', live' := Removed(nodes, x), Without(live, k);
    forall j: nat | j < |live'| ensures LiveAt(nodes', live', j) {
      var o := if j < k then j else j + 1;
      assert live'[j] == live[o] && LiveAt(nodes, live, o);
    }
  }

  /** A list whose links stay keeps its shape. */
  lemma LiveFrame(nodes: seq<Node>, nodes': seq<Node>, head: int, tail: int, live: seq<int>)
    requires LiveList(nodes, head, tail, live) && |nodes'| >= |nodes|
    requires forall x :: 0 <= x < |nodes| && x in live ==> nodes'[x].next == nodes[x].next && nodes'[x].prev == nodes[x].prev
    ensures LiveList(nodes', head, tail, live)
  {
    forall k: nat | k < |live| ensures LiveAt(nodes', live, k) { assert LiveAt(nodes, live, k); }
  }

  lemma ParkedFrame(nodes: seq<Node>, nodes': seq<Node>, free: int, parked: seq<int>)
    requires ParkedList(nodes, free, parked) && |nodes'| >= |nodes|
    requires forall x :: 0 <= x < |nodes| && x in parked ==> nodes'[x].next == nodes[x].next
    ensures ParkedList(nodes', free, parked)
  {
    forall k: nat | k < |parked| ensures ParkedAt(nodes', parked, k) { assert ParkedAt(nodes, parked, k); }
  }

  lemma PopParked(nodes: seq<Node>, free: int, parked: seq<int>)
    requires ParkedList(nodes, free, parked) && free != NULL
    ensures 0 <= free < |nodes| && parked != [] && parked[0] == free && free !in parked[1..]
    ensures ParkedList(nodes, nodes[free].next, parked[1..])
  {
    ParkedMembers(nodes, free, parked);
    assert ParkedAt(nodes, parked, 0);
    var rest := parked[1..];
    forall k: nat | k < |rest| ensures ParkedAt(nodes, rest, k) { assert ParkedAt(nodes, parked, k + 1); }
  }

  lemma PushParked(nodes: seq<Node>, free: int, parked: seq<int>, x: int)
    requires ParkedList(nodes, free, parked) && 0 <= x < |nodes| && x !in parked
    ensures ParkedList(nodes[x := nodes[x].(next := free)], x, [x] + parked)
  {
    ParkedMembers(nodes, free, parked);
    var nodes', parked' := nodes[x := nodes[x].(next := free)], [x] + parked;
    forall k: nat | k < |parked'| ensures ParkedAt(nodes', parked', k) {
      if k > 0 { assert ParkedAt(nodes, parked, k - 1); }
    }
  }

  // ---------------------------------------------------------------- id lemmas

  ghost predicate SameIds(nodes: seq<Node>, nodes': seq<Node>) {
    |nodes| <= |nodes'| && forall x :: 0 <= x < |nodes| ==> nodes'[x].id == nodes[x].id
  }

  /** A parked node becomes live. */
  lemma Activate(nodes: seq<Node>, nodes': seq<Node>, owner: seq<int>, live: seq<int>, parked: seq<int>, tab: seq<int>, x: int)
    requires Ids(nodes, owner, live, parked, tab) && SameIds(nodes, nodes') && NoDup(parked)
    requires parked != [] && parked[0] == x && x !in live
    ensures Owns(nodes, owner, x) && tab[nodes[x].id] == NULL
    ensures Ids(nodes', owner, live + [x], parked[1..], tab[nodes[x].id := x])
  {
    assert Owns(nodes, owner, x);
    assert IdAt(nodes, owner, live, parked, tab, nodes[x].id);
    var live', parked', tab' := live + [x], parked[1..], tab[nodes[x].id := x];
    assert x !in parked' && forall y :: y in parked <==> y == x || y in parked';
    forall y | y in live' || y in parked' ensures Owns(nodes', owner, y) { assert Owns(nodes, owner, y); }
    forall id | 0 <= id < |owner| ensures IdAt(nodes', owner, live', parked', tab', id) {
      assert IdAt(nodes, owner, live, parked, tab, id);
    }
  }

  /** A new node with the id at the high mark becomes live; the table has room for it. */
  lemma Extend(nodes: seq<Node>, nodes': seq<Node>, owner: seq<int>, live: seq<int>, parked: seq<int>, tab: seq<int>, tab1: seq<int>)
    requires Ids(nodes, owner, live, parked, tab) && SameIds(nodes, nodes')
    requires |nodes'| == |nodes| + 1 && nodes'[|nodes|].id == |owner|
    requires |tab1| > |owner| && |tab1| >= |tab| && forall i :: 0 <= i < |tab1| ==> tab1[i] == if i < |tab| then tab[i] else NULL
    ensures tab1[|owner|] == NULL
    ensures Ids(nodes', owner + [|nodes|], live + [|nodes|], parked, tab1[|owner| := |nodes|])
  {
    var x := |nodes|;
    var owner', live', tab' := owner + [x], live + [x], tab1[|owner| := x];
    forall y | y in live || y in parked ensures y < x { assert Owns(nodes, owner, y); }
    forall y | y in live' || y in parked ensures Owns(nodes', owner', y) {
      if y != x { assert Owns(nodes, owner, y); }
    }
    forall id | 0 <= id < |owner'| ensures IdAt(nodes', owner', live', parked, tab', id) {
      if id < |owner| { assert IdAt(nodes, owner, live, parked, tab, id); }
    }
  }

  /** A live node is parked. */
  lemma Park(nodes: seq<Node>, nodes': seq<Node>, owner: seq<int>, live: seq<int>, parked: seq<int>, tab: seq<int>, k: nat)
    requires Ids(nodes, owner, live, parked, tab) && SameIds(nodes, nodes') && NoDup(live) && k < |live|
    ensures Owns(nodes, owner, live[k]) && live[k] !in parked
    ensures Ids(nodes', owner, Without(live, k), [live[k]] + parked, tab[nodes[live[k]].id := NULL])
  {
    var x := live[k];
    assert Owns(nodes, owner, x);
    assert IdAt(nodes, owner, live, parked, tab, nodes[x].id);
    WithoutMembers(live, k);
    var live', parked', tab' := Without(live, k), [x] + parked, tab[nodes[x].id := NULL];
    forall y | y in live' || y in parked' ensures Owns(nodes', owner, y) { assert Owns(nodes, owner, y); }
    forall id | 0 <= id < |owner| ensures IdAt(nodes', owner, live', parked', tab', id) {
      assert IdAt(nodes, owner, live, parked, tab, id);
    }
  }

  /** A live node with the highest id goes away, and the high mark with it. */
  lemma Retract(nodes: seq<Node>, nodes': seq<Node>, owner: seq<int>, live: seq<int>, parked: seq<int>, tab: seq<int>, k: nat)
    requires Ids(nodes, owner, live, parked, tab) && SameIds(nodes, nodes') && NoDup(live) && k < |live|
    requires Owns(nodes, owner, live[k]) && nodes[live[k]].id + 1 == |owner|
    ensures Ids(nodes', owner[..|owner| - 1], Without(live, k), parked, tab[nodes[live[k]].id := NULL])
  {
    var x := live[k];
    assert Owns(nodes, owner, x);
    assert IdAt(nodes, owner, live, parked, tab, nodes[x].id);
    WithoutMembers(live, k);
    var owner', live', tab' := owner[..|owner| - 1], Without(live, k), tab[nodes[x].id := NULL];
    forall y | y in live' || y in parked ensures Owns(nodes', owner', y) {
      assert Owns(nodes, owner, y);
    }
    forall id | 0 <= id < |owner'| ensures IdAt(nodes', owner', live', parked, tab', id) {
      assert IdAt(nodes, owner, live, parked, tab, id);
    }
  }

  /** The ids of a list of nodes. */
  ghost function IdsOf(nodes: seq<Node>, list: seq<int>): set<int> {
    set k | 0 <= k < |list| && 0 <= list[k] < |nodes| :: nodes[list[k]].id
  }

  /** No two live nodes have the same id. */
  lemma IdsDiffer(nodes: seq<Node>, owner: seq<int>, live: seq<int>, parked: seq<int>, tab: seq<int>, j: nat, k: nat)
    requires Ids(nodes, owner, live, parked, tab) && NoDup(live) && j < |live| && k < |live|
    ensures Owns(nodes, owner, live[j]) && Owns(nodes, owner, live[k])
    ensures nodes[live[j]].id == nodes[live[k]].id <==> j == k
  {
    assert live[j] in live && live[k] in live;
    assert Owns(nodes, owner, live[j]) && Owns(nodes, owner, live[k]);
  }

  lemma IdsWithoutMember(nodes: seq<Node>, nodes': seq<Node>, live: seq<int>, k: nat, id: int)
    requires k < |live| && SameIds(nodes, nodes') && |nodes'| == |nodes|
    requires forall j :: 0 <= j < |live| ==> 0 <= live[j] < |nodes|
    requires forall j :: 0 <= j < |live| && j != k ==> nodes[live[j]].id != nodes[live[k]].id
    ensures id in IdsOf(nodes', Without(live, k)) <==> id in IdsOf(nodes, live) && id != nodes[live[k]].id
  {
    var live' := Without(live, k);
    if id in IdsOf(nodes', live') {
      var j :| 0 <= j < |live'| && 0 <= live'[j] < |nodes'| && nodes'[live'[j]].id == id;
      assert live'[j] == live[if j < k then j else j + 1];
    }
    if id in IdsOf(nodes, live) && id != nodes[live[k]].id {
      var j :| 0 <= j < |live| && 0 <= live[j] < |nodes| && nodes[live[j]].id == id;
      assert live'[if j < k then j else j - 1] == live[j];
    }
  }

  /** Taking a node off the live list takes its id out of use, and no other. */
  lemma IdsWithout(nodes: seq<Node>, nodes': seq<Node>, owner: seq<int>, live: seq<int>, parked: seq<int>, tab: seq<int>, k: nat)
    requires Ids(nodes, owner, live, parked, tab) && NoDup(live) && k < |live|
    requires SameIds(nodes, nodes') && |nodes'| == |nodes|
    ensures Owns(nodes, owner, live[k]) && IdsOf(nodes', Without(live, k)) == IdsOf(nodes, live) - {nodes[live[k]].id}
  {
    IdsDiffer(nodes, owner, live, parked, tab, k, k);
    forall j | 0 <= j < |live| ensures 0 <= live[j] < |nodes| && (j != k ==> nodes[live[j]].id != nodes[live[k]].id) {
      IdsDiffer(nodes, owner, live, parked, tab, j, k);
    }
    forall id ensures id in IdsOf(nodes', Without(live, k)) <==> id in IdsOf(nodes, live) && id != nodes[live[k]].id {
      IdsWithoutMember(nodes, nodes', live, k, id);
    }
  }

  // ---------------------------------------------------------------- runs

  datatype Request = Allocate(good: bool) | Release(id: int)
  datatype Event = Issued(id: int) | Exhausted | Released(id: int) | Unknown(id: int)

  /** What a caller may see happen while `ids` are in use: only an id not in use is issued, and exactly
      the ids in use can be released. */
  ghost predicate Allowed(ids: set<int>, e: Event) {
    match e
    case Issued(id) => 0 <= id && id !in ids
    case Exhausted => true
    case Released(id) => id in ids
    case Unknown(id) => id !in ids
  }

  ghost function InUseAfter(ids: set<int>, e: Event): set<int> {
    match e
    case Issued(id) => ids + {id}
    case Released(id) => ids - {id}
    case _ => ids
  }

  /** A run of allowed events leads from one set of ids in use to another. */
  ghost predicate History(ids: set<int>, events: seq<Event>, last: set<int>) {
    if events == [] then last == ids
    else
      var e := events[|events| - 1];
      exists before {:trigger Allowed(before, e)} ::
        History(ids, events[..|events| - 1], before) && Allowed(before, e) && last == InUseAfter(before, e)
  }

  lemma HistorySnoc(ids: set<int>, events: seq<Event>, before: set<int>, e: Event)
    requires History(ids, events, before) && Allowed(before, e)
    ensures History(ids, events + [e], InUseAfter(before, e))
  {
    var all := events + [e];
    assert all[..|all| - 1] == events && all[|all| - 1] == e;
    assert Allowed(before, all[|all| - 1]);
  }

  /** What decides which id comes next: the ids in use, the ids of the parked nodes, the one parked last in
      front, the high mark and the length of the table. */
  datatype Pool = Pool(ids: set<int>, parked: seq<int>, high: int, capa: int)

  /** The table after it has been made longer. */
  function Grown(capa: int): int {
    if capa + GROWTH <= INT_MAX then capa + GROWTH else INT_MAX
  }

  /** The pool after an id in use is released: the last one resets it, the highest one lowers the high mark,
      and any other is parked. */
  ghost function Dropped(p: Pool, id: int): Pool {
    var ids := p.ids - {id};
    if ids == {} then Pool({}, [], 0, 0)
    else if id + 1 == p.high then p.(ids := ids, high := p.high - 1)
    else p.(ids := ids, parked := [id] + p.parked)
  }

  /** What comes of a request. The id parked last is issued before any other; with none parked the id at the
      high mark is, if the table can grow, and nothing but a lack of memory stands in the way of that. */
  ghost predicate Serves(p: Pool, r: Request, e: Event, p': Pool) {
    match r
    case Allocate(good) =>
      if p.parked != [] then e == Issued(p.parked[0]) && p' == p.(ids := p.ids + {p.parked[0]}, parked := p.parked[1..])
      else if p.capa == INT_MAX then e == Exhausted && p' == p
      else
        || (e == Issued(p.high) && p' == Pool(p.ids + {p.high}, [], p.high + 1, Grown(p.capa)))
        || (!good && e == Exhausted && p' == p)
    case Release(id) =>
      if id in p.ids then e == Released(id) && p' == Dropped(p, id) else e == Unknown(id) && p' == p
  }

  /** Request number `k` of a run gets the answer that the pool has for it. */
  ghost predicate ServedAt(pools: seq<Pool>, requests: seq<Request>, events: seq<Event>, k: int) {
    0 <= k < |requests| && k < |events| && k + 1 < |pools| && Serves(pools[k], requests[k], events[k], pools[k + 1])
  }

  const MOST_IDS := 33_554_432

  /** The ids below `n`. */
  ghost function Below(n: nat): set<int> {
    if n == 0 then {} else Below(n - 1) + {n - 1}
  }

  /** An empty map asked for one id after another issues 0, 1, 2 and so on up to 33554431, its table growing by
      64 slots each time, and then no more. */
  lemma {:induction false} IdsInOrder(pools: seq<Pool>, requests: seq<Request>, events: seq<Event>, k: nat)
    requires forall j {:trigger ServedAt(pools, requests, events, j)} :: 0 <= j < |requests| ==> ServedAt(pools, requests, events, j)
    requires k <= |requests| && forall j :: 0 <= j < k ==> requests[j] == Allocate(true)
    requires pools != [] && pools[0] == Pool({}, [], 0, 0)
    ensures k < |pools| && k <= |events|
    ensures var n := if k < MOST_IDS then k else MOST_IDS;
            pools[k] == Pool(Below(n), [], n, if n < MOST_IDS then GROWTH * n else INT_MAX)
    ensures forall j :: 0 <= j < k ==> events[j] == if j < MOST_IDS then Issued(j) else Exhausted
    decreases k
  {
    if k > 0 {
      assert ServedAt(pools, requests, events, k - 1);
      IdsInOrder(pools, requests, events, k - 1);
    }
  }

  /** An id that was released comes back before any other, the one released last first; but the highest id
      gives way to those released before it, and an empty map starts over. */
  lemma ReleasedComesBack(pools: seq<Pool>, requests: seq<Request>, events: seq<Event>, k: nat, id: int)
    requires ServedAt(pools, requests, events, k) && ServedAt(pools, requests, events, k + 1)
    requires requests[k] == Release(id) && requests[k + 1] == Allocate(true) && id in pools[k].ids
    ensures events[k] == Released(id)
    ensures pools[k].ids == {id} ==> events[k + 1] == Issued(0)
    ensures pools[k].ids != {id} && id + 1 != pools[k].high ==>
              events[k + 1] == Issued(id) && pools[k + 2] == pools[k]
    ensures pools[k].ids != {id} && id + 1 == pools[k].high && pools[k].parked == [] && pools[k].capa < INT_MAX ==>
              events[k + 1] == Issued(id) && pools[k + 2].ids == pools[k].ids && pools[k + 2].high == pools[k].high
    ensures pools[k].ids != {id} && id + 1 == pools[k].high && pools[k].parked != [] ==>
              events[k + 1] == Issued(pools[k].parked[0])
  {
    var p := pools[k];
    assert p.ids - {id} + {id} == p.ids;
    if p.ids - {id} == {} {
      assert forall other :: other in p.ids ==> other == id || other in p.ids - {id};
      assert p.ids == {id};
    }
    assert ([id] + p.parked)[1..] == p.parked;
  }

  /** The ids of a list of nodes, in order. */
  ghost function IdList(nodes: seq<Node>, list: seq<int>): seq<int> {
    seq(|list|, k requires 0 <= k < |list| => if 0 <= list[k] < |nodes| then nodes[list[k]].id else NULL)
  }

  lemma SameList(nodes: seq<Node>, nodes': seq<Node>, list: seq<int>, x: int)
    requires SameIds(nodes, nodes') && |nodes'| == |nodes| && 0 <= x < |nodes|
    ensures IdList(nodes', list) == IdList(nodes, list)
    ensures IdList(nodes', [x] + list) == [nodes[x].id] + IdList(nodes, list)
  {
  }

  // ---------------------------------------------------------------- the map

  class Map {
    var nodes: seq<Node>
    var head: int
    var tail: int
    var free: int
    var tab: seq<int>
    var capa: int
    var high: int
    ghost var live: seq<int>
    ghost var parked: seq<int>
    ghost var owner: seq<int>

    ghost predicate Valid()
      reads this
    {
      && LiveList(nodes, head, tail, live) && ParkedList(nodes, free, parked)
      && Ids(nodes, owner, live, parked, tab)
      && high == |owner| && capa == |tab| && Sized(high, capa)
    }

    /** The ids in use. */
    ghost function LiveIds(): set<int>
      reads this
    {
      IdsOf(nodes, live)
    }

    ghost function View(): Pool
      reads this
    {
      Pool(LiveIds(), IdList(nodes, parked), high, capa)
    }

    constructor ()
      ensures Valid() && live == [] && high == 0 && capa == 0 && View() == Pool({}, [], 0, 0)
    {
      nodes, head, tail, free, tab, capa, high := [], NULL, NULL, NULL, [], 0, 0;
      live, parked, owner := [], [], [];
    }

    /** Makes the table longer. It does so for every new id: the high mark is never above the capacity. */
    method Grow(good: bool) returns (ok: bool)
      requires Valid()
      modifies this`tab, this`capa
      ensures !ok ==> tab == old(tab) && capa == old(capa)
      ensures ok ==> |tab| == capa > old(capa) && high < capa && Sized(high + 1, capa)
      ensures ok ==> capa == Grown(old(capa))
      ensures ok ==> forall i :: 0 <= i < |tab| ==> tab[i] == if i < |old(tab)| then old(tab)[i] else NULL
      ensures (old(capa) == INT_MAX ==> !ok) && (good && old(capa) < INT_MAX ==> ok)
    {
      FewerIdsThanSlots(high, capa);
      var inc := INT_MAX - capa;
      if inc == 0 { return false; }
      if inc > GROWTH { inc := GROWTH; }
      var newcapa := capa + inc;
      ok := Attempt(good);
      if !ok { return; }
      tab := tab + seq(inc, _ => NULL);
      capa := newcapa;
    }

    /** Enters a node in the table and appends it to the live list. */
    method LinkLast(x: int)
      requires 0 <= x < |nodes| && NULL <= tail < |nodes| && 0 <= nodes[x].id < |tab| && tab[nodes[x].id] == NULL
      modifies this`nodes, this`head, this`tail, this`tab
      ensures nodes == Appended(old(nodes), old(tail), x) && tab == old(tab)[old(nodes)[x].id := x]
      ensures head == (if old(tail) == NULL then x else old(head)) && tail == x
    {
      assert tab[nodes[x].id] == NULL;
      tab := tab[nodes[x].id := x];
      nodes := nodes[x := nodes[x].(next := NULL)];
      nodes := nodes[x := nodes[x].(prev := tail)];
      if tail != NULL {
        nodes := nodes[tail := nodes[tail].(next := x)];
      } else {
        head := x;
      }
      tail := x;
    }

    /** A parked node is taken for use again, with its id. */
    method Reuse() returns (x: int)
      requires Valid() && free != NULL
      modifies this`nodes, this`head, this`tail, this`free, this`tab, this`live, this`parked
      ensures Valid() && old(parked) == [x] + parked && live == old(live) + [x]
      ensures |nodes| == |old(nodes)| && SameIds(old(nodes), nodes)
      ensures Owns(nodes, owner, x) && nodes[x].id == old(nodes)[x].id && tab[nodes[x].id] == x
    {
      PopParked(nodes, free, parked);
      x := free;
      assert Owns(nodes, owner, x) && IdAt(nodes, owner, live, parked, tab, nodes[x].id);
      AppendLive(nodes, head, tail, live, x);
      ghost var nodes' := Appended(nodes, tail, x);
      LiveNotParked(x);
      Activate(nodes, nodes', owner, live, parked, tab, x);
      ParkedFrame(nodes, nodes', nodes[x].next, parked[1..]);
      free := nodes[x].next;
      LinkLast(x);
      live, parked := live + [x], parked[1..];
      assert Owns(nodes, owner, x);
    }

    /** The tail of the live list is not on the parked list. */
    lemma LiveNotParked(x: int)
      requires Valid() && x in parked
      ensures x !in live && (tail != NULL ==> tail !in parked)
    {
      assert Owns(nodes, owner, x) && IdAt(nodes, owner, live, parked, tab, nodes[x].id);
      if tail != NULL {
        assert tail in live;
        assert Owns(nodes, owner, tail) && IdAt(nodes, owner, live, parked, tab, nodes[tail].id);
      }
    }

    /** A new node gets the id at the high mark, in a table that has been made longer. */
    method AddNode(ghost tab0: seq<int>) returns (x: int)
      requires LiveList(nodes, head, tail, live) && ParkedList(nodes, free, parked) && parked == []
      requires Ids(nodes, owner, live, parked, tab0)
      requires high == |owner| < capa == |tab| && Sized(high + 1, capa) && |tab| >= |tab0|
      requires forall i :: 0 <= i < |tab| ==> tab[i] == if i < |tab0| then tab0[i] else NULL
      modifies this`nodes, this`head, this`tail, this`tab, this`high, this`live, this`owner
      ensures Valid()
      ensures x == |old(nodes)| && live == old(live) + [x] && owner == old(owner) + [x]
      ensures Owns(nodes, owner, x) && nodes[x].id == old(high) && tab[nodes[x].id] == x && high == old(high) + 1
      ensures SameIds(old(nodes), nodes)
    {
      x := |nodes|;
      LiveMembers(nodes, head, tail, live);
      ghost var nodes0 := nodes;
      nodes := nodes + [Node(0, 0, high)];
      LiveFrame(nodes0, nodes, head, tail, live);
      AppendLive(nodes, head, tail, live, x);
      ghost var nodes' := Appended(nodes, tail, x);
      Extend(nodes0, nodes', owner, live, parked, tab0, tab);
      high := high + 1;
      LinkLast(x);
      live, owner := live + [x], owner + [x];
    }

    /** Allocates a new node, if there is memory for it and for a longer table. */
    method Fresh(good: bool) returns (x: int)
      requires Valid() && free == NULL
      modifies this`nodes, this`head, this`tail, this`tab, this`capa, this`high, this`live, this`owner
      ensures Valid()
      ensures x == NULL ==> nodes == old(nodes) && live == old(live) && tab == old(tab) && high == old(high)
      ensures x != NULL ==> x == |old(nodes)| && live == old(live) + [x] && owner == old(owner) + [x]
      ensures x != NULL ==> Owns(nodes, owner, x) && nodes[x].id == old(high) && tab[nodes[x].id] == x && high == old(high) + 1
      ensures x != NULL ==> SameIds(old(nodes), nodes) && capa == Grown(old(capa))
      ensures (old(capa) == INT_MAX ==> x == NULL) && (good && old(capa) < INT_MAX ==> x != NULL)
    {
      x := NULL;
      var ok := Attempt(good);
      if !ok { return; }
      ParkedMembers(nodes, free, parked);
      FewerIdsThanSlots(high, capa);
      ghost var tab0 := tab;
      if high <= capa {
        ok := Grow(good);
        if !ok { return; }
      }
      x := AddNode(tab0);
    }

    /** Allocates a node: a parked one with its id, or a new one with the id at the high mark. Its id was
        not in use; a failure leaves the map as it was. */
    method Make(good: bool) returns (x: int)
      requires Valid()
      modifies this
      ensures Valid()
      ensures x == NULL ==> live == old(live) && parked == old(parked) && tab == old(tab) && high == old(high) && nodes == old(nodes)
      ensures x != NULL ==> live == old(live) + [x] && Owns(nodes, owner, x) && tab[nodes[x].id] == x
      ensures x != NULL ==> nodes[x].id !in old(LiveIds()) && LiveIds() == old(LiveIds()) + {nodes[x].id}
      ensures old(parked) == [] && old(capa) == INT_MAX ==> x == NULL
      ensures good ==> (x == NULL <==> old(parked) == [] && old(capa) == INT_MAX)
      ensures old(parked) != [] ==> x != NULL && parked == old(parked)[1..] && high == old(high)
      ensures x != NULL && old(parked) == [] ==> nodes[x].id == old(high) && high == old(high) + 1
      ensures Serves(old(View()), Allocate(good), if x == NULL then Exhausted else Issued(nodes[x].id), View())
    {
      ghost var nodes0, live0 := nodes, live;
      LiveMembers(nodes, head, tail, live);
      ParkedMembers(nodes, free, parked);
      if free != NULL {
        LiveNotParked(parked[0]);
        x := Reuse();
      } else {
        x := Fresh(good);
        if x == NULL { return; }
      }
      NotInUse(nodes0, live0, x);
    }

    /** The id of the node appended last is that of no other live node. */
    lemma NotInUse(nodes0: seq<Node>, live0: seq<int>, x: int)
      requires Valid() && live == live0 + [x] && SameIds(nodes0, nodes) && 0 <= x < |nodes|
      requires forall k :: 0 <= k < |live0| ==> 0 <= live0[k] < |nodes0|
      ensures var ids := IdsOf(nodes0, live0);
              nodes[x].id !in ids && LiveIds() == ids + {nodes[x].id}
    {
      assert live[|live0|] == x;
      assert Owns(nodes, owner, x);
      forall k | 0 <= k < |live0| ensures nodes0[live0[k]].id != nodes[x].id && nodes0[live0[k]].id == nodes[live[k]].id {
        assert live[k] == live0[k] && live[k] in live;
        assert Owns(nodes, owner, live[k]);
      }
    }

    /** Takes a node out of the live list. */
    method Unlink(x: int, ghost k: nat)
      requires Valid() && k < |live| && live[k] == x
      modifies this`nodes, this`head, this`tail
      ensures 0 <= x < |old(nodes)| && |nodes| == |old(nodes)| && SameIds(old(nodes), nodes)
      ensures LiveList(nodes, head, tail, Without(live, k)) && ParkedList(nodes, free, parked)
    {
      LinksInRange(nodes, head, tail, live, k);
      RemoveLive(nodes, head, tail, live, k);
      ghost var nodes' := Removed(nodes, x);
      Neighbours(k);
      ParkedFrame(nodes, nodes', free, parked);
      var p, n := nodes[x].prev, nodes[x].next;
      if p != NULL { nodes := nodes[p := nodes[p].(next := n)]; }
      if n != NULL { nodes := nodes[n := nodes[n].(prev := p)]; }
      if head == x { head := n; }
      if tail == x { tail := p; }
    }

    /** The neighbours of a live node are live, hence not parked. */
    lemma Neighbours(k: nat)
      requires Valid() && k < |live|
      ensures live[k] !in parked && Successor(live, k) !in parked && Predecessor(live, k) !in parked
    {
      ParkedMembers(nodes, free, parked);
      forall j | 0 <= j < |live| ensures live[j] !in parked {
        assert live[j] in live;
        assert Owns(nodes, owner, live[j]) && IdAt(nodes, owner, live, parked, tab, nodes[live[j]].id);
      }
    }

    /** Takes a live node out of use: with the highest id it lowers the high mark, any other it is parked. */
    method Drop(x: int, ghost k: nat)
      requires Valid() && k < |live| && live[k] == x
      modifies this
      ensures Valid() && live == Without(old(live), k)
      ensures |nodes| == |old(nodes)| && SameIds(old(nodes), nodes)
      ensures 0 <= x < |old(nodes)| && 0 <= old(nodes)[x].id < |tab| == |old(tab)| && tab == old(tab)[old(nodes)[x].id := NULL]
      ensures old(nodes)[x].id + 1 == old(high) ==> high == old(high) - 1 && parked == old(parked)
      ensures old(nodes)[x].id + 1 != old(high) ==> high == old(high) && parked == [x] + old(parked)
    {
      Neighbours(k);
      assert x in live;
      assert Owns(nodes, owner, x);
      ghost var nodes0 := nodes;
      Unlink(x, k);
      ghost var live' := Without(live, k);
      WithoutMembers(live, k);
      if high == nodes[x].id + 1 {
        Retract(nodes0, nodes, owner, live, parked, tab, k);
        tab := tab[nodes[x].id := NULL];
        high := high - 1;
        owner := owner[..|owner| - 1];
      } else {
        PushParked(nodes, free, parked, x);
        ghost var nodes' := nodes[x := nodes[x].(next := free)];
        LiveFrame(nodes, nodes', head, tail, live');
        Park(nodes0, nodes', owner, live, parked, tab, k);
        tab := tab[nodes[x].id := NULL];
        nodes := nodes[x := nodes[x].(next := free)];
        free := x;
        parked := [x] + parked;
      }
      live := live';
    }

    /** The same with what can be seen of it. */
    method Remove(x: int, ghost k: nat)
      requires Valid() && k < |live| && live[k] == x
      modifies this
      ensures Valid() && live == Without(old(live), k) && (head == NULL <==> live == []) && (live == [] <==> LiveIds() == {})
      ensures 0 <= x < |old(nodes)| && 0 <= old(nodes)[x].id < |tab| == |old(tab)| && tab == old(tab)[old(nodes)[x].id := NULL]
      ensures var id, p := old(nodes)[x].id, old(View());
              if id + 1 == p.high then parked == old(parked) && View() == p.(ids := p.ids - {id}, high := p.high - 1)
              else parked == [x] + old(parked) && View() == p.(ids := p.ids - {id}, parked := [id] + p.parked)
    {
      ghost var nodes0, owner0, live0, parked0, tab0 := nodes, owner, live, parked, tab;
      Drop(x, k);
      IdsWithout(nodes0, nodes, owner0, live0, parked0, tab0, k);
      SameList(nodes0, nodes, parked0, x);
      SomeInUse();
    }

    /** There are ids in use exactly when there are live nodes. */
    lemma SomeInUse()
      requires LiveList(nodes, head, tail, live)
      ensures (live == [] <==> LiveIds() == {}) && (head == NULL <==> live == [])
    {
      LiveMembers(nodes, head, tail, live);
      if live != [] { assert nodes[live[0]].id in LiveIds(); }
    }

    /** Frees a live node: its id is free again at once. The node with the highest id lowers the high
        mark, any other is parked; and with the last live node the whole map is reset. */
    method Free(x: int, ghost k: nat)
      requires Valid() && k < |live| && live[k] == x
      modifies this
      ensures Valid() && live == Without(old(live), k)
      ensures 0 <= x < |old(nodes)| && LiveIds() == old(LiveIds()) - {old(nodes)[x].id}
      ensures live == [] ==> parked == [] && high == 0 && capa == 0 && tab == []
      ensures live != [] ==> 0 <= old(nodes)[x].id < |tab| == |old(tab)| && tab == old(tab)[old(nodes)[x].id := NULL]
      ensures live != [] && old(nodes)[x].id + 1 == old(high) ==> high == old(high) - 1 && parked == old(parked)
      ensures live != [] && old(nodes)[x].id + 1 != old(high) ==> high == old(high) && parked == [x] + old(parked)
      ensures View() == Dropped(old(View()), old(nodes)[x].id)
    {
      Remove(x, k);
      if head == NULL { Reset(); }
    }

    /** Releases the parked nodes one by one, and the table. */
    method Reset()
      requires ParkedList(nodes, free, parked) && live == [] && head == NULL && tail == NULL
      modifies this`free, this`parked, this`tab, this`capa, this`high, this`owner
      ensures Valid() && parked == [] && high == 0 && capa == 0 && tab == []
    {
      while free != NULL
        invariant ParkedList(nodes, free, parked) && live == [] && head == NULL && tail == NULL
        decreases |parked|
      {
        PopParked(nodes, free, parked);
        free := nodes[free].next;
        parked := parked[1..];
      }
      ParkedMembers(nodes, free, parked);
      high, capa, tab, owner := 0, 0, [], [];
    }

    /** Frees the node with an id, if the table has one: exactly the ids in use can be freed. */
    method FreeId(id: int) returns (ok: bool)
      requires Valid()
      modifies this
      ensures Valid() && ok == (id in old(LiveIds())) && LiveIds() == old(LiveIds()) - {id}
      ensures View() == if ok then Dropped(old(View()), id) else old(View())
    {
      TableIsLive(id);
      ok := 0 <= id < high && tab[id] != NULL;
      if ok {
        ghost var k :| 0 <= k < |live| && live[k] == tab[id];
        Free(tab[id], k);
      }
    }

    /** Serves any sequence of requests, with the pool as it is before each and after the last: every request
        gets the answer that the pool has for it, and no id in use is ever issued again. */
    method Run(requests: seq<Request>) returns (events: seq<Event>, ghost pools: seq<Pool>)
      requires Valid()
      modifies this
      ensures Valid() && |events| == |requests| && |pools| == |requests| + 1 && pools[0] == old(View()) && pools[|requests|] == View()
      ensures forall k {:trigger ServedAt(pools, requests, events, k)} :: 0 <= k < |requests| ==> ServedAt(pools, requests, events, k)
      ensures History(old(LiveIds()), events, LiveIds())
    {
      events, pools := [], [View()];
      for i := 0 to |requests|
        invariant Valid() && |events| == i && |pools| == i + 1 && pools[0] == old(View()) && pools[i] == View()
        invariant forall k {:trigger ServedAt(pools, requests, events, k)} :: 0 <= k < i ==> ServedAt(pools, requests, events, k)
        invariant History(old(LiveIds()), events, LiveIds())
      {
        ghost var pools0, events0 := pools, events;
        var e := ServeOne(requests[i], old(LiveIds()), events);
        events, pools := events + [e], pools + [View()];
        forall k | 0 <= k <= i ensures ServedAt(pools, requests, events, k) {
          if k < i { assert ServedAt(pools0, requests, events0, k); }
        }
      }
    }

    method ServeOne(request: Request, ghost first: set<int>, ghost past: seq<Event>) returns (e: Event)
      requires Valid() && History(first, past, LiveIds())
      modifies this
      ensures Valid() && History(first, past + [e], LiveIds()) && Serves(old(View()), request, e, View())
    {
      ghost var before := LiveIds();
      match request {
        case Allocate(_) =>
          var x := Make(request.good);
          e := if x == NULL then Exhausted else Issued(nodes[x].id);
        case Release(id) =>
          var ok := FreeId(id);
          e := if ok then Released(id) else Unknown(id);
      }
      HistorySnoc(first, past, before, e);
    }

    lemma TableIsLive(id: int)
      requires Valid()
      ensures id in LiveIds() <==> 0 <= id < high && tab[id] != NULL
      ensures id in LiveIds() ==> tab[id] in live && 0 <= tab[id] < |nodes| && nodes[tab[id]].id == id
    {
      LiveMembers(nodes, head, tail, live);
      if 0 <= id < high {
        assert IdAt(nodes, owner, live, parked, tab, id);
        if tab[id] != NULL {
          var k :| 0 <= k < |live| && live[k] == tab[id];
          assert nodes[live[k]].id in LiveIds();
        }
      }
      if id in LiveIds() {
        var k :| 0 <= k < |live| && 0 <= live[k] < |nodes| && nodes[live[k]].id == id;
        assert live[k] in live && Owns(nodes, owner, live[k]);
      }
    }
  }
}
