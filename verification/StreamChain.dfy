/** The chain of open streams: a linked list that entries are put in front of when a stream is opened
    and taken out of when it is closed. */
module StreamChain {
  import opened Pointers
  import opened StreamLife

  /** Links are indices into the memory of the chain. */
  datatype Node = Node(entry: Entry, next: int)

  ghost predicate At(nodes: seq<Node>, list: seq<int>, k: nat)
    requires k < |list|
  {
    0 <= list[k] < |nodes| && nodes[list[k]].next == Successor(list, k)
  }

  ghost predicate Linked(nodes: seq<Node>, head: int, list: seq<int>) {
    && NoDup(list)
    && head == (if list == [] then NULL else list[0])
    && forall k: nat {:trigger At(nodes, list, k)} :: k < |list| ==> At(nodes, list, k)
  }

  ghost predicate InMemory(nodes: seq<Node>, list: seq<int>) {
    forall k :: 0 <= k < |list| ==> 0 <= list[k] < |nodes|
  }

  /** The entries of a list of nodes. */
  ghost function Entries(nodes: seq<Node>, list: seq<int>): (chain: seq<Entry>)
    requires InMemory(nodes, list)
    ensures |chain| == |list| && forall k :: 0 <= k < |list| ==> chain[k] == nodes[list[k]].entry
  {
    seq(|list|, k requires 0 <= k < |list| => nodes[list[k]].entry)
  }

  lemma LinkedMembers(nodes: seq<Node>, head: int, list: seq<int>)
    requires Linked(nodes, head, list)
    ensures InMemory(nodes, list) && (head == NULL <==> list == [])
  {
    forall k | 0 <= k < |list| ensures 0 <= list[k] < |nodes| { assert At(nodes, list, k); }
  }

  lemma PushNode(nodes: seq<Node>, head: int, list: seq<int>, e: Entry)
    requires Linked(nodes, head, list)
    ensures var nodes', list' := nodes + [Node(e, head)], [|nodes|] + list;
            && Linked(nodes', |nodes|, list') && InMemory(nodes, list) && InMemory(nodes', list')
            && Entries(nodes', list') == [e] + Entries(nodes, list)
  {
    LinkedMembers(nodes, head, list);
    var nodes', list' := nodes + [Node(e, head)], [|nodes|] + list;
    forall k: nat | k < |list'| ensures At(nodes', list', k) {
      if k > 0 { assert At(nodes, list, k - 1); }
    }
  }

  /** The memory after the `k`-th node is taken out of a list. */
  ghost function Relinked(nodes: seq<Node>, prev: int, x: int): seq<Node>
    requires NULL <= prev < |nodes| && 0 <= x < |nodes|
  {
    if prev != NULL then nodes[prev := nodes[prev].(next := nodes[x].next)] else nodes
  }

  lemma CutLinks(nodes: seq<Node>, head: int, list: seq<int>, k: nat)
    requires Linked(nodes, head, list) && InMemory(nodes, list) && k < |list|
    ensures Linked(Relinked(nodes, Predecessor(list, k), list[k]), if k == 0 then nodes[list[k]].next else head, Without(list, k))
  {
    var nodes', list' := Relinked(nodes, Predecessor(list, k), list[k]), Without(list, k);
    assert At(nodes, list, k);
    forall j: nat | j < |list'| ensures At(nodes', list', j) {
      var o := if j < k then j else j + 1;
      assert list'[j] == list[o] && At(nodes, list, o);
    }
  }

  lemma CutNode(nodes: seq<Node>, head: int, list: seq<int>, k: nat)
    requires Linked(nodes, head, list) && InMemory(nodes, list) && k < |list|
    ensures var nodes', list' := Relinked(nodes, Predecessor(list, k), list[k]), Without(list, k);
            && Linked(nodes', if k == 0 then nodes[list[k]].next else head, list') && InMemory(nodes', list')
            && Entries(nodes', list') == Cut(Entries(nodes, list), k)
  {
    var nodes', list' := Relinked(nodes, Predecessor(list, k), list[k]), Without(list, k);
    CutLinks(nodes, head, list, k);
    LinkedMembers(nodes', if k == 0 then nodes[list[k]].next else head, list');
    forall j | 0 <= j < |list'| ensures nodes'[list'[j]].entry == Cut(Entries(nodes, list), k)[j] {
      assert list'[j] == list[if j < k then j else j + 1];
    }
  }

  lemma StoreEntry(nodes: seq<Node>, head: int, list: seq<int>, k: nat, e: Entry)
    requires Linked(nodes, head, list) && InMemory(nodes, list) && k < |list|
    ensures var nodes' := nodes[list[k] := nodes[list[k]].(entry := e)];
            && Linked(nodes', head, list) && InMemory(nodes', list)
            && Entries(nodes', list) == Entries(nodes, list)[k := e]
  {
    var nodes' := nodes[list[k] := nodes[list[k]].(entry := e)];
    forall j: nat | j < |list| ensures At(nodes', list, j) { assert At(nodes, list, j); }
  }

  /** What the final clearing makes of an entry: its handler, if there is one, is asked to close it fully
      and whatever it answers the entry goes. */
  function Swept(e: Entry, handlers: set<Kind>): Outcome {
    Unlinked(e.key, if e.key.kind in handlers then Full else e.closing)
  }

  class Chain {
    var nodes: seq<Node>
    var head: int
    var handlers: set<Kind>
    ghost var list: seq<int>

    /** No two entries have the same key. */
    ghost predicate Valid()
      reads this
    {
      Linked(nodes, head, list) && InMemory(nodes, list) && Distinct(Entries(nodes, list))
    }

    ghost function View(): seq<Entry>
      requires Valid()
      reads this
    {
      Entries(nodes, list)
    }

    constructor (kinds: set<Kind>)
      ensures Valid() && View() == [] && handlers == kinds
    {
      nodes, head, handlers, list := [], NULL, kinds, [];
    }

    /** Walks to the next node of the chain. */
    method Step(p: int, ghost k: nat) returns (next: int)
      requires Valid() && k < |list| && p == list[k]
      ensures next == Successor(list, k)
    {
      assert At(nodes, list, k);
      next := nodes[p].next;
    }

    /** The entry with a key, and the one before it. */
    method Search(key: Key) returns (prev: int, p: int, ghost k: nat)
      requires Valid()
      ensures p == NULL ==> forall j :: 0 <= j < |list| ==> View()[j].key != key
      ensures p != NULL ==> k < |list| && p == list[k] && prev == Predecessor(list, k) && View()[k].key == key
    {
      prev, p, k := NULL, head, 0;
      while p != NULL
        invariant k <= |list| && p == (if k < |list| then list[k] else NULL)
        invariant prev == (if k > 0 then list[k - 1] else NULL)
        invariant forall j :: 0 <= j < k ==> View()[j].key != key
        decreases |list| - k
      {
        if nodes[p].entry.key == key { return; }
        var next := Step(p, k);
        prev, p, k := p, next, k + 1;
      }
    }

    /** The first entry that a close reaches, and the one before it. */
    method SearchName(name: string, opt: Closing) returns (prev: int, p: int, ghost k: nat)
      requires Valid()
      ensures p == NULL ==> forall j :: 0 <= j < |list| ==> !Reaches(View()[j], name, opt)
      ensures p != NULL ==> FirstReached(View(), name, opt, k) && p == list[k] && prev == Predecessor(list, k)
    {
      prev, p, k := NULL, head, 0;
      while p != NULL
        invariant k <= |list| && p == (if k < |list| then list[k] else NULL)
        invariant prev == (if k > 0 then list[k - 1] else NULL)
        invariant forall j :: 0 <= j < k ==> !Reaches(View()[j], name, opt)
        decreases |list| - k
      {
        if Reaches(nodes[p].entry, name, opt) { return; }
        var next := Step(p, k);
        prev, p, k := p, next, k + 1;
      }
    }

    /** Takes an entry out of the chain. */
    method Unlink(prev: int, p: int, ghost k: nat)
      requires Valid() && k < |list| && p == list[k] && prev == Predecessor(list, k)
      modifies this`nodes, this`head, this`list
      ensures Valid() && View() == Cut(old(View()), k)
    {
      UnlinkFollows(View(), k, Full);
      CutNode(nodes, head, list, k);
      if prev != NULL {
        nodes := nodes[prev := nodes[prev].(next := nodes[p].next)];
      } else {
        head := nodes[p].next;
      }
      list := Without(list, k);
    }

    /** Changes an entry. */
    method Store(p: int, e: Entry, ghost k: nat)
      requires Valid() && k < |list| && p == list[k] && e.key == View()[k].key
      modifies this`nodes
      ensures Valid() && View() == old(View())[k := e] && list == old(list)
    {
      StoreEntry(nodes, head, list, k, e);
      nodes := nodes[p := nodes[p].(entry := e)];
    }

    /** Finds the stream with a key, or opens it and puts it in front. */
    method FindOrCreate(key: Key, mode: Mode, agrees: bool) returns (p: int, o: Outcome)
      requires Valid()
      modifies this`nodes, this`head, this`list
      ensures Valid() && Follows(old(View()), o, View())
      ensures Opens(old(View()), handlers, key, mode, agrees, o, View()) && (o == Failed <==> p == NULL)
      ensures p != NULL ==> p in list && 0 <= p < |nodes| && nodes[p].entry.key == key
    {
      o := Failed;
      if key.kind !in handlers { return NULL, o; }
      var prev; ghost var k;
      prev, p, k := Search(key);
      if p != NULL {
        FoundFollows(View(), k);
        return p, Found(key);
      }
      if !agrees { return; }
      var e := Entry(key, mode, Full, Full);
      CreateFollows(View(), e);
      PushNode(nodes, head, list, e);
      p := |nodes|;
      nodes := nodes + [Node(e, head)];
      head := p;
      list := [p] + list;
      o := Created(key);
    }

    /** Closes the stream with a key, whatever ends of it are open. */
    method CloseKey(key: Key, agrees: bool) returns (o: Outcome)
      requires Valid()
      modifies this`nodes, this`head, this`list
      ensures Valid() && Follows(old(View()), o, View())
      ensures ClosesKey(old(View()), handlers, key, agrees, o, View())
    {
      o := Failed;
      if key.kind !in handlers { return; }
      var prev, p; ghost var k;
      prev, p, k := Search(key);
      if p == NULL { return; }
      if !agrees { return; }
      var asked := nodes[p].entry.closing;
      UnlinkFollows(View(), k, asked);
      Unlink(prev, p, k);
      o := Unlinked(key, asked);
    }

    /** Closes the first stream with a name that goes the way of the option. A stream whose handler has
        been taken away is closed without it. */
    method Close(name: string, opt: Closing, agrees: bool) returns (o: Outcome)
      requires Valid()
      modifies this`nodes, this`head, this`list
      ensures Valid() && Follows(old(View()), o, View())
      ensures ClosesName(old(View()), handlers, name, opt, agrees, o, View())
    {
      o := Failed;
      var prev, p; ghost var k;
      prev, p, k := SearchName(name, opt);
      if p == NULL { return; }
      o := CloseReached(prev, p, k, opt, agrees);
    }

    /** Closes a stream that was reached. */
    method CloseReached(prev: int, p: int, ghost k: nat, opt: Closing, agrees: bool) returns (o: Outcome)
      requires Valid() && k < |list| && p == list[k] && prev == Predecessor(list, k)
      modifies this`nodes, this`head, this`list
      ensures Valid() && Follows(old(View()), o, View())
      ensures Closed(old(View()), k, opt, old(View())[k].key.kind in handlers, agrees, o, View())
    {
      ghost var chain := View();
      var e := nodes[p].entry;
      var mode := Requested(e, opt);
      o := Failed;
      var ok := true;
      if e.key.kind in handlers {
        Store(p, e.(closing := mode), k);
        ok := agrees;
      }
      if ok {
        if e.key.direction.TwoWay? {
          Store(p, nodes[p].entry.(closing := mode), k);
        }
        o := Finish(prev, p, k, mode);
        CutStored(chain, k, Asked(e, opt, e.key.kind in handlers));
      }
      assert Closed(chain, k, opt, e.key.kind in handlers, agrees, o, View());
      ClosedFollows(chain, k, opt, e.key.kind in handlers, agrees, o, View());
    }

    /** Keeps a stream whose first end has been closed, and takes out any other. */
    method Finish(prev: int, p: int, ghost k: nat, mode: Closing) returns (o: Outcome)
      requires Valid() && k < |list| && p == list[k] && prev == Predecessor(list, k)
      modifies this`nodes, this`head, this`list
      ensures Valid()
      ensures var e := old(View())[k];
              if e.key.direction.TwoWay? && e.closed == Full && mode != Full
              then o == HalfClosed(e.key, mode) && View() == old(View())[k := e.(closed := mode)]
              else o == Unlinked(e.key, e.closing) && View() == Cut(old(View()), k)
    {
      var e := nodes[p].entry;
      if e.key.direction.TwoWay? && e.closed == Full && mode != Full {
        Store(p, e.(closed := mode), k);
        return HalfClosed(e.key, mode);
      }
      Unlink(prev, p, k);
      o := Unlinked(e.key, e.closing);
    }

    /** Closes every stream, front to back, whatever the handlers answer. */
    method Clear() returns (log: seq<Outcome>)
      requires Valid()
      modifies this`nodes, this`head, this`list
      ensures Valid() && View() == [] && FollowsAll(old(View()), log, [])
      ensures |log| == |old(View())| && forall k :: 0 <= k < |log| ==> log[k] == Swept(old(View())[k], handlers)
    {
      log := [];
      LinkedMembers(nodes, head, list);
      ghost var first := View();
      while head != NULL
        invariant Valid() && |log| <= |first| && View() == first[|log|..] && (head == NULL <==> list == [])
        invariant forall k :: 0 <= k < |log| ==> log[k] == Swept(first[k], handlers)
        invariant FollowsAll(first, log, View())
        decreases |list|
      {
        ghost var before := View();
        var o := ClearFirst();
        LinkedMembers(nodes, head, list);
        FollowsSnoc(first, log, before, o, View());
        log := log + [o];
      }
    }

    /** Closes the first stream of the chain. */
    method ClearFirst() returns (o: Outcome)
      requires Valid() && head != NULL
      modifies this`nodes, this`head, this`list
      ensures Valid() && |old(View())| > 0 && View() == old(View())[1..] && |list| == |old(list)| - 1
      ensures o == Swept(old(View())[0], handlers) && Follows(old(View()), o, View())
    {
      ghost var chain := View();
      LinkedMembers(nodes, head, list);
      var e := nodes[head].entry;
      UnlinkFollows(chain, 0, Swept(e, handlers).asked);
      CutStored(chain, 0, e.(closing := Full));
      if e.key.kind in handlers {
        Store(head, e.(closing := Full), 0);
      }
      o := Unlinked(e.key, nodes[head].entry.closing);
      Unlink(NULL, head, 0);
      assert Cut(chain, 0) == chain[1..];
    }

    /** One request of the program. */
    method Serve(r: Request) returns (o: Outcome)
      requires Valid()
      modifies this
      ensures Valid() && Follows(old(View()), o, View())
      ensures Answers(old(View()), old(handlers), r, o, View())
      ensures handlers == if r.Provide? then r.kinds else old(handlers)
    {
      match r {
        case OpenIn(input, name, agrees) =>
          var _, o' := FindOrCreate(InKey(input, name), InMode(input), agrees);
          o := o';
        case OpenOut(output, name, agrees) =>
          var _, o' := FindOrCreate(OutKey(output, name), OutMode(output), agrees);
          o := o';
        case CloseIn(input, name, agrees) => o := CloseKey(InKey(input, name), agrees);
        case CloseOut(output, name, agrees) => o := CloseKey(OutKey(output, name), agrees);
        case CloseAny(name, opt, agrees) => o := Close(name, opt, agrees);
        case Provide(kinds) => handlers := kinds; o := Failed;
      }
    }
  }

  /** A whole run of a program, and the clearing at its end. Each request is answered as its operation
      promises on the chain it finds, keys are distinct at all times, every stream left open is unlinked
      at the end, and the log tells of every stream a whole number of lives. */
  method Run(kinds: set<Kind>, requests: seq<Request>) returns (log: seq<Outcome>, last: seq<Outcome>, ghost h: History)
    ensures IsRun(kinds, requests, h) && h.log == log && forall n :: 0 <= n <= |requests| ==> Distinct(h.chains[n])
    ensures var open, handlers := h.chains[|requests|], h.handlers[|requests|];
            |last| == |open| && forall k :: 0 <= k < |last| ==> last[k] == Swept(open[k], handlers)
    ensures forall key, n :: 0 <= n <= |log + last| ==> Lived(Absent, key, (log + last)[..n]) != Broken
    ensures forall key :: Lived(Absent, key, log + last) == Absent
  {
    var chain := new Chain(kinds);
    log, h := Perform(chain, requests);
    forall n | 0 <= n <= |requests| ensures Distinct(h.chains[n]) { DistinctInRun(kinds, requests, h, n); }
    LivesInRun(kinds, requests, h);
    last := chain.Clear();
    FollowsJoin([], log, h.chains[|requests|], last, []);
    WholeLives(log + last);
  }

  /** The requests of a program, one after the other. */
  method Perform(chain: Chain, requests: seq<Request>) returns (log: seq<Outcome>, ghost h: History)
    requires chain.Valid() && chain.View() == []
    modifies chain
    ensures chain.Valid() && IsRun(old(chain.handlers), requests, h) && h.log == log
    ensures h.chains[|requests|] == chain.View() && h.handlers[|requests|] == chain.handlers
  {
    ghost var kinds := chain.handlers;
    log := [];
    h := History([[]], [kinds], []);
    for i := 0 to |requests|
      invariant chain.Valid() && IsRun(kinds, requests[..i], h) && h.log == log
      invariant h.chains[i] == chain.View() && h.handlers[i] == chain.handlers
    {
      var o := chain.Serve(requests[i]);
      RunSnoc(kinds, requests[..i], h, requests[i], o, chain.View(), chain.handlers);
      assert requests[..i] + [requests[i]] == requests[..i + 1];
      log := log + [o];
      h := Extended(h, o, chain.View(), chain.handlers);
    }
    assert requests[..|requests|] == requests;
  }

  lemma WholeLives(log: seq<Outcome>)
    requires FollowsAll([], log, [])
    ensures forall key :: Lived(Absent, key, log) == Absent
    ensures forall key, n :: 0 <= n <= |log| ==> Lived(Absent, key, log[..n]) != Broken
  {
    forall key ensures Lived(Absent, key, log) == Absent {
      assert LifeIn([], key) == Absent;
    }
    forall key, n | 0 <= n <= |log| ensures Lived(Absent, key, log[..n]) != Broken {
      NeverBroken(Absent, key, log, n);
    }
  }
}
