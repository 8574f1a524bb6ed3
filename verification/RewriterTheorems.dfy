/** What holds of every run of the URL rewriting server. */
module RewriterTheorems {
  import opened Common
  import opened Wire
  import opened Pointers
  import opened RewriterLinks
  import opened Accounts
  import opened RewriterStates
  import opened RewriterRuns

  // ---------------------------------------------------------------- the packet of an output event

  /** Rewriter `i` is the only place where anything is left of a case, and no packet is about it. */
  lemma OnlyHere(s: State, i: nat)
    requires Sound(s) && i < |s.job| && s.job[i].Some?
    ensures var key := s.job[i].value.Name();
            && Genuine(s.arrivals, s.strays, s.job[i]) && Pending(s.job, s.waiting, key) == 1
            && (forall j :: 0 <= j < |s.job| && j != i ==> Is(s.job[j], key) == 0)
            && (forall k :: 0 <= k < |s.sent| ==> s.sent[k].cause.Name() != key)
            && (forall k :: 0 <= k < |s.waiting| ==> Numbered(s.waiting[k].id) != key)
  {
    var key := s.job[i].value.Name();
    assert Genuine(s.arrivals, s.strays, s.job[i]) && BalancedAt(s.sent, s.job, s.waiting, s.arrivals, s.strays, key);
    WorkingAt(s.job, i, key);
    WorkingUpdate(s.job, i, None, key);
    var rest := s.job[i := None];
    forall j: nat | j < |s.job| && j != i ensures Is(s.job[j], key) == 0 {
      if Is(rest[j], key) == 1 { WorkingAt(rest, j, key); }
    }
    forall k: nat | k < |s.sent| ensures s.sent[k].cause.Name() != key {
      if s.sent[k].cause.Name() == key { RepliesAt(s.sent, k, key); }
    }
    forall k: nat | k < |s.waiting| ensures Numbered(s.waiting[k].id) != key {
      if Numbered(s.waiting[k].id) == key { QueuedAt(s.waiting, k); }
    }
  }

  /** A step sends one packet, to a datagram that had not been answered before and is then done with. */
  ghost predicate FirstReply(s: State, s': State, req: Request) {
    && Pending(s.job, s.waiting, Numbered(req.id)) == 1 && Pending(s'.job, s'.waiting, Numbered(req.id)) == 0
    && |s'.outbox| == |s.outbox| + 1 && RepliesTo(s'.outbox[|s.outbox|], req)
  }

  /** A packet that an output event sends is the first reply to an accepted datagram exactly when the
      rewriter was busy or being fed. */
  lemma FirstReplyExactly(s: State, s': State, i: int, data: seq<byte>)
    requires Sound(s) && 0 <= i < |s.rw| && OutOf(i) in s.mux && Hears(s, s', i, data) && s'.outbox != s.outbox
    ensures (exists id: nat :: id < |s.arrivals| && FirstReply(s, s', s.arrivals[id])) <==> s.rw[i].busy || Into(i) in s.mux
  {
    assert RewriterOk(s.rw[i], i, s.mux, s.job[i], s.acts[i]);
    forall id: nat ensures Pending(s'.job, s'.waiting, Numbered(id)) + Is(s.job[i], Numbered(id)) == Pending(s.job, s.waiting, Numbered(id)) {
      WorkingUpdate(s.job, i, s'.job[i], Numbered(id));
    }
    if s.rw[i].busy || Into(i) in s.mux {
      OnlyHere(s, i);
      var req := s.job[i].value.req;
      assert FirstReply(s, s', s.arrivals[req.id]);
    }
  }

  /** What the process of a free rewriter makes the server send when it speaks up or ends: once more the
      header of the last request the rewriter was about, to its sender, although that request has been
      answered. If the rewriter was about a malformed datagram last, that is sent back once more; and if it
      was about nothing yet, a clear header goes to a clear address. */
  lemma SecondPacket(s: State, s': State, i: int, data: seq<byte>)
    requires Sound(s) && 0 <= i < |s.rw| && s.rw[i].free && Hears(s, s', i, data)
    ensures |s'.outbox| == |s.outbox| + 1
    ensures var packet := s'.outbox[|s.outbox|];
            match s.acts[i].last
            case Some(Call(req)) =>
              && packet == Packet(req.from, req.hdr, 10, [])
              && exists k: nat :: k < |s.outbox| && Answers(s.outbox, s.sent, k, req)
            case Some(Stray(n, _, _)) =>
              && n < |s.strays| && packet == Packet(s.strays[n].from, s.strays[n].hdr, 10, [])
              && exists k: nat :: k < |s.outbox| && s.outbox[k] == packet
            case None => packet == Packet(0, Header(0, 0, 0), 10, [])
  {
    assert RewriterOk(s.rw[i], i, s.mux, s.job[i], s.acts[i]) && FlagAt(s.rw[i], i, s.fl, s.bl);
    assert Remembered(s.acts[i], s.sent);
    if s.acts[i].last.Some? {
      var k: nat :| k < |s.sent| && s.sent[k].cause == s.acts[i].last.value;
      assert SentOk(s.sent[k]) && Genuine(s.arrivals, s.strays, Some(s.sent[k].cause));
      if s.acts[i].last.value.Call? {
        AnsweredBy(s.outbox, s.sent, k, s.acts[i].last.value.req);
      }
    }
  }

  // ---------------------------------------------------------------- arrivals

  /** In every run: a datagram makes the next request exactly when the length it states is its own, with a
      header of ten bytes; that request has its sender, its header and the bytes behind the header as the
      URL. Nothing else makes a request. */
  lemma ArrivalInRun(events: seq<Event>, log: seq<State>, k: nat)
    requires IsRun(events, log) && k + 1 < |log|
    ensures var before, after := log[k].arrivals, log[k + 1].arrivals;
            match events[k]
            case Socket(Datagram(from, hdr, pktlen, payload), _, _) =>
              after == if pktlen == 10 + |payload| then before + [Request(|before|, from, hdr, payload)] else before
            case _ => after == before
  {
    assert StepAt(events, log, k);
    ArrivalsStep(events[k], log[k], log[k + 1]);
  }

  /** In every run: a datagram that finds no rewriter free joins the end of the queue, or, only if there is no
      memory, is answered at once by its own header with the error code and nothing else. */
  lemma QueuedInRun(events: seq<Event>, log: seq<State>, k: nat)
    requires IsRun(events, log) && k + 1 < |log| && events[k].Socket? && log[k].fl == []
    requires events[k].arrival.Datagram? && events[k].arrival.pktlen == 10 + |events[k].arrival.payload|
    ensures var s, s', a := log[k], log[k + 1], events[k].arrival;
            var req := Request(|s.arrivals|, a.from, a.hdr, a.payload);
            || (s'.waiting == s.waiting + [req] && s'.outbox == s.outbox)
            || (!events[k].memoryLeft && s'.waiting == s.waiting &&
                s'.outbox == s.outbox + [Packet(a.from, Header(a.hdr.seqNo, 1, a.hdr.urlsum), 10, [])])
  {
    assert StepAt(events, log, k);
  }

  // ---------------------------------------------------------------- the pool

  /** In every run: the free count is the number of rewriters flagged as free; a rewriter is flagged as free
      or busy exactly when it is on that list, and never both; the output of a process is registered exactly
      while there is a process, and its input exactly while the rewriter is flagged for that, which is so
      only while it is on neither list. */
  lemma PoolInRun(events: seq<Event>, log: seq<State>, k: nat, i: int)
    requires IsRun(events, log) && k < |log| && !SpokenUpBefore(events, log, k) && 0 <= i < |log[k].rw|
    ensures var s := log[k];
            var r := s.rw[i];
            && s.freeCount == |Free(s.rw)| == |s.fl| && (s.freeHead == NULL <==> Free(s.rw) == {})
            && (r.free <==> i in s.fl) && (r.busy <==> i in s.bl) && !(r.free && r.busy)
            && (OutOf(i) in s.mux <==> r.pio)
            && (Into(i) in s.mux <==> r.inMux) && (Into(i) in s.mux ==> r.pio && !r.free && !r.busy)
  {
    var s := log[k];
    FreeCountForced(s.rw, s.freeHead, s.freeCount, s.fl, s.busyHead, s.bl);
    LinkedMembers(s.rw, s.freeHead, s.fl);
    assert FlagAt(s.rw[i], i, s.fl, s.bl) && RewriterOk(s.rw[i], i, s.mux, s.job[i], s.acts[i]);
  }

  /** In every run: draining takes the longest waiting requests off the queue, in order, gives each to a
      rewriter or answers it, and leaves none waiting or no rewriter free. */
  lemma DrainInRun(events: seq<Event>, log: seq<State>, k: nat) returns (n: nat)
    requires IsRun(events, log) && k + 1 < |log| && events[k].Drain?
    ensures n <= |log[k].waiting| && log[k + 1].waiting == log[k].waiting[n..]
    ensures log[k + 1].waiting == [] || log[k + 1].freeHead == NULL
    ensures forall j :: 0 <= j < n ==> Handed(log[k + 1], log[k].waiting[j])
    ensures events[k].good ==> log[k + 1].outbox == log[k].outbox
  {
    var s, s' := log[k], log[k + 1];
    assert StepAt(events, log, k) && !SpokenUpBefore(events, log, k + 1);
    n :| HandsOut(s, s', n, events[k].good);
    LinkedMembers(s'.rw, s'.freeHead, s'.fl);
  }

  // ---------------------------------------------------------------- pipes

  /** Whatever process there is has been given whole lines, each the line of a request that it was the one
      to answer, and behind them as much of the line of the request at hand as has been fed; all of it once
      the rewriter is busy, nothing when the rewriter is free. */
  lemma PipesAreWhole(s: State, i: int)
    requires Sound(s) && 0 <= i < |s.rw| && s.rw[i].pio
    ensures |s.job| == |s.acts| == |s.rw|
    ensures var a := s.acts[i];
            && a.pipe == (if s.rw[i].busy || Into(i) in s.mux then Lines(a.done) + a.fed else Lines(a.done))
            && (s.rw[i].busy || Into(i) in s.mux ==> s.job[i].Some? && s.job[i].value.Call? && a.fed <= s.job[i].value.req.url + [10])
            && (s.rw[i].busy ==> a.fed == s.job[i].value.req.url + [10])
            && forall req :: req in a.done ==> exists k: nat :: Answers(s.outbox, s.sent, k, req) && s.sent[k].output.Some?
  {
    assert RewriterOk(s.rw[i], i, s.mux, s.job[i], s.acts[i]) && FlagAt(s.rw[i], i, s.fl, s.bl);
    assert Remembered(s.acts[i], s.sent);
    forall req | req in s.acts[i].done ensures exists k: nat :: Answers(s.outbox, s.sent, k, req) && s.sent[k].output.Some? {
      assert RewrittenFor(s.sent, req);
      var k: nat :| k < |s.sent| && s.sent[k].cause == Call(req) && s.sent[k].output.Some?;
      AnsweredBy(s.outbox, s.sent, k, req);
    }
  }

  // ---------------------------------------------------------------- rewritten replies

  /** What an event reads for a request: the output of the busy rewriter that works on it. */
  ghost function ReadFor(e: Event, s: State, id: nat): seq<byte> {
    if e.Output? && Watched(s, e) && e.i < |s.job| == |s.acts| && s.rw[e.i].busy && Is(s.job[e.i], Numbered(id)) == 1
    then Fitting(s.acts[e.i].got, e.data)
    else []
  }

  /** What the first `k` events of a run read for a request. */
  ghost function Collected(events: seq<Event>, log: seq<State>, id: nat, k: nat): seq<byte>
    requires k <= |events| && k < |log|
  {
    if k == 0 then [] else Collected(events, log, id, k - 1) + ReadFor(events[k - 1], log[k - 1], id)
  }

  /** `c` is what has been read for a request: it is with the rewriter that works on the request, or went
      out with the rewritten reply, and it is nothing before the request is worked on. */
  ghost predicate Fits(s: State, id: nat, c: seq<byte>) {
    && |s.job| == |s.acts|
    && (forall i :: 0 <= i < |s.job| && Is(s.job[i], Numbered(id)) == 1 ==> s.acts[i].got == c)
    && (forall m :: 0 <= m < |s.sent| && s.sent[m].cause.Name() == Numbered(id) && s.sent[m].output.Some? ==> s.sent[m].output.value == c)
    && (forall k :: 0 <= k < |s.waiting| && s.waiting[k].id == id ==> c == [])
    && (id >= |s.arrivals| ==> c == [])
  }

  /** What had been read for a request before. */
  ghost function ReadBefore(s: State, id: nat): seq<byte> {
    if i :| 0 <= i < |s.job| && i < |s.acts| && Is(s.job[i], Numbered(id)) == 1 then s.acts[i].got else []
  }

  lemma FitsAtFirst(s: State, id: nat)
    requires Sound(s) && forall m :: 0 <= m < |s.sent| && s.sent[m].cause.Name() == Numbered(id) ==> s.sent[m].output.None?
    ensures Fits(s, id, ReadBefore(s, id))
  {
    if i: nat :| i < |s.job| && Is(s.job[i], Numbered(id)) == 1 {
      OnlyHere(s, i);
    }
  }

  lemma FitsArrival(s: State, s': State, a: Arrival, memoryLeft: bool, good: bool, id: nat, c: seq<byte>)
    requires Arrives(s, s', a, memoryLeft, good) && Fits(s, id, c)
    ensures Fits(s', id, c)
  {
  }

  lemma FitsWrite(s: State, s': State, i: int, good: bool, id: nat, c: seq<byte>)
    requires Sound(s) && 0 <= i < |s.rw| && Into(i) in s.mux && Feeds(s, s', i, good) && Fits(s, id, c)
    ensures Fits(s', id, c)
  {
    assert RewriterOk(s.rw[i], i, s.mux, s.job[i], s.acts[i]);
  }

  lemma FitsSpeech(s: State, s': State, i: int, data: seq<byte>, id: nat, c: seq<byte>)
    requires Sound(s) && 0 <= i < |s.rw| && s'.waiting == s.waiting && s'.arrivals == s.arrivals
    requires Speaks(s, s', i, data) && Fits(s, id, c)
    ensures Fits(s', id, c + if Is(s.job[i], Numbered(id)) == 1 then Fitting(s.acts[i].got, data) else [])
  {
    assert c + [] == c;
    if Is(s.job[i], Numbered(id)) == 1 {
      OnlyHere(s, i);
    }
  }

  lemma FitsGivenUp(s: State, s': State, i: int, id: nat, c: seq<byte>)
    requires s'.waiting == s.waiting && s'.arrivals == s.arrivals
    requires GivesUp(s, s', i) || (SpeaksUp(s, s', i) && s.job[i].None?)
    requires Fits(s, id, c)
    ensures Fits(s', id, c)
  {
  }

  lemma FitsOutput(s: State, s': State, e: Event, id: nat, c: seq<byte>)
    requires Sound(s) && e.Output? && Watched(s, e) && Hears(s, s', e.i, e.data) && Fits(s, id, c)
    ensures Fits(s', id, c + ReadFor(e, s, id))
  {
    assert RewriterOk(s.rw[e.i], e.i, s.mux, s.job[e.i], s.acts[e.i]);
    if s.rw[e.i].busy {
      FitsSpeech(s, s', e.i, e.data, id, c);
    } else {
      FitsGivenUp(s, s', e.i, id, c);
      assert c + [] == c;
    }
  }

  lemma FitsDrain(s: State, s': State, n: nat, good: bool, id: nat, c: seq<byte>)
    requires HandsOut(s, s', n, good) && Fits(s, id, c)
    ensures Fits(s', id, c)
  {
    forall i | 0 <= i < |s'.job| && Is(s'.job[i], Numbered(id)) == 1 ensures s'.acts[i].got == c {
      assert HandedTo(s, s', n, i);
    }
    forall k | 0 <= k < |s'.waiting| && s'.waiting[k].id == id ensures c == [] {
      assert s'.waiting[k] == s.waiting[n + k];
    }
  }

  lemma FitsNext(s: State, e: Event, s': State, id: nat, c: seq<byte>)
    requires Sound(s) && Effect(e, s, s') && Fits(s, id, c)
    ensures Fits(s', id, c + ReadFor(e, s, id))
  {
    assert c + [] == c;
    if Watched(s, e) {
      match e
      case Socket(a, memoryLeft, good) => FitsArrival(s, s', a, memoryLeft, good, id, c);
      case Writable(i, good) => FitsWrite(s, s', i, good, id, c);
      case Output(_, _, _) => FitsOutput(s, s', e, id, c);
      case Drain(good) =>
        var n: nat :| HandsOut(s, s', n, good);
        FitsDrain(s, s', n, good, id, c);
    }
  }

  lemma {:induction false} CollectedFits(events: seq<Event>, log: seq<State>, id: nat, k: nat)
    requires IsRun(events, log) && k < |log|
    requires forall m :: 0 <= m < |log[0].sent| && log[0].sent[m].cause.Name() == Numbered(id) ==> log[0].sent[m].output.None?
    ensures Fits(log[k], id, ReadBefore(log[0], id) + Collected(events, log, id, k))
  {
    var first := ReadBefore(log[0], id);
    if k == 0 {
      assert !SpokenUpBefore(events, log, 0);
      FitsAtFirst(log[0], id);
      assert first + [] == first;
    } else {
      CollectedFits(events, log, id, k - 1);
      CollectedNext(events, log, id, k, first);
    }
  }

  lemma CollectedNext(events: seq<Event>, log: seq<State>, id: nat, k: nat, first: seq<byte>)
    requires IsRun(events, log) && 0 < k < |log| && Fits(log[k - 1], id, first + Collected(events, log, id, k - 1))
    ensures Fits(log[k], id, first + Collected(events, log, id, k))
  {
    assert StepAt(events, log, k - 1) && !SpokenUpBefore(events, log, k - 1);
    var before, read := Collected(events, log, id, k - 1), ReadFor(events[k - 1], log[k - 1], id);
    FitsNext(log[k - 1], events[k - 1], log[k], id, first + before);
    assert (first + before) + read == first + (before + read);
  }

  /** What the process wrote in the first `k` events of a run while it was busy with a request. */
  ghost function Said(events: seq<Event>, log: seq<State>, id: nat, k: nat): seq<byte>
    requires k <= |events| && k < |log|
  {
    if k == 0 then []
    else
      var e, s := events[k - 1], log[k - 1];
      Said(events, log, id, k - 1) +
      if e.Output? && Watched(s, e) && e.i < |s.job| == |s.acts| && s.rw[e.i].busy && Is(s.job[e.i], Numbered(id)) == 1 then e.data else []
  }

  /** Nothing of what was said is lost until the buffer is full. */
  ghost predicate LosesNothing(read: seq<byte>, said: seq<byte>) {
    read <= said && (read == said || |read| >= BODY_SIZE)
  }

  lemma LosesNothingNext(read: seq<byte>, said: seq<byte>, data: seq<byte>)
    requires LosesNothing(read, said)
    ensures LosesNothing(read + Fitting(read, data), said + data)
  {
    if |read| >= BODY_SIZE {
      assert Fitting(read, data) == [] || (|data| == 0 && data == []);
      assert read + [] == read;
    } else {
      assert Fitting(read, data) <= data;
    }
  }

  lemma {:induction false} CollectedIsSaid(events: seq<Event>, log: seq<State>, id: nat, k: nat)
    requires IsRun(events, log) && k < |log|
    requires forall m :: 0 <= m < |log[0].sent| && log[0].sent[m].cause.Name() == Numbered(id) ==> log[0].sent[m].output.None?
    ensures var first := ReadBefore(log[0], id);
            LosesNothing(first + Collected(events, log, id, k), first + Said(events, log, id, k))
  {
    var first := ReadBefore(log[0], id);
    if k == 0 {
      assert first + [] == first;
    } else {
      CollectedIsSaid(events, log, id, k - 1);
      CollectedFits(events, log, id, k - 1);
      SaidNext(events, log, id, k, first);
    }
  }

  lemma SaidNext(events: seq<Event>, log: seq<State>, id: nat, k: nat, first: seq<byte>)
    requires IsRun(events, log) && 0 < k < |log| && Fits(log[k - 1], id, first + Collected(events, log, id, k - 1))
    requires LosesNothing(first + Collected(events, log, id, k - 1), first + Said(events, log, id, k - 1))
    ensures LosesNothing(first + Collected(events, log, id, k), first + Said(events, log, id, k))
  {
    var e, s := events[k - 1], log[k - 1];
    var read, said := Collected(events, log, id, k - 1), Said(events, log, id, k - 1);
    var more := ReadFor(e, s, id);
    assert first + (read + more) == (first + read) + more;
    if e.Output? && Watched(s, e) && e.i < |s.job| == |s.acts| && s.rw[e.i].busy && Is(s.job[e.i], Numbered(id)) == 1 {
      assert s.acts[e.i].got == first + read;
      LosesNothingNext(first + read, first + said, e.data);
      assert first + (said + e.data) == (first + said) + e.data;
    } else {
      assert read + [] == read && said + [] == said;
    }
  }

  /** In every run, each rewritten reply that goes out answers a request that arrived, at its sender and with
      its header, and what it carries, with a newline behind it, is what the process wrote while it was busy
      with that very request: what had been read before the run, which is nothing if the request had not been
      worked on then, and then the data of the output events of the run, in order. All of it, if it fits the
      buffer, and else a beginning of it. */
  lemma RewrittenIsOutput(events: seq<Event>, log: seq<State>, k: nat, m: nat)
    requires IsRun(events, log) && k < |log| && !SpokenUpBefore(events, log, k)
    requires |log[0].sent| <= m < |log[k].sent| && log[k].sent[m].output.Some?
    ensures log[k].sent[m].cause.Call? && m < |log[k].outbox|
    ensures var s, req := log[k], log[k].sent[m].cause.req;
            var packet, said := s.outbox[m], ReadBefore(log[0], req.id) + Said(events, log, req.id, k);
            && req.id < |s.arrivals| && s.arrivals[req.id] == req && packet.to == req.from && packet.hdr == req.hdr
            && packet.pktlen == 10 + |packet.payload| <= 65534
            && packet.payload + [NEWLINE] <= said && (|said| <= BODY_SIZE ==> packet.payload + [NEWLINE] == said)
  {
    var s := log[k];
    var req := RepliedNow(events, log, k, m);
    assert SentOk(s.sent[m]);
    CollectedFits(events, log, req.id, k);
    CollectedIsSaid(events, log, req.id, k);
    LineIsPayload(s.sent[m].output.value);
  }

  lemma LineIsPayload(output: seq<byte>)
    requires output != [] && output[|output| - 1] == NEWLINE
    ensures output[..|output| - 1] + [NEWLINE] == output
  {
  }

  /** A rewritten reply of the run is the first one to its request. */
  lemma RepliedNow(events: seq<Event>, log: seq<State>, k: nat, m: nat) returns (req: Request)
    requires IsRun(events, log) && k < |log| && !SpokenUpBefore(events, log, k)
    requires |log[0].sent| <= m < |log[k].sent| && log[k].sent[m].output.Some?
    ensures log[k].sent[m].cause == Call(req) && req.id < |log[k].arrivals| && log[k].arrivals[req.id] == req
    ensures forall j :: 0 <= j < |log[0].sent| ==> log[0].sent[j].cause.Name() != Numbered(req.id)
  {
    var s := log[k];
    assert SentOk(s.sent[m]) && Genuine(s.arrivals, s.strays, Some(s.sent[m].cause));
    req := s.sent[m].cause.req;
    ArrivalsInRun(events, log, k);
    assert BalancedAt(s.sent, s.job, s.waiting, s.arrivals, s.strays, Numbered(req.id));
    RepliesAt(s.sent, m, Numbered(req.id));
    forall j | 0 <= j < |log[0].sent| ensures log[0].sent[j].cause.Name() != Numbered(req.id) {
      assert s.sent[j] == log[0].sent[j];
    }
  }

  /** In every run each datagram that arrived, before it or in it, has been answered by exactly one reply
      unless it waits or is worked on, and as many packets have gone out to anyone as there are datagrams
      that were answered and malformed ones that were sent back. */
  lemma AnsweredInRun(events: seq<Event>, log: seq<State>, k: nat, id: nat, f: Mark)
    requires IsRun(events, log) && k < |log| && !SpokenUpBefore(events, log, k) && id < |log[k].arrivals|
    ensures var s := log[k];
            && Pending(s.job, s.waiting, Numbered(id)) <= 1
            && (Pending(s.job, s.waiting, Numbered(id)) == 0 ==>
                  exists m: nat :: Answers(s.outbox, s.sent, m, s.arrivals[id]) &&
                                   forall j :: 0 <= j < |s.sent| && s.sent[j].cause == Call(s.arrivals[id]) ==> j == m)
            && Packets(s.outbox, f) == |Answered(s.job, s.waiting, s.arrivals, f)| + |Echoed(s.job, s.waiting, s.strays, f)|
  {
    var s := log[k];
    ExactlyOneReply(s.outbox, s.sent, s.job, s.waiting, s.arrivals, s.strays, id);
    PacketsCounted(s.outbox, s.sent, s.job, s.waiting, s.arrivals, s.strays, f);
  }
}
