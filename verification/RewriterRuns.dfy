/** Events of the URL rewriting server, what each of them does, and whole runs of them. */
module RewriterRuns {
  import opened Common
  import opened Wire
  import opened Pointers
  import opened RewriterLinks
  import opened Accounts
  import opened RewriterStates

  /** The server between two events. */
  datatype State = State(rw: seq<Rewriter>, mux: set<Handle>, freeHead: int, freeCount: int, fl: seq<int>, busyHead: int, bl: seq<int>,
                         job: seq<Option<Case>>, acts: seq<Acts>, waiting: seq<Request>,
                         arrivals: seq<Request>, strays: seq<Arrival>, sent: seq<Sent>, outbox: seq<Packet>)

  /** Lists, flags, count, registrations and pipes are right, and so are the books. */
  ghost predicate Sound(s: State) {
    && PoolLinks(s.rw, s.freeHead, s.freeCount, s.fl, s.busyHead, s.bl)
    && AllOk(s.rw, s.mux, s.job, s.acts, NULL) && AllRemembered(s.acts, s.sent)
    && Balanced(s.sent, s.job, s.waiting, s.arrivals, s.strays)
    && AllSentOk(s.sent) && Posted(s.outbox, s.sent)
  }

  /** One thing the multiplexer or the main loop may do next. `data` is what the process has written,
      empty if it has ended or cannot be read; `good` says that no system call of the event fails. */
  datatype Event =
    | Socket(arrival: Arrival, memoryLeft: bool, good: bool)
    | Writable(i: int, good: bool)
    | Output(i: int, data: seq<byte>, good: bool)
    | Drain(good: bool)

  // ---------------------------------------------------------------- what an event does

  /** Nothing arrives and nobody is taken on from the queue. */
  ghost predicate NoNews(s: State, s': State) {
    |s'.rw| == |s.rw| && s'.arrivals == s.arrivals && s'.strays == s.strays
  }

  /** What the rewriters other than `i` are about does not change. */
  ghost predicate Only(s: State, s': State, i: int) {
    && 0 <= i < |s.job| == |s.acts| == |s'.job| == |s'.acts|
    && s'.job == s.job[i := s'.job[i]] && s'.acts == s.acts[i := s'.acts[i]]
  }

  /** Nothing is sent. */
  ghost predicate Quiet(s: State, s': State) {
    s'.sent == s.sent && s'.outbox == s.outbox
  }

  /** One packet is sent. */
  ghost predicate Posts(s: State, s': State, e: Sent) {
    s'.sent == s.sent + [e] && s'.outbox == s.outbox + [e.reply]
  }

  /** Rewriter `i`, with `rest` as the free list without it, takes on a request, or the request is answered
      at once by a bare header. In good times it is fed the whole line. */
  ghost predicate TakesOn(s: State, s': State, i: int, rest: seq<int>, req: Request, good: bool) {
    && Only(s, s', i) && |s'.rw| == |s'.job| && s.job[i].None?
    && (|| (s'.job[i] == Some(Call(req)) && s'.acts[i].got == [] && Quiet(s, s') && s'.fl == rest)
        || (s'.job[i].None? && s'.acts[i].last == Some(Call(req)) && s'.fl == [i] + rest
            && Posts(s, s', Sent(Call(req), s'.acts[i].fed, None, BarePacket(req.from, req.hdr)))))
    && (good ==> s'.rw[i].busy && s'.job[i] == Some(Call(req)) && s'.acts[i].fed == Line(req))
  }

  /** The same seen from before the rewriter was taken off the free list. */
  lemma TakesOnFrom(s0: State, s: State, s': State, i: int, rest: seq<int>, req: Request, good: bool)
    requires Only(s0, s, i) && Quiet(s0, s) && s0.job[i].None? && TakesOn(s, s', i, rest, req, good)
    ensures TakesOn(s0, s', i, rest, req, good)
  {
  }

  /** A malformed datagram takes a free rewriter, if there is one, and is left at that. */
  ghost predicate Strays(s: State, s': State, a: Arrival) {
    && s'.arrivals == s.arrivals && s'.waiting == s.waiting && Quiet(s, s')
    && if s.fl == [] then s' == s
       else
         && Only(s, s', s.fl[0]) && s'.fl == s.fl[1..] && s'.strays == s.strays + [a]
         && s.job[s.fl[0]].None? && s'.job[s.fl[0]] == Some(Stray(|s.strays|, a.from, a.hdr))
  }

  /** A datagram is given to the first free rewriter. With none free it is queued, or refused if there is
      no memory. */
  ghost predicate Joins(s: State, s': State, req: Request, memoryLeft: bool, good: bool) {
    && s'.arrivals == s.arrivals + [req] && s'.strays == s.strays
    && if s.fl != [] then s'.waiting == s.waiting && TakesOn(s, s', s.fl[0], s.fl[1..], req, good)
       else
         || s' == s.(arrivals := s'.arrivals, waiting := s.waiting + [req])
         || (!memoryLeft && s' == s.(arrivals := s'.arrivals, sent := s'.sent, outbox := s'.outbox) &&
             Posts(s, s', Sent(Call(req), [], None, Refusal(req))))
  }

  ghost predicate Arrives(s: State, s': State, a: Arrival, memoryLeft: bool, good: bool) {
    && |s'.rw| == |s.rw|
    && if Accepted(a) then Joins(s, s', RequestOf(a, |s.arrivals|), memoryLeft, good) else Strays(s, s', a)
  }

  /** Rewriter `i` is given up: the header in its buffer goes out with nothing behind it. */
  ghost predicate GivesUp(s: State, s': State, i: int) {
    && Only(s, s', i) && 0 <= i < |s.rw| && s.job[i].Some? && s'.job[i].None?
    && s'.acts[i].last == s.job[i] && s'.fl == [i] + s.fl
    && Posts(s, s', Sent(s.job[i].value, s.acts[i].fed, None, BareReply(s.rw[i].work)))
  }

  /** More of a line is written. Either all of it has been written then and the rewriter is busy, or the
      rest waits with the handle watched, or the rewriter is given up. */
  ghost predicate Feeds(s: State, s': State, i: int, good: bool) {
    && NoNews(s, s') && s'.waiting == s.waiting && Only(s, s', i) && 0 <= i < |s.rw|
    && s.job[i].Some? && s.job[i].value.Call? && s.acts[i].fed <= s'.acts[i].fed <= Line(s.job[i].value.req)
    && (|| (s'.job[i] == s.job[i] && s'.acts[i].got == [] && Quiet(s, s') && s'.fl == s.fl
            && if s'.rw[i].busy then s'.acts[i].fed == Line(s.job[i].value.req) else Into(i) in s'.mux)
        || (s'.job[i].None? && s'.acts[i].last == s.job[i] && s'.fl == [i] + s.fl && !s'.rw[i].busy
            && Posts(s, s', Sent(s.job[i].value, s'.acts[i].fed, None, BareReply(s.rw[i].work)))))
    && (good ==> s'.rw[i].busy)
  }

  /** A part of a line has been written, and nothing else has changed that matters. */
  ghost predicate FedSoFar(s: State, s': State, i: int) {
    && NoNews(s, s') && s'.waiting == s.waiting && Only(s, s', i) && 0 <= i < |s.rw| && Quiet(s, s') && s'.fl == s.fl
    && s.job[i].Some? && s.job[i].value.Call? && s'.job[i] == s.job[i] && s.acts[i].fed <= s'.acts[i].fed
    && s'.rw[i].work == s.rw[i].work.(urlpos := s'.rw[i].work.urlpos)
    && Feeding(s'.rw[i].work, s.job[i].value.req, s'.acts[i])
  }

  /** Another `x` bytes are written. */
  lemma FedFurther(s: State, s1: State, s': State, i: int, x: nat)
    requires FedSoFar(s, s1, i) && 0 <= i < |s'.rw| && x <= s1.rw[i].work.urllen - s1.rw[i].work.urlpos
    requires Piped(s1.acts[i], s1.job[i])
    requires var w := s1.rw[i].work;
             && s' == s1.(rw := s'.rw, acts := s1.acts[i := Wrote(s1.acts[i], w.body[w.urlpos..w.urlpos + x])])
             && |s'.rw| == |s1.rw| && s'.rw[i].work == w.(urlpos := w.urlpos + x)
    ensures FedSoFar(s, s', i)
  {
    WroteFeeds(s1.rw[i].work, s.job[i].value.req, s1.acts[i], x);
  }

  lemma FedThenBlocked(s: State, s1: State, s': State, i: int)
    requires FedSoFar(s, s1, i) && NoNews(s1, s') && s'.waiting == s1.waiting && 0 <= i < |s'.rw| && !s'.rw[i].busy
    requires (s'.job == s1.job && s'.acts == s1.acts && Quiet(s1, s') && s'.fl == s1.fl && Into(i) in s'.mux) ||
             (GivesUp(s1, s', i) && s'.acts[i].fed == s1.acts[i].fed)
    ensures Feeds(s, s', i, false)
  {
    assert s1.acts[i].fed <= Line(s.job[i].value.req);
  }

  lemma FedThenSeized(s: State, s1: State, s': State, i: int, good: bool)
    requires FedSoFar(s, s1, i) && NoNews(s1, s') && s'.waiting == s1.waiting && s'.job == s1.job && s'.acts == s1.acts
    requires Quiet(s1, s') && s'.fl == s1.fl && 0 <= i < |s'.rw| && s'.rw[i].busy && s1.rw[i].work.urlpos == s1.rw[i].work.urllen
    ensures Feeds(s, s', i, good)
  {
  }

  /** A rewriter that was taken off the free list for a request and then fed has taken it on. */
  lemma FedTakesOn(s0: State, s: State, s': State, i: int, req: Request, good: bool)
    requires Only(s0, s, i) && Quiet(s0, s) && s0.job[i].None? && s.job[i] == Some(Call(req)) && s.fl == s0.fl && 0 <= i < |s.rw| && |s'.rw| == |s'.job|
    requires Bears(s.rw[i].work, s.job[i])
    requires Feeds(s, s', i, good) || (!good && GivesUp(s, s', i) && s'.acts[i].fed == s.acts[i].fed)
    ensures TakesOn(s0, s', i, s0.fl, req, good)
  {
  }

  /** As much of `data` as there is room for behind what was read before. */
  ghost function Fitting(got: seq<byte>, data: seq<byte>): seq<byte> {
    if |got| + |data| <= BODY_SIZE then data
    else if |got| < BODY_SIZE then data[..BODY_SIZE - |got|]
    else []
  }

  /** What a busy rewriter has said so far is one line, or not yet, or it says no more. */
  ghost predicate Speaks(s: State, s': State, i: int, data: seq<byte>) {
    && Only(s, s', i) && 0 <= i < |s.rw| == |s'.rw| && s.job[i].Some? && s.job[i].value.Call?
    && var chunk := Fitting(s.acts[i].got, data);
       var req, output := s.job[i].value.req, s.acts[i].got + chunk;
       if chunk == [] then GivesUp(s, s', i)
       else if output[|output| - 1] == NEWLINE then
         && s'.job[i].None? && s'.acts[i].last == s.job[i] && s'.fl == [i] + s.fl
         && Posts(s, s', Sent(s.job[i].value, Line(req), Some(output), Rewritten(req, output)))
       else
         s'.rw[i].busy && s'.job[i] == s.job[i] && s'.acts[i] == s.acts[i].(got := output) && Quiet(s, s') && s'.fl == s.fl
  }

  /** What a busy rewriter said is in its buffer, and nothing has come of it yet. */
  ghost predicate Stored(s: State, s1: State, i: int, chunk: seq<byte>) {
    && Only(s, s1, i) && 0 <= i < |s.rw| == |s1.rw| && s.job[i].Some? && s.job[i].value.Call? && chunk != []
    && s1.job[i] == s.job[i] && s1.acts[i] == s.acts[i].(got := s.acts[i].got + chunk) && Quiet(s, s1) && s1.fl == s.fl
  }

  lemma SpokeLine(s: State, s1: State, s': State, i: int, data: seq<byte>)
    requires 0 <= i < |s.rw| && i < |s.acts| && Stored(s, s1, i, Fitting(s.acts[i].got, data)) && Only(s1, s', i) && |s'.rw| == |s.rw|
    requires var output := s1.acts[i].got;
             && output[|output| - 1] == NEWLINE && s'.job[i].None? && s'.acts[i].last == s.job[i] && s'.fl == [i] + s1.fl
             && Posts(s1, s', Sent(s.job[i].value, Line(s.job[i].value.req), Some(output), Rewritten(s.job[i].value.req, output)))
    ensures Speaks(s, s', i, data)
  {
  }

  lemma SpokePart(s: State, s1: State, i: int, data: seq<byte>)
    requires 0 <= i < |s.rw| && i < |s.acts| && Stored(s, s1, i, Fitting(s.acts[i].got, data)) && s1.rw[i].busy
    requires s1.acts[i].got[|s1.acts[i].got| - 1] != NEWLINE
    ensures Speaks(s, s1, i, data)
  {
  }

  /** A line that comes in one piece. */
  lemma SpeaksAtOnce(s: State, s': State, i: int, data: seq<byte>)
    requires Speaks(s, s', i, data) && s.acts[i].got == []
    requires 0 < |data| <= BODY_SIZE && data[|data| - 1] == NEWLINE
    ensures s'.outbox == s.outbox + [Rewritten(s.job[i].value.req, data)] && s'.acts[i].last == s.job[i] && s'.fl == [i] + s.fl
  {
    assert Fitting(s.acts[i].got, data) == data && [] + data == data;
  }

  /** A rewriter that is free says something: the header in its buffer goes out, for nobody. */
  ghost predicate SpeaksUp(s: State, s': State, i: int) {
    && Only(s, s', i) && 0 <= i < |s.rw| && s'.job == s.job && s'.fl == [i] + s.fl
    && s'.sent == s.sent && s'.outbox == s.outbox + [BareReply(s.rw[i].work)]
  }

  ghost predicate Hears(s: State, s': State, i: int, data: seq<byte>) {
    && NoNews(s, s') && s'.waiting == s.waiting && 0 <= i < |s.rw|
    && if s.rw[i].busy then Speaks(s, s', i, data) else if s.rw[i].free then SpeaksUp(s, s', i) else GivesUp(s, s', i)
  }

  /** What became of rewriter `j` while requests were handed out: nothing if it was at something, and else
      perhaps a request that waited. */
  ghost predicate HandedTo(s: State, s': State, n: nat, j: int) {
    && 0 <= j < |s.job| == |s.acts| == |s'.job| == |s'.acts|
    && (s.job[j].Some? ==> s'.job[j] == s.job[j] && s'.acts[j] == s.acts[j])
    && (s.job[j].None? && s'.job[j].Some? ==>
          s'.acts[j].got == [] && exists k :: 0 <= k < n <= |s.waiting| && s'.job[j] == Some(Call(s.waiting[k])))
  }

  /** A request is being worked on or has been answered. */
  ghost predicate Handed(s: State, req: Request) {
    Some(Call(req)) in s.job || Settled(s.sent, Call(req))
  }

  /** The first `n` waiting requests have left the queue, and each is being worked on or has been answered
      by a bare header; in good times none has been answered yet. */
  ghost predicate HandsOut(s: State, s': State, n: nat, good: bool) {
    && NoNews(s, s') && n <= |s.waiting| && s'.waiting == s.waiting[n..]
    && s.sent <= s'.sent && s.outbox <= s'.outbox && (good ==> Quiet(s, s'))
    && (forall k :: |s.sent| <= k < |s'.sent| ==> s'.sent[k].output.None?)
    && |s.job| == |s.acts| == |s'.job| == |s'.acts|
    && (forall j {:trigger HandedTo(s, s', n, j)} :: 0 <= j < |s.job| ==> HandedTo(s, s', n, j))
    && (forall k {:trigger Handed(s', s.waiting[k])} :: 0 <= k < n ==> Handed(s', s.waiting[k]))
  }

  lemma HandsOutNone(s: State, good: bool)
    requires |s.job| == |s.acts|
    ensures HandsOut(s, s, 0, good)
  {
    forall j | 0 <= j < |s.job| ensures HandedTo(s, s, 0, j) {
    }
  }

  lemma HandedStill(s: State, s': State, i: int, rest: seq<int>, req: Request, good: bool, other: Request)
    requires TakesOn(s, s', i, rest, req, good) && Handed(s, other)
    ensures Handed(s', other)
  {
    if Some(Call(other)) in s.job {
      var k :| 0 <= k < |s.job| && s.job[k] == Some(Call(other));
      assert s'.job[k] == Some(Call(other));
    } else {
      var k :| 0 <= k < |s.sent| && s.sent[k].cause == Call(other);
      assert s'.sent[k] == s.sent[k];
    }
  }

  /** One more request is handed out. */
  lemma HandsOutNext(s0: State, s: State, n: nat, s': State, i: int, rest: seq<int>, good: bool)
    requires HandsOut(s0, s, n, good) && s.waiting != [] && NoNews(s, s') && s'.waiting == s.waiting[1..]
    requires TakesOn(s, s', i, rest, s.waiting[0], good)
    ensures HandsOut(s0, s', n + 1, good)
  {
    var req, m := s0.waiting[n], n + 1;
    forall j | 0 <= j < |s0.job| ensures HandedTo(s0, s', m, j) {
      assert HandedTo(s0, s, n, j);
    }
    forall k | 0 <= k < n + 1 ensures Handed(s', s0.waiting[k]) {
      if k < n {
        assert Handed(s, s0.waiting[k]);
        HandedStill(s, s', i, rest, req, good, s0.waiting[k]);
      } else if s'.job[i].Some? {
        assert s'.job[i] == Some(Call(req));
      } else {
        assert s'.sent[|s.sent|].cause == Call(req);
      }
    }
  }

  /** Requests are handed out until none waits or no rewriter is free. */
  ghost predicate Drains(s: State, s': State, good: bool) {
    (s'.waiting == [] || s'.fl == []) && exists n: nat {:trigger HandsOut(s, s', n, good)} :: HandsOut(s, s', n, good)
  }

  /** The handle of an event is watched. Draining is no event of the multiplexer, and the socket is always
      watched. */
  ghost predicate Watched(s: State, e: Event) {
    match e
    case Writable(i, _) => 0 <= i < |s.rw| && Into(i) in s.mux
    case Output(i, _, _) => 0 <= i < |s.rw| && OutOf(i) in s.mux
    case _ => true
  }

  /** What an event does. One whose handle is not watched does not take place. */
  ghost predicate Effect(e: Event, s: State, s': State) {
    if !Watched(s, e) then s' == s
    else match e {
      case Socket(a, memoryLeft, good) => Arrives(s, s', a, memoryLeft, good)
      case Writable(i, good) => Feeds(s, s', i, good)
      case Output(i, data, _) => Hears(s, s', i, data)
      case Drain(good) => Drains(s, s', good)
    }
  }

  /** The process of a free rewriter speaks up. */
  ghost predicate SpokenUp(e: Event, s: State) {
    e.Output? && Watched(s, e) && s.rw[e.i].free
  }

  // ---------------------------------------------------------------- runs

  /** Event number `k` does what it should. */
  ghost predicate StepAt(events: seq<Event>, log: seq<State>, k: nat)
    requires k < |events| && k + 1 < |log|
  {
    Effect(events[k], log[k], log[k + 1])
  }

  /** The event before the `k`-th state is one of a free rewriter that speaks up. */
  ghost predicate SpokenUpBefore(events: seq<Event>, log: seq<State>, k: nat)
    requires k <= |events| && k < |log|
  {
    k > 0 && SpokenUp(events[k - 1], log[k - 1])
  }

  /** A run: the states before each event and after the last that took place. The run ends when a free
      rewriter speaks up, and all states before that are sound. */
  ghost predicate IsRun(events: seq<Event>, log: seq<State>) {
    && 0 < |log| <= |events| + 1
    && (forall k: nat {:trigger StepAt(events, log, k)} :: k < |log| - 1 ==> StepAt(events, log, k))
    && (forall k: nat {:trigger SpokenUpBefore(events, log, k)} :: k < |log| ==>
          if SpokenUpBefore(events, log, k) then k == |log| - 1 else Sound(log[k]))
  }

  lemma RunSnoc(events: seq<Event>, log: seq<State>, s': State)
    requires IsRun(events, log) && |log| <= |events| && !SpokenUpBefore(events, log, |log| - 1)
    requires Effect(events[|log| - 1], log[|log| - 1], s')
    requires !SpokenUp(events[|log| - 1], log[|log| - 1]) ==> Sound(s')
    ensures IsRun(events, log + [s'])
  {
    var log' := log + [s'];
    forall k: nat | k < |log'| - 1 ensures StepAt(events, log', k) {
      if k < |log| - 1 { assert StepAt(events, log, k); }
    }
    forall k: nat | k < |log'| ensures if SpokenUpBefore(events, log', k) then k == |log'| - 1 else Sound(log'[k]) {
      if k < |log| { assert SpokenUpBefore(events, log, k) == SpokenUpBefore(events, log', k); }
    }
  }

  /** The requests that the first `k` events make, numbered from `n` on. */
  ghost function Arrivals(events: seq<Event>, k: nat, n: nat): seq<Request>
    requires k <= |events|
  {
    if k == 0 then []
    else
      var front := Arrivals(events, k - 1, n);
      front + Made(events[k - 1], n + |front|)
  }

  /** The request that an event makes, if it is a datagram. */
  ghost function Made(e: Event, n: nat): seq<Request> {
    if e.Socket? && Accepted(e.arrival) then [RequestOf(e.arrival, n)] else []
  }

  lemma ArrivalsStep(e: Event, s: State, s': State)
    requires Effect(e, s, s')
    ensures s'.arrivals == s.arrivals + Made(e, |s.arrivals|)
    ensures s.outbox <= s'.outbox && s.sent <= s'.sent
  {
  }

  /** In every run the requests made are those of the accepted datagrams, in order, and no packet is taken
      back. */
  lemma {:induction false} ArrivalsInRun(events: seq<Event>, log: seq<State>, k: nat)
    requires IsRun(events, log) && k < |log|
    ensures log[k].arrivals == log[0].arrivals + Arrivals(events, k, |log[0].arrivals|)
    ensures log[0].outbox <= log[k].outbox && log[0].sent <= log[k].sent
  {
    if k > 0 {
      ArrivalsInRun(events, log, k - 1);
      assert StepAt(events, log, k - 1);
      ArrivalsStep(events[k - 1], log[k - 1], log[k]);
      var first := Arrivals(events, k - 1, |log[0].arrivals|);
      Regroup(log[0].arrivals, first, Made(events[k - 1], |log[0].arrivals| + |first|));
    }
  }

  lemma Regroup(a: seq<Request>, b: seq<Request>, c: seq<Request>)
    ensures (a + b) + c == a + (b + c)
  {
  }
}
