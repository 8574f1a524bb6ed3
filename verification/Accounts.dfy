/** The books of the URL rewriting server: which datagrams arrived, and what became of each. */
module Accounts {
  import opened Common
  import opened Wire

  /** What a packet can be about: a request, or a malformed datagram that keeps a rewriter. */
  datatype Case = Call(req: Request) | Stray(n: nat, sender: nat, head: Header) {

    /** Where a packet about it goes. */
    function From(): nat {
      if Call? then req.from else sender
    }

    /** The header it came with. */
    function Head(): Header {
      if Call? then req.hdr else head
    }

    function Name(): Key {
      if Call? then Numbered(req.id) else Malformed(n)
    }
  }

  /** Accepted datagrams have numbers of their own, and so have the malformed ones. */
  datatype Key = Numbered(id: nat) | Malformed(n: nat)

  /** A packet as it was sent, with its cause, what was fed for it, and the output it carries if it
      carries one. */
  datatype Sent = Sent(cause: Case, fed: seq<byte>, output: Option<seq<byte>>, reply: Packet)

  /** The line a rewriter must be fed for a request. */
  function Line(req: Request): seq<byte> {
    req.url + [NEWLINE]
  }

  // ---------------------------------------------------------------- accounting

  /** One if the case has this name. */
  ghost function Is(c: Option<Case>, key: Key): nat {
    if c.Some? && c.value.Name() == key then 1 else 0
  }

  /** How many rewriters work on a case or are kept by it. */
  ghost function Working(job: seq<Option<Case>>, key: Key): nat {
    if job == [] then 0 else Is(job[0], key) + Working(job[1..], key)
  }

  /** How often a case is in the queue. */
  ghost function Queued(waiting: seq<Request>, key: Key): nat {
    if waiting == [] then 0 else Is(Some(Call(waiting[0])), key) + Queued(waiting[1..], key)
  }

  /** How many packets are about a case. */
  ghost function Replies(sent: seq<Sent>, key: Key): nat {
    if sent == [] then 0 else Replies(sent[..|sent| - 1], key) + Is(Some(sent[|sent| - 1].cause), key)
  }

  /** How often something is still to be done about a case. */
  ghost function Pending(job: seq<Option<Case>>, waiting: seq<Request>, key: Key): nat {
    Working(job, key) + Queued(waiting, key)
  }

  /** The names given so far. */
  ghost predicate Known(arrivals: seq<Request>, strays: seq<Arrival>, key: Key) {
    match key
    case Numbered(id) => id < |arrivals|
    case Malformed(n) => n < |strays|
  }

  ghost predicate BalancedAt(sent: seq<Sent>, job: seq<Option<Case>>, waiting: seq<Request>, arrivals: seq<Request>, strays: seq<Arrival>, key: Key) {
    Replies(sent, key) + Pending(job, waiting, key) == if Known(arrivals, strays, key) then 1 else 0
  }

  /** A case is the datagram that arrived under its name. */
  ghost predicate Genuine(arrivals: seq<Request>, strays: seq<Arrival>, c: Option<Case>) {
    match c
    case None => true
    case Some(Call(req)) => req.id < |arrivals| && arrivals[req.id] == req
    case Some(Stray(n, sender, head)) => n < |strays| && strays[n].from == sender && strays[n].hdr == head
  }

  /** Every case that packets, rewriters or the queue are about is one that arrived, sender, header and
      URL and all. */
  ghost predicate Traced(arrivals: seq<Request>, strays: seq<Arrival>, sent: seq<Sent>, job: seq<Option<Case>>, waiting: seq<Request>) {
    && (forall k :: 0 <= k < |arrivals| ==> arrivals[k].id == k)
    && (forall k {:trigger Genuine(arrivals, strays, Some(sent[k].cause))} :: 0 <= k < |sent| ==> Genuine(arrivals, strays, Some(sent[k].cause)))
    && (forall k {:trigger Genuine(arrivals, strays, job[k])} :: 0 <= k < |job| ==> Genuine(arrivals, strays, job[k]))
    && (forall k {:trigger Genuine(arrivals, strays, Some(Call(waiting[k])))} :: 0 <= k < |waiting| ==> Genuine(arrivals, strays, Some(Call(waiting[k]))))
  }

  /** Every datagram that was accepted, and every malformed one that took a rewriter, is what exactly one
      packet is about, or exactly one rewriter, or exactly one place in the queue; and there is nothing
      else that any of them is about. */
  ghost predicate Balanced(sent: seq<Sent>, job: seq<Option<Case>>, waiting: seq<Request>, arrivals: seq<Request>, strays: seq<Arrival>) {
    && Traced(arrivals, strays, sent, job, waiting)
    && forall key: Key {:trigger BalancedAt(sent, job, waiting, arrivals, strays, key)} :: BalancedAt(sent, job, waiting, arrivals, strays, key)
  }

  lemma {:induction false} WorkingUpdate(job: seq<Option<Case>>, i: nat, j: Option<Case>, key: Key)
    requires i < |job|
    ensures Working(job[i := j], key) + Is(job[i], key) == Working(job, key) + Is(j, key)
  {
    if i == 0 {
      assert job[0 := j][1..] == job[1..];
    } else {
      assert job[i := j][1..] == job[1..][i - 1 := j];
      WorkingUpdate(job[1..], i - 1, j, key);
    }
  }

  lemma {:induction false} NobodyWorks(job: seq<Option<Case>>, key: Key)
    requires forall i :: 0 <= i < |job| ==> job[i].None?
    ensures Working(job, key) == 0
  {
    if job != [] { NobodyWorks(job[1..], key); }
  }

  /** Whoever works on a case is counted. */
  lemma {:induction false} WorkingAt(job: seq<Option<Case>>, i: nat, key: Key)
    requires i < |job| && Is(job[i], key) == 1
    ensures Working(job, key) > 0
  {
    if i > 0 { WorkingAt(job[1..], i - 1, key); }
  }

  lemma {:induction false} QueuedSnoc(waiting: seq<Request>, req: Request, key: Key)
    ensures Queued(waiting + [req], key) == Queued(waiting, key) + Is(Some(Call(req)), key)
  {
    if waiting == [] {
      assert waiting + [req] == [req] && [req][1..] == [];
    } else {
      assert (waiting + [req])[1..] == waiting[1..] + [req];
      QueuedSnoc(waiting[1..], req, key);
    }
  }

  lemma {:induction false} QueuedAt(waiting: seq<Request>, k: nat)
    requires k < |waiting|
    ensures Queued(waiting, Numbered(waiting[k].id)) > 0
  {
    if k > 0 { QueuedAt(waiting[1..], k - 1); }
  }

  lemma RepliesSnoc(sent: seq<Sent>, e: Sent, key: Key)
    ensures Replies(sent + [e], key) == Replies(sent, key) + Is(Some(e.cause), key)
  {
    assert (sent + [e])[..|sent|] == sent;
  }

  lemma {:induction false} RepliesAt(sent: seq<Sent>, k: nat, key: Key)
    requires k < |sent| && sent[k].cause.Name() == key
    ensures Replies(sent, key) > 0
    ensures Replies(sent, key) == 1 ==> forall j :: 0 <= j < |sent| && sent[j].cause.Name() == key ==> j == k
  {
    var front := sent[..|sent| - 1];
    if k < |front| {
      RepliesAt(front, k, key);
      assert forall j :: 0 <= j < |front| ==> front[j] == sent[j];
    } else {
      forall j | 0 <= j < |front| && sent[j].cause.Name() == key ensures Replies(sent, key) > 1 {
        RepliesAt(front, j, key);
      }
    }
  }

  lemma {:induction false} ReplyOf(sent: seq<Sent>, key: Key) returns (k: nat)
    requires Replies(sent, key) > 0
    ensures k < |sent| && sent[k].cause.Name() == key
  {
    k := |sent| - 1;
    if sent[k].cause.Name() != key { k := ReplyOf(sent[..k], key); }
  }

  /** The case a rewriter is about is settled by a packet. */
  lemma BalanceAnswered(sent: seq<Sent>, job: seq<Option<Case>>, waiting: seq<Request>, arrivals: seq<Request>, strays: seq<Arrival>, i: nat, e: Sent)
    requires Balanced(sent, job, waiting, arrivals, strays) && i < |job| && job[i] == Some(e.cause)
    ensures Balanced(sent + [e], job[i := None], waiting, arrivals, strays)
  {
    var sent', job' := sent + [e], job[i := None];
    forall key: Key ensures BalancedAt(sent', job', waiting, arrivals, strays, key) {
      assert BalancedAt(sent, job, waiting, arrivals, strays, key);
      RepliesSnoc(sent, e, key);
      WorkingUpdate(job, i, None, key);
    }
  }

  /** Something new that arrives leaves what there was as it was. */
  lemma TracedGrows(arrivals: seq<Request>, strays: seq<Arrival>, sent: seq<Sent>, job: seq<Option<Case>>, waiting: seq<Request>,
                    arrivals': seq<Request>, strays': seq<Arrival>)
    requires Traced(arrivals, strays, sent, job, waiting) && arrivals <= arrivals' && strays <= strays'
    requires forall k :: |arrivals| <= k < |arrivals'| ==> arrivals'[k].id == k
    ensures Traced(arrivals', strays', sent, job, waiting)
  {
    forall c: Option<Case> | Genuine(arrivals, strays, c) ensures Genuine(arrivals', strays', c) {
    }
  }

  /** The next datagram is accepted and given to an idle rewriter. */
  lemma BalanceAccepted(sent: seq<Sent>, job: seq<Option<Case>>, waiting: seq<Request>, arrivals: seq<Request>, strays: seq<Arrival>, i: nat, req: Request)
    requires Balanced(sent, job, waiting, arrivals, strays) && i < |job| && job[i].None? && req.id == |arrivals|
    ensures Balanced(sent, job[i := Some(Call(req))], waiting, arrivals + [req], strays)
  {
    var job', grown := job[i := Some(Call(req))], arrivals + [req];
    TracedGrows(arrivals, strays, sent, job, waiting, grown, strays);
    forall key: Key ensures BalancedAt(sent, job', waiting, grown, strays, key) {
      assert BalancedAt(sent, job, waiting, arrivals, strays, key);
      WorkingUpdate(job, i, Some(Call(req)), key);
    }
  }

  /** A malformed datagram keeps an idle rewriter. */
  lemma BalanceStray(sent: seq<Sent>, job: seq<Option<Case>>, waiting: seq<Request>, arrivals: seq<Request>, strays: seq<Arrival>, i: nat, a: Arrival)
    requires Balanced(sent, job, waiting, arrivals, strays) && i < |job| && job[i].None?
    ensures Balanced(sent, job[i := Some(Stray(|strays|, a.from, a.hdr))], waiting, arrivals, strays + [a])
  {
    var stray := Stray(|strays|, a.from, a.hdr);
    var job', grown := job[i := Some(stray)], strays + [a];
    TracedGrows(arrivals, strays, sent, job, waiting, arrivals, grown);
    forall key: Key ensures BalancedAt(sent, job', waiting, arrivals, grown, key) {
      assert BalancedAt(sent, job, waiting, arrivals, strays, key);
      WorkingUpdate(job, i, Some(stray), key);
    }
  }

  /** The next datagram is accepted and queued. */
  lemma BalanceQueued(sent: seq<Sent>, job: seq<Option<Case>>, waiting: seq<Request>, arrivals: seq<Request>, strays: seq<Arrival>, req: Request)
    requires Balanced(sent, job, waiting, arrivals, strays) && req.id == |arrivals|
    ensures Balanced(sent, job, waiting + [req], arrivals + [req], strays)
  {
    var waiting', grown := waiting + [req], arrivals + [req];
    TracedGrows(arrivals, strays, sent, job, waiting, grown, strays);
    forall key: Key ensures BalancedAt(sent, job, waiting', grown, strays, key) {
      assert BalancedAt(sent, job, waiting, arrivals, strays, key);
      QueuedSnoc(waiting, req, key);
    }
  }

  /** The next datagram is accepted and refused at once. */
  lemma BalanceRefused(sent: seq<Sent>, job: seq<Option<Case>>, waiting: seq<Request>, arrivals: seq<Request>, strays: seq<Arrival>, e: Sent)
    requires Balanced(sent, job, waiting, arrivals, strays) && e.cause.Call? && e.cause.req.id == |arrivals|
    ensures Balanced(sent + [e], job, waiting, arrivals + [e.cause.req], strays)
  {
    var sent', grown := sent + [e], arrivals + [e.cause.req];
    TracedGrows(arrivals, strays, sent, job, waiting, grown, strays);
    forall key: Key ensures BalancedAt(sent', job, waiting, grown, strays, key) {
      assert BalancedAt(sent, job, waiting, arrivals, strays, key);
      RepliesSnoc(sent, e, key);
    }
  }

  /** The longest waiting request goes to an idle rewriter. */
  lemma BalanceTaken(sent: seq<Sent>, job: seq<Option<Case>>, waiting: seq<Request>, arrivals: seq<Request>, strays: seq<Arrival>, i: nat)
    requires Balanced(sent, job, waiting, arrivals, strays) && i < |job| && job[i].None? && waiting != []
    ensures Balanced(sent, job[i := Some(Call(waiting[0]))], waiting[1..], arrivals, strays)
  {
    var job', waiting' := job[i := Some(Call(waiting[0]))], waiting[1..];
    forall key: Key ensures BalancedAt(sent, job', waiting', arrivals, strays, key) {
      assert BalancedAt(sent, job, waiting, arrivals, strays, key);
      WorkingUpdate(job, i, Some(Call(waiting[0])), key);
    }
  }

  lemma BalanceEmpty(job: seq<Option<Case>>)
    requires forall i :: 0 <= i < |job| ==> job[i].None?
    ensures Balanced([], job, [], [], [])
  {
    forall key: Key ensures BalancedAt([], job, [], [], [], key) {
      NobodyWorks(job, key);
    }
  }

  // ---------------------------------------------------------------- packets

  /** Every packet is right. A rewritten one goes back to the sender with the request's header, carries
      the output without its newline, fits a datagram, and what the rewriter had been fed for it is the URL
      and a newline. Any other is a bare header: to the sender of its cause with the header that came from
      there, but for the error code of a refusal. */
  ghost predicate SentOk(e: Sent) {
    match e.output
    case Some(output) =>
      && e.cause.Call? && e.fed == Line(e.cause.req)
      && output != [] && output[|output| - 1] == NEWLINE
      && e.reply == Rewritten(e.cause.req, output) && e.reply.pktlen <= 65534
    case None =>
      || e.reply == BarePacket(e.cause.From(), e.cause.Head())
      || (e.cause.Call? && e.reply == Refusal(e.cause.req))
  }

  ghost predicate AllSentOk(sent: seq<Sent>) {
    forall k {:trigger SentOk(sent[k])} :: 0 <= k < |sent| ==> SentOk(sent[k])
  }

  lemma AllSentOkSnoc(sent: seq<Sent>, e: Sent)
    requires AllSentOk(sent) && SentOk(e)
    ensures AllSentOk(sent + [e])
  {
    forall k | 0 <= k < |sent + [e]| ensures SentOk((sent + [e])[k]) {
      if k < |sent| { assert SentOk(sent[k]); }
    }
  }

  /** What went out on the socket is what the books say was sent. */
  ghost predicate Posted(outbox: seq<Packet>, sent: seq<Sent>) {
    |outbox| == |sent| && forall k :: 0 <= k < |sent| ==> outbox[k] == sent[k].reply
  }

  /** A packet is a reply to a datagram: to its sender and with its seq and urlsum. */
  ghost predicate RepliesTo(p: Packet, req: Request) {
    p.to == req.from && p.hdr.seqNo == req.hdr.seqNo && p.hdr.urlsum == req.hdr.urlsum
  }

  /** Packet number `k` is the reply to a datagram, and if it is a rewritten one the rewriter had been fed
      the datagram's URL. */
  ghost predicate Answers(outbox: seq<Packet>, sent: seq<Sent>, k: nat, req: Request) {
    && k < |outbox| == |sent| && sent[k].cause == Call(req) && RepliesTo(outbox[k], req)
    && match sent[k].output
       case Some(output) =>
         && sent[k].fed == req.url + [10]
         && outbox[k].hdr == req.hdr && outbox[k].payload + [10] == output && outbox[k].pktlen == 10 + |outbox[k].payload|
       case None =>
         && outbox[k].payload == [] && outbox[k].pktlen == 10
         && (outbox[k].hdr == req.hdr || outbox[k].hdr == Header(req.hdr.seqNo, 1, req.hdr.urlsum))
  }

  lemma AnsweredBy(outbox: seq<Packet>, sent: seq<Sent>, k: nat, req: Request)
    requires AllSentOk(sent) && Posted(outbox, sent) && k < |sent| && sent[k].cause == Call(req)
    ensures Answers(outbox, sent, k, req)
  {
    assert SentOk(sent[k]);
    if sent[k].output.Some? {
      var output := sent[k].output.value;
      assert output[..|output| - 1] + [10] == output;
    }
  }

  /** A datagram that arrived and neither waits nor is worked on has been answered by exactly one reply;
      one that waits or is worked on by none. */
  lemma ExactlyOneReply(outbox: seq<Packet>, sent: seq<Sent>, job: seq<Option<Case>>, waiting: seq<Request>, arrivals: seq<Request>, strays: seq<Arrival>, id: nat)
    requires Balanced(sent, job, waiting, arrivals, strays) && AllSentOk(sent) && Posted(outbox, sent) && id < |arrivals|
    ensures Pending(job, waiting, Numbered(id)) <= 1
    ensures Pending(job, waiting, Numbered(id)) == 0 ==>
              exists k: nat :: Answers(outbox, sent, k, arrivals[id]) &&
                               forall j :: 0 <= j < |sent| && sent[j].cause == Call(arrivals[id]) ==> j == k
    ensures Pending(job, waiting, Numbered(id)) == 1 ==>
              forall j :: 0 <= j < |sent| ==> sent[j].cause != Call(arrivals[id])
  {
    var key := Numbered(id);
    assert BalancedAt(sent, job, waiting, arrivals, strays, key);
    if Pending(job, waiting, key) == 0 {
      var k := ReplyOf(sent, key);
      RepliesAt(sent, k, key);
      assert Genuine(arrivals, strays, Some(sent[k].cause));
      AnsweredBy(outbox, sent, k, arrivals[id]);
    } else {
      forall j | 0 <= j < |sent| ensures sent[j].cause != Call(arrivals[id]) {
        if sent[j].cause == Call(arrivals[id]) { RepliesAt(sent, j, key); }
      }
    }
  }

  /** Every packet that went out is a reply to a datagram that arrived, or sends the header of a malformed
      datagram back to where it came from. */
  lemma EveryPacketHasCause(outbox: seq<Packet>, sent: seq<Sent>, job: seq<Option<Case>>, waiting: seq<Request>, arrivals: seq<Request>, strays: seq<Arrival>, k: nat)
    requires Balanced(sent, job, waiting, arrivals, strays) && AllSentOk(sent) && Posted(outbox, sent) && k < |outbox|
    ensures (exists id: nat :: id < |arrivals| && Answers(outbox, sent, k, arrivals[id])) ||
            (exists n: nat :: n < |strays| && outbox[k] == Packet(strays[n].from, strays[n].hdr, 10, []))
    ensures outbox[k].pktlen == 10 + |outbox[k].payload| <= 65534
  {
    assert SentOk(sent[k]) && Genuine(arrivals, strays, Some(sent[k].cause));
    match sent[k].cause
    case Call(req) =>
      AnsweredBy(outbox, sent, k, req);
      assert Answers(outbox, sent, k, arrivals[req.id]);
    case Stray(n, _, _) =>
      assert outbox[k] == Packet(strays[n].from, strays[n].hdr, 10, []);
  }

  // ---------------------------------------------------------------- counting packets

  /** A property of where a packet goes, or a datagram comes from, and of its seq and urlsum. */
  type Mark = (nat, nat, nat) -> bool

  ghost predicate Marked(f: Mark, peer: nat, hdr: Header) {
    f(peer, hdr.seqNo, hdr.urlsum)
  }

  /** How many packets have a property. */
  ghost function Packets(outbox: seq<Packet>, f: Mark): nat {
    if outbox == [] then 0
    else Packets(outbox[..|outbox| - 1], f) + if Marked(f, outbox[|outbox| - 1].to, outbox[|outbox| - 1].hdr) then 1 else 0
  }

  /** The accepted datagrams with a property about which nothing is left to be done. */
  ghost function Answered(job: seq<Option<Case>>, waiting: seq<Request>, arrivals: seq<Request>, f: Mark): set<Key> {
    set id: nat | id < |arrivals| && Pending(job, waiting, Numbered(id)) == 0 && Marked(f, arrivals[id].from, arrivals[id].hdr) :: Numbered(id)
  }

  /** The malformed datagrams with a property that have given their rewriter back. */
  ghost function Echoed(job: seq<Option<Case>>, waiting: seq<Request>, strays: seq<Arrival>, f: Mark): set<Key> {
    set n: nat | n < |strays| && Pending(job, waiting, Malformed(n)) == 0 && Marked(f, strays[n].from, strays[n].hdr) :: Malformed(n)
  }

  /** The names of what the packets with a property are about. */
  ghost function Causes(sent: seq<Sent>, f: Mark): set<Key> {
    set k: nat | k < |sent| && Marked(f, sent[k].cause.From(), sent[k].cause.Head()) :: sent[k].cause.Name()
  }

  lemma {:induction false} PacketsAreCauses(outbox: seq<Packet>, sent: seq<Sent>, f: Mark)
    requires AllSentOk(sent) && Posted(outbox, sent)
    requires forall key: Key {:trigger Replies(sent, key)} :: Replies(sent, key) <= 1
    ensures Packets(outbox, f) == |Causes(sent, f)|
  {
    if sent != [] {
      FrontIsFine(sent);
      PacketsAreCauses(outbox[..|sent| - 1], sent[..|sent| - 1], f);
      assert SentOk(sent[|sent| - 1]);
      CausesSnoc(sent, f);
    }
  }

  lemma FrontIsFine(sent: seq<Sent>)
    requires sent != [] && AllSentOk(sent) && forall key: Key {:trigger Replies(sent, key)} :: Replies(sent, key) <= 1
    ensures var front := sent[..|sent| - 1];
            && AllSentOk(front) && (forall key: Key {:trigger Replies(front, key)} :: Replies(front, key) <= 1)
            && forall k :: 0 <= k < |front| ==> front[k].cause.Name() != sent[|front|].cause.Name()
  {
    var front, name := sent[..|sent| - 1], sent[|sent| - 1].cause.Name();
    forall k | 0 <= k < |front| ensures SentOk(front[k]) && front[k].cause.Name() != name {
      assert SentOk(sent[k]) && Replies(sent, name) <= 1;
      if front[k].cause.Name() == name { RepliesAt(front, k, name); }
    }
    forall key: Key ensures Replies(front, key) <= 1 { assert Replies(sent, key) <= 1; }
  }

  lemma CausesSnoc(sent: seq<Sent>, f: Mark)
    requires sent != []
    requires forall k :: 0 <= k < |sent| - 1 ==> sent[k].cause.Name() != sent[|sent| - 1].cause.Name()
    ensures var last := sent[|sent| - 1].cause;
            |Causes(sent, f)| == |Causes(sent[..|sent| - 1], f)| + if Marked(f, last.From(), last.Head()) then 1 else 0
  {
    var n := |sent| - 1;
    var front, last := sent[..n], sent[n].cause;
    var added := if Marked(f, last.From(), last.Head()) then {last.Name()} else {};
    forall key | key in Causes(front, f) ensures key in Causes(sent, f) && key !in added {
      var k: nat :| k < n && Marked(f, front[k].cause.From(), front[k].cause.Head()) && front[k].cause.Name() == key;
      assert sent[k] == front[k];
    }
    forall key | key in Causes(sent, f) ensures key in Causes(front, f) + added {
      var k: nat :| k <= n && Marked(f, sent[k].cause.From(), sent[k].cause.Head()) && sent[k].cause.Name() == key;
      if k < n { assert front[k] == sent[k]; }
    }
    assert Causes(sent, f) == Causes(front, f) + added;
  }

  /** The causes of packets are what nothing is left to be done about. */
  lemma CausesAreSettled(sent: seq<Sent>, job: seq<Option<Case>>, waiting: seq<Request>, arrivals: seq<Request>, strays: seq<Arrival>, f: Mark)
    requires Balanced(sent, job, waiting, arrivals, strays)
    ensures Causes(sent, f) == Answered(job, waiting, arrivals, f) + Echoed(job, waiting, strays, f)
  {
    var settled := Answered(job, waiting, arrivals, f) + Echoed(job, waiting, strays, f);
    forall key | key in Causes(sent, f) ensures key in settled {
      var k: nat :| k < |sent| && Marked(f, sent[k].cause.From(), sent[k].cause.Head()) && sent[k].cause.Name() == key;
      RepliesAt(sent, k, key);
      assert BalancedAt(sent, job, waiting, arrivals, strays, key) && Genuine(arrivals, strays, Some(sent[k].cause));
    }
    forall key | key in settled ensures key in Causes(sent, f) {
      assert BalancedAt(sent, job, waiting, arrivals, strays, key);
      var k := ReplyOf(sent, key);
      assert Genuine(arrivals, strays, Some(sent[k].cause));
    }
  }

  /** No packet too many and none too few, whatever one asks of the addressee, seq and urlsum: as many went
      out as there are datagrams like that which were answered, and malformed ones that were sent back. */
  lemma PacketsCounted(outbox: seq<Packet>, sent: seq<Sent>, job: seq<Option<Case>>, waiting: seq<Request>, arrivals: seq<Request>, strays: seq<Arrival>, f: Mark)
    requires Balanced(sent, job, waiting, arrivals, strays) && AllSentOk(sent) && Posted(outbox, sent)
    ensures Packets(outbox, f) == |Answered(job, waiting, arrivals, f)| + |Echoed(job, waiting, strays, f)|
  {
    forall key: Key ensures Replies(sent, key) <= 1 {
      assert BalancedAt(sent, job, waiting, arrivals, strays, key);
    }
    PacketsAreCauses(outbox, sent, f);
    CausesAreSettled(sent, job, waiting, arrivals, strays, f);
    assert Answered(job, waiting, arrivals, f) !! Echoed(job, waiting, strays, f);
  }

  /** All packets together. */
  lemma {:induction false} AllPackets(outbox: seq<Packet>)
    ensures Packets(outbox, (_, _, _) => true) == |outbox|
  {
    if outbox != [] { AllPackets(outbox[..|outbox| - 1]); }
  }
}
