/** What a rewriter of the URL rewriting server is doing between two events, and what its process has
    been given and has answered. */
module RewriterStates {
  import opened Common
  import opened Wire
  import opened Pointers
  import opened RewriterLinks
  import opened Accounts

  /** A handle in the multiplexer: the output or the input of the process of a rewriter. */
  datatype Handle = OutOf(i: int) | Into(i: int)

  /** What went on at a rewriter: `fed` was written for the case it is about and `got` read back. `pipe` is
      everything written to its present process, `past` the part of it before the case at hand, and `done`
      the requests that the process has answered. `last` is the case the rewriter was about before it became
      free. */
  datatype Acts = Acts(fed: seq<byte>, got: seq<byte>, pipe: seq<byte>, past: seq<byte>, done: seq<Request>, last: Option<Case>)

  /** The lines of requests one after the other. */
  ghost function Lines(done: seq<Request>): seq<byte> {
    if done == [] then [] else Lines(done[..|done| - 1]) + Line(done[|done| - 1])
  }

  lemma LinesSnoc(done: seq<Request>, req: Request)
    ensures Lines(done + [req]) == Lines(done) + Line(req)
  {
    assert (done + [req])[..|done|] == done;
  }

  /** The process has been given what it was given before, and then what was fed for the request at hand. */
  ghost predicate Piped(a: Acts, job: Option<Case>) {
    a.pipe == if job.Some? && job.value.Call? then a.past + a.fed else a.past
  }

  /** The packet buffer bears the sender and the header of a case, or is still clear. */
  ghost predicate Bears(w: Work, c: Option<Case>) {
    if c.Some? then w.from == c.value.From() && w.hdr == c.value.Head() else w.from == 0 && w.hdr == Header(0, 0, 0)
  }

  /** A rewriter that has been fed a part of its line. */
  ghost predicate Feeding(w: Work, req: Request, a: Acts) {
    && |w.body| == BODY_SIZE
    && w.from == req.from && w.hdr == req.hdr && w.outlen == 0 && a.got == []
    && w.urlpos <= w.urllen == |Line(req)| <= BODY_SIZE
    && w.body[..w.urllen] == Line(req)
    && a.fed == w.body[..w.urlpos]
  }

  /** A rewriter that has been fed all of its line and has answered a part of its own. */
  ghost predicate Serving(w: Work, req: Request, a: Acts) {
    && |w.body| == BODY_SIZE
    && w.from == req.from && w.hdr == req.hdr
    && a.fed == Line(req)
    && w.outlen == |a.got| <= BODY_SIZE && w.body[..w.outlen] == a.got
    && (a.got != [] ==> a.got[|a.got| - 1] != NEWLINE)
  }

  /** What a rewriter is doing between events: nothing, answering, being fed with its writability watched,
      or, on neither list, nothing at all since a malformed datagram came or because it never ran. */
  ghost predicate Service(r: Rewriter, job: Option<Case>, a: Acts) {
    if r.free then job.None? && Bears(r.work, a.last)
    else if r.busy then job.Some? && job.value.Call? && r.pio && Serving(r.work, job.value.req, a)
    else if job.None? then !r.pio && Bears(r.work, a.last)
    else if job.value.Call? then r.pio && r.inMux && Feeding(r.work, job.value.req, a)
    else !r.inMux && Bears(r.work, job)
  }

  /** What holds of a rewriter even while an event is working on it. */
  ghost predicate Shell(r: Rewriter, i: int, mux: set<Handle>) {
    && |r.work.body| == BODY_SIZE
    && (OutOf(i) in mux <==> r.pio)
    && (Into(i) in mux <==> r.inMux)
    && (r.inMux ==> r.pio && !r.free && !r.busy)
  }

  ghost predicate RewriterOk(r: Rewriter, i: int, mux: set<Handle>, job: Option<Case>, a: Acts) {
    Shell(r, i, mux) && !r.faulty && Service(r, job, a) && (r.pio ==> Piped(a, job))
  }

  /** All rewriters but `x` are in order. */
  ghost predicate AllOk(rw: seq<Rewriter>, mux: set<Handle>, job: seq<Option<Case>>, acts: seq<Acts>, x: int) {
    && |job| == |acts| == |rw|
    && forall i {:trigger RewriterOk(rw[i], i, mux, job[i], acts[i])} ::
         0 <= i < |rw| && i != x ==> RewriterOk(rw[i], i, mux, job[i], acts[i])
  }

  /** Changes confined to `x`, and to links, keep the others in order. */
  lemma AllOkFrame(rw: seq<Rewriter>, mux: set<Handle>, job: seq<Option<Case>>, acts: seq<Acts>,
                   rw': seq<Rewriter>, mux': set<Handle>, job': seq<Option<Case>>, acts': seq<Acts>, x: int, y: int)
    requires AllOk(rw, mux, job, acts, y) && (y == x || y == NULL)
    requires |job'| == |acts'| == |rw'| == |rw|
    requires forall i :: 0 <= i < |rw| && i != x ==> Alike(rw[i], rw'[i]) && job'[i] == job[i] && acts'[i] == acts[i]
    requires forall i :: i != x ==> (OutOf(i) in mux' <==> OutOf(i) in mux) && (Into(i) in mux' <==> Into(i) in mux)
    ensures AllOk(rw', mux', job', acts', x)
  {
    forall i | 0 <= i < |rw'| && i != x ensures RewriterOk(rw'[i], i, mux', job'[i], acts'[i]) {
      assert RewriterOk(rw[i], i, mux, job[i], acts[i]);
    }
  }

  /** The one left out joins the others. */
  lemma AllOkComplete(rw: seq<Rewriter>, mux: set<Handle>, job: seq<Option<Case>>, acts: seq<Acts>, x: int)
    requires AllOk(rw, mux, job, acts, x) && 0 <= x < |rw| && RewriterOk(rw[x], x, mux, job[x], acts[x])
    ensures AllOk(rw, mux, job, acts, NULL)
  {
    forall i | 0 <= i < |rw| ensures RewriterOk(rw[i], i, mux, job[i], acts[i]) {
    }
  }

  /** A new process has been given nothing yet. */
  function Restarted(a: Acts): Acts {
    a.(pipe := [], past := [], done := [])
  }

  // ---------------------------------------------------------------- what is remembered

  /** A packet has been sent about a case. */
  ghost predicate Settled(sent: seq<Sent>, c: Case) {
    exists k :: 0 <= k < |sent| && sent[k].cause == c
  }

  /** A rewritten reply has been sent to a request. */
  ghost predicate RewrittenFor(sent: seq<Sent>, req: Request) {
    exists k :: 0 <= k < |sent| && sent[k].cause == Call(req) && sent[k].output.Some?
  }

  /** What a rewriter was about has been settled. Its process was given the lines of the requests it has
      answered before the case at hand, and nothing else, and all those answers have gone out. */
  ghost predicate Remembered(a: Acts, sent: seq<Sent>) {
    && (a.last.Some? ==> Settled(sent, a.last.value))
    && a.past == Lines(a.done) && forall req :: req in a.done ==> RewrittenFor(sent, req)
  }

  ghost predicate AllRemembered(acts: seq<Acts>, sent: seq<Sent>) {
    forall i {:trigger Remembered(acts[i], sent)} :: 0 <= i < |acts| ==> Remembered(acts[i], sent)
  }

  lemma RememberedOne(acts: seq<Acts>, sent: seq<Sent>, i: nat, a: Acts)
    requires AllRemembered(acts, sent) && i < |acts| && Remembered(a, sent)
    ensures AllRemembered(acts[i := a], sent)
  {
    var acts' := acts[i := a];
    forall j | 0 <= j < |acts'| ensures Remembered(acts'[j], sent) {
      if j != i { assert Remembered(acts[j], sent); }
    }
  }

  /** More packets leave what is remembered as it was. */
  lemma RememberedMore(acts: seq<Acts>, sent: seq<Sent>, e: Sent)
    requires AllRemembered(acts, sent)
    ensures AllRemembered(acts, sent + [e])
  {
    var sent' := sent + [e];
    forall j | 0 <= j < |acts| ensures Remembered(acts[j], sent') {
      assert Remembered(acts[j], sent);
      if acts[j].last.Some? {
        var k :| 0 <= k < |sent| && sent[k].cause == acts[j].last.value;
        assert sent'[k] == sent[k];
      }
      forall req | req in acts[j].done ensures RewrittenFor(sent', req) {
        var k :| 0 <= k < |sent| && sent[k].cause == Call(req) && sent[k].output.Some?;
        assert sent'[k] == sent[k];
      }
    }
  }

  /** A rewriter has had its last word about a case; its process has answered the request if a line came
      back. */
  function Concluded(a: Acts, e: Sent): Acts {
    if e.output.Some? && e.cause.Call? then a.(last := Some(e.cause), past := a.pipe, done := a.done + [e.cause.req])
    else a.(last := Some(e.cause))
  }

  lemma RememberedNow(acts: seq<Acts>, sent: seq<Sent>, i: nat, e: Sent)
    requires AllRemembered(acts, sent) && i < |acts|
    requires e.output.Some? && e.cause.Call? ==> acts[i].pipe == acts[i].past + Line(e.cause.req)
    ensures AllRemembered(acts[i := Concluded(acts[i], e)], sent + [e])
  {
    RememberedMore(acts, sent, e);
    var sent', a := sent + [e], Concluded(acts[i], e);
    assert sent'[|sent|] == e;
    assert Remembered(acts[i], sent');
    if e.cause.Call? { LinesSnoc(acts[i].done, e.cause.req); }
    forall req | req in a.done ensures RewrittenFor(sent', req) {
      if req !in acts[i].done { assert sent'[|sent|].cause == Call(req) && sent'[|sent|].output.Some?; }
    }
    RememberedOne(acts, sent', i, a);
  }

  // ---------------------------------------------------------------- the packet buffer

  function EmptyWork(): (w: Work)
    ensures |w.body| == BODY_SIZE
  {
    Work(0, Header(0, 0, 0), seq(BODY_SIZE, _ => 0), 0, 0, 0)
  }

  /** `data` written over `body` at `at`. */
  function Overwrite(body: seq<byte>, at: nat, data: seq<byte>): (b: seq<byte>)
    requires at + |data| <= |body|
    ensures |b| == |body|
    ensures b[..at] == body[..at] && b[at..at + |data|] == data && b[at + |data|..] == body[at + |data|..]
  {
    body[..at] + data + body[at + |data|..]
  }

  /** A work area that has received something malformed. */
  function Received(w: Work, a: Arrival): (w': Work)
    requires |w.body| == BODY_SIZE && Receivable(a)
    ensures |w'.body| == BODY_SIZE && w'.from == a.from && w'.hdr == a.hdr
  {
    match a
    case Runt(from, hdr) => w.(from := from, hdr := hdr)
    case Datagram(from, hdr, _, payload) => w.(from := from, hdr := hdr, body := Overwrite(w.body, 0, payload))
  }

  /** A work area that has just received a request. */
  function Load(w: Work, req: Request): (w': Work)
    requires |w.body| == BODY_SIZE && Sendable(req)
    ensures |w'.body| == BODY_SIZE
  {
    var body := Overwrite(w.body, 0, req.url);
    w.(from := req.from, hdr := req.hdr, body := Overwrite(body, |req.url|, [NEWLINE]), urlpos := 0, urllen := |req.url| + 1)
  }

  lemma LoadFeeds(w: Work, req: Request, a: Acts)
    requires |w.body| == BODY_SIZE && Sendable(req) && w.outlen == 0
    ensures Feeding(Load(w, req), req, a.(fed := [], got := []))
  {
    var w' := Load(w, req);
    var body := Overwrite(w.body, 0, req.url);
    assert body[..|req.url|] == req.url;
    assert w'.body[..w'.urllen] == w'.body[..|req.url|] + w'.body[|req.url|..|req.url| + 1];
  }

  /** What was written so far with `bytes` behind it. */
  function Wrote(a: Acts, bytes: seq<byte>): Acts {
    a.(fed := a.fed + bytes, pipe := a.pipe + bytes)
  }

  lemma WroteFeeds(w: Work, req: Request, a: Acts, x: nat)
    requires Feeding(w, req, a) && Piped(a, Some(Call(req))) && x <= w.urllen - w.urlpos
    ensures var a' := Wrote(a, w.body[w.urlpos..w.urlpos + x]);
            Feeding(w.(urlpos := w.urlpos + x), req, a') && Piped(a', Some(Call(req)))
  {
    var bytes := w.body[w.urlpos..w.urlpos + x];
    assert w.body[..w.urlpos] + bytes == w.body[..w.urlpos + x];
    assert (a.past + a.fed) + bytes == a.past + (a.fed + bytes);
  }

  /** The bare header that the packet buffer makes, wherever it says it came from. */
  function BareReply(w: Work): Packet {
    BarePacket(w.from, w.hdr)
  }

  /** What a read of the output of a rewriter gives: as much as there is room for. */
  function Chunk(w: Work, data: seq<byte>): seq<byte> {
    var room := BODY_SIZE - w.outlen;
    if room < 0 then [] else if |data| > room then data[..room] else data
  }
}
