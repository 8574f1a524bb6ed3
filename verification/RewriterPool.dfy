/** The URL rewriting server: every multiplexer event is a method, and what the operating system
    answers to starts, registrations, reads and writes is left open. */
module RewriterPool {
  import opened Common
  import opened Wire
  import opened Pointers
  import opened RequestQueue
  import opened RewriterLinks
  import opened Accounts
  import opened RewriterStates
  import opened RewriterRuns

  /** A write of `n` bytes to a pipe takes some of them, or none and says so with a negative result;
      `again` then tells a full pipe from a broken one. In `good` times some are taken. */
  method PipeWrite(n: nat, good: bool) returns (x: int, again: bool)
    requires n > 0
    ensures x <= n && x != 0 && (good ==> x > 0)
  {
    x, again := *, *;
    if x > n || x == 0 { x := -1; }
    if good && x < 0 { x := 1; }
  }

  class Server {
    var rw: seq<Rewriter>
    var freeHead: int
    var busyHead: int
    var freeCount: int
    var mux: set<Handle>
    const queue: Queue
    var outbox: seq<Packet>
    var accepted: nat
    ghost var fl: seq<int>
    ghost var bl: seq<int>
    ghost var job: seq<Option<Case>>
    ghost var acts: seq<Acts>
    /** The datagrams accepted so far, and the malformed ones that a rewriter was taken for. */
    ghost var arrivals: seq<Request>
    ghost var strays: seq<Arrival>
    ghost var sent: seq<Sent>

    /** The lists and every rewriter but `x`, which an event is working on. */
    ghost predicate Core(x: int)
      reads this
    {
      && PoolLinks(rw, freeHead, freeCount, fl, busyHead, bl)
      && AllOk(rw, mux, job, acts, x) && AllRemembered(acts, sent)
      && (0 <= x < |rw| ==> Shell(rw[x], x, mux))
    }

    /** The books: accounting of datagrams, and every packet sent so far. */
    ghost predicate Books()
      reads this, queue
    {
      && queue.Valid() && |arrivals| == accepted
      && Balanced(sent, job, queue.Waiting(), arrivals, strays)
      && AllSentOk(sent) && Posted(outbox, sent)
    }

    ghost predicate Valid()
      reads this, queue
    {
      Core(NULL) && Books()
    }

    /** All of the state that statements about events are made of. */
    ghost function Now(): State
      reads this, queue
    {
      State(rw, mux, freeHead, freeCount, fl, busyHead, bl, job, acts, queue.Waiting(), arrivals, strays, sent, outbox)
    }

    /** Nothing arrives, and there are as many rewriters as before. */
    twostate predicate Uneventful()
      reads this
    {
      |rw| == |old(rw)| && accepted == old(accepted) && arrivals == old(arrivals) && strays == old(strays)
    }

    /** The links from the head of the free list make no list at all, whatever the count and the flags. */
    ghost predicate Broken()
      reads this
    {
      forall list :: !Linked(rw, freeHead, list)
    }

    method ChainFree(i: int)
      requires 0 <= i < |rw| && NULL <= freeHead < |rw|
      modifies this`rw, this`freeHead, this`freeCount, this`fl
      ensures rw == Front(old(rw)[i := old(rw)[i].(free := true)], old(freeHead), i)
      ensures freeHead == i && freeCount == old(freeCount) + 1 && fl == [i] + old(fl)
    {
      rw := rw[i := rw[i].(free := true)];
      rw := rw[i := rw[i].(prev := NULL)];
      rw := rw[i := rw[i].(next := freeHead)];
      if freeHead != NULL { rw := rw[freeHead := rw[freeHead].(prev := i)]; }
      freeHead := i;
      freeCount := freeCount + 1;
      fl := [i] + fl;
    }

    method DechainFree(i: int, ghost k: nat)
      requires 0 <= i < |rw| && NULL <= rw[i].next < |rw| && (i != freeHead ==> 0 <= rw[i].prev < |rw|)
      requires k < |fl|
      modifies this`rw, this`freeHead, this`freeCount, this`fl
      ensures var rw1 := Unlinked(old(rw), old(freeHead), i); rw == rw1[i := rw1[i].(free := false)]
      ensures freeHead == (if i == old(freeHead) then old(rw)[i].next else old(freeHead))
      ensures freeCount == old(freeCount) - 1 && fl == Without(old(fl), k)
    {
      var n, p := rw[i].next, rw[i].prev;
      if n != NULL { rw := rw[n := rw[n].(prev := p)]; }
      if i == freeHead { freeHead := n; } else { rw := rw[p := rw[p].(next := n)]; }
      rw := rw[i := rw[i].(free := false)];
      freeCount := freeCount - 1;
      fl := Without(fl, k);
    }

    method ChainBusy(i: int)
      requires 0 <= i < |rw| && NULL <= busyHead < |rw|
      modifies this`rw, this`busyHead, this`bl
      ensures rw == Front(old(rw)[i := old(rw)[i].(busy := true)], old(busyHead), i)
      ensures busyHead == i && bl == [i] + old(bl)
    {
      rw := rw[i := rw[i].(busy := true)];
      rw := rw[i := rw[i].(prev := NULL)];
      rw := rw[i := rw[i].(next := busyHead)];
      if busyHead != NULL { rw := rw[busyHead := rw[busyHead].(prev := i)]; }
      busyHead := i;
      bl := [i] + bl;
    }

    method DechainBusy(i: int, ghost k: nat)
      requires 0 <= i < |rw| && NULL <= rw[i].next < |rw| && (i != busyHead ==> 0 <= rw[i].prev < |rw|)
      requires k < |bl|
      modifies this`rw, this`busyHead, this`bl
      ensures var rw1 := Unlinked(old(rw), old(busyHead), i); rw == rw1[i := rw1[i].(busy := false)]
      ensures busyHead == (if i == old(busyHead) then old(rw)[i].next else old(busyHead))
      ensures bl == Without(old(bl), k)
    {
      var n, p := rw[i].next, rw[i].prev;
      if n != NULL { rw := rw[n := rw[n].(prev := p)]; }
      if i == busyHead { busyHead := n; } else { rw := rw[p := rw[p].(next := n)]; }
      rw := rw[i := rw[i].(busy := false)];
      bl := Without(bl, k);
    }

    /** Changes of one rewriter that leave its flags and links alone keep the lists. */
    lemma LinksFrame(r: Rewriter, i: int)
      requires PoolLinks(rw, freeHead, freeCount, fl, busyHead, bl) && 0 <= i < |rw|
      requires r.free == rw[i].free && r.busy == rw[i].busy && r.next == rw[i].next && r.prev == rw[i].prev
      ensures PoolLinks(rw[i := r], freeHead, freeCount, fl, busyHead, bl)
    {
      LinkedFrame(rw, rw[i := r], freeHead, fl);
      LinkedFrame(rw, rw[i := r], busyHead, bl);
      var rw' := rw[i := r];
      forall x | 0 <= x < |rw'| ensures FlagAt(rw'[x], x, fl, bl) {
        assert FlagAt(rw[x], x, fl, bl);
      }
    }

    /** An event takes up rewriter `i`. */
    lemma Focus(i: int)
      requires Core(NULL) && 0 <= i < |rw|
      ensures Core(i) && RewriterOk(rw[i], i, mux, job[i], acts[i]) && FlagAt(rw[i], i, fl, bl)
    {
      assert RewriterOk(rw[i], i, mux, job[i], acts[i]) && FlagAt(rw[i], i, fl, bl);
      AllOkFrame(rw, mux, job, acts, rw, mux, job, acts, i, NULL);
    }

    /** A rewriter the event is done with, as it stands. */
    lemma Done(i: int)
      requires Core(i) && 0 <= i < |rw| && RewriterOk(rw[i], i, mux, job[i], acts[i])
      ensures Core(NULL)
    {
      AllOkComplete(rw, mux, job, acts, i);
    }

    /** The rewriter being worked on is replaced by `r`, and the multiplexer changes for it alone. */
    method Put(i: int, r: Rewriter, m: set<Handle>)
      requires Core(i) && 0 <= i < |rw| && Shell(r, i, m)
      requires r.free == rw[i].free && r.busy == rw[i].busy && r.next == rw[i].next && r.prev == rw[i].prev
      requires forall h :: h != OutOf(i) && h != Into(i) ==> (h in m <==> h in mux)
      modifies this`rw, this`mux
      ensures Core(i) && rw == old(rw)[i := r] && mux == m
    {
      LinksFrame(r, i);
      AllOkFrame(rw, mux, job, acts, rw[i := r], m, job, acts, i, i);
      rw := rw[i := r];
      mux := m;
    }

    /** What the rewriter being worked on is about, and what went on at it. */
    ghost method Note(i: int, j: Option<Case>, a: Acts)
      requires Core(i) && 0 <= i < |rw| && a.last == acts[i].last
      requires (a.past == acts[i].past && a.done == acts[i].done) || (a.past == [] && a.done == [])
      modifies this`job, this`acts
      ensures Core(i) && job == old(job)[i := j] && acts == old(acts)[i := a]
    {
      AllOkFrame(rw, mux, job, acts, rw, mux, job[i := j], acts[i := a], i, i);
      assert Remembered(acts[i], sent);
      RememberedOne(acts, sent, i, a);
      job, acts := job[i := j], acts[i := a];
    }

    method StartRewriter(i: int, good: bool)
      requires Core(i) && 0 <= i < |rw| && !rw[i].pio
      modifies this`rw, this`mux, this`job, this`acts
      ensures Core(i) && |rw| == |old(rw)| && rw == old(rw)[i := old(rw)[i].(pio := rw[i].pio)] && (good ==> rw[i].pio)
      ensures job == old(job) && acts == old(acts)[i := if rw[i].pio then Restarted(old(acts)[i]) else old(acts)[i]]
    {
      var started := Attempt(good);
      if started {
        var registered := Attempt(good);
        if registered {
          Put(i, rw[i].(pio := true), mux + {OutOf(i)});
          Note(i, job[i], Restarted(acts[i]));
        }
      }
    }

    method StopRewriter(i: int)
      requires Core(i) && 0 <= i < |rw|
      modifies this`rw, this`mux
      ensures Core(i) && rw == old(rw)[i := old(rw)[i].(pio := false, inMux := false)]
    {
      if rw[i].pio {
        if rw[i].inMux {
          Put(i, rw[i].(inMux := false), mux - {Into(i)});
        }
        Put(i, rw[i].(pio := false), mux - {OutOf(i)});
      }
    }

    /** Takes the first free rewriter off its list and clears its data. */
    method TakeHead(i: int)
      requires Core(i) && fl != [] && fl[0] == i
      modifies this`rw, this`freeHead, this`freeCount, this`fl
      ensures Core(i) && 0 <= i < |rw| == |old(rw)| && old(fl) == [i] + fl
      ensures rw[i] == Rewriter(old(rw)[i].pio, false, false, false, false, NULL, NULL, EmptyWork())
    {
      PoolMembers(rw, freeHead, freeCount, fl, busyHead, bl);
      DechainedFree(rw, freeHead, freeCount, fl, busyHead, bl, 0);
      UnlinkedNeighbours(rw, freeHead, fl, 0);
      DechainFree(i, 0);
      ghost var rw1 := rw;
      AllOkFrame(old(rw), mux, job, acts, rw1, mux, job, acts, i, i);
      assert FlagAt(rw[i], i, fl, bl);
      ResetLinks(rw, i);
      rw := rw[i := Rewriter(rw[i].pio, false, false, false, false, NULL, NULL, EmptyWork())];
      AllOkFrame(rw1, mux, job, acts, rw, mux, job, acts, i, i);
    }

    /** A rewriter that has just been taken off the free list. */
    ghost predicate InHand(i: int)
      reads this
    {
      && Core(i) && 0 <= i < |rw|
      && !rw[i].free && !rw[i].busy && !rw[i].faulty && !rw[i].inMux && rw[i].work == EmptyWork()
      && job[i].None? && (rw[i].pio ==> Piped(acts[i], None))
    }

    /** The first free rewriter, taken off the list with its data cleared, or null. */
    method GetFree(good: bool) returns (i: int)
      requires Core(NULL)
      modifies this`rw, this`mux, this`freeHead, this`freeCount, this`fl, this`job, this`acts
      ensures i == NULL <==> old(fl) == []
      ensures i == NULL ==> Core(NULL) && unchanged(this)
      ensures i != NULL ==> InHand(i) && (good ==> rw[i].pio)
      ensures i != NULL ==> i == old(fl)[0] && fl == old(fl)[1..] && |acts| == |old(acts)| && acts == old(acts)[i := acts[i]]
      ensures |rw| == |old(rw)| && job == old(job)
    {
      i := freeHead;
      PoolMembers(rw, freeHead, freeCount, fl, busyHead, bl);
      if i != NULL {
        Focus(i);
        assert !rw[i].busy && !rw[i].faulty && !rw[i].inMux;
        if !rw[i].pio { StartRewriter(i, good); }
        TakeHead(i);
      }
    }

    /** The links of a rewriter on neither list do not matter. */
    lemma ResetLinks(rw0: seq<Rewriter>, i: int)
      requires PoolLinks(rw0, freeHead, freeCount, fl, busyHead, bl) && 0 <= i < |rw0|
      requires !rw0[i].free && !rw0[i].busy
      ensures forall r: Rewriter :: !r.free && !r.busy ==> PoolLinks(rw0[i := r], freeHead, freeCount, fl, busyHead, bl)
    {
      PoolMembers(rw0, freeHead, freeCount, fl, busyHead, bl);
      forall r: Rewriter | !r.free && !r.busy ensures PoolLinks(rw0[i := r], freeHead, freeCount, fl, busyHead, bl) {
        var rw' := rw0[i := r];
        LinkedFrame(rw0, rw', freeHead, fl);
        LinkedFrame(rw0, rw', busyHead, bl);
        forall x | 0 <= x < |rw'| ensures FlagAt(rw'[x], x, fl, bl) {
          assert FlagAt(rw0[x], x, fl, bl);
        }
      }
    }

    /** A packet that settles what rewriter `i` is about is entered in the books. */
    ghost method Settle(i: int, e: Sent)
      requires Core(i) && 0 <= i < |rw| && queue.Valid() && |arrivals| == accepted && job[i] == Some(e.cause) && SentOk(e)
      requires e.output.Some? && e.cause.Call? ==> acts[i].pipe == acts[i].past + Line(e.cause.req)
      requires Balanced(sent, job, queue.Waiting(), arrivals, strays) && AllSentOk(sent) && Posted(outbox, sent + [e])
      modifies this`sent, this`job, this`acts
      ensures Core(i) && Books() && job == old(job)[i := None] && sent == old(sent) + [e]
      ensures acts == old(acts)[i := Concluded(old(acts)[i], e)]
    {
      AllSentOkSnoc(sent, e);
      BalanceAnswered(sent, job, queue.Waiting(), arrivals, strays, i, e);
      RememberedNow(acts, sent, i, e);
      var acts' := acts[i := Concluded(acts[i], e)];
      AllOkFrame(rw, mux, job, acts, rw, mux, job[i := None], acts', i, i);
      sent, job, acts := sent + [e], job[i := None], acts';
    }

    /** The bare header in the buffer of rewriter `i` goes out, and settles what the rewriter is about if it
        is about anything. */
    method SendBare(i: int)
      requires Core(i) && 0 <= i < |rw| && Books() && (job[i].Some? ==> Bears(rw[i].work, job[i]))
      modifies this`sent, this`job, this`acts, this`outbox
      ensures Core(i) && outbox == old(outbox) + [BareReply(rw[i].work)] && job == old(job)[i := None]
      ensures match old(job)[i]
              case None => sent == old(sent) && acts == old(acts)
              case Some(c) =>
                && Books() && sent == old(sent) + [Sent(c, old(acts)[i].fed, None, BareReply(rw[i].work))]
                && acts == old(acts)[i := old(acts)[i].(last := Some(c))]
    {
      outbox := outbox + [BareReply(rw[i].work)];
      if job[i].Some? {
        Settle(i, Sent(job[i].value, acts[i].fed, None, BareReply(rw[i].work)));
      }
    }

    /** Stops watching and unlists the rewriter being worked on, unless it is free. */
    method Retire(i: int)
      requires Core(i) && 0 <= i < |rw|
      modifies this`rw, this`mux, this`busyHead, this`bl
      ensures Core(i) && |rw| == |old(rw)| && Alike(old(rw)[i].(inMux := false, busy := false), rw[i])
      ensures forall j :: 0 <= j < |rw| && j != i ==> Alike(old(rw)[j], rw[j])
    {
      if rw[i].inMux {
        assert rw[i].pio;
        Put(i, rw[i].(inMux := false), mux - {Into(i)});
      }
      assert FlagAt(rw[i], i, fl, bl);
      if rw[i].busy {
        ghost var k :| 0 <= k < |bl| && bl[k] == i;
        ghost var rw1 := rw;
        DechainedBusy(rw, freeHead, freeCount, fl, busyHead, bl, k);
        UnlinkedNeighbours(rw, busyHead, bl, k);
        DechainBusy(i, k);
        AllOkFrame(rw1, mux, job, acts, rw, mux, job, acts, i, i);
      }
    }

    /** Restarts the process of the rewriter being worked on if it is faulty or gone. A process that stays
        has its pipe as it was, and one that is new has been given nothing. */
    method Revive(i: int, good: bool)
      requires Core(i) && 0 <= i < |rw| && !rw[i].inMux
      modifies this`rw, this`mux, this`job, this`acts
      ensures Core(i) && |rw| == |old(rw)| && rw == old(rw)[i := old(rw)[i].(pio := rw[i].pio, faulty := false)] && job == old(job)
      ensures if old(rw)[i].faulty || !old(rw)[i].pio
              then acts == old(acts)[i := if rw[i].pio then Restarted(old(acts)[i]) else old(acts)[i]]
              else acts == old(acts) && rw[i].pio
      ensures good ==> rw[i].pio
    {
      if rw[i].faulty || !rw[i].pio {
        StopRewriter(i);
        StartRewriter(i, good);
        Put(i, rw[i].(faulty := false), mux);
      }
    }

    /** Gives a rewriter back: sends the bare header in its buffer if asked, restarts a faulty or dead
        process, and chains the rewriter to the free list, whether or not it is there already. A process
        that is kept must have been given whole lines only. */
    method Release(i: int, sendEmpty: bool, good: bool)
      requires Core(i) && 0 <= i < |rw| && Books()
      requires sendEmpty <==> job[i].Some? || rw[i].free
      requires Bears(rw[i].work, if job[i].Some? then job[i] else acts[i].last)
      requires rw[i].pio && !rw[i].faulty ==> Piped(acts[i], None)
      modifies this
      ensures !old(rw)[i].free ==> Valid()
      ensures old(rw)[i].free ==> Broken()
      ensures Uneventful() && fl == [i] + old(fl) && freeHead == i && rw[i].free && !rw[i].busy && !rw[i].inMux
      ensures forall j :: 0 <= j < |rw| && j != i ==> Alike(old(rw)[j], rw[j])
      ensures job == old(job)[i := None] && |acts| == |old(acts)| && acts == old(acts)[i := acts[i]]
      ensures outbox == old(outbox) + if sendEmpty then [BareReply(old(rw)[i].work)] else []
      ensures sent == old(sent) + if old(job)[i].Some? then [Sent(old(job)[i].value, old(acts)[i].fed, None, BareReply(old(rw)[i].work))] else []
      ensures acts[i].fed == old(acts)[i].fed && acts[i].last == if old(job)[i].Some? then old(job)[i] else old(acts)[i].last
      ensures if old(rw)[i].faulty || !old(rw)[i].pio then rw[i].pio ==> acts[i].pipe == [] && acts[i].done == []
              else rw[i].pio && acts[i].pipe == old(acts)[i].pipe && acts[i].done == old(acts)[i].done
      ensures good ==> rw[i].pio
    {
      if sendEmpty {
        SendBare(i);
      }
      Restore(i, good);
    }

    /** A rewriter whose process seems faulty is reclaimed. */
    method GiveUp(i: int, good: bool)
      requires Core(i) && 0 <= i < |rw| && Books() && (job[i].Some? || rw[i].free)
      requires Bears(rw[i].work, if job[i].Some? then job[i] else acts[i].last) && (rw[i].free ==> job[i].None?)
      modifies this
      ensures Uneventful() && rw[i].free && !rw[i].busy && !rw[i].inMux && (good ==> rw[i].pio)
      ensures !old(rw)[i].free ==> Valid() && GivesUp(old(Now()), Now(), i) && acts[i].fed == old(acts)[i].fed
      ensures old(rw)[i].free ==> Broken() && SpeaksUp(old(Now()), Now(), i)
    {
      Put(i, rw[i].(faulty := true), mux);
      Release(i, true, good);
    }

    /** A release but for the reply. */
    method Restore(i: int, good: bool)
      requires Core(i) && 0 <= i < |rw| && job[i].None? && Bears(rw[i].work, acts[i].last)
      requires rw[i].pio && !rw[i].faulty ==> Piped(acts[i], None)
      modifies this`rw, this`mux, this`busyHead, this`bl, this`freeHead, this`freeCount, this`fl, this`job, this`acts
      ensures !old(rw)[i].free ==> Core(NULL)
      ensures old(rw)[i].free ==> Broken()
      ensures fl == [i] + old(fl) && |rw| == |old(rw)| && freeHead == i && rw[i].free && !rw[i].busy && !rw[i].inMux
      ensures forall j :: 0 <= j < |rw| && j != i ==> Alike(old(rw)[j], rw[j])
      ensures job == old(job)
      ensures if old(rw)[i].faulty || !old(rw)[i].pio
              then acts == old(acts)[i := if rw[i].pio then Restarted(old(acts)[i]) else old(acts)[i]]
              else acts == old(acts) && rw[i].pio
      ensures good ==> rw[i].pio
    {
      Retire(i);
      Revive(i, good);
      ChainReleased(i);
    }

    /** The last step of a release. */
    method ChainReleased(i: int)
      requires Core(i) && 0 <= i < |rw| && !rw[i].busy && !rw[i].faulty && !rw[i].inMux && job[i].None?
      requires Bears(rw[i].work, acts[i].last) && (rw[i].pio ==> Piped(acts[i], None))
      modifies this`rw, this`freeHead, this`freeCount, this`fl
      ensures !old(rw)[i].free ==> Core(NULL)
      ensures old(rw)[i].free ==> Broken()
      ensures fl == [i] + old(fl) && |rw| == |old(rw)| && freeHead == i && Alike(old(rw)[i].(free := true), rw[i])
      ensures forall j :: 0 <= j < |rw| && j != i ==> Alike(old(rw)[j], rw[j])
    {
      PoolMembers(rw, freeHead, freeCount, fl, busyHead, bl);
      ghost var rw0, fl0, freeHead0 := rw, fl, freeHead;
      if !rw[i].free { ChainedFree(rw, freeHead, freeCount, fl, busyHead, bl, i); }
      ChainFree(i);
      AllOkFrame(rw0, mux, job, acts, rw, mux, job, acts, i, i);
      if !rw0[i].free {
        AllOkComplete(rw, mux, job, acts, i);
      } else {
        assert FlagAt(rw0[i], i, fl0, bl);
        ghost var k :| 0 <= k < |fl0| && fl0[k] == i;
        forall list ensures !Linked(rw, freeHead, list) {
          Circle(rw0, freeHead0, fl0, rw, k, list);
        }
      }
    }

    constructor (npios: int)
      ensures Valid() && accepted == 0 && arrivals == [] && strays == [] && sent == [] && outbox == [] && fresh(queue)
      ensures |rw| == (if npios <= 0 then 1 else npios) && forall j :: 0 <= j < |rw| ==> rw[j].free
    {
      var n := if npios <= 0 then 1 else npios;
      queue := new Queue();
      rw := seq(n, _ => Rewriter(false, false, false, false, false, NULL, NULL, EmptyWork()));
      freeHead, busyHead, freeCount, mux, outbox, accepted := NULL, NULL, 0, {}, [], 0;
      fl, bl, sent, arrivals, strays := [], [], [], [], [];
      job, acts := seq(n, _ => None), seq(n, _ => Acts([], [], [], [], [], None));
      new;
      BalanceEmpty(job);
      for i := 0 to n
        invariant Valid() && accepted == 0 && arrivals == [] && strays == [] && sent == [] && |rw| == n && fresh(queue)
        invariant forall j :: i <= j < n ==> !rw[j].pio && !rw[j].free
        invariant forall j :: 0 <= j < |job| ==> job[j].None?
        invariant forall j :: 0 <= j < i ==> rw[j].free
      {
        Launch(i);
      }
    }

    /** The first start of a rewriter. */
    method Launch(i: int)
      requires Valid() && 0 <= i < |rw| && !rw[i].pio && !rw[i].free && i < |job| && job[i].None? && sent == []
      modifies this
      ensures Valid() && Uneventful() && sent == [] && job == old(job) && rw[i].free
      ensures forall j :: 0 <= j < |rw| && j != i ==> Alike(old(rw)[j], rw[j])
    {
      Focus(i);
      StartRewriter(i, false);
      Release(i, false, false);
    }

    /** The whole line has been written: the rewriter becomes busy. */
    method Seize(i: int)
      requires BeingFed(i) && rw[i].work.urlpos == rw[i].work.urllen
      modifies this`rw, this`mux, this`busyHead, this`bl
      ensures Valid() && |rw| == |old(rw)| && rw[i].busy && Into(i) !in mux
    {
      if rw[i].inMux {
        Put(i, rw[i].(inMux := false), mux - {Into(i)});
      }
      ChainSeized(i);
    }

    /** The last step of it. */
    method ChainSeized(i: int)
      requires Core(i) && 0 <= i < |rw| && rw[i].pio && !rw[i].faulty && !rw[i].busy && !rw[i].free && !rw[i].inMux
      requires job[i].Some? && job[i].value.Call? && Serving(rw[i].work, job[i].value.req, acts[i]) && Piped(acts[i], job[i])
      modifies this`rw, this`busyHead, this`bl
      ensures Core(NULL) && |rw| == |old(rw)| && rw[i].busy
    {
      PoolMembers(rw, freeHead, freeCount, fl, busyHead, bl);
      ChainedBusy(rw, freeHead, freeCount, fl, busyHead, bl, i);
      ghost var rw1 := rw;
      ChainBusy(i);
      AllOkFrame(rw1, mux, job, acts, rw, mux, job, acts, i, i);
      AllOkComplete(rw, mux, job, acts, i);
    }

    /** Rewriter `i` is on neither list, works on a request, and is being fed. */
    ghost predicate BeingFed(i: int)
      reads this, queue
    {
      && Core(i) && 0 <= i < |rw| && Books()
      && rw[i].pio && !rw[i].faulty && !rw[i].busy && !rw[i].free
      && job[i].Some? && job[i].value.Call? && Feeding(rw[i].work, job[i].value.req, acts[i]) && Piped(acts[i], job[i])
    }

    /** The pipe took nothing: wait for it if it is full and can be watched, else give up. `s` is how things
        were before the feeding began. */
    method FeedBlocked(i: int, again: bool, ghost s: State) returns (n: int)
      requires BeingFed(i) && FedSoFar(s, Now(), i)
      modifies this
      ensures Valid() && Uneventful() && Feeds(s, Now(), i, false) && !rw[i].busy
      ensures -1 <= n <= 0 && (n == 0 <==> Into(i) in mux) && (n < 0 <==> job[i].None?)
    {
      ghost var s1 := Now();
      if again {
        var watched := rw[i].inMux;
        if !watched { watched := Attempt(false); }
        if watched {
          Put(i, rw[i].(inMux := true), mux + {Into(i)});
          Done(i);
          FedThenBlocked(s, s1, Now(), i);
          return 0;
        }
      }
      GiveUp(i, false);
      FedThenBlocked(s, s1, Now(), i);
      Focus(i);
      return -1;
    }

    /** The pipe took `x` bytes of the line. */
    method FeedWrote(i: int, x: nat)
      requires BeingFed(i) && x <= rw[i].work.urllen - rw[i].work.urlpos
      modifies this`rw, this`mux, this`job, this`acts
      ensures BeingFed(i) && |rw| == |old(rw)| && job == old(job) && mux == old(mux)
      ensures rw[i].work == old(rw)[i].work.(urlpos := old(rw)[i].work.urlpos + x)
      ensures var w := old(rw)[i].work;
              acts == old(acts)[i := Wrote(old(acts)[i], w.body[w.urlpos..w.urlpos + x])]
    {
      var w := rw[i].work;
      WroteFeeds(w, job[i].value.req, acts[i], x);
      Put(i, rw[i].(work := w.(urlpos := w.urlpos + x)), mux);
      Note(i, job[i], Wrote(acts[i], w.body[w.urlpos..w.urlpos + x]));
      assert job == old(job);
    }

    /** Writes as much of the line as the pipe takes. Returns 1 when all of it is written, 0 when the
        rest waits for the pipe, and -1 when the rewriter had to be given up. */
    method Feed(i: int, good: bool) returns (n: int)
      requires BeingFed(i)
      modifies this
      ensures Valid() && Uneventful() && Feeds(old(Now()), Now(), i, good)
      ensures -1 <= n <= 1 && (n == 1 <==> rw[i].busy) && (n == 0 <==> Into(i) in mux) && (n < 0 <==> job[i].None?)
    {
      ghost var s := Now();
      while rw[i].work.urlpos < rw[i].work.urllen
        invariant BeingFed(i) && Uneventful() && FedSoFar(s, Now(), i)
        decreases rw[i].work.urllen - rw[i].work.urlpos
      {
        var x, again := PipeWrite(rw[i].work.urllen - rw[i].work.urlpos, good);
        if x <= -1 {
          n := FeedBlocked(i, again, s);
          return;
        }
        ghost var s1 := Now();
        FeedWrote(i, x);
        FedFurther(s, s1, Now(), i, x);
      }
      ghost var s1 := Now();
      Seize(i);
      FedThenSeized(s, s1, Now(), i, good);
      return 1;
    }

    /** A request is copied into the buffer of a rewriter taken from the free list. */
    method Copy(i: int, req: Request)
      requires InHand(i) && Sendable(req)
      modifies this`rw, this`mux, this`job, this`acts
      ensures Core(i) && |rw| == |old(rw)| && rw == old(rw)[i := old(rw)[i].(work := rw[i].work)] && job == old(job)[i := Some(Call(req))]
      ensures |acts| == |job| == |rw| && acts == old(acts)[i := old(acts)[i].(fed := [], got := [])]
      ensures Feeding(rw[i].work, req, acts[i]) && (rw[i].pio ==> Piped(acts[i], job[i]))
    {
      LoadFeeds(rw[i].work, req, acts[i]);
      Put(i, rw[i].(work := Load(rw[i].work, req)), mux);
      assert acts[i].past + [] == acts[i].past;
      Note(i, Some(Call(req)), acts[i].(fed := [], got := []));
    }

    /** A rewriter taken from the free list begins to work on a request. */
    method Begin(i: int, req: Request, good: bool)
      requires InHand(i) && queue.Valid() && |arrivals| == accepted && AllSentOk(sent) && Posted(outbox, sent) && Sendable(req)
      requires Balanced(sent, job[i := Some(Call(req))], queue.Waiting(), arrivals, strays)
      modifies this
      ensures Valid() && Uneventful() && TakesOn(old(Now()), Now(), i, old(fl), req, good && old(rw)[i].pio)
    {
      ghost var s := Now();
      Copy(i, req);
      ghost var s1 := Now();
      if rw[i].pio {
        var n := Feed(i, good);
        FedTakesOn(s, s1, Now(), i, req, good);
      } else {
        Release(i, true, good);
        FedTakesOn(s, s1, Now(), i, req, false);
      }
    }

    /** A datagram that cannot be queued is answered at once, with the error code. */
    method Refuse(req: Request)
      requires AllSentOk(sent) && Posted(outbox, sent) && Balanced(sent, job, queue.Waiting(), arrivals, strays) && req.id == |arrivals|
      requires AllRemembered(acts, sent)
      modifies this`sent, this`outbox
      ensures AllSentOk(sent) && Posted(outbox, sent) && Balanced(sent, job, queue.Waiting(), arrivals + [req], strays)
      ensures AllRemembered(acts, sent)
      ensures sent == old(sent) + [Sent(Call(req), [], None, Refusal(req))] && outbox == old(outbox) + [Refusal(req)]
    {
      var reply := Refusal(req);
      outbox := outbox + [reply];
      ghost var e := Sent(Call(req), [], None, reply);
      AllSentOkSnoc(sent, e);
      BalanceRefused(sent, job, queue.Waiting(), arrivals, strays, e);
      RememberedMore(acts, sent, e);
      sent := sent + [e];
    }

    /** A malformed datagram leaves the rewriter that was taken for it on neither list. */
    method Keep(i: int, a: Arrival)
      requires InHand(i) && Books() && Receivable(a)
      modifies this`rw, this`mux, this`job, this`acts, this`strays
      ensures Valid() && |rw| == |old(rw)| && strays == old(strays) + [a]
      ensures |acts| == |old(acts)| && acts == old(acts)[i := acts[i]] && job == old(job)[i := Some(Stray(|old(strays)|, a.from, a.hdr))]
    {
      BalanceStray(sent, job, queue.Waiting(), arrivals, strays, i, a);
      Put(i, rw[i].(work := Received(rw[i].work, a)), mux);
      Note(i, Some(Stray(|strays|, a.from, a.hdr)), acts[i]);
      strays := strays + [a];
      Done(i);
    }

    /** A free rewriter receives a datagram. A malformed one leaves it on neither list. */
    method ReceiveWith(i: int, a: Arrival, good: bool)
      requires InHand(i) && Books() && Receivable(a)
      modifies this
      ensures Valid() && |rw| == |old(rw)|
      ensures Accepted(a) ==>
                var req := RequestOf(a, |old(arrivals)|);
                && arrivals == old(arrivals) + [req] && strays == old(strays)
                && TakesOn(old(Now()), Now(), i, old(fl), req, good && old(rw)[i].pio)
      ensures !Accepted(a) ==>
                && arrivals == old(arrivals) && strays == old(strays) + [a] && unchanged(this`fl, this`sent, this`outbox)
                && acts == old(acts)[i := acts[i]] && job == old(job)[i := Some(Stray(|old(strays)|, a.from, a.hdr))]
    {
      if !Accepted(a) {
        Keep(i, a);
        return;
      }
      var req := RequestOf(a, accepted);
      BalanceAccepted(sent, job, queue.Waiting(), arrivals, strays, i, req);
      accepted := accepted + 1;
      arrivals := arrivals + [req];
      Begin(i, req, good);
    }

    /** With no rewriter free a well-formed datagram is queued, or refused when there is no memory, and a
        malformed one is dropped. */
    method ReceiveToQueue(a: Arrival, memoryLeft: bool)
      requires Valid() && Receivable(a) && fl == []
      modifies queue, this`accepted, this`arrivals, this`sent, this`outbox
      ensures Valid() && Arrives(old(Now()), Now(), a, memoryLeft, false)
    {
      if !Accepted(a) { return; }
      var req := RequestOf(a, accepted);
      ghost var waiting := queue.Waiting();
      var ok := queue.Enqueue(req, memoryLeft);
      if ok {
        BalanceQueued(sent, job, waiting, arrivals, strays, req);
      } else {
        Refuse(req);
      }
      accepted := accepted + 1;
      arrivals := arrivals + [req];
    }

    /** A datagram arrives: a free rewriter takes it at once, else it is queued. */
    method OnSocket(a: Arrival, memoryLeft: bool, good: bool)
      requires Valid() && Receivable(a)
      modifies this, queue
      ensures Valid() && Arrives(old(Now()), Now(), a, memoryLeft, good)
    {
      ghost var s := Now();
      var i := GetFree(good);
      if i != NULL {
        ghost var s1 := Now();
        ReceiveWith(i, a, good);
        if Accepted(a) {
          TakesOnFrom(s, s1, Now(), i, s.fl[1..], RequestOf(a, |s.arrivals|), good && s1.rw[i].pio);
        }
      } else {
        ReceiveToQueue(a, memoryLeft);
      }
    }

    /** Hands the longest waiting request to a rewriter taken from the free list. */
    method TakeWaiting(i: int, good: bool)
      requires InHand(i) && Books() && queue.Waiting() != []
      modifies this, queue
      ensures Valid() && Uneventful() && queue.Waiting() == old(queue.Waiting())[1..]
      ensures TakesOn(old(Now()), Now(), i, old(fl), old(queue.Waiting())[0], good && old(rw)[i].pio)
    {
      ghost var waiting := queue.Waiting();
      var b := queue.Dequeue();
      var req := queue.mem[b].req;
      queue.Release(b);
      BalanceTaken(sent, job, waiting, arrivals, strays, i);
      Begin(i, req, good);
    }

    /** Hands the longest waiting request to the first free rewriter, if there is one. */
    method HandOne(good: bool) returns (taken: bool)
      requires Valid() && queue.Waiting() != []
      modifies this, queue
      ensures Valid() && Uneventful() && (taken <==> old(fl) != [])
      ensures if taken then queue.Waiting() == old(queue.Waiting())[1..]
                            && TakesOn(old(Now()), Now(), old(fl)[0], old(fl)[1..], old(queue.Waiting())[0], good)
              else Now() == old(Now())
    {
      ghost var s := Now();
      var i := GetFree(good);
      if i == NULL { return false; }
      ghost var s1 := Now();
      TakeWaiting(i, good);
      TakesOnFrom(s, s1, Now(), i, s1.fl, s.waiting[0], good && s1.rw[i].pio);
      return true;
    }

    /** Hands waiting requests to free rewriters, longest waiting first, until there are no more of
        either. `n` requests leave the queue. */
    method HandlePending(good: bool) returns (n: nat)
      requires Valid()
      modifies this, queue
      ensures Valid() && Uneventful()
      ensures HandsOut(old(Now()), Now(), n, good) && (queue.Waiting() == [] || fl == [])
    {
      n := 0;
      ghost var s := Now();
      HandsOutNone(s, good);
      while queue.count > 0
        invariant Valid() && Uneventful() && HandsOut(s, Now(), n, good)
        invariant queue.count == |queue.Waiting()|
        decreases queue.count
      {
        ghost var s1 := Now();
        var taken := HandOne(good);
        if !taken { break; }
        HandsOutNext(s, s1, n, Now(), s1.fl[0], s1.fl[1..], good);
        n := n + 1;
      }
    }

    /** The pipe into a rewriter can take more. */
    method OnWritable(i: int, good: bool)
      requires Valid() && 0 <= i < |rw| && Into(i) in mux
      modifies this
      ensures Valid() && Uneventful() && Feeds(old(Now()), Now(), i, good)
    {
      Focus(i);
      assert rw[i].inMux;
      assert !rw[i].free && !rw[i].busy;
      var n := Feed(i, good);
    }

    /** A complete line came back: the reply goes out with the request's own header, from the buffer. */
    method SendRewritten(i: int)
      requires Core(i) && 0 <= i < |rw| && Books() && job[i].Some? && job[i].value.Call? && Piped(acts[i], job[i])
      requires acts[i].fed == Line(job[i].value.req) && Bears(rw[i].work, job[i])
      requires var w := rw[i].work;
               0 < w.outlen <= BODY_SIZE == |w.body| && w.body[..w.outlen] == acts[i].got && w.body[w.outlen - 1] == NEWLINE
      modifies this`sent, this`job, this`acts, this`outbox
      ensures Core(i) && Books() && job == old(job)[i := None]
      ensures var req, output := old(job)[i].value.req, old(acts)[i].got;
              && sent == old(sent) + [Sent(Call(req), Line(req), Some(output), Rewritten(req, output))]
              && outbox == old(outbox) + [Rewritten(req, output)]
              && acts == old(acts)[i := old(acts)[i].(last := Some(Call(req)), past := old(acts)[i].pipe, done := old(acts)[i].done + [req])]
      ensures Piped(acts[i], None)
    {
      var w := rw[i].work;
      var pktlen := w.outlen + HEADER_SIZE - 1;
      var reply := Packet(w.from, w.hdr, pktlen, w.body[..w.outlen - 1]);
      outbox := outbox + [reply];
      assert reply.payload == acts[i].got[..w.outlen - 1];
      Settle(i, Sent(job[i].value, acts[i].fed, Some(acts[i].got), reply));
    }

    /** Output of a busy rewriter lands in its buffer behind what is there. */
    method StoreOutput(i: int, data: seq<byte>)
      requires Core(i) && 0 <= i < |rw| && job[i].Some? && job[i].value.Call? && Serving(rw[i].work, job[i].value.req, acts[i])
      requires 0 < |data| <= BODY_SIZE - rw[i].work.outlen
      modifies this`rw, this`mux, this`job, this`acts
      ensures Core(i) && |rw| == |old(rw)| && job == old(job)
      ensures acts == old(acts)[i := old(acts)[i].(got := old(acts)[i].got + data)]
      ensures rw[i] == old(rw)[i].(work := rw[i].work)
      ensures var w := rw[i].work;
              && w == old(rw)[i].work.(body := w.body, outlen := |acts[i].got|)
              && |w.body| == BODY_SIZE && |acts[i].got| <= BODY_SIZE && w.body[..w.outlen] == acts[i].got
    {
      var w := rw[i].work;
      var body := Overwrite(w.body, w.outlen, data);
      ghost var output := acts[i].got + data;
      assert body[..w.outlen + |data|] == body[..w.outlen] + body[w.outlen..w.outlen + |data|] == output;
      Put(i, rw[i].(work := w.(body := body, outlen := w.outlen + |data|)), mux);
      Note(i, job[i], acts[i].(got := output));
    }

    /** The end of what a busy rewriter has said was reached, with what it said in its buffer. */
    ghost predicate Heard(i: int)
      reads this, queue
    {
      && Core(i) && 0 <= i < |rw| && Books() && rw[i].busy && !rw[i].free && rw[i].pio && !rw[i].faulty && job[i].Some? && job[i].value.Call?
      && acts[i].fed == Line(job[i].value.req) && Bears(rw[i].work, job[i]) && Piped(acts[i], job[i])
      && var w := rw[i].work;
         0 < w.outlen == |acts[i].got| <= BODY_SIZE == |w.body| && w.body[..w.outlen] == acts[i].got
    }

    /** A line that is complete goes out as the rewritten reply, and the rewriter is free again. */
    method Reply(i: int, good: bool)
      requires Heard(i) && acts[i].got[|acts[i].got| - 1] == NEWLINE
      modifies this
      ensures Valid() && Uneventful() && rw[i].pio && |acts| == |old(acts)| && acts == old(acts)[i := acts[i]]
      ensures var req, output := old(job)[i].value.req, old(acts)[i].got;
              && job == old(job)[i := None] && acts[i].last == Some(Call(req)) && fl == [i] + old(fl)
              && sent == old(sent) + [Sent(Call(req), Line(req), Some(output), Rewritten(req, output))]
              && outbox == old(outbox) + [Rewritten(req, output)]
    {
      SendRewritten(i);
      assert acts[i].last.Some? && Bears(rw[i].work, acts[i].last);
      Release(i, false, good);
    }

    /** A line that is not complete leaves the rewriter busy. */
    lemma StillBusy(i: int)
      requires Heard(i) && acts[i].got[|acts[i].got| - 1] != NEWLINE
      ensures Valid()
    {
      Done(i);
    }

    /** A busy rewriter has produced output. It joins what came before; a line that is complete goes out as
        the rewritten reply. Without output the rewriter is given up with a bare reply. */
    method ReadOutput(i: int, data: seq<byte>, good: bool)
      requires Valid() && 0 <= i < |rw| && rw[i].busy
      modifies this
      ensures Valid() && Uneventful() && Speaks(old(Now()), Now(), i, data) && (good ==> rw[i].pio)
    {
      ghost var s := Now();
      Focus(i);
      var chunk := Chunk(rw[i].work, data);
      if |chunk| == 0 {
        GiveUp(i, good);
        return;
      }
      StoreOutput(i, chunk);
      ghost var s1 := Now();
      // The output is never longer than the buffer, so the source's test for that never succeeds.
      var w := rw[i].work;
      assert w.outlen <= BODY_SIZE;
      assert w.body[w.outlen - 1] == w.body[..w.outlen][w.outlen - 1];
      if w.body[w.outlen - 1] == NEWLINE {
        Reply(i, good);
        SpokeLine(s, s1, Now(), i, data);
      } else {
        StillBusy(i);
        SpokePart(s, s1, i, data);
      }
    }

    /** A rewriter's process has produced output, or ended. Output before the whole line was written
        means something is wrong, and the rewriter is reclaimed. If the rewriter was free at the time
        it is chained to the free list a second time, and the links lead round in a circle. */
    method OnOutput(i: int, data: seq<byte>, good: bool)
      requires Valid() && 0 <= i < |rw| && OutOf(i) in mux
      modifies this
      ensures !old(rw)[i].free ==> Valid()
      ensures old(rw)[i].free ==> Broken()
      ensures Uneventful() && Hears(old(Now()), Now(), i, data)
      ensures !old(rw)[i].busy ==> !rw[i].inMux
      ensures good ==> rw[i].pio
    {
      Focus(i);
      if rw[i].busy {
        ReadOutput(i, data, good);
      } else {
        GiveUp(i, good);
      }
    }

    /** The assertions of a writable event hold exactly when the input is registered. */
    lemma WritableExactly(i: int)
      requires Valid() && 0 <= i < |rw|
      ensures rw[i].inMux && !rw[i].free && !rw[i].busy <==> Into(i) in mux
    {
      Focus(i);
    }

    /** Both handles of a rewriter that is being fed may be ready in one poll. If its output comes first, the
        writable event that was found with it meets a rewriter whose input is not registered any more: what
        the source asserts there is false, whatever the output was. */
    method OutputThenWritable(i: int, data: seq<byte>, good: bool)
      requires Valid() && 0 <= i < |rw| && OutOf(i) in mux && Into(i) in mux
      modifies this
      ensures Valid() && |rw| == |old(rw)|
      ensures !rw[i].inMux && Into(i) !in mux && i in fl
    {
      Focus(i);
      OnOutput(i, data, good);
      Focus(i);
    }

    /** One event, if its handle is watched. */
    method Handle(e: Event) returns (intact: bool)
      requires Valid() && (e.Socket? ==> Receivable(e.arrival))
      modifies this, queue
      ensures Effect(e, old(Now()), Now()) && (intact <==> !SpokenUp(e, old(Now()))) && old(outbox) <= outbox
      ensures intact ==> Valid()
      ensures !intact ==> Broken()
    {
      ghost var s := Now();
      intact := true;
      match e {
        case Socket(a, memoryLeft, good) => OnSocket(a, memoryLeft, good);
        case Writable(i, good) =>
          if 0 <= i < |rw| && Into(i) in mux { OnWritable(i, good); }
        case Output(i, data, good) =>
          if 0 <= i < |rw| && OutOf(i) in mux {
            intact := !rw[i].free;
            OnOutput(i, data, good);
          }
        case Drain(good) =>
          var n := HandlePending(good);
      }
      ArrivalsStep(e, s, Now());
    }

    /** Any sequence of events, each taking place only if its handle is watched at the time, and each doing
        what it should. The pool stays valid exactly as long as no process of a free rewriter speaks up. */
    method Serve(events: seq<Event>) returns (intact: bool, ghost log: seq<State>)
      requires Valid()
      requires forall k :: 0 <= k < |events| && events[k].Socket? ==> Receivable(events[k].arrival)
      modifies this, queue
      ensures IsRun(events, log) && log[0] == old(Now()) && log[|log| - 1] == Now()
      ensures arrivals == old(arrivals) + Arrivals(events, |log| - 1, |old(arrivals)|) && old(outbox) <= outbox
      ensures intact <==> forall k :: 0 <= k < |log| - 1 ==> !SpokenUp(events[k], log[k])
      ensures intact ==> Valid() && |log| == |events| + 1
      ensures !intact ==> Broken()
    {
      var served := 0;
      intact, log := true, [Now()];
      assert !SpokenUpBefore(events, log, 0);
      while served < |events|
        invariant served <= |events| && intact && Valid()
        invariant IsRun(events, log) && |log| == served + 1 && log[0] == old(Now()) && log[served] == Now()
        invariant forall k :: 0 <= k < served ==> !SpokenUp(events[k], log[k])
        decreases |events| - served
      {
        ghost var s := Now();
        intact := Handle(events[served]);
        RunSnoc(events, log, Now());
        log := log + [Now()];
        served := served + 1;
        if !intact {
          assert SpokenUp(events[served - 1], log[served - 1]);
          ArrivalsInRun(events, log, served);
          return;
        }
      }
      ArrivalsInRun(events, log, served);
    }

    /** In every state that is reached: each datagram that arrived has been answered by exactly one reply, to
        its sender and with its seq and urlsum, unless it waits or is being worked on. */
    lemma EveryDatagramAnswered(id: nat)
      requires Valid() && id < |arrivals|
      ensures Pending(job, queue.Waiting(), Numbered(id)) <= 1
      ensures Pending(job, queue.Waiting(), Numbered(id)) == 0 ==>
                exists k: nat :: Answers(outbox, sent, k, arrivals[id]) &&
                                 forall j :: 0 <= j < |sent| && sent[j].cause == Call(arrivals[id]) ==> j == k
    {
      ExactlyOneReply(outbox, sent, job, queue.Waiting(), arrivals, strays, id);
    }

    /** In every state that is reached, as many packets have gone out, to anyone and with any seq and urlsum,
        as datagrams like that were answered and malformed ones sent back. */
    lemma EveryPacketCounted(f: Mark)
      requires Valid()
      ensures Packets(outbox, f) == |Answered(job, queue.Waiting(), arrivals, f)| + |Echoed(job, queue.Waiting(), strays, f)|
      ensures |outbox| == |Answered(job, queue.Waiting(), arrivals, (_, _, _) => true)| + |Echoed(job, queue.Waiting(), strays, (_, _, _) => true)|
    {
      PacketsCounted(outbox, sent, job, queue.Waiting(), arrivals, strays, f);
      PacketsCounted(outbox, sent, job, queue.Waiting(), arrivals, strays, (_, _, _) => true);
      AllPackets(outbox);
    }
  }

  /** A server of one rewriter gets a request. */
  method OneRequest(a: Arrival) returns (server: Server)
    requires Receivable(a) && Accepted(a)
    ensures fresh(server) && server.Valid() && |server.rw| == 1 && server.rw[0].busy && server.outbox == []
    ensures |server.job| == |server.acts| == 1 && server.job[0] == Some(Call(RequestOf(a, 0))) && server.acts[0].got == []
  {
    server := new Server(1);
    server.Focus(0);
    server.OnSocket(a, true, true);
  }

  /** Its process answers. */
  method OneAnswer(a: Arrival, answer: seq<byte>) returns (server: Server)
    requires Receivable(a) && Accepted(a) && 0 < |answer| <= BODY_SIZE && answer[|answer| - 1] == NEWLINE
    ensures fresh(server) && server.Valid() && |server.rw| == 1 && server.rw[0].free && OutOf(0) in server.mux
    ensures server.outbox == [Rewritten(RequestOf(a, 0), answer)]
    ensures BareReply(server.rw[0].work) == BarePacket(a.from, a.hdr)
  {
    server := OneRequest(a);
    server.Focus(0);
    ghost var s := server.Now();
    server.OnOutput(0, answer, true);
    SpeaksAtOnce(s, server.Now(), 0, answer);
    server.Focus(0);
  }

  /** If the process ends after it has answered, the sender of the request gets a second packet with the
      same seq and urlsum behind the rewritten reply. */
  method SecondReply(a: Arrival, answer: seq<byte>) returns (outbox: seq<Packet>)
    requires Receivable(a) && Accepted(a) && 0 < |answer| <= BODY_SIZE && answer[|answer| - 1] == NEWLINE
    ensures outbox == [Packet(a.from, a.hdr, 9 + |answer|, answer[..|answer| - 1]), Packet(a.from, a.hdr, 10, [])]
  {
    var server := OneAnswer(a, answer);
    server.Focus(0);
    server.OnOutput(0, [], true);
    outbox := server.outbox;
  }
}
