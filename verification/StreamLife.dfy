/** What a caller can see of the streams of a run: the entries of the stream chain, newest first, and
    the life of each of them, from its opening to its last close. */
module StreamLife {

  datatype Kind = Pipe | File | Console
  datatype Direction = Reading | Writing | TwoWay
  datatype Mode = Read | Write | Append | ReadWrite
  datatype Key = Key(kind: Kind, direction: Direction, name: string)

  datatype Input = InPipe | InTwoWay | InFile | InConsole
  datatype Output = OutPipe | OutTwoWay | OutFile | OutAppend | OutConsole

  function InKey(i: Input, name: string): Key {
    match i
    case InPipe => Key(Pipe, Reading, name)
    case InTwoWay => Key(Pipe, TwoWay, name)
    case InFile => Key(File, Reading, name)
    case InConsole => Key(Console, Reading, name)
  }

  function InMode(i: Input): Mode {
    if i == InTwoWay then ReadWrite else Read
  }

  function OutKey(o: Output, name: string): Key {
    match o
    case OutPipe => Key(Pipe, Writing, name)
    case OutTwoWay => Key(Pipe, TwoWay, name)
    case OutFile => Key(File, Writing, name)
    case OutAppend => Key(File, Writing, name)
    case OutConsole => Key(Console, Writing, name)
  }

  function OutMode(o: Output): Mode {
    if o == OutTwoWay then ReadWrite else if o == OutAppend then Append else Write
  }

  /** Which ends a close is about; of a stream, which end has been closed, with `Full` for none yet. */
  datatype Closing = Full | ReadEnd | WriteEnd

  datatype Entry = Entry(key: Key, mode: Mode, closing: Closing, closed: Closing)

  ghost predicate Distinct(chain: seq<Entry>) {
    forall i, j :: 0 <= i < j < |chain| ==> chain[i].key != chain[j].key
  }

  // ---------------------------------------------------------------- closing by name

  /** A close with an option passes over the streams that do not go that way. */
  predicate Reaches(e: Entry, name: string, opt: Closing) {
    && e.key.name == name
    && (opt == ReadEnd ==> e.key.direction != Writing) && (opt == WriteEnd ==> e.key.direction != Reading)
  }

  /** The first stream that a close reaches. */
  ghost predicate FirstReached(chain: seq<Entry>, name: string, opt: Closing, k: nat) {
    k < |chain| && Reaches(chain[k], name, opt) && forall j :: 0 <= j < k ==> !Reaches(chain[j], name, opt)
  }

  /** What the handler is asked to close: one end of a two-way stream, unless the other end has been
      closed before. */
  function Requested(e: Entry, opt: Closing): Closing {
    if !e.key.direction.TwoWay? then Full
    else if opt == ReadEnd && e.closed != WriteEnd then ReadEnd
    else if opt == WriteEnd && e.closed != ReadEnd then WriteEnd
    else Full
  }

  /** A two-way stream of which no end has been closed survives the close of one end. */
  predicate Survives(e: Entry, opt: Closing) {
    e.key.direction.TwoWay? && e.closed == Full && opt != Full
  }

  /** What the entry has stored when its handler is called, or would be called. */
  function Asked(e: Entry, opt: Closing, called: bool): Entry {
    if called || e.key.direction.TwoWay? then e.(closing := Requested(e, opt)) else e
  }

  /** A two-way stream goes without a request to close it fully, or its other end, exactly when the end
      that was closed before is closed again. */
  lemma SameEndTwice(e: Entry, opt: Closing)
    ensures e.key.direction.TwoWay? && !Survives(e, opt) ==>
              (Requested(e, opt) != Full <==> opt != Full && e.closed == opt)
    ensures Survives(e, opt) ==> Requested(e, opt) == opt
  {
  }

  // ---------------------------------------------------------------- lives

  /** `asked` is what the entry says its handler was last asked to close. */
  datatype Outcome =
    | Failed
    | Found(key: Key)
    | Created(key: Key)
    | HalfClosed(key: Key, end: Closing)
    | Unlinked(key: Key, asked: Closing)

  datatype Life = Absent | Open | Half(end: Closing) | Broken

  /** The only life a stream may have: created once, found again any number of times, half closed at
      most once and only if it is two-way, and unlinked once. */
  function Next(life: Life, key: Key, o: Outcome): Life {
    if o == Failed || o.key != key then life
    else match (life, o) {
      case (Absent, Created(_)) => Open
      case (Open, Found(_)) => Open
      case (Half(_), Found(_)) => life
      case (Open, HalfClosed(_, end)) => if key.direction.TwoWay? && end != Full then Half(end) else Broken
      case (Open, Unlinked(_, _)) => Absent
      case (Half(_), Unlinked(_, _)) => Absent
      case _ => Broken
    }
  }

  /** The life that a log tells of a stream. */
  function Lived(life: Life, key: Key, log: seq<Outcome>): Life {
    if log == [] then life else Next(Lived(life, key, log[..|log| - 1]), key, log[|log| - 1])
  }

  function LifeOf(e: Entry): Life {
    if e.closed == Full then Open else Half(e.closed)
  }

  /** The life of a stream as the chain has it. */
  function LifeIn(chain: seq<Entry>, key: Key): (life: Life)
    ensures life != Broken
  {
    if chain == [] then Absent else if chain[0].key == key then LifeOf(chain[0]) else LifeIn(chain[1..], key)
  }

  lemma {:induction false} LifeAt(chain: seq<Entry>, k: nat)
    requires Distinct(chain) && k < |chain|
    ensures LifeIn(chain, chain[k].key) == LifeOf(chain[k])
  {
    if k > 0 { LifeAt(chain[1..], k - 1); }
  }

  lemma {:induction false} LifeOfNone(chain: seq<Entry>, key: Key)
    requires forall j :: 0 <= j < |chain| ==> chain[j].key != key
    ensures LifeIn(chain, key) == Absent
  {
    if chain != [] { LifeOfNone(chain[1..], key); }
  }

  /** A step leads every stream on in its life. */
  ghost predicate Follows(before: seq<Entry>, o: Outcome, after: seq<Entry>) {
    forall key :: LifeIn(after, key) == Next(LifeIn(before, key), key, o)
  }

  /** A log leads every stream on in its life. */
  ghost predicate FollowsAll(before: seq<Entry>, log: seq<Outcome>, after: seq<Entry>) {
    forall key :: LifeIn(after, key) == Lived(LifeIn(before, key), key, log)
  }

  lemma FollowsSnoc(first: seq<Entry>, log: seq<Outcome>, before: seq<Entry>, o: Outcome, after: seq<Entry>)
    requires FollowsAll(first, log, before) && Follows(before, o, after)
    ensures FollowsAll(first, log + [o], after)
  {
    assert (log + [o])[..|log|] == log;
  }

  /** A broken life stays broken, so a life that is not broken in the end never was. */
  lemma {:induction false} NeverBroken(life: Life, key: Key, log: seq<Outcome>, n: nat)
    requires n <= |log| && Lived(life, key, log) != Broken
    ensures Lived(life, key, log[..n]) != Broken
  {
    if n < |log| {
      NeverBroken(life, key, log[..|log| - 1], n);
      assert log[..|log| - 1][..n] == log[..n];
    } else {
      assert log[..n] == log;
    }
  }

  /** Two logs one after the other. */
  lemma {:induction false} LivedJoin(life: Life, key: Key, a: seq<Outcome>, b: seq<Outcome>)
    ensures Lived(life, key, a + b) == Lived(Lived(life, key, a), key, b)
  {
    if b == [] {
      assert a + b == a;
    } else {
      LivedJoin(life, key, a, b[..|b| - 1]);
      assert (a + b)[..|a + b| - 1] == a + b[..|b| - 1];
    }
  }

  lemma FollowsJoin(first: seq<Entry>, a: seq<Outcome>, middle: seq<Entry>, b: seq<Outcome>, last: seq<Entry>)
    requires FollowsAll(first, a, middle) && FollowsAll(middle, b, last)
    ensures FollowsAll(first, a + b, last)
  {
    forall key ensures LifeIn(last, key) == Lived(LifeIn(first, key), key, a + b) {
      LivedJoin(LifeIn(first, key), key, a, b);
    }
  }

  // ---------------------------------------------------------------- steps

  lemma CreateFollows(chain: seq<Entry>, e: Entry)
    requires Distinct(chain) && e.closed == Full && forall j :: 0 <= j < |chain| ==> chain[j].key != e.key
    ensures Distinct([e] + chain) && Follows(chain, Created(e.key), [e] + chain)
  {
    LifeOfNone(chain, e.key);
    assert ([e] + chain)[1..] == chain;
  }

  lemma FoundFollows(chain: seq<Entry>, k: nat)
    requires Distinct(chain) && k < |chain|
    ensures Follows(chain, Found(chain[k].key), chain)
  {
    LifeAt(chain, k);
  }

  /** Changing an entry changes no other life. */
  lemma {:induction false} LifeElsewhere(chain: seq<Entry>, k: nat, e: Entry, key: Key)
    requires k < |chain| && e.key == chain[k].key && key != e.key
    ensures LifeIn(chain[k := e], key) == LifeIn(chain, key)
  {
    if k > 0 {
      LifeElsewhere(chain[1..], k - 1, e, key);
      assert chain[k := e][1..] == chain[1..][k - 1 := e];
    } else {
      assert chain[k := e][1..] == chain[1..];
    }
  }

  /** A change that leaves the ends as they are. */
  lemma AskedFollows(chain: seq<Entry>, k: nat, e: Entry)
    requires Distinct(chain) && k < |chain| && e.key == chain[k].key && e.closed == chain[k].closed
    ensures Distinct(chain[k := e]) && Follows(chain, Failed, chain[k := e])
  {
    var after := chain[k := e];
    LifeAt(chain, k);
    LifeAt(after, k);
    forall key | key != e.key ensures LifeIn(after, key) == LifeIn(chain, key) { LifeElsewhere(chain, k, e, key); }
  }

  lemma HalfFollows(chain: seq<Entry>, k: nat, e: Entry)
    requires Distinct(chain) && k < |chain| && e.key == chain[k].key && e.key.direction.TwoWay?
    requires chain[k].closed == Full && e.closed != Full
    ensures Distinct(chain[k := e]) && Follows(chain, HalfClosed(e.key, e.closed), chain[k := e])
  {
    var after := chain[k := e];
    LifeAt(chain, k);
    LifeAt(after, k);
    forall key | key != e.key ensures LifeIn(after, key) == LifeIn(chain, key) { LifeElsewhere(chain, k, e, key); }
  }

  function Cut(chain: seq<Entry>, k: nat): seq<Entry>
    requires k < |chain|
  {
    chain[..k] + chain[k + 1..]
  }

  /** What a close of the `k`-th entry does: nothing but note the request, if its handler is called and
      does not agree; close the first end of a two-way stream; or take the entry out. */
  ghost predicate Closed(before: seq<Entry>, k: nat, opt: Closing, called: bool, agrees: bool, o: Outcome, after: seq<Entry>) {
    && k < |before|
    && var e := before[k];
       var asked := Asked(e, opt, called);
       if called && !agrees then o == Failed && after == before[k := asked]
       else if Survives(e, opt) then o == HalfClosed(e.key, opt) && after == before[k := asked.(closed := opt)]
       else o == Unlinked(e.key, asked.closing) && after == Cut(before, k)
  }

  lemma {:induction false} CutElsewhere(chain: seq<Entry>, k: nat, key: Key)
    requires k < |chain| && key != chain[k].key
    ensures LifeIn(Cut(chain, k), key) == LifeIn(chain, key)
  {
    if k > 0 {
      CutElsewhere(chain[1..], k - 1, key);
      assert Cut(chain, k)[1..] == Cut(chain[1..], k - 1);
    } else {
      assert Cut(chain, k) == chain[1..];
    }
  }

  lemma UnlinkFollows(chain: seq<Entry>, k: nat, asked: Closing)
    requires Distinct(chain) && k < |chain|
    ensures Distinct(Cut(chain, k)) && Follows(chain, Unlinked(chain[k].key, asked), Cut(chain, k))
  {
    var after, gone := Cut(chain, k), chain[k].key;
    LifeAt(chain, k);
    LifeOfNone(after, gone);
    forall key | key != gone ensures LifeIn(after, key) == LifeIn(chain, key) { CutElsewhere(chain, k, key); }
  }

  lemma CutStored(chain: seq<Entry>, k: nat, e: Entry)
    requires k < |chain|
    ensures Cut(chain[k := e], k) == Cut(chain, k)
  {
  }

  /** A close leads every stream on in its life. */
  lemma ClosedFollows(before: seq<Entry>, k: nat, opt: Closing, called: bool, agrees: bool, o: Outcome, after: seq<Entry>)
    requires Distinct(before) && Closed(before, k, opt, called, agrees, o, after)
    ensures Distinct(after) && Follows(before, o, after)
  {
    var asked := Asked(before[k], opt, called);
    if called && !agrees {
      AskedFollows(before, k, asked);
    } else if Survives(before[k], opt) {
      HalfFollows(before, k, asked.(closed := opt));
    } else {
      UnlinkFollows(before, k, asked.closing);
    }
  }

  // ---------------------------------------------------------------- answers

  ghost predicate HasKey(chain: seq<Entry>, key: Key) {
    exists j :: 0 <= j < |chain| && chain[j].key == key
  }

  /** Opening finds the stream with the key, or puts a new one in front. It fails without a handler, and
      when there is no memory for a new stream or the handler does not agree. */
  ghost predicate Opens(before: seq<Entry>, handlers: set<Kind>, key: Key, mode: Mode, agrees: bool, o: Outcome, after: seq<Entry>) {
    if key.kind !in handlers then o == Failed && after == before
    else if HasKey(before, key) then o == Found(key) && after == before
    else if !agrees then o == Failed && after == before
    else o == Created(key) && after == [Entry(key, mode, Full, Full)] + before
  }

  /** Closing by key takes the stream out, however many of its ends were open, if the handler agrees. */
  ghost predicate ClosesKey(before: seq<Entry>, handlers: set<Kind>, key: Key, agrees: bool, o: Outcome, after: seq<Entry>) {
    if key.kind !in handlers || !HasKey(before, key) || !agrees then o == Failed && after == before
    else exists k: nat :: k < |before| && before[k].key == key && o == Unlinked(key, before[k].closing) && after == Cut(before, k)
  }

  /** Closing by name closes the first stream that the name and the option reach, and no other. */
  ghost predicate ClosesName(before: seq<Entry>, handlers: set<Kind>, name: string, opt: Closing, agrees: bool, o: Outcome, after: seq<Entry>) {
    if forall j :: 0 <= j < |before| ==> !Reaches(before[j], name, opt) then o == Failed && after == before
    else exists k: nat ::
      FirstReached(before, name, opt, k) && Closed(before, k, opt, before[k].key.kind in handlers, agrees, o, after)
  }

  /** What a program can ask for; `agrees` says that there is memory and that the handler, if it is
      called, agrees. */
  datatype Request =
    | OpenIn(input: Input, name: string, agrees: bool)
    | OpenOut(output: Output, name: string, agrees: bool)
    | CloseIn(input: Input, name: string, agrees: bool)
    | CloseOut(output: Output, name: string, agrees: bool)
    | CloseAny(name: string, opt: Closing, agrees: bool)
    | Provide(kinds: set<Kind>)

  ghost predicate Answers(before: seq<Entry>, handlers: set<Kind>, r: Request, o: Outcome, after: seq<Entry>) {
    match r
    case OpenIn(input, name, agrees) => Opens(before, handlers, InKey(input, name), InMode(input), agrees, o, after)
    case OpenOut(output, name, agrees) => Opens(before, handlers, OutKey(output, name), OutMode(output), agrees, o, after)
    case CloseIn(input, name, agrees) => ClosesKey(before, handlers, InKey(input, name), agrees, o, after)
    case CloseOut(output, name, agrees) => ClosesKey(before, handlers, OutKey(output, name), agrees, o, after)
    case CloseAny(name, opt, agrees) => ClosesName(before, handlers, name, opt, agrees, o, after)
    case Provide(_) => o == Failed && after == before
  }

  /** Every request keeps the keys distinct and leads every stream on in its life. */
  lemma AnswersFollow(before: seq<Entry>, handlers: set<Kind>, r: Request, o: Outcome, after: seq<Entry>)
    requires Distinct(before) && Answers(before, handlers, r, o, after)
    ensures Distinct(after) && Follows(before, o, after)
  {
    match r
    case OpenIn(input, name, _) => OpensFollow(before, InKey(input, name), InMode(input), o, after);
    case OpenOut(output, name, _) => OpensFollow(before, OutKey(output, name), OutMode(output), o, after);
    case CloseIn(input, name, _) => CutFollows(before, InKey(input, name), o, after);
    case CloseOut(output, name, _) => CutFollows(before, OutKey(output, name), o, after);
    case CloseAny(name, opt, agrees) =>
      if j :| 0 <= j < |before| && Reaches(before[j], name, opt) {
        var k: nat :| FirstReached(before, name, opt, k) && Closed(before, k, opt, before[k].key.kind in handlers, agrees, o, after);
        ClosedFollows(before, k, opt, before[k].key.kind in handlers, agrees, o, after);
      }
    case Provide(_) =>
  }

  lemma OpensFollow(before: seq<Entry>, key: Key, mode: Mode, o: Outcome, after: seq<Entry>)
    requires Distinct(before)
    requires (o == Failed && after == before) || (HasKey(before, key) && o == Found(key) && after == before) ||
             (!HasKey(before, key) && o == Created(key) && after == [Entry(key, mode, Full, Full)] + before)
    ensures Distinct(after) && Follows(before, o, after)
  {
    if o.Found? {
      var k :| 0 <= k < |before| && before[k].key == key;
      FoundFollows(before, k);
    } else if o.Created? {
      CreateFollows(before, Entry(key, mode, Full, Full));
    }
  }

  lemma CutFollows(before: seq<Entry>, key: Key, o: Outcome, after: seq<Entry>)
    requires Distinct(before)
    requires (o == Failed && after == before) ||
             exists k: nat :: k < |before| && before[k].key == key && o == Unlinked(key, before[k].closing) && after == Cut(before, k)
    ensures Distinct(after) && Follows(before, o, after)
  {
    if o.Unlinked? {
      var k: nat :| k < |before| && before[k].key == key && o == Unlinked(key, before[k].closing) && after == Cut(before, k);
      UnlinkFollows(before, k, o.asked);
    }
  }

  // ---------------------------------------------------------------- runs

  /** A run: the chain and the handlers before each request and after the last, and what came of each. */
  datatype History = History(chains: seq<seq<Entry>>, handlers: seq<set<Kind>>, log: seq<Outcome>)

  ghost predicate StepOf(requests: seq<Request>, h: History, i: nat)
    requires i < |requests| == |h.log| && |h.chains| == |h.handlers| == |requests| + 1
  {
    && Answers(h.chains[i], h.handlers[i], requests[i], h.log[i], h.chains[i + 1])
    && h.handlers[i + 1] == (if requests[i].Provide? then requests[i].kinds else h.handlers[i])
  }

  /** The run of a program: every request is answered as its operation promises. */
  ghost predicate IsRun(kinds: set<Kind>, requests: seq<Request>, h: History) {
    && |requests| == |h.log| && |h.chains| == |h.handlers| == |requests| + 1
    && h.chains[0] == [] && h.handlers[0] == kinds
    && forall i: nat {:trigger StepOf(requests, h, i)} :: i < |requests| ==> StepOf(requests, h, i)
  }

  function Extended(h: History, o: Outcome, chain: seq<Entry>, kinds: set<Kind>): History {
    History(h.chains + [chain], h.handlers + [kinds], h.log + [o])
  }

  lemma RunSnoc(kinds: set<Kind>, requests: seq<Request>, h: History, r: Request, o: Outcome, chain: seq<Entry>, after: set<Kind>)
    requires IsRun(kinds, requests, h)
    requires Answers(h.chains[|requests|], h.handlers[|requests|], r, o, chain)
    requires after == if r.Provide? then r.kinds else h.handlers[|requests|]
    ensures IsRun(kinds, requests + [r], Extended(h, o, chain, after))
  {
    var requests', h' := requests + [r], Extended(h, o, chain, after);
    forall i: nat | i < |requests'| ensures StepOf(requests', h', i) {
      if i < |requests| { assert StepOf(requests, h, i); }
    }
  }

  /** At no time do two streams have the same key. */
  lemma {:induction false} DistinctInRun(kinds: set<Kind>, requests: seq<Request>, h: History, n: nat)
    requires IsRun(kinds, requests, h) && n <= |requests|
    ensures Distinct(h.chains[n])
  {
    if n > 0 {
      DistinctInRun(kinds, requests, h, n - 1);
      assert StepOf(requests, h, n - 1);
      AnswersFollow(h.chains[n - 1], h.handlers[n - 1], requests[n - 1], h.log[n - 1], h.chains[n]);
    }
  }

  /** Every request of a run leads every stream on in its life. */
  lemma FollowsInRun(kinds: set<Kind>, requests: seq<Request>, h: History, n: nat)
    requires IsRun(kinds, requests, h) && n < |requests|
    ensures Distinct(h.chains[n]) && Distinct(h.chains[n + 1]) && Follows(h.chains[n], h.log[n], h.chains[n + 1])
  {
    DistinctInRun(kinds, requests, h, n);
    assert StepOf(requests, h, n);
    AnswersFollow(h.chains[n], h.handlers[n], requests[n], h.log[n], h.chains[n + 1]);
  }

  /** The chain has every stream at the point of life that the log tells. */
  lemma {:induction false} LifeInRun(kinds: set<Kind>, requests: seq<Request>, h: History, n: nat, key: Key)
    requires IsRun(kinds, requests, h) && n <= |requests|
    ensures LifeIn(h.chains[n], key) == Lived(Absent, key, h.log[..n])
  {
    if n > 0 {
      LifeInRun(kinds, requests, h, n - 1, key);
      FollowsInRun(kinds, requests, h, n - 1);
      assert h.log[..n][..n - 1] == h.log[..n - 1];
    }
  }

  lemma LivesInRun(kinds: set<Kind>, requests: seq<Request>, h: History)
    requires IsRun(kinds, requests, h)
    ensures FollowsAll([], h.log, h.chains[|requests|])
  {
    assert h.log[..|requests|] == h.log;
    forall key ensures LifeIn(h.chains[|requests|], key) == Lived(LifeIn([], key), key, h.log) {
      LifeInRun(kinds, requests, h, |requests|, key);
    }
  }

  /** An outcome that changes what becomes of a stream. */
  predicate Touches(o: Outcome, key: Key) {
    o != Failed && o.key == key && !o.Found?
  }

  /** Request `j` closed one end of a stream, and nothing happened to it from then to request `n`. */
  ghost predicate HalfClosedSince(log: seq<Outcome>, j: nat, n: nat, key: Key, end: Closing) {
    j < n <= |log| && log[j] == HalfClosed(key, end) && forall m :: j < m < n ==> !Touches(log[m], key)
  }

  lemma {:induction false} HalfSince(key: Key, log: seq<Outcome>, n: nat, end: Closing) returns (j: nat)
    requires n <= |log| && Lived(Absent, key, log[..n]) == Half(end)
    ensures HalfClosedSince(log, j, n, key, end)
  {
    assert log[..n][..n - 1] == log[..n - 1];
    if log[n - 1] == HalfClosed(key, end) {
      j := n - 1;
    } else {
      j := HalfSince(key, log, n - 1, end);
    }
  }

  lemma {:induction false} HalfStays(key: Key, log: seq<Outcome>, j: nat, n: nat, end: Closing)
    requires HalfClosedSince(log, j, n, key, end) && Lived(Absent, key, log[..n]) != Broken
    ensures Lived(Absent, key, log[..n]) == Half(end)
    decreases n
  {
    assert log[..n][..n - 1] == log[..n - 1];
    if n > j + 1 { HalfStays(key, log, j, n - 1, end); }
  }

  /** The end of a stream that has been closed is the one some request before closed. */
  lemma HalfExactly(kinds: set<Kind>, requests: seq<Request>, h: History, n: nat, key: Key, end: Closing)
    requires IsRun(kinds, requests, h) && n <= |requests|
    ensures LifeIn(h.chains[n], key) == Half(end) <==> exists j: nat :: HalfClosedSince(h.log, j, n, key, end)
  {
    LifeInRun(kinds, requests, h, n, key);
    if LifeIn(h.chains[n], key) == Half(end) {
      var j := HalfSince(key, h.log, n, end);
    }
    if j: nat :| HalfClosedSince(h.log, j, n, key, end) {
      HalfStays(key, h.log, j, n, end);
    }
  }

  lemma HasKeyLife(chain: seq<Entry>, key: Key)
    requires Distinct(chain)
    ensures HasKey(chain, key) <==> LifeIn(chain, key) != Absent
  {
    if k :| 0 <= k < |chain| && chain[k].key == key {
      LifeAt(chain, k);
    } else {
      LifeOfNone(chain, key);
    }
  }

  lemma SameFirst(chain: seq<Entry>, name: string, opt: Closing, j: nat, k: nat)
    requires FirstReached(chain, name, opt, j) && FirstReached(chain, name, opt, k)
    ensures j == k
  {
  }

  /** In every run, a close by name with an option that reaches a two-way stream and is not refused keeps
      the stream if none of its ends has been closed since it was opened, and else unlinks it. */
  lemma FirstHalfCloseSurvives(kinds: set<Kind>, requests: seq<Request>, h: History, i: nat, k: nat)
    requires IsRun(kinds, requests, h) && i < |requests| && requests[i].CloseAny? && requests[i].opt != Full
    requires FirstReached(h.chains[i], requests[i].name, requests[i].opt, k) && h.chains[i][k].key.direction.TwoWay?
    requires requests[i].agrees || h.chains[i][k].key.kind !in h.handlers[i]
    ensures var key, opt := h.chains[i][k].key, requests[i].opt;
            if exists j: nat, end :: HalfClosedSince(h.log, j, i, key, end)
            then h.log[i].Unlinked? && h.log[i].key == key && !HasKey(h.chains[i + 1], key)
            else h.log[i] == HalfClosed(key, opt) && HasKey(h.chains[i + 1], key)
  {
    var chain, key, opt := h.chains[i], h.chains[i][k].key, requests[i].opt;
    assert StepOf(requests, h, i);
    FollowsInRun(kinds, requests, h, i);
    ReachedClosed(chain, h.handlers[i], requests[i], h.log[i], h.chains[i + 1], k);
    LifeAt(chain, k);
    HasKeyLife(h.chains[i + 1], key);
    if chain[k].closed != Full {
      HalfExactly(kinds, requests, h, i, key, chain[k].closed);
    }
    if j: nat, end :| HalfClosedSince(h.log, j, i, key, end) {
      HalfExactly(kinds, requests, h, i, key, end);
      HalfIsAnEnd(kinds, requests, h, j);
    }
  }

  lemma ReachedClosed(chain: seq<Entry>, handlers: set<Kind>, r: Request, o: Outcome, after: seq<Entry>, k: nat)
    requires r.CloseAny? && Answers(chain, handlers, r, o, after) && FirstReached(chain, r.name, r.opt, k)
    ensures Closed(chain, k, r.opt, chain[k].key.kind in handlers, r.agrees, o, after)
  {
    var j: nat :| FirstReached(chain, r.name, r.opt, j) && Closed(chain, j, r.opt, chain[j].key.kind in handlers, r.agrees, o, after);
    SameFirst(chain, r.name, r.opt, j, k);
  }

  lemma HalfIsAnEnd(kinds: set<Kind>, requests: seq<Request>, h: History, j: nat)
    requires IsRun(kinds, requests, h) && j < |requests| && h.log[j].HalfClosed?
    ensures h.log[j].end != Full
  {
    FollowsInRun(kinds, requests, h, j);
    assert LifeIn(h.chains[j + 1], h.log[j].key) != Broken;
  }

  /** In every run, a close by name unlinks a two-way stream without its handler being asked to close it
      fully, or its other end, exactly when the same end was closed before. */
  lemma UnlinkedHalfOpen(kinds: set<Kind>, requests: seq<Request>, h: History, i: nat)
    requires IsRun(kinds, requests, h) && i < |requests| && requests[i].CloseAny?
    requires h.log[i].Unlinked? && h.log[i].key.direction.TwoWay?
    ensures h.log[i].asked != Full <==>
            requests[i].opt != Full && exists j: nat :: HalfClosedSince(h.log, j, i, h.log[i].key, requests[i].opt)
  {
    var chain, opt := h.chains[i], requests[i].opt;
    assert StepOf(requests, h, i);
    DistinctInRun(kinds, requests, h, i);
    var k: nat :| FirstReached(chain, requests[i].name, opt, k) &&
                  Closed(chain, k, opt, chain[k].key.kind in h.handlers[i], requests[i].agrees, h.log[i], h.chains[i + 1]);
    SameEndTwice(chain[k], opt);
    LifeAt(chain, k);
    HalfExactly(kinds, requests, h, i, chain[k].key, opt);
  }

  // ---------------------------------------------------------------- closing by type and name

  /** A close by name reaches the stream with a key. */
  ghost predicate ReachesKey(chain: seq<Entry>, r: Request, key: Key) {
    r.CloseAny? && exists k: nat :: FirstReached(chain, r.name, r.opt, k) && chain[k].key == key
  }

  /** It reaches it and asks the handler to close `end`. */
  ghost predicate AsksFor(chain: seq<Entry>, r: Request, key: Key, end: Closing) {
    r.CloseAny? && exists k: nat :: FirstReached(chain, r.name, r.opt, k) && chain[k].key == key && Requested(chain[k], r.opt) == end
  }

  /** The stream with a key has `end` stored as what its handler is to close. */
  ghost predicate HasClosing(chain: seq<Entry>, key: Key, end: Closing) {
    exists k :: 0 <= k < |chain| && chain[k].key == key && chain[k].closing == end
  }

  /** What is stored changes only when the stream is opened, and when a close by name reaches it. */
  lemma ClosingStep(before: seq<Entry>, handlers: set<Kind>, r: Request, o: Outcome, after: seq<Entry>, key: Key, end: Closing)
    requires Distinct(before) && Answers(before, handlers, r, o, after) && key.direction.TwoWay? && HasKey(after, key)
    ensures HasClosing(after, key, end) <==>
            if o == Created(key) then end == Full
            else if ReachesKey(before, r, key) then AsksFor(before, r, key, end) else HasClosing(before, key, end)
    ensures o == Created(key) || HasKey(before, key)
    ensures o == Created(key) ==> !ReachesKey(before, r, key)
  {
    var a :| 0 <= a < |after| && after[a].key == key;
    AnswersFollow(before, handlers, r, o, after);
    if r.CloseAny? && exists j :: 0 <= j < |before| && Reaches(before[j], r.name, r.opt) {
      var k: nat :| FirstReached(before, r.name, r.opt, k) && Closed(before, k, r.opt, before[k].key.kind in handlers, r.agrees, o, after);
      ClosingClosed(before, handlers, r, o, after, key, end, k, a);
    } else if o.Unlinked? {
      var k: nat :| k < |before| && o == Unlinked(before[k].key, before[k].closing) && after == Cut(before, k);
      CutClosing(before, k, key, end, a);
    } else if o.Created? {
      CreatedClosing(before, after, key, end, a);
    }
  }

  lemma CreatedClosing(before: seq<Entry>, after: seq<Entry>, key: Key, end: Closing, a: nat)
    requires after != [] && after == [after[0]] + before && Distinct(after) && a < |after| && after[a].key == key && after[0].closing == Full
    ensures HasClosing(after, key, end) <==> if after[0].key == key then end == Full else HasClosing(before, key, end)
    ensures after[0].key == key || HasKey(before, key)
  {
    forall k | 0 <= k < |before| ensures before[k] == after[k + 1] {
    }
    if a > 0 { assert before[a - 1].key == key; }
    if after[0].key != key && HasClosing(after, key, end) {
      var k :| 0 <= k < |after| && after[k].key == key && after[k].closing == end;
      assert before[k - 1] == after[k];
    }
  }

  lemma CutClosing(before: seq<Entry>, k: nat, key: Key, end: Closing, a: nat)
    requires Distinct(before) && k < |before| && a < |Cut(before, k)| && Cut(before, k)[a].key == key
    ensures before[k].key != key && HasKey(before, key)
    ensures HasClosing(Cut(before, k), key, end) <==> HasClosing(before, key, end)
  {
    var after, o := Cut(before, k), if a < k then a else a + 1;
    assert after[a] == before[o];
    if HasClosing(before, key, end) { assert after[a].closing == end; }
    if HasClosing(after, key, end) {
      var j :| 0 <= j < |after| && after[j].key == key && after[j].closing == end;
      assert before[if j < k then j else j + 1] == after[j];
    }
  }

  lemma ClosingClosed(before: seq<Entry>, handlers: set<Kind>, r: Request, o: Outcome, after: seq<Entry>, key: Key, end: Closing, k: nat, a: nat)
    requires Distinct(before) && r.CloseAny? && key.direction.TwoWay? && a < |after| && after[a].key == key
    requires FirstReached(before, r.name, r.opt, k) && Closed(before, k, r.opt, before[k].key.kind in handlers, r.agrees, o, after)
    ensures o != Created(key) && HasKey(before, key)
    ensures HasClosing(after, key, end) <==> if ReachesKey(before, r, key) then AsksFor(before, r, key, end) else HasClosing(before, key, end)
  {
    forall j: nat | FirstReached(before, r.name, r.opt, j) ensures j == k { SameFirst(before, r.name, r.opt, j, k); }
    if o.Unlinked? {
      CutClosing(before, k, key, end, a);
    } else {
      assert before[a].key == key;
      assert after[a].closing == if a == k then Requested(before[k], r.opt) else before[a].closing;
    }
  }

  /** The last close by name that reached a stream, since it was opened, was request `j`, and it asked for
      `end`. */
  ghost predicate AskedSince(requests: seq<Request>, h: History, j: nat, n: nat, key: Key, end: Closing)
    requires n <= |requests| <= |h.log| && n <= |h.chains|
  {
    && j < n && AsksFor(h.chains[j], requests[j], key, end)
    && forall m :: j < m < n ==> !ReachesKey(h.chains[m], requests[m], key) && h.log[m] != Created(key)
  }

  lemma AskedStill(requests: seq<Request>, h: History, i: nat, n: nat, key: Key, end: Closing)
    requires n == i + 1 <= |requests| <= |h.log| && n <= |h.chains|
    requires !ReachesKey(h.chains[i], requests[i], key) && h.log[i] != Created(key)
    ensures forall j: nat :: AskedSince(requests, h, j, n, key, end) <==> AskedSince(requests, h, j, i, key, end)
  {
  }

  lemma {:induction false} ClosingInRun(kinds: set<Kind>, requests: seq<Request>, h: History, n: nat, key: Key, end: Closing)
    requires IsRun(kinds, requests, h) && n <= |requests| && key.direction.TwoWay? && HasKey(h.chains[n], key) && end != Full
    ensures HasClosing(h.chains[n], key, end) <==> exists j: nat :: AskedSince(requests, h, j, n, key, end)
  {
    assert n > 0;
    var i := n - 1;
    assert StepOf(requests, h, i);
    DistinctInRun(kinds, requests, h, i);
    ClosingStep(h.chains[i], h.handlers[i], requests[i], h.log[i], h.chains[n], key, end);
    if h.log[i] != Created(key) && !ReachesKey(h.chains[i], requests[i], key) {
      ClosingInRun(kinds, requests, h, i, key, end);
      AskedStill(requests, h, i, n, key, end);
    } else if AsksFor(h.chains[i], requests[i], key, end) {
      assert AskedSince(requests, h, i, n, key, end);
    }
  }

  /** In every run, a close by type and name unlinks a two-way stream with its handler asked to close one end
      only exactly when the last close by name that reached the stream, whatever became of it, asked for one
      end. */
  lemma UnlinkedByKey(kinds: set<Kind>, requests: seq<Request>, h: History, i: nat)
    requires IsRun(kinds, requests, h) && i < |requests| && (requests[i].CloseIn? || requests[i].CloseOut?)
    requires h.log[i].Unlinked? && h.log[i].key.direction.TwoWay?
    ensures h.log[i].asked != Full <==>
            exists j: nat, end :: end != Full && AskedSince(requests, h, j, i, h.log[i].key, end)
  {
    var chain, key, asked := h.chains[i], h.log[i].key, h.log[i].asked;
    assert StepOf(requests, h, i);
    DistinctInRun(kinds, requests, h, i);
    var k: nat :| k < |chain| && chain[k].key == key && asked == chain[k].closing;
    assert HasClosing(chain, key, asked);
    if asked != Full { ClosingInRun(kinds, requests, h, i, key, asked); }
    forall j: nat, end | end != Full && AskedSince(requests, h, j, i, key, end) ensures asked == end {
      ClosingInRun(kinds, requests, h, i, key, end);
    }
  }

  // ---------------------------------------------------------------- what a program sees

  /** Which openings share a stream: those of the same kind and way with the same name. Writing and appending
      to a file do, and so do both ends of a two-way pipe. */
  lemma SharedStreams(i: Input, i': Input, o: Output, o': Output, name: string, name': string)
    ensures InKey(i, name) == InKey(i', name') <==> i == i' && name == name'
    ensures OutKey(o, name) == OutKey(o', name') <==>
            name == name' && (o == o' || (o == OutFile && o' == OutAppend) || (o == OutAppend && o' == OutFile))
    ensures InKey(i, name) == OutKey(o, name') <==> i == InTwoWay && o == OutTwoWay && name == name'
  {
  }

  /** In every run, an input is opened by the handler of its kind, for reading, or for both ways if it is a
      two-way pipe, and only if no stream like it is open. */
  lemma OpenInRun(kinds: set<Kind>, requests: seq<Request>, h: History, i: nat)
    requires IsRun(kinds, requests, h) && i < |requests| && requests[i].OpenIn?
    ensures var kind := match requests[i].input case InPipe => Pipe case InTwoWay => Pipe case InFile => File case InConsole => Console;
            && (kind !in h.handlers[i] ==> h.log[i] == Failed)
            && (h.log[i].Created? ==>
                  && kind in h.handlers[i] && requests[i].agrees && |h.chains[i + 1]| > 0 && h.chains[i + 1][1..] == h.chains[i]
                  && h.chains[i + 1][0].mode == if requests[i].input == InTwoWay then ReadWrite else Read)
            && (kind in h.handlers[i] && requests[i].agrees ==> h.log[i] != Failed)
  {
    assert StepOf(requests, h, i);
  }

  /** And an output for writing, appending or both ways. */
  lemma OpenOutInRun(kinds: set<Kind>, requests: seq<Request>, h: History, i: nat)
    requires IsRun(kinds, requests, h) && i < |requests| && requests[i].OpenOut?
    ensures var kind := match requests[i].output
                        case OutPipe => Pipe case OutTwoWay => Pipe case OutFile => File case OutAppend => File case OutConsole => Console;
            && (kind !in h.handlers[i] ==> h.log[i] == Failed)
            && (h.log[i].Created? ==>
                  && kind in h.handlers[i] && requests[i].agrees && |h.chains[i + 1]| > 0 && h.chains[i + 1][1..] == h.chains[i]
                  && h.chains[i + 1][0].mode == match requests[i].output case OutTwoWay => ReadWrite case OutAppend => Append case _ => Write)
            && (kind in h.handlers[i] && requests[i].agrees ==> h.log[i] != Failed)
  {
    assert StepOf(requests, h, i);
  }

  /** Request `j` opened a stream, and it is still open when request `i` comes. */
  ghost predicate OpenSince(log: seq<Outcome>, j: nat, i: nat) {
    j < i <= |log| && log[j].Created? && forall m :: j < m < i ==> !(log[m].Unlinked? && log[m].key == log[j].key)
  }

  lemma {:induction false} OpenLife(key: Key, log: seq<Outcome>, n: nat)
    requires n <= |log| && Lived(Absent, key, log[..n]) != Broken
    ensures Lived(Absent, key, log[..n]) != Absent <==> exists j: nat :: OpenSince(log, j, n) && log[j].key == key
  {
    if n > 0 {
      var o, before := log[n - 1], log[..n - 1];
      assert log[..n][..n - 1] == before;
      OpenLife(key, log, n - 1);
      if o == Created(key) {
        assert OpenSince(log, n - 1, n);
      } else if !(o.Unlinked? && o.key == key) {
        forall j: nat | log[..n] != [] && j < n && log[j].Created? && log[j].key == key
          ensures OpenSince(log, j, n) <==> OpenSince(log, j, n - 1)
        {
        }
        if Lived(Absent, key, before) != Absent {
          var j: nat :| OpenSince(log, j, n - 1) && log[j].key == key;
          assert OpenSince(log, j, n);
        }
      }
    }
  }

  /** The streams of the chain are the ones that were opened and not unlinked since. */
  lemma OpenInChain(kinds: set<Kind>, requests: seq<Request>, h: History, i: nat, key: Key)
    requires IsRun(kinds, requests, h) && i <= |requests|
    ensures HasKey(h.chains[i], key) <==> exists j: nat :: OpenSince(h.log, j, i) && h.log[j].key == key
  {
    DistinctInRun(kinds, requests, h, i);
    LifeInRun(kinds, requests, h, i, key);
    HasKeyLife(h.chains[i], key);
    OpenLife(key, h.log, i);
  }

  /** The stream that request `j` opened is open when request `i` comes, and no other stream with its name is. */
  ghost predicate OnlyOpen(requests: seq<Request>, log: seq<Outcome>, j: nat, i: nat, name: string)
    requires i <= |requests| == |log|
  {
    && OpenSince(log, j, i) && (requests[j].OpenIn? || requests[j].OpenOut?) && requests[j].name == name
    && forall m: nat {:trigger OpenSince(log, m, i)} ::
         OpenSince(log, m, i) && m != j ==> requests[m].Provide? || requests[m].name != name
  }

  /** What was opened has the key of its request. */
  lemma CreatedKey(kinds: set<Kind>, requests: seq<Request>, h: History, j: nat)
    requires IsRun(kinds, requests, h) && j < |requests| && h.log[j].Created?
    ensures (requests[j].OpenIn? && h.log[j].key == InKey(requests[j].input, requests[j].name)) ||
            (requests[j].OpenOut? && h.log[j].key == OutKey(requests[j].output, requests[j].name))
    ensures h.log[j].key.name == requests[j].name
  {
    assert StepOf(requests, h, j);
  }

  /** A close by name can only reach the one stream with that name. */
  lemma OnlyEntry(kinds: set<Kind>, requests: seq<Request>, h: History, j: nat, i: nat, name: string) returns (k: nat)
    requires IsRun(kinds, requests, h) && i <= |requests| && OnlyOpen(requests, h.log, j, i, name)
    ensures k < |h.chains[i]| && h.chains[i][k].key == h.log[j].key && Distinct(h.chains[i])
    ensures forall x :: 0 <= x < |h.chains[i]| && x != k ==> h.chains[i][x].key.name != name
  {
    var chain := h.chains[i];
    DistinctInRun(kinds, requests, h, i);
    OpenInChain(kinds, requests, h, i, h.log[j].key);
    k :| 0 <= k < |chain| && chain[k].key == h.log[j].key;
    forall x | 0 <= x < |chain| && x != k ensures chain[x].key.name != name {
      OpenInChain(kinds, requests, h, i, chain[x].key);
      assert HasKey(chain, chain[x].key);
      var m: nat :| OpenSince(h.log, m, i) && h.log[m].key == chain[x].key;
      CreatedKey(kinds, requests, h, m);
    }
  }

  /** What becomes of the only stream with a name when the name is closed: nothing if the option is for the
      other way; else it is unlinked, unless its handler is there and refuses, or, both ways, one end of it
      may be closed. */
  ghost predicate ClosedAs(before: seq<Entry>, o: Outcome, after: seq<Entry>, key: Key, reached: bool, agreed: bool, twoWay: bool) {
    if !reached then o == Failed && after == before
    else if !agreed then o == Failed && HasKey(after, key)
    else if o.Unlinked? then o.key == key && !HasKey(after, key)
    else twoWay && o.HalfClosed? && o.key == key && HasKey(after, key)
  }

  /** In every run: a one-way input that is the only open stream with its name is unlinked by closing the name,
      or its reading end, and not touched by closing the writing end; an output the other way round; and every
      close of its name reaches a two-way pipe. */
  lemma CloseByName(kinds: set<Kind>, requests: seq<Request>, h: History, j: nat, i: nat)
    requires IsRun(kinds, requests, h) && i < |requests| && requests[i].CloseAny? && OnlyOpen(requests, h.log, j, i, requests[i].name)
    ensures var r, key := requests[i], h.log[j].key;
            var agreed := r.agrees || key.kind !in h.handlers[i];
            match requests[j]
            case OpenIn(InTwoWay, _, _) => ClosedAs(h.chains[i], h.log[i], h.chains[i + 1], key, true, agreed, true)
            case OpenOut(OutTwoWay, _, _) => ClosedAs(h.chains[i], h.log[i], h.chains[i + 1], key, true, agreed, true)
            case OpenIn(_, _, _) => ClosedAs(h.chains[i], h.log[i], h.chains[i + 1], key, r.opt != WriteEnd, agreed, false)
            case OpenOut(_, _, _) => ClosedAs(h.chains[i], h.log[i], h.chains[i + 1], key, r.opt != ReadEnd, agreed, false)
            case _ => false
  {
    var r, chain, after := requests[i], h.chains[i], h.chains[i + 1];
    var k := OnlyEntry(kinds, requests, h, j, i, r.name);
    CreatedKey(kinds, requests, h, j);
    assert StepOf(requests, h, i);
    if Reaches(chain[k], r.name, r.opt) {
      assert FirstReached(chain, r.name, r.opt, k);
      ReachedClosed(chain, h.handlers[i], r, h.log[i], after, k);
      if h.log[i].Unlinked? {
        UnlinkFollows(chain, k, h.log[i].asked);
        LifeAt(chain, k);
        HasKeyLife(after, chain[k].key);
      } else {
        assert after[k].key == chain[k].key;
      }
    }
  }
}
