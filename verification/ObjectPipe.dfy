/**
 * `ObjectPipe`: a queue of objects beside an OS pipe that holds a byte for each,
 * used by any number of threads. Each step below is one that no thread can split.
 */
module ObjectPipes {
  type Obj = int

  /** An object taken from the pipe, and the thread that took it. */
  datatype Delivery = Delivery(thread: nat, obj: Obj)

  /**
   * writing: threads in `send` between the append and the write. popping: threads
   * in `recv` between the read and the popleft. peeking: threads in a peek between
   * the test and the access. clearing: threads in `clear` between the test and the
   * read. The last four fields record what has happened.
   */
  datatype Pipe = Pipe(queue: seq<Obj>, tokens: nat,
                       writing: set<nat>, popping: set<nat>, peeking: set<nat>, clearing: set<nat>,
                       appended: seq<Obj>, taken: seq<Delivery>, popFailed: bool, peekFailed: bool)

  const NEW := Pipe([], 0, {}, {}, {}, {}, [], [], false, false)

  datatype Event =
    | Append(t: nat, x: Obj)   // send: queue.append
    | Write(t: nat)            // send: os.write
    | Read(t: nat)             // recv: os.read, which waits for a byte
    | Pop(t: nat)              // recv: queue.popleft
    | PeekTest(t: nat)         // recv with MSG_PEEK: is there anything?
    | PeekGet(t: nat)          // recv with MSG_PEEK: queue[0]
    | ClearTest(t: nat)        // clear: is there anything?
    | ClearRead(t: nat)        // clear: os.read of its recv, which waits for a byte

  predicate Idle(p: Pipe, t: nat) {
    t !in p.writing && t !in p.popping && t !in p.peeking && t !in p.clearing
  }

  predicate Enabled(p: Pipe, e: Event) {
    match e
    case Append(t, _) => Idle(p, t)
    case Write(t) => t in p.writing
    case Read(t) => Idle(p, t) && p.tokens > 0
    case Pop(t) => t in p.popping
    case PeekTest(t) => Idle(p, t)
    case PeekGet(t) => t in p.peeking
    case ClearTest(t) => Idle(p, t)
    case ClearRead(t) => t in p.clearing && p.tokens > 0
  }

  /** One step; a thread that is not at this step, or has to wait, changes nothing. */
  function Next(p: Pipe, e: Event): Pipe {
    if !Enabled(p, e) then p
    else
      match e
      case Append(t, x) => p.(queue := p.queue + [x], writing := p.writing + {t}, appended := p.appended + [x])
      case Write(t) => p.(tokens := p.tokens + 1, writing := p.writing - {t})
      case Read(t) => p.(tokens := p.tokens - 1, popping := p.popping + {t})
      case Pop(t) =>
        if p.queue == [] then p.(popping := p.popping - {t}, popFailed := true)
        else p.(queue := p.queue[1..], popping := p.popping - {t}, taken := p.taken + [Delivery(t, p.queue[0])])
      case PeekTest(t) => if p.queue == [] then p else p.(peeking := p.peeking + {t})
      case PeekGet(t) => p.(peeking := p.peeking - {t}, peekFailed := p.peekFailed || p.queue == [])
      case ClearTest(t) => if p.queue == [] then p else p.(clearing := p.clearing + {t})
      case ClearRead(t) => p.(tokens := p.tokens - 1, clearing := p.clearing - {t}, popping := p.popping + {t})
  }

  function Run(es: seq<Event>): Pipe {
    if es == [] then NEW else Next(Run(es[..|es| - 1]), es[|es| - 1])
  }

  function Objects(ds: seq<Delivery>): (xs: seq<Obj>)
    ensures |xs| == |ds|
  {
    if ds == [] then [] else Objects(ds[..|ds| - 1]) + [ds[|ds| - 1].obj]
  }

  /** A byte in the OS pipe, or a thread on its way to or from one, for each object in the queue. */
  ghost predicate Inv(p: Pipe) {
    && |p.queue| == p.tokens + |p.writing| + |p.popping|
    && p.writing !! p.popping
    && p.clearing !! p.popping && p.clearing !! p.writing
    && p.appended == Objects(p.taken) + p.queue
    && !p.popFailed
  }

  lemma {:induction false} Members(s: set<nat>, t: nat)
    ensures t !in s ==> |s + {t}| == |s| + 1
    ensures t in s ==> |s - {t}| == |s| - 1 && |s| > 0
    ensures |s| == 0 <==> s == {}
  {
    if t in s {
      assert s == (s - {t}) + {t};
    }
  }

  lemma {:induction false} PopKeeps(p: Pipe, t: nat)
    requires Inv(p) && t in p.popping
    ensures Inv(Next(p, Pop(t)))
  {
    Members(p.popping, t);
    var d := Delivery(t, p.queue[0]);
    assert (p.taken + [d])[..|p.taken|] == p.taken;
    assert p.queue == [p.queue[0]] + p.queue[1..];
    assert Objects(p.taken) + p.queue == (Objects(p.taken) + [d.obj]) + p.queue[1..];
  }

  lemma {:induction false} StepKeeps(p: Pipe, e: Event)
    requires Inv(p)
    ensures Inv(Next(p, e))
  {
    if Enabled(p, e) {
      match e
      case Append(t, x) =>
        Members(p.writing, t);
        assert Objects(p.taken) + p.queue + [x] == Objects(p.taken) + (p.queue + [x]);
      case Write(t) => Members(p.writing, t);
      case Read(t) => Members(p.popping, t);
      case Pop(t) => PopKeeps(p, t);
      case PeekTest(t) =>
      case PeekGet(t) =>
      case ClearTest(t) =>
      case ClearRead(t) => Members(p.popping, t);
    }
  }

  lemma {:induction false} RunKeeps(es: seq<Event>)
    ensures Inv(Run(es))
  {
    if es != [] {
      RunKeeps(es[..|es| - 1]);
      StepKeeps(Run(es[..|es| - 1]), es[|es| - 1]);
    }
  }

  /**
   * In every interleaving: no thread that has read its byte finds the queue empty,
   * and what has been taken, followed by the queue, is what was appended, in order.
   */
  lemma {:induction false} EveryRunKeeps(es: seq<Event>)
    ensures var p := Run(es);
            && |p.queue| == p.tokens + |p.writing| + |p.popping|
            && p.appended == Objects(p.taken) + p.queue
            && (p.popping != {} ==> p.queue != [])
            && !p.popFailed && p.writing !! p.popping
  {
    RunKeeps(es);
    Members(Run(es).popping, 0);
  }

  /** Once no thread is in the middle of a call, a receiver has to wait exactly when the pipe is empty. */
  lemma {:induction false} WaitsExactlyWhenEmpty(es: seq<Event>, t: nat)
    ensures var p := Run(es);
            p.writing == {} && p.popping == {} && Idle(p, t) ==> (Enabled(p, Read(t)) <==> p.queue != [])
  {
    EveryRunKeeps(es);
  }

  /** An object never stays in the queue with nothing left to happen to it. */
  lemma {:induction false} NothingIsStuck(es: seq<Event>)
    ensures var p := Run(es);
            p.queue != [] ==> p.tokens > 0 || exists t :: Enabled(p, Write(t)) || Enabled(p, Pop(t))
  {
    EveryRunKeeps(es);
    var p := Run(es);
    if p.queue != [] && p.tokens == 0 {
      if p.writing != {} {
        var t :| t in p.writing;
        assert Enabled(p, Write(t));
      } else {
        var t :| t in p.popping;
        assert Enabled(p, Pop(t));
      }
    }
  }

  lemma {:induction false} RunStep(es: seq<Event>, e: Event)
    ensures Run(es + [e]) == Next(Run(es), e)
  {
    assert (es + [e])[..|es|] == es;
  }

  /** A peek has no such guarantee: another thread can empty the queue between its test and its access. */
  lemma {:induction false} PeekCanFail(x: Obj)
    ensures exists es :: Run(es).peekFailed
  {
    var es: seq<Event> := [];
    RunStep(es, Append(0, x));
    es := es + [Append(0, x)];
    RunStep(es, Write(0));
    es := es + [Write(0)];
    RunStep(es, PeekTest(1));
    es := es + [PeekTest(1)];
    assert Run(es) == Pipe([x], 1, {}, {}, {1}, {}, [x], [], false, false);
    RunStep(es, Read(2));
    es := es + [Read(2)];
    RunStep(es, Pop(2));
    es := es + [Pop(2)];
    assert Run(es).queue == [] && Run(es).peeking == {1};
    RunStep(es, PeekGet(1));
    es := es + [PeekGet(1)];
    assert Run(es).peekFailed;
  }

  /** Events after a state, in order. */
  function After(p: Pipe, es: seq<Event>): Pipe
    decreases |es|
  {
    if es == [] then p else After(Next(p, es[0]), es[1..])
  }

  /**
   * Exactly when: since the test, at least as many objects were taken as the queue
   * then held and has been given since.
   */
  lemma {:induction false} PeekFailsExactly(p: Pipe, es: seq<Event>, t: nat)
    requires Inv(p) && p.queue != [] && Idle(p, t)
    requires var q := After(Next(p, PeekTest(t)), es); t in q.peeking && !q.peekFailed
    ensures var q := After(Next(p, PeekTest(t)), es);
            Next(q, PeekGet(t)).peekFailed
            <==> |q.taken| - |p.taken| >= |p.queue| + (|q.appended| - |p.appended|)
  {
    var p' := Next(p, PeekTest(t));
    StepKeeps(p, PeekTest(t));
    AfterKeeps(p', es);
  }

  /** `clear` tests before it reads, too: what it saw can be gone, and its read waits in an empty pipe. */
  lemma {:induction false} ClearCanWait(x: Obj)
    ensures exists es, t :: var p := Run(es);
              t in p.clearing && !Enabled(p, ClearRead(t)) && p.queue == [] && p.writing == {} && p.popping == {}
  {
    var es: seq<Event> := [];
    RunStep(es, Append(0, x));
    es := es + [Append(0, x)];
    RunStep(es, Write(0));
    es := es + [Write(0)];
    RunStep(es, ClearTest(1));
    es := es + [ClearTest(1)];
    assert Run(es) == Pipe([x], 1, {}, {}, {}, {1}, [x], [], false, false);
    RunStep(es, Read(2));
    es := es + [Read(2)];
    RunStep(es, Pop(2));
    es := es + [Pop(2)];
    var p := Run(es);
    assert p.queue == [] && p.writing == {} && p.popping == {} && p.clearing == {1};
    assert 1 in p.clearing && !Enabled(p, ClearRead(1));
  }

  /**
   * Exactly when: of the objects there at the test and added since, each has been taken, or is in
   * the hands of a thread that has yet to write its byte or has already read it. When no thread is
   * at that point, the read waits exactly if the queue is empty, so only another `send` ends it.
   */
  lemma {:induction false} ClearWaitsExactly(p: Pipe, es: seq<Event>, t: nat)
    requires Inv(p) && p.queue != [] && Idle(p, t)
    requires t in After(Next(p, ClearTest(t)), es).clearing
    ensures var q := After(Next(p, ClearTest(t)), es);
            && (!Enabled(q, ClearRead(t)) <==>
                |q.taken| - |p.taken| + |q.writing| + |q.popping| == |p.queue| + (|q.appended| - |p.appended|))
            && (q.writing == {} && q.popping == {} ==> (!Enabled(q, ClearRead(t)) <==> q.queue == []))
  {
    var p' := Next(p, ClearTest(t));
    StepKeeps(p, ClearTest(t));
    AfterKeeps(p', es);
    var q := After(p', es);
    Members(q.writing, t);
    Members(q.popping, t);
  }

  lemma {:induction false} AfterKeeps(p: Pipe, es: seq<Event>)
    requires Inv(p)
    ensures Inv(After(p, es))
    decreases |es|
  {
    if es != [] {
      StepKeeps(p, es[0]);
      AfterKeeps(Next(p, es[0]), es[1..]);
    }
  }

  lemma TakenInOrder(p: Pipe, q: Pipe, n: nat)
    requires Inv(p) && Inv(q) && q.appended == p.appended && n <= |p.queue| && q.queue == p.queue[n..]
    ensures Objects(q.taken) == Objects(p.taken) + p.queue[..n]
  {
    var front := Objects(p.taken) + p.queue[..n];
    assert p.queue == p.queue[..n] + q.queue;
    assert p.appended == front + q.queue;
    assert Objects(q.taken) == p.appended[..|p.appended| - |q.queue|] == front;
  }

  lemma WithoutBytes(p: Pipe)
    requires Inv(p) && p.tokens == 0
    ensures p.queue == [] <==> p.writing == {} && p.popping == {}
  {
    Members(p.writing, 0);
    Members(p.popping, 0);
  }

  // ----- The object -----

  class ObjectPipe {
    var queue: seq<Obj>
    var tokens: nat // the bytes in the OS pipe
    ghost var state: Pipe // where the threads are, and what has happened

    ghost predicate Valid()
      reads this
    {
      Inv(state) && state.queue == queue && state.tokens == tokens
    }

    constructor ()
      ensures Valid() && state == NEW
    {
      queue, tokens, state := [], 0, NEW;
    }

    method DequeAppend(ghost t: nat, x: Obj)
      requires Valid() && Idle(state, t)
      modifies this
      ensures Valid() && state == Next(old(state), Append(t, x))
    {
      StepKeeps(state, Append(t, x));
      queue := queue + [x];
      state := Next(state, Append(t, x));
    }

    method OsWrite(ghost t: nat)
      requires Valid() && t in state.writing
      modifies this
      ensures Valid() && state == Next(old(state), Write(t))
    {
      StepKeeps(state, Write(t));
      tokens := tokens + 1;
      state := Next(state, Write(t));
    }

    method OsRead(ghost t: nat)
      requires Valid() && Idle(state, t) && tokens > 0
      modifies this
      ensures Valid() && state == Next(old(state), Read(t))
    {
      StepKeeps(state, Read(t));
      tokens := tokens - 1;
      state := Next(state, Read(t));
    }

    /** The invariant is what makes this safe: there is something to take. */
    method PopLeft(ghost t: nat) returns (elt: Obj)
      requires Valid() && t in state.popping
      modifies this
      ensures Valid() && state == Next(old(state), Pop(t))
      ensures old(queue) == [elt] + queue
    {
      Members(state.popping, t);
      StepKeeps(state, Pop(t));
      elt := queue[0];
      queue := queue[1..];
      state := Next(state, Pop(t));
    }

    predicate Empty()
      reads this
    {
      queue == []
    }

    method Send(ghost t: nat, x: Obj) returns (n: nat)
      requires Valid() && Idle(state, t)
      modifies this
      ensures Valid() && n == 1
      ensures state == Next(Next(old(state), Append(t, x)), Write(t))
      ensures queue == old(queue) + [x] && tokens == old(tokens) + 1
    {
      DequeAppend(t, x);
      OsWrite(t);
      n := 1;
    }

    /** `recv`, once there is a byte to read. */
    method Recv(ghost t: nat) returns (elt: Obj)
      requires Valid() && Idle(state, t) && tokens > 0
      modifies this
      ensures Valid() && state == Next(Next(old(state), Read(t)), Pop(t))
      ensures old(queue) == [elt] + queue && tokens == old(tokens) - 1
    {
      OsRead(t);
      elt := PopLeft(t);
    }

    method TestAndRead(ghost t: nat) returns (waits: bool)
      requires Valid() && Idle(state, t) && queue != []
      modifies this
      ensures Valid() && waits == (old(tokens) == 0)
      ensures state == if waits then Next(old(state), ClearTest(t))
                       else Next(Next(old(state), ClearTest(t)), ClearRead(t))
    {
      StepKeeps(state, ClearTest(t));
      state := Next(state, ClearTest(t));
      waits := tokens == 0;
      if !waits {
        StepKeeps(state, ClearRead(t));
        tokens := tokens - 1;
        state := Next(state, ClearRead(t));
      }
    }

    /**
     * `clear` while the other threads stay where they are. It takes an object for each byte, in
     * order; then its read waits if some object belongs to another thread in the middle of a call.
     */
    method Clear(ghost t: nat) returns (waits: bool)
      requires Valid() && Idle(state, t)
      modifies this
      ensures Valid() && tokens == 0 && queue == old(queue)[old(tokens)..]
      ensures Objects(state.taken) == Objects(old(state).taken) + old(queue)[..old(tokens)]
      ensures waits <==> old(state).writing != {} || old(state).popping != {}
      ensures !waits <==> queue == []
      ensures state.writing == old(state).writing && state.popping == old(state).popping
      ensures state.clearing == if waits then old(state).clearing + {t} else old(state).clearing
    {
      ghost var n := 0;
      waits := false;
      while !Empty()
        invariant Valid() && Idle(state, t) && n <= old(tokens) && tokens == old(tokens) - n
        invariant queue == old(queue)[n..] && state.appended == old(state).appended
        invariant state.writing == old(state).writing && state.popping == old(state).popping
        invariant state.clearing == old(state).clearing
        decreases |queue|
      {
        waits := TestAndRead(t);
        if waits {
          break;
        }
        var _ := PopLeft(t);
        n := n + 1;
      }
      WithoutBytes(state);
      TakenInOrder(old(state), state, n);
    }
  }
}
