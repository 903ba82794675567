/** `TCPSession` in application mode: messages cut out of a stream that arrives in chunks. */
module TcpSessions {
  import opened Bytes
  import opened StringBuffers

  type Dict = map<string, seq<Byte>>

  datatype Message = Message(layer: string, load: seq<Byte>)

  /**
   * What `tcp_reassemble` returns, with the two dictionaries as it leaves them:
   * nothing yet, or a message and the padding after it. `isPadding` marks a
   * message that is itself a padding layer.
   */
  datatype Outcome =
    | More(meta: Dict, session: Dict)
    | Complete(msg: Message, padding: seq<Byte>, isPadding: bool, meta: Dict, session: Dict)

  type Reassembler = (seq<Byte>, Dict, Dict) -> Outcome

  /** `stored` is the reassembler kept in the metadata. */
  datatype State = State(data: Buffer, stored: Option<Reassembler>, meta: Dict, session: Dict) {
    /** All the data held is a prefix of the stream to come. */
    predicate Ready() {
      data.Valid() && (data.noff == -1 || (data.noff == 0 && data.content == []))
    }
  }

  const FRESH := State(EMPTY, None, map[], map[])

  /** What a call returns, and the state it leaves. */
  datatype Processed = Processed(msg: Option<Message>, st: State)

  /** One call, with the reassembler of the class given, or else of the packet's own class. */
  ghost function Process(st: State, pkt: seq<Byte>, cls: Option<Reassembler>): Processed
    requires st.data.Valid() || pkt == []
  {
    var data := AppendTo(st.data, pkt, None);
    var stored := if st.stored.Some? then st.stored else cls;
    if stored.None? || data.contentLen == 0 then Processed(None, st.(data := data, stored := stored))
    else
      Conclude(data, stored, stored.value(data.content, st.meta, st.session))
  }

  /** What becomes of the buffer when the reassembler has answered. */
  ghost function Conclude(data: Buffer, stored: Option<Reassembler>, outcome: Outcome): Processed {
    match outcome
    case More(meta, session) => Processed(None, State(data, stored, meta, session))
    case Complete(msg, padding, isPadding, meta, session) =>
      if padding == [] then Processed(Some(msg), State(EMPTY, None, map[], session))
      else
        var left := Buffer(SliceFrom(data.content, data.contentLen - |padding|), |padding|, data.noff);
        if isPadding then Processed(None, State(left, stored, meta, session))
        else Processed(Some(msg), State(left, None, map[], session))
  }

  class TCPSession {
    const data: StringBuffer
    var stored: Option<Reassembler>
    var metadata: Dict
    var session: Dict

    function Snapshot(): State
      reads this, data
    {
      State(data.Snapshot(), stored, metadata, session)
    }

    constructor ()
      ensures Snapshot() == FRESH && fresh(data)
    {
      data := new StringBuffer();
      stored, metadata, session := None, map[], map[];
    }

    /** Keep the padding, the data of the next message, or nothing if there is none. */
    method DropMessage(padding: seq<Byte>)
      modifies data
      ensures var b := old(data.Snapshot());
              data.Snapshot() == if padding == [] then EMPTY
                                 else Buffer(SliceFrom(b.content, b.contentLen - |padding|), |padding|, b.noff)
    {
      if padding != [] {
        data.ShiftLeft(data.contentLen - |padding|);
      } else {
        data.Clear();
      }
    }

    /** `own` is the reassembler of the packet's class, none when the packet is plain bytes. */
    method ProcessApp(pkt: seq<Byte>, own: Option<Reassembler>, cls: Option<Reassembler>)
      returns (packet: Option<Message>)
      requires data.Snapshot().Valid() || pkt == []
      modifies this, data
      ensures Processed(packet, Snapshot()) == Process(old(Snapshot()), pkt, if cls.Some? then cls else own)
    {
      packet := None;
      data.Append(pkt, None);
      var given := cls;
      if cls.None? && own.Some? {
        given := own;
      }
      if stored.None? {
        if given.None? {
          return;
        }
        stored := given;
      }
      if data.contentLen == 0 {
        return;
      }
      var outcome := stored.value(data.content, metadata, session);
      packet := Strip(outcome);
    }

    /** Strip the message of its padding, and get ready for the next one. */
    method Strip(outcome: Outcome) returns (packet: Option<Message>)
      modifies this, data
      ensures Processed(packet, Snapshot()) == Conclude(old(data.Snapshot()), old(stored), outcome)
    {
      packet := None;
      metadata, session := outcome.meta, outcome.session;
      match outcome
      case More(_, _) =>
      case Complete(msg, padding, isPadding, _, _) =>
        DropMessage(padding);
        if padding != [] && isPadding {
          return;
        }
        stored, metadata := None, map[];
        packet := Some(msg);
    }

    /**
     * The loop of `recv` over one packet from the socket. It goes on with no bytes and no class, for
     * which the metadata just cleared hold no reassembler either.
     */
    method Recv(pkt: seq<Byte>, own: Option<Reassembler>) returns (yielded: seq<Message>)
      requires data.Snapshot().Valid()
      modifies this, data
      ensures var r := Process(old(Snapshot()), pkt, own);
              yielded == Delivered(r.msg) && Snapshot() == r.st
    {
      yielded := [];
      var chunk, cls := Some(pkt), own;
      while chunk.Some?
        invariant chunk.Some? && yielded == [] ==> chunk == Some(pkt) && cls == own && Snapshot() == old(Snapshot())
        invariant chunk.Some? && yielded != [] ==> chunk == Some([]) && cls == None && stored == None
        invariant chunk.None? || yielded != [] ==>
                    var r := Process(old(Snapshot()), pkt, own);
                    yielded == Delivered(r.msg) && Snapshot() == r.st
        decreases chunk.Some?, |yielded| == 0
      {
        var packet := ProcessApp(chunk.value, cls, None);
        chunk := None;
        if packet.Some? {
          yielded := yielded + [packet.value];
          chunk, cls := Some([]), None;
        }
      }
    }
  }

  // ----- Framers -----

  /** The same answer, whatever is cached in the metadata. */
  predicate SameAnswer(a: Outcome, b: Outcome) {
    && a.session == b.session
    && (a.More? <==> b.More?)
    && (a.Complete? ==> a.msg == b.msg && a.padding == b.padding && a.isPadding == b.isPadding)
  }

  /** The metadata that calls with the data `ps`, one after the other, leave. */
  function MetaAfter(f: Reassembler, s: Dict, ps: seq<seq<Byte>>): Dict {
    if ps == [] then map[] else f(ps[|ps| - 1], MetaAfter(f, s, ps[..|ps| - 1]), s).meta
  }

  /** Calls that waited, each with a beginning of the data of the next, and the last of d. */
  predicate Earlier(f: Reassembler, d: seq<Byte>, s: Dict, ps: seq<seq<Byte>>)
    decreases |ps|
  {
    ps != [] ==>
      var p := ps[|ps| - 1];
      p != [] && p <= d && Waits(f, p, s) && Earlier(f, p, s, ps[..|ps| - 1])
  }

  /**
   * A deterministic reassembler whose messages depend on the data and the session only, whatever
   * earlier calls on beginnings of the data have left in the metadata. It leaves the session alone
   * while it waits, uses up at least a byte for each message, and gives the same message when more
   * bytes follow. It may answer a bare padding only for all of the data, which uses up nothing.
   */
  ghost predicate Framer(f: Reassembler) {
    && (forall d, s, ps :: d != [] && Earlier(f, d, s, ps) ==>
          SameAnswer(f(d, MetaAfter(f, s, ps), s), f(d, map[], s)))
    && (forall d, s :: Waits(f, d, s) ==> f(d, map[], s).session == s)
    && (forall d, s :: d != [] && !Waits(f, d, s) ==> |f(d, map[], s).padding| < |d| && !f(d, map[], s).isPadding)
    && (forall d, s, x :: d != [] && !Waits(f, d, s) ==> StableUnder(f, d, s, x))
  }

  /** A state between calls with the same class: the metadata are what the calls that waited left. */
  ghost predicate Between(st: State, f: Reassembler) {
    && st.Ready() && (st.stored == None || st.stored == Some(f))
    && exists ps :: Earlier(f, st.data.content, st.session, ps) && st.meta == MetaAfter(f, st.session, ps)
  }

  lemma {:induction false} NoneEarlier(f: Reassembler, d: seq<Byte>, s: Dict)
    ensures Earlier(f, d, s, []) && MetaAfter(f, s, []) == map[]
  {}

  /** A call that waits on more of the data is one of those calls. */
  lemma {:induction false} OneMore(f: Reassembler, d: seq<Byte>, x: seq<Byte>, s: Dict, ps: seq<seq<Byte>>)
    requires Earlier(f, d, s, ps) && d + x != []
    ensures Earlier(f, d + x, s, ps)
    ensures Waits(f, d + x, s) ==>
              Earlier(f, d + x, s, ps + [d + x])
              && MetaAfter(f, s, ps + [d + x]) == f(d + x, MetaAfter(f, s, ps), s).meta
  {
    assert (ps + [d + x])[..|ps|] == ps;
  }

  /** No message is cut out of d. */
  predicate Waits(f: Reassembler, d: seq<Byte>, s: Dict) {
    var r := f(d, map[], s);
    r.More? || (r.isPadding && r.padding == d)
  }

  predicate StableUnder(f: Reassembler, d: seq<Byte>, s: Dict, x: seq<Byte>) {
    var r, r' := f(d, map[], s), f(d + x, map[], s);
    r.Complete? && r'.Complete? && !r'.isPadding
    && r'.msg == r.msg && r'.session == r.session && r'.padding == r.padding + x
  }

  /** The messages in a stream, what is left of it, and the session afterwards. */
  datatype Parsed = Parsed(msgs: seq<Message>, rest: seq<Byte>, session: Dict)

  ghost function Parse(f: Reassembler, d: seq<Byte>, s: Dict): Parsed
    requires Framer(f)
    decreases |d|
  {
    if d == [] || Waits(f, d, s) then Parsed([], d, s)
    else
      var r := f(d, map[], s);
      var p := Parse(f, d[|d| - |r.padding|..], r.session);
      Parsed([r.msg] + p.msgs, p.rest, p.session)
  }

  /** One message, then the messages of what it leaves. */
  lemma ParseStep(f: Reassembler, d: seq<Byte>, s: Dict, r: Outcome, n: nat)
    requires Framer(f) && d != [] && !Waits(f, d, s) && r == f(d, map[], s) && n == |d| - |r.padding|
    ensures 0 < n <= |d|
    ensures var p := Parse(f, d[n..], r.session);
            Parse(f, d, s) == Parsed([r.msg] + p.msgs, p.rest, p.session)
  {}

  /** The next call's message does not depend on what follows it. */
  lemma {:induction false} StepUnder(f: Reassembler, d: seq<Byte>, x: seq<Byte>, s: Dict, r: Outcome, n: nat)
    requires Framer(f) && d != [] && !Waits(f, d, s) && r == f(d, map[], s) && n == |d| - |r.padding|
    ensures 0 < n <= |d|
    ensures var p := Parse(f, d[n..] + x, r.session);
            Parse(f, d + x, s) == Parsed([r.msg] + p.msgs, p.rest, p.session)
  {
    assert StableUnder(f, d, s, x);
    ParseStep(f, d, s, r, n);
    ParseStep(f, d + x, s, f(d + x, map[], s), n);
    assert (d + x)[n..] == d[n..] + x;
  }

  /** Parsing resumes where it stopped: the messages before and after a cut are those of the whole. */
  lemma {:induction false} ParseResumes(f: Reassembler, d: seq<Byte>, x: seq<Byte>, s: Dict, p: Parsed, q: Parsed)
    requires Framer(f) && p == Parse(f, d, s) && q == Parse(f, p.rest + x, p.session)
    ensures Parse(f, d + x, s) == Parsed(p.msgs + q.msgs, q.rest, q.session)
    decreases |d|
  {
    if d == [] || Waits(f, d, s) {
      assert p.msgs + q.msgs == q.msgs;
    } else {
      var r := f(d, map[], s);
      var n := |d| - |r.padding|;
      ParseStep(f, d, s, r, n);
      StepUnder(f, d, x, s, r, n);
      var p1 := Parse(f, d[n..], r.session);
      ParseResumes(f, d[n..], x, r.session, p1, q);
      MessagesJoin(r.msg, p1.msgs, q.msgs);
    }
  }

  lemma MessagesJoin(m: Message, a: seq<Message>, b: seq<Message>)
    ensures [m] + (a + b) == ([m] + a) + b
  {}

  // ----- Every sequence of calls -----

  datatype Calls = Calls(msgs: seq<Message>, st: State)

  /** Successive calls with the same class, each with the bytes that came in, possibly none. */
  ghost function ProcessAll(chunks: seq<seq<Byte>>, f: Reassembler): (r: Calls)
    requires Framer(f)
    ensures Between(r.st, f)
  {
    if chunks == [] then
      NoneEarlier(f, [], map[]);
      Calls([], FRESH)
    else
      var before := ProcessAll(chunks[..|chunks| - 1], f);
      OneCall(before.st, chunks[|chunks| - 1], f);
      var r := Process(before.st, chunks[|chunks| - 1], Some(f));
      Calls(before.msgs + Delivered(r.msg), r.st)
  }

  function Concat(chunks: seq<seq<Byte>>): seq<Byte> {
    if chunks == [] then [] else Concat(chunks[..|chunks| - 1]) + chunks[|chunks| - 1]
  }

  /**
   * What one call makes of an answer o of its class. A message is returned, or kept back if it is
   * bare padding; the bytes behind it, or all when there is none, stay for the next call.
   */
  lemma {:induction false} CallUses(st: State, pkt: seq<Byte>, f: Reassembler, d: seq<Byte>, o: Outcome, r: Processed)
    requires st.Ready() && (st.stored == None || st.stored == Some(f)) && d == st.data.content + pkt
    requires o == f(d, st.meta, st.session) && r == Process(st, pkt, Some(f))
    ensures if d == [] then r.msg == None && r.st == State(st.data, Some(f), st.meta, st.session)
            else if o.More? then
              r.msg == None && r.st.data.content == d && r.st == State(r.st.data, Some(f), o.meta, o.session)
            else if |o.padding| <= |d| then
              && r.st.data.content == d[|d| - |o.padding|..]
              && (if o.isPadding && o.padding != [] then
                    r.msg == None && r.st == State(r.st.data, Some(f), o.meta, o.session)
                  else r.msg == Some(o.msg) && r.st == State(r.st.data, None, map[], o.session))
            else true
    ensures d == [] || o.More? || |o.padding| <= |d| ==> r.st.Ready()
  {
    AppendAtEnd(st.data, pkt);
  }

  /** The answer with the metadata of earlier calls is that without any. */
  lemma {:induction false} Answers(f: Reassembler, d: seq<Byte>, s: Dict, ps: seq<seq<Byte>>, o: Outcome)
    requires Framer(f) && d != [] && Earlier(f, d, s, ps) && o == f(d, MetaAfter(f, s, ps), s)
    ensures SameAnswer(o, f(d, map[], s))
    ensures if Waits(f, d, s) then o.session == s && (o.More? || (o.isPadding && o.padding == d))
            else o.Complete? && |o.padding| < |d| && !o.isPadding
  {
    assert SameAnswer(o, f(d, map[], s));
  }

  /** A call returns the first message of the buffer and the new bytes, if there is one, and keeps the rest. */
  lemma {:induction false} OneCall(st: State, pkt: seq<Byte>, f: Reassembler)
    requires Framer(f) && Between(st, f)
    ensures var r, d := Process(st, pkt, Some(f)), st.data.content + pkt;
            && Between(r.st, f)
            && (if d == [] || Waits(f, d, st.session) then
                  r.msg == None && r.st.data.content == d && r.st.session == st.session
                else
                  var o := f(d, map[], st.session);
                  r.msg == Some(o.msg) && r.st.data.content == d[|d| - |o.padding|..] && r.st.session == o.session)
  {
    var r, s, d := Process(st, pkt, Some(f)), st.session, st.data.content + pkt;
    var o := f(d, st.meta, s);
    CallUses(st, pkt, f, d, o, r);
    var ps :| Earlier(f, st.data.content, s, ps) && st.meta == MetaAfter(f, s, ps);
    if d != [] {
      OneMore(f, st.data.content, pkt, s, ps);
      Answers(f, d, s, ps, o);
      if Waits(f, d, s) {
        assert Earlier(f, d, s, ps + [d]);
      } else {
        NoneEarlier(f, r.st.data.content, o.session);
      }
    }
  }

  /** The messages a state has still to deliver. */
  ghost function Pending(st: State, f: Reassembler): Parsed
    requires Framer(f)
  {
    Parse(f, st.data.content, st.session)
  }

  function Delivered(m: Option<Message>): seq<Message> {
    if m.Some? then [m.value] else []
  }

  /** A call delivers the first message of what is pending and the new bytes. */
  lemma {:induction false} CallParses(st: State, pkt: seq<Byte>, f: Reassembler, r: Processed, p: Parsed)
    requires Framer(f) && Between(st, f)
    requires r == Process(st, pkt, Some(f)) && p == Pending(r.st, f)
    ensures Parse(f, st.data.content + pkt, st.session) == Parsed(Delivered(r.msg) + p.msgs, p.rest, p.session)
  {
    var d, s := st.data.content + pkt, st.session;
    OneCall(st, pkt, f);
    if d == [] || Waits(f, d, s) {
      assert [] + p.msgs == p.msgs;
    } else {
      var o := f(d, map[], s);
      ParseStep(f, d, s, o, |d| - |o.padding|);
    }
  }

  /**
   * After any calls, the messages delivered followed by those still in the buffer
   * are the messages of the whole stream.
   */
  lemma {:induction false} DeliveredThenBuffered(chunks: seq<seq<Byte>>, f: Reassembler, p: Parsed)
    requires Framer(f) && p == Pending(ProcessAll(chunks, f).st, f)
    ensures Parse(f, Concat(chunks), map[]) == Parsed(ProcessAll(chunks, f).msgs + p.msgs, p.rest, p.session)
  {
    if chunks == [] {
      assert [] + p.msgs == p.msgs;
    } else {
      var init, x := chunks[..|chunks| - 1], chunks[|chunks| - 1];
      var before := ProcessAll(init, f);
      var b := before.st.data.content;
      var p0, r := Pending(before.st, f), Process(before.st, x, Some(f));
      var q, whole := Parse(f, p0.rest + x, p0.session), Parse(f, Concat(init), map[]);
      DeliveredThenBuffered(init, f, p0);
      ParseResumes(f, Concat(init), x, map[], whole, q);
      ParseResumes(f, b, x, before.st.session, p0, q);
      CallParses(before.st, x, f, r, p);
      SameTotal(before.msgs, p0.msgs, q.msgs, Delivered(r.msg), p.msgs);
    }
  }

  lemma SameTotal(a: seq<Message>, b: seq<Message>, c: seq<Message>, d: seq<Message>, e: seq<Message>)
    requires b + c == d + e
    ensures (a + b) + c == (a + d) + e
  {
    assert (a + b) + c == a + (b + c);
    assert a + (d + e) == (a + d) + e;
  }

  predicate IsEnd(b: seq<Byte>, fed: seq<Byte>) {
    |b| <= |fed| && b == fed[|fed| - |b|..]
  }

  /** What a call leaves is the end of what it had. */
  lemma KeepsEnd(st: State, x: seq<Byte>, f: Reassembler)
    requires Framer(f) && Between(st, f)
    ensures IsEnd(Process(st, x, Some(f)).st.data.content, st.data.content + x)
  {
    OneCall(st, x, f);
    var d := st.data.content + x;
    assert d == d[|d| - |d|..];
  }

  lemma LastCall(chunks: seq<seq<Byte>>, f: Reassembler, st: State, x: seq<Byte>)
    requires Framer(f) && chunks != [] && x == chunks[|chunks| - 1] && st == ProcessAll(chunks[..|chunks| - 1], f).st
    ensures ProcessAll(chunks, f).st == Process(st, x, Some(f)).st
    ensures Concat(chunks) == Concat(chunks[..|chunks| - 1]) + x
  {}

  lemma EndOfEnd(fed: seq<Byte>, b: seq<Byte>, x: seq<Byte>, left: seq<Byte>)
    requires IsEnd(b, fed) && IsEnd(left, b + x)
    ensures IsEnd(left, fed + x)
  {
    var n := |fed| - |b|;
    assert fed == fed[..n] + b;
    assert fed + x == fed[..n] + (b + x);
  }

  /** One call more, in the terms of `BufferIsEndOfStream`. */
  lemma StaysEnd(st: State, x: seq<Byte>, f: Reassembler, before: seq<Byte>, fed: seq<Byte>, left: seq<Byte>)
    requires Framer(f) && Between(st, f) && IsEnd(st.data.content, before)
    requires fed == before + x && left == Process(st, x, Some(f)).st.data.content
    ensures IsEnd(left, fed)
  {
    KeepsEnd(st, x, f);
    EndOfEnd(before, st.data.content, x, left);
  }

  /** At every moment the bytes used up followed by those in the buffer are those that came in. */
  lemma {:induction false} BufferIsEndOfStream(chunks: seq<seq<Byte>>, f: Reassembler)
    requires Framer(f)
    ensures IsEnd(ProcessAll(chunks, f).st.data.content, Concat(chunks))
  {
    if chunks != [] {
      var init, x := chunks[..|chunks| - 1], chunks[|chunks| - 1];
      BufferIsEndOfStream(init, f);
      var st := ProcessAll(init, f).st;
      LastCall(chunks, f, st, x);
      StaysEnd(st, x, f, Concat(init), Concat(chunks), ProcessAll(chunks, f).st.data.content);
    }
  }

  /** The last of these calls returned nothing. */
  ghost predicate Drained(chunks: seq<seq<Byte>>, f: Reassembler)
    requires Framer(f)
  {
    chunks != [] && Process(ProcessAll(chunks[..|chunks| - 1], f).st, chunks[|chunks| - 1], Some(f)).msg == None
  }

  lemma {:induction false} DrainedMeansParsed(chunks: seq<seq<Byte>>, f: Reassembler)
    requires Framer(f) && Drained(chunks, f)
    ensures ProcessAll(chunks, f).msgs == Parse(f, Concat(chunks), map[]).msgs
    ensures ProcessAll(chunks, f).st.data.content == Parse(f, Concat(chunks), map[]).rest
  {
    var n, r := |chunks| - 1, ProcessAll(chunks, f);
    var p := Pending(r.st, f);
    DeliveredThenBuffered(chunks, f, p);
    OneCall(ProcessAll(chunks[..n], f).st, chunks[n], f);
    assert p == Parsed([], r.st.data.content, r.st.session);
    assert r.msgs + [] == r.msgs;
  }

  /** However a stream is cut into chunks, the same messages come out and the same bytes are left. */
  lemma {:induction false} ChunkingDoesNotMatter(a: seq<seq<Byte>>, b: seq<seq<Byte>>, f: Reassembler)
    requires Framer(f) && Drained(a, f) && Drained(b, f) && Concat(a) == Concat(b)
    ensures ProcessAll(a, f).msgs == ProcessAll(b, f).msgs
    ensures ProcessAll(a, f).st.data.content == ProcessAll(b, f).st.data.content
  {
    DrainedMeansParsed(a, f);
    DrainedMeansParsed(b, f);
  }

  // ----- The class of a message -----

  /** Once a call has waited, its class is the one in use, whatever class the next call comes with. */
  lemma {:induction false} LaterClassesIgnored(chunks: seq<seq<Byte>>, f: Reassembler, x: seq<Byte>,
                                               cls: Option<Reassembler>)
    requires Framer(f) && chunks != [] && Drained(chunks, f)
    ensures var st := ProcessAll(chunks, f).st; Process(st, x, cls) == Process(st, x, Some(f))
  {
    var before, last := ProcessAll(chunks[..|chunks| - 1], f).st, chunks[|chunks| - 1];
    OneCall(before, last, f);
    var d := before.data.content + last;
    CallUses(before, last, f, d, f(d, before.meta, before.session), Process(before, last, Some(f)));
  }

  /** Before the first call and behind a message the class that comes with the call is taken. */
  lemma {:induction false} NextMessageNextClass(chunks: seq<seq<Byte>>, f: Reassembler, x: seq<Byte>, g: Reassembler)
    requires Framer(f) && (chunks == [] || !Drained(chunks, f)) && Framer(g)
    ensures var st := ProcessAll(chunks, f).st;
            var r, d := Process(st, x, Some(g)), st.data.content + x;
            Between(st, g) && r.msg == if d == [] || Waits(g, d, st.session) then None
                                       else Some(g(d, map[], st.session).msg)
  {
    var st := ProcessAll(chunks, f).st;
    if chunks != [] {
      var before, last := ProcessAll(chunks[..|chunks| - 1], f).st, chunks[|chunks| - 1];
      OneCall(before, last, f);
      var d := before.data.content + last;
      CallUses(before, last, f, d, f(d, before.meta, before.session), Process(before, last, Some(f)));
    }
    NoneEarlier(g, st.data.content, st.session);
    OneCall(st, x, g);
  }

  // ----- Calls without bytes -----

  /** n calls without bytes. */
  function Empties(n: nat): seq<seq<Byte>> {
    seq(n, _ => [])
  }

  /** Such a call delivers a message and uses bytes up, or returns nothing. */
  lemma {:induction false} EmptyCall(chunks: seq<seq<Byte>>, f: Reassembler)
    requires Framer(f)
    ensures Concat(chunks + [[]]) == Concat(chunks)
    ensures Drained(chunks + [[]], f)
            || |ProcessAll(chunks + [[]], f).st.data.content| < |ProcessAll(chunks, f).st.data.content|
    ensures chunks != [] && Drained(chunks, f) ==> Drained(chunks + [[]], f)
  {
    var st := ProcessAll(chunks, f).st;
    assert (chunks + [[]])[..|chunks|] == chunks;
    assert st.data.content + [] == st.data.content;
    OneCall(st, [], f);
    if chunks != [] {
      OneCall(ProcessAll(chunks[..|chunks| - 1], f).st, chunks[|chunks| - 1], f);
    }
  }

  lemma {:induction false} EmptyCallsUseUp(chunks: seq<seq<Byte>>, f: Reassembler, n: nat)
    requires Framer(f)
    ensures Concat(chunks + Empties(n)) == Concat(chunks)
    ensures (n > 0 && Drained(chunks + Empties(n), f))
            || |ProcessAll(chunks + Empties(n), f).st.data.content| + n <= |ProcessAll(chunks, f).st.data.content|
  {
    if n == 0 {
      assert chunks + Empties(0) == chunks;
    } else {
      var before := chunks + Empties(n - 1);
      assert chunks + Empties(n) == before + [[]];
      EmptyCallsUseUp(chunks, f, n - 1);
      EmptyCall(before, f);
    }
  }

  /** One call without bytes more than there are bytes in the buffer is enough. */
  lemma {:induction false} EmptyCallsDrain(chunks: seq<seq<Byte>>, f: Reassembler, n: nat)
    requires Framer(f) && n > |ProcessAll(chunks, f).st.data.content|
    ensures Concat(chunks + Empties(n)) == Concat(chunks) && Drained(chunks + Empties(n), f)
  {
    EmptyCallsUseUp(chunks, f, n);
  }

  // ----- `recv`: one message for each packet from the socket -----

  /** A packet received yields all the messages there are exactly when there is no second one. */
  lemma {:induction false} YieldsAllExactly(st: State, pkt: seq<Byte>, f: Reassembler, r: Processed, p: Parsed)
    requires Framer(f) && Between(st, f) && r == Process(st, pkt, Some(f))
    requires p == Parse(f, st.data.content + pkt, st.session)
    ensures Delivered(r.msg) == p.msgs <==> |p.msgs| <= 1
  {
    var d := st.data.content + pkt;
    OneCall(st, pkt, f);
    CallParses(st, pkt, f, r, Pending(r.st, f));
    if d != [] && !Waits(f, d, st.session) {
      assert |Delivered(r.msg)| == 1;
    }
  }

  /** How many messages had arrived before each call, and have by now. */
  ghost function Arrived(chunks: seq<seq<Byte>>, f: Reassembler): (r: seq<nat>)
    requires Framer(f)
    ensures |r| == |chunks| + 1
  {
    if chunks == [] then [0] else Arrived(chunks[..|chunks| - 1], f) + [|Parse(f, Concat(chunks), map[]).msgs|]
  }

  /** k is the least of these numbers, each with one added for every call since. */
  ghost predicate Lags(k: nat, arrived: seq<nat>) {
    && (forall j :: 0 <= j < |arrived| ==> k <= arrived[j] + (|arrived| - 1 - j))
    && exists j :: 0 <= j < |arrived| && k == arrived[j] + (|arrived| - 1 - j)
  }

  lemma {:induction false} LagsStep(k: nat, arrived: seq<nat>, k': nat, now: nat)
    requires Lags(k, arrived) && k' <= now && (k' == k == now || k' == k + 1)
    ensures Lags(k', arrived + [now])
  {
    var all := arrived + [now];
    if k' == k {
      assert all[|arrived|] == k';
    } else {
      var j :| 0 <= j < |arrived| && k == arrived[j] + (|arrived| - 1 - j);
      assert all[j] == arrived[j];
    }
  }

  /** One call more delivers a message, unless all were delivered. */
  lemma {:induction false} DeliversNext(chunks: seq<seq<Byte>>, f: Reassembler, k: nat, k': nat, now: nat)
    requires Framer(f) && chunks != [] && now == |Parse(f, Concat(chunks), map[]).msgs|
    requires k == |ProcessAll(chunks[..|chunks| - 1], f).msgs| && k' == |ProcessAll(chunks, f).msgs|
    ensures k' <= now && (k' == k == now || k' == k + 1)
  {
    DeliveredThenBuffered(chunks, f, Pending(ProcessAll(chunks, f).st, f));
    if Drained(chunks, f) {
      DrainedMeansParsed(chunks, f);
    }
  }

  /**
   * How far delivery lags behind when there is one call for each packet received: the messages
   * delivered are the least, over all moments, of those that had arrived by then plus the calls since.
   */
  lemma {:induction false} DeliveryLags(chunks: seq<seq<Byte>>, f: Reassembler)
    requires Framer(f)
    ensures Lags(|ProcessAll(chunks, f).msgs|, Arrived(chunks, f))
  {
    if chunks == [] {
      assert Arrived(chunks, f)[0] == 0;
    } else {
      var init, now := chunks[..|chunks| - 1], |Parse(f, Concat(chunks), map[]).msgs|;
      var k, k' := |ProcessAll(init, f).msgs|, |ProcessAll(chunks, f).msgs|;
      DeliveryLags(init, f);
      DeliversNext(chunks, f, k, k', now);
      LagsStep(k, Arrived(init, f), k', now);
    }
  }

  // ----- Three reassemblers -----

  /** A one-byte length, then that many bytes. */
  function LengthPrefixed(d: seq<Byte>, meta: Dict, session: Dict): Outcome {
    if d == [] || |d| <= d[0] then More(meta, session)
    else Complete(Message("Raw", d[1..1 + d[0]]), d[1 + d[0]..], false, meta, session)
  }

  lemma {:induction false} LengthPrefixedIsFramer()
    ensures Framer(LengthPrefixed)
  {
    forall d: seq<Byte>, s, x | d != [] && !Waits(LengthPrefixed, d, s)
      ensures StableUnder(LengthPrefixed, d, s, x)
    {
      var n := d[0] as int + 1;
      assert (d + x)[1..n] == d[1..n] && (d + x)[n..] == d[n..] + x;
    }
  }

  /** A zero byte is an empty message. */
  lemma {:induction false} EmptyMessage(d: seq<Byte>, rest: seq<Byte>)
    requires Framer(LengthPrefixed) && d == [0] + rest
    ensures LengthPrefixed(d, map[], map[]) == Complete(Message("Raw", []), rest, false, map[], map[])
    ensures Parse(LengthPrefixed, d, map[]).msgs == [Message("Raw", [])] + Parse(LengthPrefixed, rest, map[]).msgs
  {
    var r := LengthPrefixed(d, map[], map[]);
    assert d[1..] == rest && d[1..1] == [];
    ParseStep(LengthPrefixed, d, map[], r, 1);
  }

  /** Two empty messages in one packet: only the first is yielded. */
  lemma {:induction false} SecondMessageStays()
    ensures Framer(LengthPrefixed)
    ensures Process(FRESH, [0, 0], Some(LengthPrefixed)).msg == Some(Message("Raw", []))
    ensures Parse(LengthPrefixed, [0, 0], map[]).msgs == [Message("Raw", []), Message("Raw", [])]
  {
    LengthPrefixedIsFramer();
    EmptyMessage([0, 0], [0]);
    EmptyMessage([0], []);
    FirstCall([0, 0], LengthPrefixed([0, 0], map[], map[]));
  }

  lemma {:induction false} FirstCall(d: seq<Byte>, o: Outcome)
    requires Framer(LengthPrefixed) && d != [] && o == LengthPrefixed(d, map[], map[]) && o.Complete?
    ensures Process(FRESH, d, Some(LengthPrefixed)).msg == Some(o.msg)
  {
    NoneEarlier(LengthPrefixed, [], map[]);
    assert [] + d == d;
    OneCall(FRESH, d, LengthPrefixed);
  }

  /** The same, with the length kept in the metadata once it has been seen. */
  function Remembering(d: seq<Byte>, meta: Dict, session: Dict): Outcome {
    if d == [] then More(meta, session)
    else
      var length := if "length" in meta && meta["length"] != [] then meta["length"][0] else d[0];
      if |d| <= length then More(meta["length" := [length]], session)
      else Complete(Message("Raw", d[1..1 + length]), d[1 + length..], false, meta, session)
  }

  /** What it finds in the metadata is the length in the data. */
  lemma {:induction false} RemembersLength(d: seq<Byte>, s: Dict, ps: seq<seq<Byte>>)
    requires d != [] && Earlier(Remembering, d, s, ps)
    ensures ps != [] ==> MetaAfter(Remembering, s, ps) == map["length" := [d[0]]]
    decreases |ps|
  {
    if ps != [] {
      var p, init := ps[|ps| - 1], ps[..|ps| - 1];
      RemembersLength(p, s, init);
      assert p[0] == d[0];
    }
  }

  /** Its answers do depend on the metadata, but not on metadata its own earlier calls leave. */
  lemma {:induction false} RememberingIsFramer()
    ensures Framer(Remembering)
    ensures exists d, m, s :: !SameAnswer(Remembering(d, m, s), Remembering(d, map[], s))
  {
    forall d, s, ps | d != [] && Earlier(Remembering, d, s, ps)
      ensures SameAnswer(Remembering(d, MetaAfter(Remembering, s, ps), s), Remembering(d, map[], s))
    {
      RemembersLength(d, s, ps);
    }
    forall d: seq<Byte>, s, x | d != [] && !Waits(Remembering, d, s)
      ensures StableUnder(Remembering, d, s, x)
    {
      var n := d[0] as int + 1;
      assert (d + x)[1..n] == d[1..n] && (d + x)[n..] == d[n..] + x;
    }
    assert !SameAnswer(Remembering([0], map["length" := [1]], map[]), Remembering([0], map[], map[]));
  }

  /** A class without `tcp_reassemble`: whatever has arrived is dissected as one message. */
  function Whole(d: seq<Byte>, meta: Dict, session: Dict): Outcome {
    Complete(Message("Raw", d), [], false, meta, session)
  }

  /** Without `tcp_reassemble` every call is a message of its own: the chunks show. */
  lemma {:induction false} WholeShowsChunks(a: seq<Byte>, b: seq<Byte>)
    requires a != [] && b != []
    ensures Process(FRESH, a, Some(Whole)).msg == Some(Message("Raw", a))
    ensures Process(FRESH, a + b, Some(Whole)).msg == Some(Message("Raw", a + b))
    ensures !Framer(Whole)
  {
    AppendAtEnd(EMPTY, a);
    AppendAtEnd(EMPTY, a + b);
    assert [] + a == a && [] + (a + b) == a + b;
    assert !Waits(Whole, a, map[]) && !StableUnder(Whole, a, map[], b);
  }
}
