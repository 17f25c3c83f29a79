/** The per-connection command loop as a state machine over the inputs the
    connection sees. Each input is one result of reading a command, together
    with the answers of the environment that the loop cannot decide itself:
    what the GET select yields, whether the reply's write succeeds and whether
    a flush succeeds. */
module Session {
  import opened Commands

  /** One result of reading from the parser. */
  datatype Event =
    | Command(args: seq<string>, isLast: bool)      // a decoded command; isLast: last of the buffered batch
    | ProtocolError(text: string, isLast: bool)     // a recoverable protocol error, with its message
    | ReadFailure                                   // any other read error (EOF, reset, I/O failure)

  /** What the environment answers while one input is handled: the outcome of
      the GET select, whether the write succeeds, whether a flush succeeds and,
      when it fails, how many whole pending replies it had already sent. */
  datatype Io = Io(wait: WaitResult, writeOk: bool, flushOk: bool, flushSent: nat)

  datatype Input = Input(event: Event, io: Io)

  /** The observable state of one connection: the replies already flushed to
      the socket, the replies accepted by the buffered writer but not yet
      flushed, whether the writer holds an error (a buffered writer keeps its
      first error and refuses all later writes and flushes), whether the loop
      has ended, and how many inputs it has read. */
  datatype State = State(flushed: seq<Reply>, pending: seq<Reply>, broken: bool, stopped: bool, read: nat)

  const Initial := State([], [], false, false, 0)

  /** Everything the writer has accepted, in order. */
  function Written(s: State): seq<Reply> {
    s.flushed + s.pending
  }

  function Min(a: nat, b: nat): nat {
    if a < b then a else b
  }

  /** The reply the loop writes for an input, when it writes one: a protocol
      error is answered with its own text; a command gets a bulk string exactly
      when it is PING, DEL, or a GET the consumer answered before shutdown. */
  function ReplyTo(inp: Input): (r: Reply)
    requires !inp.event.ReadFailure?
    ensures inp.event.ProtocolError? ==> r == Error(inp.event.text)
    ensures inp.event.Command? ==>
              var verb := Verb(inp.event.args);
              (r.Bulk? <==>
                 MatchesVerb(verb, "PING") || MatchesVerb(verb, "DEL") ||
                 (MatchesVerb(verb, "GET") && inp.io.wait.Msg?))
  {
    match inp.event
    case ProtocolError(text, _) => Error(text)
    case Command(args, _) => Dispatch(args, inp.io.wait)
  }

  /** Writing one reply into the buffered writer. */
  function Write(s: State, r: Reply, ok: bool): (t: State)
    ensures t.broken <==> s.broken || !ok
    ensures Written(t) == if t.broken then Written(s) else Written(s) + [r]
    ensures t.flushed == s.flushed && t.stopped == s.stopped && t.read == s.read
  {
    if s.broken || !ok then s.(broken := true) else s.(pending := s.pending + [r])
  }

  /** Flushing the buffered writer to the connection. A writer that holds an
      error, or has nothing buffered, does nothing. A flush that fails keeps
      on the socket what it wrote before the error: here the first `sent`
      pending replies (or all of them, if there are fewer). */
  function Flush(s: State, ok: bool, sent: nat): (t: State)
    ensures Written(t) == Written(s)
    ensures t.broken <==> s.broken || (!ok && s.pending != [])
    ensures s.broken || s.pending == [] ==> t == s
    ensures !t.broken ==> t.pending == [] && t.flushed == Written(s)
    ensures !s.broken && !ok ==>
              s.flushed <= t.flushed && |t.flushed| == |s.flushed| + Min(sent, |s.pending|)
    ensures t.stopped == s.stopped && t.read == s.read
  {
    if s.broken || s.pending == [] then s
    else if ok then s.(flushed := s.flushed + s.pending, pending := [])
    else
      var n := Min(sent, |s.pending|);
      assert s.pending[..n] + s.pending[n..] == s.pending;
      s.(flushed := s.flushed + s.pending[..n], pending := s.pending[n..], broken := true)
  }

  /** One iteration of the loop. A read failure ends it with no reply and no
      flush; otherwise exactly one reply is written, the writer is flushed
      when the input ends its batch, and the loop ends if the write failed. */
  function Step(s: State, inp: Input): (t: State)
    ensures s.stopped ==> t == s
    ensures !s.stopped ==> t.read == s.read + 1
    ensures s.flushed <= t.flushed && Written(s) <= Written(t)
    ensures |Written(t)| <= |Written(s)| + 1
  {
    if s.stopped then s
    else match inp.event
      case ReadFailure => s.(stopped := true, read := s.read + 1)
      case _ =>
        var w := Write(s, ReplyTo(inp), inp.io.writeOk);
        var f := if inp.event.isLast then Flush(w, inp.io.flushOk, inp.io.flushSent) else w;
        f.(stopped := w.broken, read := s.read + 1)
  }

  /** The state after the loop has been offered the given inputs in order. */
  function Serve(ins: seq<Input>): (s: State)
    ensures s.read <= |ins|
    ensures !s.stopped ==> s.read == |ins|
  {
    if ins == [] then Initial else Step(Serve(ins[..|ins| - 1]), ins[|ins| - 1])
  }

  /** The replies the inputs call for, one per input that is not a read
      failure, in input order. */
  function Replies(ins: seq<Input>): seq<Reply> {
    if ins == [] then []
    else
      var last := ins[|ins| - 1];
      Replies(ins[..|ins| - 1]) + (if last.event.ReadFailure? then [] else [ReplyTo(last)])
  }

  predicate EndsBatch(inp: Input) {
    !inp.event.ReadFailure? && inp.event.isLast
  }

  /** The length of the longest prefix of `ins` that ends a batch. */
  function BatchEnd(ins: seq<Input>): (b: nat)
    ensures b <= |ins|
    ensures b > 0 ==> EndsBatch(ins[b - 1])
    ensures forall j :: b <= j < |ins| ==> !EndsBatch(ins[j])
  {
    if ins == [] then 0
    else if EndsBatch(ins[|ins| - 1]) then |ins|
    else BatchEnd(ins[..|ins| - 1])
  }

  /** An input at which the writer fails: its write, or the flush it triggers. */
  predicate WriterFault(inp: Input) {
    !inp.event.ReadFailure? && (!inp.io.writeOk || (inp.event.isLast && !inp.io.flushOk))
  }

  /** Some write or flush failed among the first `n` inputs. */
  predicate FaultBefore(ins: seq<Input>, n: nat) {
    exists j :: 0 <= j < n && j < |ins| && WriterFault(ins[j])
  }

  /** The number of inputs whose reply the writer accepted. */
  function Answered(s: State): nat {
    if s.stopped && s.read > 0 then s.read - 1 else s.read
  }


  /* What holds of a state `s` and the inputs `r` it has read (|r| == s.read),
     in four parts, each preserved by every step on its own. */

  /** The loop only ends on a read failure or on a writer that holds an error. */
  ghost predicate StopReason(r: seq<Input>, s: State) {
    s.stopped ==> |r| > 0 && (r[|r| - 1].event.ReadFailure? || s.broken)
  }

  /** The writer has accepted exactly the replies to the answered inputs, in
      order, and none of those inputs is a read failure. */
  ghost predicate InOrder(r: seq<Input>, s: State) {
    var k := Answered(s);
    k <= |r| &&
    (forall j :: 0 <= j < k ==> !r[j].event.ReadFailure?) &&
    Written(s) == Replies(r[..k])
  }

  /** The writer holds an error exactly when some write or flush failed. */
  ghost predicate FaultsRecorded(r: seq<Input>, s: State) {
    s.broken <==> FaultBefore(r, |r|)
  }

  /** While the writer is healthy, exactly the replies up to the last input
      that ended a batch have been flushed, and the later ones are pending. */
  ghost predicate BatchesFlushed(r: seq<Input>, s: State) {
    var k := Answered(s);
    k <= |r| &&
    (!s.broken ==>
       s.flushed == Replies(r[..BatchEnd(r[..k])]) &&
       s.pending == Replies(r[BatchEnd(r[..k])..k]))
  }

  ghost predicate Inv(r: seq<Input>, s: State) {
    s.read == |r| && StopReason(r, s) && InOrder(r, s) && FaultsRecorded(r, s) && BatchesFlushed(r, s)
  }

  /** The state reached after offering the inputs `ins`. */
  ghost predicate Consistent(ins: seq<Input>, s: State) {
    s.read <= |ins| && (!s.stopped ==> s.read == |ins|) && Inv(ins[..s.read], s)
  }

  lemma ReadFailureKeepsOrder(r: seq<Input>, x: Input, s: State)
    requires s.read == |r| && !s.stopped && InOrder(r, s) && x.event.ReadFailure?
    ensures InOrder(r + [x], Step(s, x))
  {
    var r' := r + [x];
    assert Answered(Step(s, x)) == |r|;
    assert r'[..|r|] == r[..|r|] == r;
    assert forall j :: 0 <= j < |r| ==> r'[j] == r[j];
  }

  lemma ReadFailureKeepsBatches(r: seq<Input>, x: Input, s: State)
    requires s.read == |r| && !s.stopped && BatchesFlushed(r, s) && x.event.ReadFailure?
    ensures BatchesFlushed(r + [x], Step(s, x))
  {
    var r' := r + [x];
    assert Answered(Step(s, x)) == |r|;
    assert r'[..|r|] == r[..|r|];
    var b := BatchEnd(r[..|r|]);
    assert r'[..b] == r[..b] && r'[b..|r|] == r[b..|r|];
  }

  lemma ReadFailureKeepsFaults(r: seq<Input>, x: Input, s: State)
    requires s.read == |r| && !s.stopped && FaultsRecorded(r, s) && x.event.ReadFailure?
    ensures FaultsRecorded(r + [x], Step(s, x))
  {
    var r' := r + [x];
    assert forall j :: 0 <= j < |r| ==> r'[j] == r[j];
    assert !WriterFault(r'[|r|]);
  }

  lemma ReadFailureKeepsInv(r: seq<Input>, x: Input, s: State)
    requires Inv(r, s) && !s.stopped && x.event.ReadFailure?
    ensures Inv(r + [x], Step(s, x))
  {
    ReadFailureKeepsOrder(r, x, s);
    ReadFailureKeepsBatches(r, x, s);
    ReadFailureKeepsFaults(r, x, s);
  }

  /** What a step that answers `x` does: it reads one input, stops exactly
      when the write fails, and adds the reply unless it stops; its writer
      holds an error exactly after a fault; with a healthy writer, the reply is
      flushed with the rest at a batch end and buffered otherwise. */
  predicate Answers(s: State, x: Input, t: State) {
    !x.event.ReadFailure? && t.read == s.read + 1 &&
    (t.stopped <==> s.broken || !x.io.writeOk) &&
    Written(t) == (if t.stopped then Written(s) else Written(s) + [ReplyTo(x)]) &&
    (t.broken <==> s.broken || WriterFault(x)) &&
    (!t.broken ==>
       (x.event.isLast ==> t.flushed == Written(s) + [ReplyTo(x)] && t.pending == []) &&
       (!x.event.isLast ==> t.flushed == s.flushed && t.pending == s.pending + [ReplyTo(x)]))
  }

  lemma StepIsAnswer(s: State, x: Input)
    requires !s.stopped && !x.event.ReadFailure?
    ensures Answers(s, x, Step(s, x))
  {
  }

  lemma AnswerKeepsOrder(r: seq<Input>, x: Input, s: State, t: State)
    requires s.read == |r| && !s.stopped && InOrder(r, s) && Answers(s, x, t)
    ensures InOrder(r + [x], t)
  {
    var r' := r + [x];
    assert r'[..|r|] == r && r[..|r|] == r;
    if !t.stopped {
      assert r'[..|r'|] == r';
      RepliesSnoc(r, x);
    }
  }

  lemma AnswerKeepsFaults(r: seq<Input>, x: Input, s: State, t: State)
    requires s.read == |r| && FaultsRecorded(r, s) && Answers(s, x, t)
    ensures FaultsRecorded(r + [x], t)
  {
    var r' := r + [x];
    assert forall j :: 0 <= j < |r| ==> r'[j] == r[j];
    if s.broken {
      var j :| 0 <= j < |r| && WriterFault(r[j]);
      assert WriterFault(r'[j]);
    } else if WriterFault(x) {
      assert WriterFault(r'[|r|]);
    }
  }

  lemma AnswerKeepsBatches(r: seq<Input>, x: Input, s: State, t: State)
    requires s.read == |r| && !s.stopped && InOrder(r, s) && BatchesFlushed(r, s)
    requires Answers(s, x, t)
    ensures BatchesFlushed(r + [x], t)
  {
    if t.broken {
      assert Answered(t) <= |r| + 1;
    } else if x.event.isLast {
      BatchEndFlushes(r, x, s, t);
    } else {
      MidBatchBuffers(r, x, s, t);
    }
  }

  lemma BatchEndFlushes(r: seq<Input>, x: Input, s: State, t: State)
    requires s.read == |r| && !s.stopped && InOrder(r, s)
    requires Answers(s, x, t) && !t.broken && x.event.isLast
    ensures BatchesFlushed(r + [x], t)
  {
    var r' := r + [x];
    assert r[..|r|] == r && r'[..|r'|] == r';
    assert Answered(s) == |r| && Answered(t) == |r'|;
    assert BatchEnd(r') == |r'|;
    RepliesSnoc(r, x);
    assert r'[|r'|..|r'|] == [];
  }

  lemma MidBatchBuffers(r: seq<Input>, x: Input, s: State, t: State)
    requires s.read == |r| && !s.stopped && BatchesFlushed(r, s)
    requires Answers(s, x, t) && !t.broken && !x.event.isLast
    ensures BatchesFlushed(r + [x], t)
  {
    var r' := r + [x];
    assert r[..|r|] == r && r'[..|r'|] == r';
    assert Answered(s) == |r| && Answered(t) == |r'|;
    var b := BatchEnd(r);
    assert BatchEnd(r') == b by {
      assert r'[..|r'| - 1] == r;
    }
    assert r'[..b] == r[..b];
    assert r'[b..|r'|] == r[b..|r|] + [x];
    RepliesSnoc(r[b..|r|], x);
  }

  lemma RepliesSnoc(q: seq<Input>, x: Input)
    requires !x.event.ReadFailure?
    ensures Replies(q + [x]) == Replies(q) + [ReplyTo(x)]
  {
    assert (q + [x])[..|q|] == q;
  }

  lemma AnswerKeepsInv(r: seq<Input>, x: Input, s: State)
    requires Inv(r, s) && !s.stopped && !x.event.ReadFailure?
    ensures Inv(r + [x], Step(s, x))
  {
    StepIsAnswer(s, x);
    var t := Step(s, x);
    AnswerKeepsOrder(r, x, s, t);
    AnswerKeepsFaults(r, x, s, t);
    AnswerKeepsBatches(r, x, s, t);
  }

  lemma {:induction false} ServeConsistent(ins: seq<Input>)
    ensures Consistent(ins, Serve(ins))
    decreases |ins|
  {
    if ins == [] {
      assert ins[..0] == [];
    } else {
      var p := ins[..|ins| - 1];
      var x := ins[|ins| - 1];
      assert ins == p + [x];
      ServeConsistent(p);
      StepKeepsConsistent(p, x, Serve(p));
    }
  }

  /** Every step keeps the state consistent with the inputs offered so far. */
  lemma StepKeepsConsistent(p: seq<Input>, x: Input, s: State)
    requires Consistent(p, s)
    ensures Consistent(p + [x], Step(s, x))
  {
    var ins := p + [x];
    if s.stopped {
      assert ins[..s.read] == p[..s.read];
    } else {
      assert p[..s.read] == p;
      if x.event.ReadFailure? {
        ReadFailureKeepsInv(p, x, s);
      } else {
        AnswerKeepsInv(p, x, s);
      }
      assert ins[..|ins|] == ins;
    }
  }

  /** Offering one more input is one more step. */
  lemma ServeSnoc(a: seq<Input>, x: Input)
    ensures Serve(a + [x]) == Step(Serve(a), x)
  {
    assert (a + [x])[..|a|] == a;
  }

  /** Reading input i after the first i is one more step. */
  lemma ServePrefixStep(ins: seq<Input>, i: nat)
    requires i < |ins|
    ensures Serve(ins[..i + 1]) == Step(Serve(ins[..i]), ins[i])
  {
    assert ins[..i + 1] == ins[..i] + [ins[i]];
    ServeSnoc(ins[..i], ins[i]);
  }

  /** Replies lists one reply per input, each at the input's own position,
      when no input is a read failure. */
  lemma {:induction false} RepliesAt(r: seq<Input>)
    requires forall j :: 0 <= j < |r| ==> !r[j].event.ReadFailure?
    ensures |Replies(r)| == |r|
    ensures forall j :: 0 <= j < |r| ==> Replies(r)[j] == ReplyTo(r[j])
    decreases |r|
  {
    if r != [] {
      var p := r[..|r| - 1];
      assert forall j :: 0 <= j < |p| ==> p[j] == r[j];
      RepliesAt(p);
      assert Replies(r) == Replies(p) + [ReplyTo(r[|p|])];
      forall j | 0 <= j < |r|
        ensures Replies(r)[j] == ReplyTo(r[j])
      {
        if j < |p| {
          assert Replies(r)[j] == Replies(p)[j];
        }
      }
    }
  }

  lemma ConsistentInOrder(ins: seq<Input>, s: State)
    requires Consistent(ins, s)
    ensures var k := Answered(s);
            k <= s.read <= |ins| && s.read <= k + 1 && |Written(s)| == k &&
            forall j :: 0 <= j < k ==> !ins[j].event.ReadFailure? && Written(s)[j] == ReplyTo(ins[j])
  {
    var r := ins[..s.read];
    var k := Answered(s);
    assert InOrder(r, s);
    assert r[..k] == ins[..k];
    assert forall j :: 0 <= j < k ==> r[j] == ins[j];
    RepliesAt(ins[..k]);
  }

  /** The loop writes exactly one reply per input it answers, in the order the
      inputs were read, and every input before the last one read is answered. */
  lemma OneReplyPerInputInOrder(ins: seq<Input>)
    ensures var s := Serve(ins);
            var k := Answered(s);
            k <= s.read <= |ins| && s.read <= k + 1 && |Written(s)| == k &&
            forall j :: 0 <= j < k ==> !ins[j].event.ReadFailure? && Written(s)[j] == ReplyTo(ins[j])
  {
    ServeConsistent(ins);
    ConsistentInOrder(ins, Serve(ins));
  }

  lemma ConsistentStops(ins: seq<Input>, s: State)
    requires Consistent(ins, s)
    ensures (s.stopped ==> (0 < s.read &&
               (ins[s.read - 1].event.ReadFailure? || FaultBefore(ins, s.read)))) &&
            (!s.stopped ==> s.read == |ins|) &&
            (s.broken <==> FaultBefore(ins, s.read))
  {
    var r := ins[..s.read];
    assert StopReason(r, s) && FaultsRecorded(r, s);
    assert forall j :: 0 <= j < s.read ==> r[j] == ins[j];
    if s.broken {
      var j :| 0 <= j < |r| && WriterFault(r[j]);
      assert WriterFault(ins[j]);
    }
  }

  /** The loop ends only on a read failure or after the writer failed; it
      reads every input otherwise; and the writer holds an error exactly when
      some earlier write or flush failed. */
  lemma StopsOnlyOnFailure(ins: seq<Input>)
    ensures var s := Serve(ins);
            (s.stopped ==> (0 < s.read &&
               (ins[s.read - 1].event.ReadFailure? || FaultBefore(ins, s.read)))) &&
            (!s.stopped ==> s.read == |ins|) &&
            (s.broken <==> FaultBefore(ins, s.read))
  {
    // One conjunct per assertion: proving all three from one context is
    // more than the solver manages within its resource bound.
    var s := Serve(ins);
    assert s.stopped ==> (0 < s.read &&
             (ins[s.read - 1].event.ReadFailure? || FaultBefore(ins, s.read))) by {
      ServeConsistent(ins);
      ConsistentStops(ins, s);
    }
    assert s.broken <==> FaultBefore(ins, s.read) by {
      ServeConsistent(ins);
      ConsistentStops(ins, s);
    }
  }

  /** With no read failure and no failed write or flush, the loop reads every
      input and every reply reaches the writer: an unsupported verb, a GET that
      meets shutdown or a protocol error never ends the session. */
  lemma ServesAllWithoutFailure(ins: seq<Input>)
    requires forall j :: 0 <= j < |ins| ==> !ins[j].event.ReadFailure? && !WriterFault(ins[j])
    ensures var s := Serve(ins);
            !s.stopped && !s.broken && s.read == |ins| && Written(s) == Replies(ins)
  {
    var s := Serve(ins);
    ServeConsistent(ins);
    ConsistentStops(ins, s);
    assert !s.stopped && s.read == |ins|;
    assert InOrder(ins[..|ins|], s);
    assert ins[..|ins|] == ins;
  }

  lemma ConsistentBatches(ins: seq<Input>, s: State)
    requires Consistent(ins, s)
    ensures var k := Answered(s);
            var b := BatchEnd(ins[..k]);
            k <= |ins| &&
            (!s.broken ==> s.flushed == Replies(ins[..b]) && s.pending == Replies(ins[b..k]))
  {
    var k := Answered(s);
    var r := ins[..s.read];
    assert BatchesFlushed(r, s);
    assert r[..k] == ins[..k];
    var b := BatchEnd(ins[..k]);
    assert r[..b] == ins[..b] && r[b..k] == ins[b..k];
  }

  /** Flushing is lazy: while the writer is healthy, the flushed replies are
      exactly those of the inputs up to the last one that ended a batch, and
      the replies after it stay pending. */
  lemma FlushOnlyAtBatchEnd(ins: seq<Input>)
    ensures var s := Serve(ins);
            var k := Answered(s);
            var b := BatchEnd(ins[..k]);
            k <= |ins| &&
            (!s.broken ==> s.flushed == Replies(ins[..b]) && s.pending == Replies(ins[b..k]))
  {
    ServeConsistent(ins);
    ConsistentBatches(ins, Serve(ins));
  }

  /** Once the loop has ended, later inputs are not read and change nothing. */
  lemma {:induction false} StopIsFinal(a: seq<Input>, b: seq<Input>)
    requires Serve(a).stopped
    ensures Serve(a + b) == Serve(a)
    decreases |b|
  {
    if b == [] {
      assert a + b == a;
    } else {
      var b' := b[..|b| - 1];
      assert (a + b)[..|a + b| - 1] == a + b';
      StopIsFinal(a, b');
    }
  }

  /** A read failure ends the loop at once: no reply, no flush. */
  lemma ReadFailureEndsAtOnce(a: seq<Input>, x: Input)
    requires !Serve(a).stopped && x.event.ReadFailure?
    ensures Serve(a + [x]) == Serve(a).(stopped := true, read := |a| + 1)
  {
    ServeSnoc(a, x);
  }

  /** A failed write ends the loop: that input gets no reply, nothing is
      flushed, and no later input is read. */
  lemma WriteFailureEndsLoop(a: seq<Input>, x: Input, b: seq<Input>)
    requires !Serve(a).stopped && !x.event.ReadFailure? && !x.io.writeOk
    ensures Serve(a + [x] + b) == Serve(a).(broken := true, stopped := true, read := |a| + 1)
  {
    ServeSnoc(a, x);
    StopIsFinal(a + [x], b);
  }

  lemma StepAnswers(s: State, x: Input)
    requires !s.stopped && !s.broken && !x.event.ReadFailure? && !WriterFault(x)
    ensures var t := Step(s, x);
            !t.stopped && !t.broken && t.read == s.read + 1 && Written(t) == Written(s) + [ReplyTo(x)]
  {
    var w := Write(s, ReplyTo(x), x.io.writeOk);
    assert !w.broken && Written(w) == Written(s) + [ReplyTo(x)];
  }

  /** The one input answered after a healthy state: a write that succeeds
      (and a flush that succeeds, when the input ends a batch) appends exactly
      its reply and the loop goes on, whatever the reply is: an error for a
      protocol error or an unsupported verb does not end the session. */
  lemma AnswerContinues(a: seq<Input>, x: Input)
    requires !Serve(a).stopped && !Serve(a).broken && !x.event.ReadFailure? && !WriterFault(x)
    ensures var s, t := Serve(a), Serve(a + [x]);
            !t.stopped && !t.broken && t.read == |a| + 1 && Written(t) == Written(s) + [ReplyTo(x)]
  {
    ServeSnoc(a, x);
    StepAnswers(Serve(a), x);
  }

  /** The flush's own error is not checked: a failed flush leaves the loop
      running with the error held by the writer, and the next reply's write
      then fails and ends the loop. */
  lemma FailedFlushEndsAtNextWrite(a: seq<Input>, x: Input, y: Input)
    requires !Serve(a).stopped && !Serve(a).broken
    requires !x.event.ReadFailure? && x.io.writeOk && x.event.isLast && !x.io.flushOk
    requires !y.event.ReadFailure?
    ensures var s, t := Serve(a), Serve(a + [x]);
            !t.stopped && t.broken && Written(t) == Written(s) + [ReplyTo(x)] &&
            s.flushed <= t.flushed && |t.flushed| == |s.flushed| + Min(x.io.flushSent, |s.pending| + 1)
    ensures var t, u := Serve(a + [x]), Serve(a + [x, y]);
            u.stopped && Written(u) == Written(t) && u.flushed == t.flushed
  {
    var s, t, u := Serve(a), Serve(a + [x]), Serve(a + [x, y]);
    assert t == Step(s, x) by {
      ServeSnoc(a, x);
    }
    FailedFlushStep(s, x);
    assert u == Step(t, y) by {
      assert a + [x, y] == (a + [x]) + [y];
      ServeSnoc(a + [x], y);
    }
    BrokenWriterStops(t, y);
  }

  /** A write into a writer that holds an error fails and ends the loop. */
  lemma BrokenWriterStops(t: State, y: Input)
    requires !t.stopped && t.broken && !y.event.ReadFailure?
    ensures var u := Step(t, y);
            u.stopped && Written(u) == Written(t) && u.flushed == t.flushed
  {
  }

  /** The state change behind FailedFlushEndsAtNextWrite's first half. */
  lemma FailedFlushStep(s: State, x: Input)
    requires !s.stopped && !s.broken
    requires !x.event.ReadFailure? && x.io.writeOk && x.event.isLast && !x.io.flushOk
    ensures var t := Step(s, x);
            !t.stopped && t.broken && Written(t) == Written(s) + [ReplyTo(x)] &&
            s.flushed <= t.flushed && |t.flushed| == |s.flushed| + Min(x.io.flushSent, |s.pending| + 1)
  {
    var w := Write(s, ReplyTo(x), true);
    assert w.pending == s.pending + [ReplyTo(x)] && w.flushed == s.flushed;
  }

  /** The GET select is the only place the wait is consulted. */
  predicate IsGet(inp: Input) {
    inp.event.Command? && MatchesVerb(Verb(inp.event.args), "GET")
  }

  /** Two input sequences that differ only in what waits would yield for
      inputs other than GET commands lead to the same state: no other command
      touches the consumer. */
  lemma {:induction false} WaitOnlyMattersForGet(a: seq<Input>, b: seq<Input>)
    requires |a| == |b|
    requires forall j :: 0 <= j < |a| ==>
               a[j].event == b[j].event && a[j].io.writeOk == b[j].io.writeOk &&
               a[j].io.flushOk == b[j].io.flushOk && a[j].io.flushSent == b[j].io.flushSent &&
               (IsGet(a[j]) ==> a[j].io.wait == b[j].io.wait)
    ensures Serve(a) == Serve(b)
    decreases |a|
  {
    if a != [] {
      var n := |a| - 1;
      WaitOnlyMattersForGet(a[..n], b[..n]);
      var x, y := a[n], b[n];
      if x.event.Command? && !IsGet(x) {
        assert ReplyTo(x) == ReplyTo(y);
      }
    }
  }
}
