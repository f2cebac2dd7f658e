/**
 One direction of a connection, end to end: sends post tasks, the tasks fill the write queue, the
 socket carries bytes in pieces of any size, and the reader at the other end consumes them.
 */
module Transport {
  import opened Framing
  import FrameReader
  import WriteQueue

  datatype System<E> = System(
    posted: seq<E>,                 // sent, but the posted task has not run
    enqueued: seq<E>,               // all messages whose task has run, in order
    writer: WriteQueue.Writer,
    wire: seq<Byte>,                // all bytes the sender's socket has taken
    arrived: nat,                   // how many of them the reader has been fed
    reader: FrameReader.Reader<E>,
    readFailed: bool
  )

  function Initial<E>(): System<E> {
    System([], [], WriteQueue.IDLE, [], 0, FrameReader.Start([]), false)
  }

  datatype Step<E> =
    | Send(e: E)            // some thread calls send
    | RunTask               // the executor runs the oldest posted task
    | Accept(k: nat)        // the socket takes k bytes of the write in flight
    | WriteDone             // the write in flight completes
    | WriteError            // the write in flight fails
    | Arrive(k: nat)        // the reader is fed the next k bytes
    | ReadError             // a read fails and is not retried

  /** Which steps are possible. */
  predicate Enabled<E>(s: System<E>, step: Step<E>) {
    match step
    case Send(_) => true
    case RunTask => s.posted != []
    case Accept(k) => s.writer.inFlight && s.writer.queue != [] && s.writer.sent + k <= |s.writer.queue[0]|
    case WriteDone => s.writer.inFlight && s.writer.queue != [] && s.writer.sent == |s.writer.queue[0]|
    case WriteError => s.writer.inFlight && s.writer.queue != []
    case Arrive(k) => !s.readFailed && s.arrived + k <= |s.wire|
    case ReadError => true
  }

  /** The effect of a step; one that is not possible leaves everything as it is. */
  function Next<E(!new)>(codec: Codec<E>, s: System<E>, step: Step<E>): System<E> {
    if !Enabled(s, step) then s else
    match step
    case Send(e) => s.(posted := s.posted + [e])
    case RunTask =>
      var e := s.posted[0];
      s.(posted := s.posted[1..], enqueued := s.enqueued + [e],
         writer := WriteQueue.Push(s.writer, Frame(codec.serialize(e))))
    case Accept(k) =>
      var taken := s.writer.queue[0][s.writer.sent..s.writer.sent + k];
      s.(wire := s.wire + taken, writer := WriteQueue.Accept(s.writer, k))
    case WriteDone => s.(writer := WriteQueue.Complete(s.writer, true))
    case WriteError => s.(writer := WriteQueue.Complete(s.writer, false))
    case Arrive(k) =>
      s.(arrived := s.arrived + k,
         reader := FrameReader.Feed(codec, s.reader, s.wire[s.arrived..s.arrived + k]))
    case ReadError => s.(readFailed := true)
  }

  function Run<E(!new)>(codec: Codec<E>, s: System<E>, steps: seq<Step<E>>): System<E>
    decreases |steps|
  {
    if steps == [] then s else Run(codec, Next(codec, s, steps[0]), steps[1..])
  }

  /** The messages of a run's sends. */
  function Sent<E>(steps: seq<Step<E>>): seq<E> {
    if steps == [] then []
    else (if steps[0].Send? then [steps[0].e] else []) + Sent(steps[1..])
  }

  /** The bytes on the wire and the unsent ones are the frames of all messages enqueued so far. */
  ghost predicate BytesKept<E(!new)>(codec: Codec<E>, wire: seq<Byte>, writer: WriteQueue.Writer, enqueued: seq<E>) {
    WriteQueue.WellFormed(writer) && wire + WriteQueue.Unsent(writer) == Frames(codec.Bodies(enqueued))
  }

  /** The reader has been fed the first bytes of the wire. */
  ghost predicate ReaderFollows<E(!new)>(codec: Codec<E>, s: System<E>) {
    s.arrived <= |s.wire| && s.reader == FrameReader.Feed(codec, FrameReader.Start([]), s.wire[..s.arrived])
  }

  /** What every step keeps. */
  ghost predicate Inv<E(!new)>(codec: Codec<E>, s: System<E>) {
    BytesKept(codec, s.wire, s.writer, s.enqueued) && ReaderFollows(codec, s)
  }

  lemma {:induction false} FramesAppend<E(!new)>(codec: Codec<E>, es: seq<E>, e: E)
    ensures Frames(codec.Bodies(es + [e])) == Frames(codec.Bodies(es)) + Frame(codec.serialize(e))
    decreases |es|
  {
    if es == [] {
      assert codec.Bodies(es + [e]) == [codec.serialize(e)];
      assert codec.Bodies(es + [e])[1..] == [];
    } else {
      FramesAppend(codec, es[1..], e);
      assert (es + [e])[1..] == es[1..] + [e];
      assert codec.Bodies(es + [e])[1..] == codec.Bodies(es[1..] + [e]);
      assert codec.Bodies(es)[1..] == codec.Bodies(es[1..]);
    }
  }

  lemma EnqueueKeepsBytes<E(!new)>(codec: Codec<E>, wire: seq<Byte>, writer: WriteQueue.Writer, enqueued: seq<E>, e: E)
    requires BytesKept(codec, wire, writer, enqueued)
    ensures BytesKept(codec, wire, WriteQueue.Push(writer, Frame(codec.serialize(e))), enqueued + [e])
  {
    var frame, unsent := Frame(codec.serialize(e)), WriteQueue.Unsent(writer);
    FramesAppend(codec, enqueued, e);
    WriteQueue.PushKeeps(writer, frame);
    calc {
      wire + WriteQueue.Unsent(WriteQueue.Push(writer, frame));
      wire + (unsent + frame);
      (wire + unsent) + frame;
      Frames(codec.Bodies(enqueued)) + frame;
    }
  }

  lemma AcceptKeepsBytes<E(!new)>(codec: Codec<E>, wire: seq<Byte>, writer: WriteQueue.Writer, enqueued: seq<E>, k: nat)
    requires BytesKept(codec, wire, writer, enqueued)
    requires writer.inFlight && writer.sent + k <= |writer.queue[0]|
    ensures BytesKept(codec, wire + writer.queue[0][writer.sent..writer.sent + k], WriteQueue.Accept(writer, k), enqueued)
  {
    var taken := writer.queue[0][writer.sent..writer.sent + k];
    WriteQueue.AcceptKeeps(writer, k);
    var left := WriteQueue.Unsent(WriteQueue.Accept(writer, k));
    assert wire + (taken + left) == (wire + taken) + left;
  }

  lemma ArriveKeepsReader<E(!new)>(codec: Codec<E>, s: System<E>, k: nat)
    requires ReaderFollows(codec, s) && Enabled(s, Arrive(k))
    ensures ReaderFollows(codec, Next(codec, s, Arrive(k)))
  {
    var before, now := s.wire[..s.arrived], s.wire[s.arrived..s.arrived + k];
    FrameReader.FeedSplit(codec, FrameReader.Start([]), before, now);
    assert before + now == s.wire[..s.arrived + k];
  }

  lemma RunTaskKeepsBytes<E(!new)>(codec: Codec<E>, s: System<E>)
    requires BytesKept(codec, s.wire, s.writer, s.enqueued)
    ensures var t := Next(codec, s, RunTask); BytesKept(codec, t.wire, t.writer, t.enqueued)
  {
    if s.posted != [] {
      EnqueueKeepsBytes(codec, s.wire, s.writer, s.enqueued, s.posted[0]);
    }
  }

  lemma AcceptStepKeepsBytes<E(!new)>(codec: Codec<E>, s: System<E>, k: nat)
    requires BytesKept(codec, s.wire, s.writer, s.enqueued)
    ensures var t := Next(codec, s, Accept(k)); BytesKept(codec, t.wire, t.writer, t.enqueued)
  {
    if Enabled(s, Step<E>.Accept(k)) {
      AcceptKeepsBytes(codec, s.wire, s.writer, s.enqueued, k);
    }
  }

  lemma DoneKeepsBytes<E(!new)>(codec: Codec<E>, s: System<E>)
    requires BytesKept(codec, s.wire, s.writer, s.enqueued)
    ensures var t := Next(codec, s, WriteDone); BytesKept(codec, t.wire, t.writer, t.enqueued)
  {
    if Enabled(s, Step<E>.WriteDone) {
      WriteQueue.CompleteKeeps(s.writer);
    }
  }

  lemma ErrorKeepsBytes<E(!new)>(codec: Codec<E>, s: System<E>)
    requires BytesKept(codec, s.wire, s.writer, s.enqueued)
    ensures var t := Next(codec, s, WriteError); BytesKept(codec, t.wire, t.writer, t.enqueued)
  {
    if Enabled(s, Step<E>.WriteError) {
      ErrorKeepsUnsent(s.writer);
    }
  }

  lemma NextKeepsBytes<E(!new)>(codec: Codec<E>, s: System<E>, step: Step<E>)
    requires BytesKept(codec, s.wire, s.writer, s.enqueued)
    ensures var t := Next(codec, s, step); BytesKept(codec, t.wire, t.writer, t.enqueued)
  {
    if step.RunTask? {
      RunTaskKeepsBytes(codec, s);
    } else if step.Accept? {
      AcceptStepKeepsBytes(codec, s, step.k);
    } else if step.WriteDone? {
      DoneKeepsBytes(codec, s);
    } else if step.WriteError? {
      ErrorKeepsBytes(codec, s);
    } else {
      var t := Next(codec, s, step);
      assert t.wire == s.wire && t.writer == s.writer && t.enqueued == s.enqueued;
    }
  }

  lemma ErrorKeepsUnsent(w: WriteQueue.Writer)
    requires WriteQueue.WellFormed(w) && w.inFlight
    ensures var v := WriteQueue.Complete(w, false);
            WriteQueue.WellFormed(v) && WriteQueue.Unsent(v) == WriteQueue.Unsent(w)
  {
  }

  lemma NextKeepsReader<E(!new)>(codec: Codec<E>, s: System<E>, step: Step<E>)
    requires ReaderFollows(codec, s)
    ensures ReaderFollows(codec, Next(codec, s, step))
  {
    if step.Arrive? && Enabled(s, step) {
      ArriveKeepsReader(codec, s, step.k);
    }
    if step.Accept? && Enabled(s, step) {
      assert Next(codec, s, step).wire[..s.arrived] == s.wire[..s.arrived];
    }
  }

  lemma NextKeepsInv<E(!new)>(codec: Codec<E>, s: System<E>, step: Step<E>)
    requires Inv(codec, s)
    ensures Inv(codec, Next(codec, s, step))
  {
    NextKeepsBytes(codec, s, step);
    NextKeepsReader(codec, s, step);
  }

  lemma {:induction false} RunKeepsInv<E(!new)>(codec: Codec<E>, s: System<E>, steps: seq<Step<E>>)
    requires Inv(codec, s)
    ensures Inv(codec, Run(codec, s, steps))
    decreases |steps|
  {
    if steps != [] {
      NextKeepsInv(codec, s, steps[0]);
      RunKeepsInv(codec, Next(codec, s, steps[0]), steps[1..]);
    }
  }

  /** What was sent is what is posted or enqueued, in the order of the sends. */
  lemma {:induction false} SentIsKept<E(!new)>(codec: Codec<E>, s: System<E>, steps: seq<Step<E>>)
    ensures var t := Run(codec, s, steps);
            t.enqueued + t.posted == s.enqueued + s.posted + Sent(steps)
    decreases |steps|
  {
    if steps != [] {
      var t := Next(codec, s, steps[0]);
      var now := if steps[0].Send? then [steps[0].e] else [];
      assert t.enqueued + t.posted == s.enqueued + s.posted + now;
      SentIsKept(codec, t, steps[1..]);
      assert s.enqueued + s.posted + now + Sent(steps[1..]) == s.enqueued + s.posted + (now + Sent(steps[1..]));
    }
  }

  /** Every reachable state satisfies the invariant and has kept all that was sent. */
  lemma Reachable<E(!new)>(codec: Codec<E>, steps: seq<Step<E>>)
    ensures var t := Run(codec, Initial(), steps);
            Inv(codec, t) && t.enqueued + t.posted == Sent(steps)
  {
    assert WriteQueue.Unsent(WriteQueue.IDLE) == [];
    RunKeepsInv(codec, Initial(), steps);
    SentIsKept(codec, Initial(), steps);
  }

  /**
   End-to-end FIFO delivery. After any run, the delivered messages are exactly the leading sent
   messages whose whole frame has been fed to the reader, up to the first unacceptable length, and
   the reader has stopped if and only if the header of that one has arrived.
   */
  lemma Delivery<E(!new)>(codec: Codec<E>, steps: seq<Step<E>>)
    requires codec.Faithful()
    ensures var t := Run(codec, Initial(), steps);
            && t.enqueued <= Sent(steps)
            && t.reader.delivered == t.enqueued[..Arrived(codec, t.enqueued, t.arrived)]
            && t.reader.delivered <= Sent(steps)
            && (t.reader.phase.Stopped? <==> BadHeaderArrived(codec, t.enqueued, t.arrived))
  {
    var t := Run(codec, Initial(), steps);
    Reachable(codec, steps);
    assert t.enqueued + t.posted == Sent(steps);
    var bytes := t.wire[..t.arrived];
    assert bytes == Frames(codec.Bodies(t.enqueued))[..t.arrived];
    FrameReader.FeedIsDecode(codec, [], bytes);
    DecodeCut(codec, t.enqueued, t.arrived);
  }

  /** An unacceptable message is never delivered and nothing behind it is either. */
  lemma SilencedBehind<E(!new)>(codec: Codec<E>, steps: seq<Step<E>>, i: nat)
    requires codec.Faithful()
    requires i < |Sent(steps)| && !Acceptable(|codec.serialize(Sent(steps)[i])|)
    ensures Run(codec, Initial(), steps).reader.delivered <= Sent(steps)[..i]
  {
    var t := Run(codec, Initial(), steps);
    Delivery(codec, steps);
    if i < |t.enqueued| {
      ArrivedBefore(codec, t.enqueued, t.arrived, i);
    }
  }

  lemma {:induction false} ArrivedBefore<E(!new)>(codec: Codec<E>, es: seq<E>, n: nat, i: nat)
    requires i < |es| && !Acceptable(|codec.serialize(es[i])|)
    ensures Arrived(codec, es, n) <= i
    decreases i
  {
    var size := |codec.serialize(es[0])|;
    if i > 0 && Acceptable(size) && HEADER_LENGTH + size <= n {
      ArrivedBefore(codec, es[1..], n - HEADER_LENGTH - size, i - 1);
    }
  }

  /** How many of the messages come before the first one of an unacceptable length. */
  function Deliverable<E(!new)>(codec: Codec<E>, es: seq<E>): (k: nat)
    ensures k <= |es|
    ensures forall i :: 0 <= i < k ==> 0 < |codec.serialize(es[i])| < 8192
    ensures k < |es| ==> |codec.serialize(es[k])| == 0 || |codec.serialize(es[k])| >= 8192
  {
    if es == [] || !Acceptable(|codec.serialize(es[0])|) then 0 else 1 + Deliverable(codec, es[1..])
  }

  /** All that is deliverable has arrived once all bytes have. */
  lemma {:induction false} ArrivedAll<E(!new)>(codec: Codec<E>, es: seq<E>)
    ensures Arrived(codec, es, |Frames(codec.Bodies(es))|) == Deliverable(codec, es)
    decreases |es|
  {
    if es != [] {
      ArrivedAll(codec, es[1..]);
      assert codec.Bodies(es)[1..] == codec.Bodies(es[1..]);
      assert |Frames(codec.Bodies(es))| == |Frame(codec.serialize(es[0]))| + |Frames(codec.Bodies(es[1..]))|;
    }
  }

  /** Nothing is left to move. */
  predicate Settled<E>(s: System<E>) {
    s.posted == [] && s.writer.queue == [] && s.arrived == |s.wire|
  }

  /** A connection with nothing left to move has delivered everything before the first unacceptable message. */
  lemma Completeness<E(!new)>(codec: Codec<E>, steps: seq<Step<E>>)
    requires codec.Faithful()
    ensures var t := Run(codec, Initial(), steps);
            Settled(t) ==> t.reader.delivered == Sent(steps)[..Deliverable(codec, Sent(steps))]
  {
    var t := Run(codec, Initial(), steps);
    Reachable(codec, steps);
    assert t.enqueued + t.posted == Sent(steps);
    if Settled(t) {
      Delivery(codec, steps);
      assert t.wire + [] == t.wire;
      assert t.enqueued == Sent(steps);
      ArrivedAll(codec, t.enqueued);
    }
  }

  /** Before an error, a non-empty queue can always move: its write is in flight. It can also fail at any moment. */
  lemma NoStall<E(!new)>(codec: Codec<E>, s: System<E>)
    requires Inv(codec, s) && !s.writer.failed && s.writer.queue != []
    ensures Enabled(s, Accept(|s.writer.queue[0]| - s.writer.sent))
    ensures s.writer.sent < |s.writer.queue[0]| || Enabled(s, WriteDone)
    ensures Next(codec, s, WriteError) == s.(writer := s.writer.(inFlight := false, failed := true))
  {
  }

  // ----- everything sent can be delivered -----

  /** No error has happened. */
  predicate Sound<E>(s: System<E>) {
    !s.writer.failed && !s.readFailed
  }

  /** The socket takes all that is left of the write in flight. */
  function RestOfFront<E(!new)>(s: System<E>): Step<E>
    requires s.writer.queue != [] && s.writer.sent <= |s.writer.queue[0]|
  {
    Accept(|s.writer.queue[0]| - s.writer.sent)
  }

  lemma FrontWritten<E(!new)>(codec: Codec<E>, s: System<E>)
    requires Inv(codec, s) && Sound(s) && s.writer.queue != []
    ensures var t := Next(codec, Next(codec, s, RestOfFront(s)), WriteDone);
            Inv(codec, t) && Sound(t) && t.posted == s.posted && t.writer.queue == s.writer.queue[1..]
  {
    NextKeepsInv(codec, s, RestOfFront(s));
    NextKeepsInv(codec, Next(codec, s, RestOfFront(s)), WriteDone);
  }

  /** Steps that run the posted tasks, then complete the writes, then let the reader have all bytes. */
  ghost function Drain<E(!new)>(codec: Codec<E>, s: System<E>): (steps: seq<Step<E>>)
    requires Inv(codec, s) && Sound(s)
    decreases |s.posted|, |s.writer.queue|
  {
    if s.posted != [] then
      NextKeepsInv(codec, s, RunTask);
      [RunTask] + Drain(codec, Next(codec, s, RunTask))
    else if s.writer.queue != [] then
      FrontWritten(codec, s);
      [RestOfFront(s)] + ([WriteDone] + Drain(codec, Next(codec, Next(codec, s, RestOfFront(s)), WriteDone)))
    else [Arrive(|s.wire| - s.arrived)]
  }

  /** Neither a send nor an error. */
  predicate Smooth<E>(steps: seq<Step<E>>) {
    forall i :: 0 <= i < |steps| ==> !steps[i].Send? && !steps[i].WriteError? && !steps[i].ReadError?
  }

  lemma RunFirst<E(!new)>(codec: Codec<E>, s: System<E>, step: Step<E>, steps: seq<Step<E>>)
    ensures Run(codec, s, [step] + steps) == Run(codec, Next(codec, s, step), steps)
  {
    assert ([step] + steps)[1..] == steps;
  }

  /** The steps settle the system smoothly. */
  ghost predicate Settles<E(!new)>(codec: Codec<E>, s: System<E>, steps: seq<Step<E>>) {
    Smooth(steps) && Settled(Run(codec, s, steps))
  }

  lemma SettlesFirst<E(!new)>(codec: Codec<E>, s: System<E>, step: Step<E>, steps: seq<Step<E>>)
    requires !step.Send? && !step.WriteError? && !step.ReadError? && Settles(codec, Next(codec, s, step), steps)
    ensures Settles(codec, s, [step] + steps)
  {
    RunFirst(codec, s, step, steps);
  }

  lemma ArriveSettles<E(!new)>(codec: Codec<E>, s: System<E>)
    requires Inv(codec, s) && Sound(s) && s.posted == [] && s.writer.queue == []
    ensures Settles(codec, s, [Arrive(|s.wire| - s.arrived)])
  {
    var step := Arrive(|s.wire| - s.arrived);
    SettlesFirst(codec, s, step, []);
    assert [step] + [] == [step];
  }

  lemma {:induction false} DrainSettles<E(!new)>(codec: Codec<E>, s: System<E>)
    requires Inv(codec, s) && Sound(s)
    ensures Settles(codec, s, Drain(codec, s))
    decreases |s.posted|, |s.writer.queue|
  {
    if s.posted != [] {
      var t := Next(codec, s, RunTask);
      NextKeepsInv(codec, s, RunTask);
      DrainSettles(codec, t);
      SettlesFirst(codec, s, RunTask, Drain(codec, t));
    } else if s.writer.queue != [] {
      var taken := Next(codec, s, RestOfFront(s));
      var t := Next(codec, taken, WriteDone);
      FrontWritten(codec, s);
      DrainSettles(codec, t);
      SettlesFirst(codec, taken, WriteDone, Drain(codec, t));
      SettlesFirst(codec, s, RestOfFront(s), [WriteDone] + Drain(codec, t));
    } else {
      ArriveSettles(codec, s);
    }
  }

  /** What a run sends is, in order, what its send steps are given. */
  lemma {:induction false} SentAppends<E>(a: seq<Step<E>>, b: seq<Step<E>>)
    ensures Sent(a + b) == Sent(a) + Sent(b)
    decreases |a|
  {
    if a == [] {
      assert a + b == b;
    } else {
      SentAppends(a[1..], b);
      assert (a + b)[1..] == a[1..] + b;
    }
  }

  lemma SentByOne<E>(step: Step<E>)
    ensures Sent([step]) == match step case Send(e) => [e] case _ => []
  {
    assert [step][1..] == [];
  }

  lemma {:induction false} SmoothSendsNothing<E>(steps: seq<Step<E>>)
    requires Smooth(steps)
    ensures Sent(steps) == []
    decreases |steps|
  {
    if steps != [] {
      SmoothSendsNothing(steps[1..]);
    }
  }

  predicate NoError<E>(steps: seq<Step<E>>) {
    forall i :: 0 <= i < |steps| ==> !steps[i].WriteError? && !steps[i].ReadError?
  }

  lemma {:induction false} StaysSound<E(!new)>(codec: Codec<E>, s: System<E>, steps: seq<Step<E>>)
    requires Sound(s) && NoError(steps)
    ensures Sound(Run(codec, s, steps))
    decreases |steps|
  {
    if steps != [] {
      StaysSound(codec, Next(codec, s, steps[0]), steps[1..]);
    }
  }

  lemma {:induction false} RunSplit<E(!new)>(codec: Codec<E>, s: System<E>, a: seq<Step<E>>, b: seq<Step<E>>)
    ensures Run(codec, s, a + b) == Run(codec, Run(codec, s, a), b)
    decreases |a|
  {
    if a == [] {
      assert a + b == b;
    } else {
      RunSplit(codec, Next(codec, s, a[0]), a[1..], b);
      assert (a + b)[1..] == a[1..] + b;
    }
  }

  /**
   Whatever has happened but an error, the connection can go on, without another send, until everything sent
   before the first unacceptable message is delivered; if there is none, that is everything sent.
   */
  lemma Deliverability<E(!new)>(codec: Codec<E>, steps: seq<Step<E>>)
    requires codec.Faithful() && NoError(steps)
    ensures exists more :: Smooth(more)
              && Run(codec, Initial(), steps + more).reader.delivered == Sent(steps)[..Deliverable(codec, Sent(steps))]
    ensures (forall e :: e in Sent(steps) ==> 0 < |codec.serialize(e)| < 8192) ==>
              Deliverable(codec, Sent(steps)) == |Sent(steps)|
  {
    var s := Run(codec, Initial(), steps);
    Reachable(codec, steps);
    StaysSound(codec, Initial(), steps);
    var more := Drain(codec, s);
    DrainSettles(codec, s);
    RunSplit(codec, Initial(), steps, more);
    SentAppends(steps, more);
    SmoothSendsNothing(more);
    Completeness(codec, steps + more);
    assert Sent(steps + more) == Sent(steps);
  }

  /** After a read error nothing more is delivered, whatever arrives. */
  lemma DeafAfterReadError<E(!new)>(codec: Codec<E>, s: System<E>, steps: seq<Step<E>>)
    ensures var t := Run(codec, Next(codec, s, ReadError), steps);
            t.readFailed && t.reader == s.reader
  {
    ReadFailedStays(codec, Next(codec, s, ReadError), steps);
  }

  lemma {:induction false} ReadFailedStays<E(!new)>(codec: Codec<E>, s: System<E>, steps: seq<Step<E>>)
    requires s.readFailed
    ensures var t := Run(codec, s, steps); t.readFailed && t.reader == s.reader
    decreases |steps|
  {
    if steps != [] {
      ReadFailedStays(codec, Next(codec, s, steps[0]), steps[1..]);
    }
  }

  /** After a write error no byte goes on the wire again and no queued frame leaves the queue, whatever is sent. */
  lemma {:induction false} DeadAfterWriteError<E(!new)>(codec: Codec<E>, s: System<E>, steps: seq<Step<E>>)
    requires Inv(codec, s) && s.writer.failed
    ensures var t := Run(codec, s, steps);
            t.wire == s.wire && t.writer.failed && !t.writer.inFlight && s.writer.queue <= t.writer.queue
    decreases |steps|
  {
    if steps != [] {
      NextKeepsInv(codec, s, steps[0]);
      DeadAfterWriteError(codec, Next(codec, s, steps[0]), steps[1..]);
    }
  }
}
