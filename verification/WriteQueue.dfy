/**
 The writing half of a connection: frames queue up and are written one at a time, the next
 one when the previous write has completed.
 */
module WriteQueue {
  import opened Framing

  /** The queue, and how much of its front the socket has taken if a write is in flight. */
  datatype Writer = Writer(queue: seq<seq<Byte>>, inFlight: bool, sent: nat, failed: bool)

  const IDLE := Writer([], false, 0, false)

  function Push(w: Writer, frame: seq<Byte>): Writer {
    var starts := w.queue == [];
    Writer(w.queue + [frame], w.inFlight || starts, if starts then 0 else w.sent, w.failed)
  }

  /** The socket takes k more bytes of the front. */
  function Accept(w: Writer, k: nat): Writer {
    w.(sent := w.sent + k)
  }

  /** The outstanding write has completed, without or with an error. */
  function Complete(w: Writer, ok: bool): Writer
    requires w.queue != []
  {
    if ok then Writer(w.queue[1..], |w.queue| > 1, 0, w.failed) else w.(inFlight := false, failed := true)
  }

  /** A write is in flight exactly when there is something to write and no write has failed. */
  predicate WellFormed(w: Writer) {
    && (w.inFlight <==> w.queue != [] && !w.failed)
    && (w.failed ==> w.queue != [])
    && (w.queue != [] ==> w.sent <= |w.queue[0]|)
  }

  /** What the queue still has to put on the wire. */
  function Unsent(w: Writer): seq<Byte>
    requires WellFormed(w)
  {
    if w.queue == [] then [] else w.queue[0][w.sent..] + Concat(w.queue[1..])
  }

  lemma {:induction false} ConcatAppend(frames: seq<seq<Byte>>, frame: seq<Byte>)
    ensures Concat(frames + [frame]) == Concat(frames) + frame
  {
    if frames == [] {
      assert (frames + [frame])[1..] == [];
    } else {
      ConcatAppend(frames[1..], frame);
      assert (frames + [frame])[1..] == frames[1..] + [frame];
    }
  }

  /**
   Pushing adds exactly the frame behind everything unsent; it starts a write if and only if none is in flight
   and none has failed.
   */
  lemma PushKeeps(w: Writer, frame: seq<Byte>)
    requires WellFormed(w)
    ensures WellFormed(Push(w, frame)) && Unsent(Push(w, frame)) == Unsent(w) + frame
    ensures Push(w, frame).inFlight && !w.inFlight <==> !w.inFlight && !w.failed
  {
    var after := Push(w, frame);
    if w.queue == [] {
      assert after.queue == [frame] && frame[0..] == frame;
      assert Concat(after.queue[1..]) == [];
    } else {
      ConcatAppend(w.queue[1..], frame);
      assert after.queue[1..] == w.queue[1..] + [frame];
    }
  }

  /** What the socket takes is the head of what was unsent. */
  lemma AcceptKeeps(w: Writer, k: nat)
    requires WellFormed(w) && w.inFlight && w.sent + k <= |w.queue[0]|
    ensures WellFormed(Accept(w, k))
    ensures w.queue[0][w.sent..w.sent + k] + Unsent(Accept(w, k)) == Unsent(w)
  {
  }

  /** A successful write completes when its whole frame is taken; nothing unsent is lost. */
  lemma CompleteKeeps(w: Writer)
    requires WellFormed(w) && w.inFlight && w.sent == |w.queue[0]|
    ensures WellFormed(Complete(w, true)) && Unsent(Complete(w, true)) == Unsent(w)
  {
    if |w.queue| > 1 {
      assert w.queue[1][0..] == w.queue[1];
    }
  }

  /** The object behind a connection; an asynchronous write is in flight between DoWrite and HandleWrite. */
  class WriteQueue {
    var writeQueue: seq<seq<Byte>>
    var inFlight: bool
    var sent: nat
    var failed: bool

    ghost function State(): Writer
      reads this
    {
      Writer(writeQueue, inFlight, sent, failed)
    }

    ghost predicate Valid()
      reads this
    {
      WellFormed(State())
    }

    constructor ()
      ensures Valid() && State() == IDLE
    {
      writeQueue, inFlight, sent, failed := [], false, 0, false;
    }

    /** The task that a send posts. */
    method Enqueue(frame: seq<Byte>)
      requires Valid()
      modifies this
      ensures Valid() && State() == Push(old(State()), frame)
    {
      var writeInProgress := writeQueue != [];
      writeQueue := writeQueue + [frame];
      if !writeInProgress {
        DoWrite();
      }
    }

    /** Starts writing the front; there is never a second write in flight. */
    method DoWrite()
      requires writeQueue != [] && !inFlight
      modifies this`inFlight, this`sent
      ensures inFlight && sent == 0
    {
      inFlight, sent := true, 0;
    }

    method HandleWrite(ok: bool)
      requires Valid() && inFlight
      requires ok ==> sent == |writeQueue[0]|
      modifies this
      ensures Valid() && State() == Complete(old(State()), ok)
    {
      inFlight := false;
      if ok {
        writeQueue, sent := writeQueue[1..], 0;
        if writeQueue != [] {
          DoWrite();
        }
      } else {
        failed := true;
      }
    }
  }
}
