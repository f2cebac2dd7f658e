/**
 The database connection pool as a monitor: one mutex, one condition variable. A returned connection
 is announced after the mutex is released, any thread may take it first, waits may end spuriously, and
 a broken connection is replaced by a task that may fail.
 */
module PoolProtocol {
  type Connection = nat
  type Thread = nat

  datatype Pool = Pool(
    idle: seq<Connection>,          // taken from and put back at the end
    held: map<Connection, bool>,    // owned by a wrapper, which may have marked it invalid (false)
    retired: set<Connection>,       // closed for good
    next: Connection,               // the next connection to be opened
    waiting: set<Thread>,           // blocked on the condition variable
    awakened: set<Thread>,          // woken, not yet back in the mutex
    notifies: nat,                  // connections put back, notify_one not yet called
    replenishing: nat,              // replacement tasks posted, not yet run
    lost: nat                       // replacement tasks that have failed
  )

  datatype Step =
    | Get(t: Thread)                // a thread enters getConnection
    | Recheck(t: Thread)            // a woken thread tests the predicate again
    | Spurious(t: Thread)           // a wait ends by itself
    | MarkInvalid(c: Connection)
    | Release(c: Connection)        // the wrapper of the connection is destroyed
    | Replenish(succeeds: bool)     // a replacement task runs
    | Notify(t: Thread)             // notify_one; if anybody waits, t is who is woken

  /** The n connections that init opens. */
  function Opened(n: nat): seq<Connection> {
    seq(n, i => i)
  }

  function Initial(size: nat): Pool {
    Pool(Opened(size), map[], {}, size, {}, {}, 0, 0, 0)
  }

  /** A thread with the mutex tests the predicate: it takes the last idle connection, or waits. */
  function TakeOrWait(p: Pool, t: Thread): Pool {
    if p.idle == [] then p.(waiting := p.waiting + {t}) else
    var last := |p.idle| - 1;
    p.(idle := p.idle[..last], held := p.held[p.idle[last] := true])
  }

  /** A connection is put back and will be announced. */
  function PutBack(p: Pool, c: Connection): Pool {
    p.(idle := p.idle + [c], notifies := p.notifies + 1)
  }

  predicate Enabled(p: Pool, step: Step) {
    match step
    case Get(t) => t !in p.waiting && t !in p.awakened
    case Recheck(t) => t in p.awakened
    case Spurious(t) => t in p.waiting
    case MarkInvalid(c) => c in p.held
    case Release(c) => c in p.held
    case Replenish(_) => p.replenishing > 0
    case Notify(t) => p.notifies > 0 && (p.waiting == {} || t in p.waiting)
  }

  /** The effect of a step; one that is not possible changes nothing. */
  function Next(p: Pool, step: Step): Pool {
    if !Enabled(p, step) then p else
    match step
    case Get(t) => TakeOrWait(p, t)
    case Recheck(t) => TakeOrWait(p.(awakened := p.awakened - {t}), t)
    case Spurious(t) => p.(waiting := p.waiting - {t}, awakened := p.awakened + {t})
    case MarkInvalid(c) => p.(held := p.held[c := false])
    case Release(c) =>
      var rest := p.(held := p.held - {c});
      if p.held[c] then PutBack(rest, c)
      else rest.(retired := p.retired + {c}, replenishing := p.replenishing + 1)
    case Replenish(succeeds) =>
      var rest := p.(replenishing := p.replenishing - 1, next := p.next + 1);
      if succeeds then PutBack(rest, p.next) else rest.(lost := p.lost + 1)
    case Notify(t) =>
      var rest := p.(notifies := p.notifies - 1);
      if p.waiting == {} then rest else rest.(waiting := p.waiting - {t}, awakened := p.awakened + {t})
  }

  function Run(p: Pool, steps: seq<Step>): Pool
    decreases |steps|
  {
    if steps == [] then p else Run(Next(p, steps[0]), steps[1..])
  }

  // ----- what every step keeps -----

  predicate Distinct(s: seq<Connection>) {
    forall i, j :: 0 <= i < j < |s| ==> s[i] != s[j]
  }

  /** Every connection ever opened is idle once, or in one wrapper, or closed, and never two of these. */
  ghost predicate OneOwner(p: Pool) {
    && Distinct(p.idle)
    && (forall c :: c in p.idle ==> c !in p.held && c !in p.retired && c < p.next)
    && (forall c :: c in p.held ==> c !in p.retired && c < p.next)
    && (forall c :: c in p.retired ==> c < p.next)
  }

  /** Nothing is lost but by a failed replacement. */
  predicate Conserved(p: Pool, size: nat) {
    |p.idle| + |p.held| + p.replenishing + p.lost == size
  }

  /** While a thread is blocked, each idle connection has a notify to come or a woken thread to take it. */
  predicate NoLostWakeup(p: Pool) {
    p.waiting != {} ==> |p.idle| <= p.notifies + |p.awakened|
  }

  ghost predicate Inv(p: Pool, size: nat) {
    OneOwner(p) && Conserved(p, size) && NoLostWakeup(p) && p.waiting !! p.awakened
  }

  lemma TakeKeepsOwners(p: Pool, t: Thread)
    requires OneOwner(p)
    ensures OneOwner(TakeOrWait(p, t))
    ensures var q := TakeOrWait(p, t); |q.idle| + |q.held| == |p.idle| + |p.held|
  {
    if p.idle != [] {
      var last := |p.idle| - 1;
      assert p.idle[last] in p.idle;
      forall c | c in p.idle[..last] ensures c in p.idle && c != p.idle[last] {
      }
    }
  }

  lemma PutBackKeepsOwners(p: Pool, c: Connection)
    requires OneOwner(p) && c !in p.idle && c !in p.held && c !in p.retired && c < p.next
    ensures OneOwner(PutBack(p, c))
  {
  }

  lemma NextKeepsOwners(p: Pool, step: Step)
    requires OneOwner(p)
    ensures OneOwner(Next(p, step))
  {
    match step {
      case Get(t) => TakeKeepsOwners(p, t);
      case Recheck(t) => TakeKeepsOwners(p.(awakened := p.awakened - {t}), t);
      case Release(c) =>
        if c in p.held && p.held[c] {
          PutBackKeepsOwners(p.(held := p.held - {c}), c);
        }
      case Replenish(succeeds) =>
        if p.replenishing > 0 && succeeds {
          PutBackKeepsOwners(p.(replenishing := p.replenishing - 1, next := p.next + 1), p.next);
        }
      case _ =>
    }
  }

  lemma TestKeepsInv(p: Pool, size: nat, t: Thread)
    requires OneOwner(p) && Conserved(p, size) && p.waiting !! p.awakened && t !in p.awakened
    requires p.idle == [] || (p.waiting != {} ==> |p.idle| <= p.notifies + |p.awakened| + 1)
    ensures Inv(TakeOrWait(p, t), size)
  {
    TakeKeepsOwners(p, t);
  }

  lemma ReleaseKeepsInv(p: Pool, size: nat, c: Connection)
    requires Inv(p, size)
    ensures Inv(Next(p, Release(c)), size)
  {
    NextKeepsOwners(p, Release(c));
    if c in p.held {
      assert p.held.Keys == (p.held - {c}).Keys + {c};
    }
  }

  lemma RecheckKeepsInv(p: Pool, size: nat, t: Thread)
    requires Inv(p, size)
    ensures Inv(Next(p, Recheck(t)), size)
  {
    if t in p.awakened {
      var q := p.(awakened := p.awakened - {t});
      assert |p.awakened| == |q.awakened| + 1;
      TestKeepsInv(q, size, t);
    }
  }

  lemma MarkKeepsInv(p: Pool, size: nat, c: Connection)
    requires Inv(p, size)
    ensures Inv(Next(p, MarkInvalid(c)), size)
  {
    NextKeepsOwners(p, MarkInvalid(c));
    assert c in p.held ==> p.held[c := false].Keys == p.held.Keys;
  }

  /** Waking a thread, by a notification or not, moves it from the blocked to the woken ones. */
  lemma WakeKeepsInv(p: Pool, size: nat, step: Step)
    requires Inv(p, size) && (step.Spurious? || step.Notify?)
    ensures Inv(Next(p, step), size)
  {
    NextKeepsOwners(p, step);
    if step.t in p.waiting {
      assert |p.awakened + {step.t}| == |p.awakened| + 1;
    }
  }

  lemma ReplenishKeepsInv(p: Pool, size: nat, succeeds: bool)
    requires Inv(p, size)
    ensures Inv(Next(p, Replenish(succeeds)), size)
  {
    NextKeepsOwners(p, Replenish(succeeds));
  }

  lemma NextKeepsInv(p: Pool, size: nat, step: Step)
    requires Inv(p, size)
    ensures Inv(Next(p, step), size)
  {
    match step {
      case Get(t) =>
        if Enabled(p, step) {
          TestKeepsInv(p, size, t);
        }
      case Recheck(t) => RecheckKeepsInv(p, size, t);
      case Spurious(t) => WakeKeepsInv(p, size, step);
      case MarkInvalid(c) => MarkKeepsInv(p, size, c);
      case Release(c) => ReleaseKeepsInv(p, size, c);
      case Replenish(succeeds) => ReplenishKeepsInv(p, size, succeeds);
      case Notify(t) => WakeKeepsInv(p, size, step);
    }
  }

  lemma InitialInv(size: nat)
    ensures Inv(Initial(size), size)
  {
  }

  /** Conservation, ownership and wake-ups hold in every reachable state. */
  lemma {:induction false} RunKeepsInv(p: Pool, size: nat, steps: seq<Step>)
    requires Inv(p, size)
    ensures Inv(Run(p, steps), size)
    decreases |steps|
  {
    if steps != [] {
      NextKeepsInv(p, size, steps[0]);
      RunKeepsInv(Next(p, steps[0]), size, steps[1..]);
    }
  }

  lemma Reachable(size: nat, steps: seq<Step>)
    ensures var p := Run(Initial(size), steps);
            && Inv(p, size)
            && |p.idle| + |p.held| + p.replenishing + p.lost == size
            && (forall i, j :: 0 <= i < j < |p.idle| ==> p.idle[i] != p.idle[j])
            && (forall c :: c in p.idle ==> c !in p.held && c !in p.retired)
            && (forall c :: c in p.held ==> c !in p.retired)
            && (p.waiting != {} ==> |p.idle| <= p.notifies + |p.awakened|)
  {
    InitialInv(size);
    RunKeepsInv(Initial(size), size, steps);
  }

  /** If a thread stays blocked while no wake-up is under way, the pool is empty: all connections are held, being replaced or lost. */
  lemma BlockedMeansEmpty(size: nat, steps: seq<Step>)
    ensures var p := Run(Initial(size), steps);
            p.waiting != {} && p.notifies == 0 && p.awakened == {} ==>
              p.idle == [] && |p.held| + p.replenishing + p.lost == size
  {
    Reachable(size, steps);
  }

  /** A blocked thread and an idle connection always get together: a wake-up is under way, and it hands the connection out. */
  lemma WakeupUnderWay(p: Pool, size: nat, t: Thread)
    requires Inv(p, size) && p.waiting != {} && p.idle != []
    ensures p.awakened != {} || p.notifies > 0
    ensures t in p.awakened ==> p.idle[|p.idle| - 1] in Next(p, Recheck(t)).held
    ensures p.awakened == {} && t in p.waiting ==> p.idle[|p.idle| - 1] in Next(Next(p, Notify(t)), Recheck(t)).held
  {
    if p.awakened == {} {
      assert |p.awakened| == 0;
    }
  }

  /** One notification wakes exactly one thread if any waits, and otherwise is spent. */
  lemma NotifyWakesOne(p: Pool, t: Thread)
    requires p.notifies > 0
    ensures t in p.waiting ==>
              Next(p, Notify(t)) ==
              p.(notifies := p.notifies - 1, waiting := p.waiting - {t}, awakened := p.awakened + {t})
    ensures p.waiting == {} ==> Next(p, Notify(t)) == p.(notifies := p.notifies - 1)
  {
  }

  /** A wait can end by itself, and a replacement can fail. */
  lemma SpuriousAndFailed(p: Pool, t: Thread)
    ensures t in p.waiting ==> Next(p, Spurious(t)) == p.(waiting := p.waiting - {t}, awakened := p.awakened + {t})
    ensures p.replenishing > 0 ==>
              Next(p, Replenish(false)) == p.(replenishing := p.replenishing - 1, next := p.next + 1, lost := p.lost + 1)
  {
  }

  /** A thread that comes along takes an idle connection, even ahead of the threads woken for it. */
  lemma BargingTakes(p: Pool, t: Thread)
    requires t !in p.waiting && t !in p.awakened && p.idle != []
    ensures var q, c := Next(p, Get(t)), p.idle[|p.idle| - 1];
            q.idle + [c] == p.idle && q.held == p.held[c := true] && q.waiting == p.waiting && q.awakened == p.awakened
  {
  }

  /** A connection given up valid is idle again and announced; a replacement that succeeds is, too. */
  lemma ComesBack(p: Pool, c: Connection)
    ensures c in p.held && p.held[c] ==>
              var q := Next(p, Release(c));
              q.idle == p.idle + [c] && q.held == p.held - {c} && q.notifies == p.notifies + 1 && q.retired == p.retired
    ensures p.replenishing > 0 ==>
              var q := Next(p, Replenish(true));
              && q.idle == p.idle + [p.next] && q.notifies == p.notifies + 1
              && q.replenishing == p.replenishing - 1 && q.lost == p.lost
  {
  }

  /** A wrapper has given the connection up, or a closed one. */
  ghost predicate Doomed(p: Pool, c: Connection) {
    (c in p.held && !p.held[c]) || c in p.retired
  }

  /** A connection once marked invalid is never idle again, so it is never handed out again. */
  lemma {:induction false} InvalidNeverReturns(p: Pool, c: Connection, steps: seq<Step>)
    requires OneOwner(p) && Doomed(p, c)
    ensures var q := Run(p, steps); Doomed(q, c) && c !in q.idle && (c in q.held ==> !q.held[c])
    decreases |steps|
  {
    if steps != [] {
      var q := Next(p, steps[0]);
      NextKeepsOwners(p, steps[0]);
      assert Doomed(q, c) by {
        if p.idle != [] {
          assert p.idle[|p.idle| - 1] in p.idle;
        }
      }
      InvalidNeverReturns(q, c, steps[1..]);
    }
  }

  lemma AllLost(p: Pool, size: nat)
    requires Inv(p, size) && p.lost == size
    ensures p.idle == [] && p.held == map[] && p.replenishing == 0
  {
    assert |p.held| == 0;
    assert p.held.Keys == {};
  }

  lemma NextLosesNoMore(p: Pool, step: Step)
    ensures p.lost <= Next(p, step).lost
  {
  }

  /** Failed replacements shrink the pool for good. */
  lemma {:induction false} LostForever(p: Pool, steps: seq<Step>)
    ensures p.lost <= Run(p, steps).lost
    decreases |steps|
  {
    if steps != [] {
      NextLosesNoMore(p, steps[0]);
      LostForever(Next(p, steps[0]), steps[1..]);
    }
  }

  /** When all replacements have failed, nobody gets a connection any more. */
  lemma Exhausted(p: Pool, size: nat, steps: seq<Step>)
    requires Inv(p, size) && p.lost == size
    ensures var q := Run(p, steps); q.idle == [] && q.held == map[] && q.lost == size
  {
    RunKeepsInv(p, size, steps);
    LostForever(p, steps);
    AllLost(Run(p, steps), size);
  }
}
