/**
 The two indexes of authenticated sessions, by user id and by username. They are kept beside the
 identity that each session carries itself, and nothing in a login compares the two.
 */
module SessionIndex {
  import opened Wrappers

  datatype Identity = Identity(userId: int, username: string)

  datatype Directory<!S> = Directory(
    connected: set<S>,              // sessions that have not disconnected
    identity: map<S, Identity>,     // what the authenticated sessions carry, also after disconnecting
    byUserId: map<int, S>,
    byUsername: map<string, S>
  )

  datatype Op<+S> =
    | Connect(s: S)
    | Register(s: S, userId: int, username: string)   // a login with the right password
    | Rename(s: S, username: string)
    | Remove(s: S)

  /** The effect of a call; renaming is for authenticated sessions only. */
  function Next<S>(d: Directory<S>, op: Op<S>): Directory<S> {
    match op
    case Connect(s) => d.(connected := d.connected + {s})
    case Register(s, userId, username) =>
      d.(identity := d.identity[s := Identity(userId, username)],
         byUserId := d.byUserId[userId := s],
         byUsername := d.byUsername[username := s])
    case Rename(s, username) =>
      if s !in d.identity then d else
      d.(identity := d.identity[s := Identity(d.identity[s].userId, username)],
         byUsername := (d.byUsername - {d.identity[s].username})[username := s])
    case Remove(s) =>
      var open := d.connected - {s};
      if s !in d.identity then d.(connected := open) else
      d.(connected := open,
         byUserId := d.byUserId - {d.identity[s].userId},
         byUsername := d.byUsername - {d.identity[s].username})
  }

  /** A login leaves the session with that identity, and findable under both parts of it; nothing else changes. */
  lemma RegisterEffect<S>(d: Directory<S>, s: S, userId: int, username: string)
    ensures var e := Next(d, Register(s, userId, username));
            && s in e.identity && e.identity[s].userId == userId && e.identity[s].username == username
            && FindByUserId(e, userId) == Some(s) && FindByUsername(e, username) == Some(s)
            && e.connected == d.connected && e.identity.Keys == d.identity.Keys + {s}
            && (forall q :: q in d.identity && q != s ==> e.identity[q] == d.identity[q])
            && (forall id :: id != userId ==> FindByUserId(e, id) == FindByUserId(d, id))
            && (forall name :: name != username ==> FindByUsername(e, name) == FindByUsername(d, name))
  {
  }

  /** A rename leaves the session with the new name and findable under it, and nobody under the old one; nothing else changes. */
  lemma RenameEffect<S>(d: Directory<S>, s: S, username: string)
    requires s in d.identity
    ensures var e, before := Next(d, Rename(s, username)), d.identity[s].username;
            && s in e.identity && e.identity[s].userId == d.identity[s].userId && e.identity[s].username == username
            && FindByUsername(e, username) == Some(s)
            && (before != username ==> FindByUsername(e, before).None?)
            && e.connected == d.connected && e.identity.Keys == d.identity.Keys && e.byUserId == d.byUserId
            && (forall q :: q in d.identity && q != s ==> e.identity[q] == d.identity[q])
            && (forall name :: name != username && name != before ==> FindByUsername(e, name) == FindByUsername(d, name))
  {
  }

  /** After a removal nobody is found under the session's identity, which the session keeps; nothing else changes. */
  lemma RemoveEffect<S>(d: Directory<S>, s: S)
    requires s in d.identity
    ensures var e, id := Next(d, Remove(s)), d.identity[s];
            && FindByUserId(e, id.userId).None? && FindByUsername(e, id.username).None?
            && s !in e.connected && e.connected + {s} == d.connected + {s} && e.identity == d.identity
            && (forall userId :: userId != id.userId ==> FindByUserId(e, userId) == FindByUserId(d, userId))
            && (forall name :: name != id.username ==> FindByUsername(e, name) == FindByUsername(d, name))
  {
  }

  function Run<S>(d: Directory<S>, ops: seq<Op<S>>): Directory<S>
    decreases |ops|
  {
    if ops == [] then d else
    var n := |ops| - 1;
    Next(Run(d, ops[..n]), ops[n])
  }

  function Empty<S>(): Directory<S> {
    Directory({}, map[], map[], map[])
  }

  function FindByUserId<S>(d: Directory<S>, userId: int): Option<S> {
    if userId in d.byUserId then Some(d.byUserId[userId]) else None
  }

  function FindByUsername<S>(d: Directory<S>, username: string): Option<S> {
    if username in d.byUsername then Some(d.byUsername[username]) else None
  }

  /** The session is connected and authenticated under the identity. */
  predicate Live<S>(d: Directory<S>, s: S) {
    s in d.connected && s in d.identity
  }

  /** Each index holds exactly the live sessions, each under its own field. */
  ghost predicate Agrees<S>(d: Directory<S>) {
    && (forall userId :: userId in d.byUserId ==>
          Live(d, d.byUserId[userId]) && d.identity[d.byUserId[userId]].userId == userId)
    && (forall username :: username in d.byUsername ==>
          Live(d, d.byUsername[username]) && d.identity[d.byUsername[username]].username == username)
    && (forall s :: s in d.connected && s in d.identity ==>
          && FindByUserId(d, d.identity[s].userId) == Some(s)
          && FindByUsername(d, d.identity[s].username) == Some(s))
  }

  /** Finding in an index is the same as scanning all live sessions for the field, and there is at most one. */
  lemma FindIsScan<S>(d: Directory<S>, s: S, userId: int, username: string)
    requires Agrees(d)
    ensures FindByUserId(d, userId) == Some(s) <==> Live(d, s) && d.identity[s].userId == userId
    ensures FindByUsername(d, username) == Some(s) <==> Live(d, s) && d.identity[s].username == username
    ensures FindByUserId(d, userId).None? <==> !exists q :: q in d.connected && Live(d, q) && d.identity[q].userId == userId
    ensures FindByUsername(d, username).None? <==> !exists q :: q in d.connected && Live(d, q) && d.identity[q].username == username
  {
  }

  /** Going through the sessions, the indexes are inverse bijections between user ids and usernames. */
  lemma InverseBijections<S>(d: Directory<S>, userId: int, username: string)
    requires Agrees(d)
    ensures userId in d.byUserId ==>
              var name := d.identity[d.byUserId[userId]].username;
              name in d.byUsername && d.identity[d.byUsername[name]].userId == userId
    ensures username in d.byUsername ==>
              var id := d.identity[d.byUsername[username]].userId;
              id in d.byUserId && d.identity[d.byUserId[id]].username == username
  {
  }

  /** What a caller can check before the call. Note that no caller checks it before a login. */
  ghost predicate Guard<S>(d: Directory<S>, op: Op<S>) {
    match op
    case Connect(s) => s in d.connected || s !in d.identity
    case Register(s, userId, username) =>
      && s in d.connected
      && if s in d.identity then d.identity[s] == Identity(userId, username)
         else userId !in d.byUserId && username !in d.byUsername
    case Rename(s, username) =>
      s !in d.identity || (s in d.connected && (username in d.byUsername ==> d.byUsername[username] == s))
    case Remove(s) =>
      || s in d.connected || s !in d.identity
      || (d.identity[s].userId !in d.byUserId && d.identity[s].username !in d.byUsername)
  }

  lemma RegisterSuffices<S>(d: Directory<S>, s: S, userId: int, username: string)
    requires Agrees(d) && Guard(d, Register(s, userId, username))
    ensures Agrees(Next(d, Register(s, userId, username)))
  {
    var e := Next(d, Register(s, userId, username));
    forall id | id in e.byUserId
      ensures Live(e, e.byUserId[id]) && e.identity[e.byUserId[id]].userId == id
    {
    }
    forall name | name in e.byUsername
      ensures Live(e, e.byUsername[name]) && e.identity[e.byUsername[name]].username == name
    {
    }
  }

  lemma RenameSuffices<S>(d: Directory<S>, s: S, username: string)
    requires Agrees(d) && Guard(d, Rename(s, username))
    ensures Agrees(Next(d, Rename(s, username)))
  {
    var e := Next(d, Rename(s, username));
    forall id | id in e.byUserId
      ensures Live(e, e.byUserId[id]) && e.identity[e.byUserId[id]].userId == id
    {
    }
  }

  lemma RemoveSuffices<S>(d: Directory<S>, s: S)
    requires Agrees(d) && Guard(d, Remove(s))
    ensures Agrees(Next(d, Remove(s)))
  {
  }

  lemma GuardSuffices<S>(d: Directory<S>, op: Op<S>)
    requires Agrees(d) && Guard(d, op)
    ensures Agrees(Next(d, op))
  {
    match op {
      case Connect(s) =>
      case Register(s, userId, username) => RegisterSuffices(d, s, userId, username);
      case Rename(s, username) => RenameSuffices(d, s, username);
      case Remove(s) => RemoveSuffices(d, s);
    }
  }

  lemma GuardNeeded<S>(d: Directory<S>, op: Op<S>)
    requires Agrees(d) && Agrees(Next(d, op))
    ensures Guard(d, op)
  {
    var e := Next(d, op);
    if op.Rename? && op.s in d.identity {
      assert e.byUsername[op.username] == op.s;
    }
    if op.Register? {
      assert e.byUserId[op.userId] == op.s;
      if Live(d, op.s) {
        assert d.identity[op.s].userId in e.byUserId && d.identity[op.s].username in e.byUsername;
      }
    }
  }

  /** Every call of the run meets its guard. */
  ghost predicate Guarded<S>(ops: seq<Op<S>>) {
    forall i :: 0 <= i < |ops| ==> Guard(Run(Empty(), ops[..i]), ops[i])
  }

  lemma RunMore<S>(d: Directory<S>, ops: seq<Op<S>>, op: Op<S>)
    ensures Run(d, ops + [op]) == Next(Run(d, ops), op)
  {
    assert (ops + [op])[..|ops|] == ops;
  }

  lemma {:induction false} GuardedAgrees<S>(ops: seq<Op<S>>)
    requires Guarded(ops)
    ensures Agrees(Run(Empty(), ops))
    decreases |ops|
  {
    if ops != [] {
      var n := |ops| - 1;
      forall i | 0 <= i < n ensures Guard(Run(Empty(), ops[..n][..i]), ops[..n][i]) {
        assert ops[..n][..i] == ops[..i];
      }
      GuardedAgrees(ops[..n]);
      GuardSuffices(Run(Empty(), ops[..n]), ops[n]);
    }
  }

  lemma AgreeingIsGuarded<S>(ops: seq<Op<S>>, i: nat)
    requires i < |ops| && Agrees(Run(Empty(), ops[..i])) && Agrees(Run(Empty(), ops[..i + 1]))
    ensures Guard(Run(Empty(), ops[..i]), ops[i])
  {
    assert ops[..i + 1] == ops[..i] + [ops[i]];
    RunMore(Empty(), ops[..i], ops[i]);
    GuardNeeded(Run(Empty(), ops[..i]), ops[i]);
  }

  lemma GuardedPrefix<S>(ops: seq<Op<S>>, i: nat)
    requires i <= |ops| && Guarded(ops)
    ensures Agrees(Run(Empty(), ops[..i]))
  {
    forall j | 0 <= j < i ensures Guard(Run(Empty(), ops[..i][..j]), ops[..i][j]) {
      assert ops[..i][..j] == ops[..j];
    }
    GuardedAgrees(ops[..i]);
  }

  /** The indexes agree with the sessions at every moment of a run if and only if every call meets its guard. */
  lemma AgreesThroughoutIff<S>(ops: seq<Op<S>>)
    ensures (forall i :: 0 <= i <= |ops| ==> Agrees(Run(Empty(), ops[..i]))) <==> Guarded(ops)
  {
    if Guarded(ops) {
      forall i | 0 <= i <= |ops| ensures Agrees(Run(Empty(), ops[..i])) {
        GuardedPrefix(ops, i);
      }
    } else if forall i :: 0 <= i <= |ops| ==> Agrees(Run(Empty(), ops[..i])) {
      forall i | 0 <= i < |ops| ensures Guard(Run(Empty(), ops[..i]), ops[i]) {
        assert Agrees(Run(Empty(), ops[..i])) && Agrees(Run(Empty(), ops[..i + 1]));
        AgreeingIsGuarded(ops, i);
      }
    }
  }

  /**
   Two logins of one user from two sessions, then the first session disconnects: the second one
   is connected and authenticated, and neither index finds it.
   */
  lemma SecondLoginUnreachable<S>(first: S, second: S)
    requires first != second
    ensures var d := Run(Empty(), [Connect(first), Connect(second)] + [Register(first, 1, "a")]
                                + [Register(second, 1, "a")] + [Remove(first)]);
            && Live(d, second) && d.identity[second] == Identity(1, "a")
            && FindByUserId(d, 1).None? && FindByUsername(d, "a").None?
  {
    var ops := [Connect(first)];
    RunMore(Empty(), [], Connect(first));
    assert [] + [Connect(first)] == ops;
    RunMore(Empty(), ops, Connect(second));
    assert ops + [Connect(second)] == [Connect(first), Connect(second)];
    ops := [Connect(first), Connect(second)];
    RunMore(Empty(), ops, Register(first, 1, "a"));
    RunMore(Empty(), ops + [Register(first, 1, "a")], Register(second, 1, "a"));
    RunMore(Empty(), ops + [Register(first, 1, "a")] + [Register(second, 1, "a")], Remove(first));
  }

  /** A session that logs in as another user and disconnects stays behind in the indexes as the first one. */
  lemma StaleAfterRelogin<S>(s: S)
    ensures var d := Run(Empty(), [Connect(s)] + [Register(s, 1, "a")] + [Register(s, 2, "b")] + [Remove(s)]);
            d.connected == {} && FindByUserId(d, 1) == Some(s) && FindByUsername(d, "a") == Some(s)
  {
    RunMore(Empty(), [], Connect(s));
    assert [] + [Connect(s)] == [Connect(s)];
    RunMore(Empty(), [Connect(s)], Register(s, 1, "a"));
    RunMore(Empty(), [Connect(s)] + [Register(s, 1, "a")], Register(s, 2, "b"));
    RunMore(Empty(), [Connect(s)] + [Register(s, 1, "a")] + [Register(s, 2, "b")], Remove(s));
  }
}
