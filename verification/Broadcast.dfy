/** Sending one envelope to the members of a room: a snapshot of the sessions, then one send after the other. */
module Broadcast {
  import opened Session

  function Repeat<T>(x: T, n: nat): (s: seq<T>)
    ensures |s| == n && forall i :: 0 <= i < n ==> s[i] == x
  {
    if n == 0 then [] else Repeat(x, n - 1) + [x]
  }

  /** The users other than the excluded one whose membership is through the session. */
  ghost function Through<S>(members: map<int, S>, excluded: int, session: S): set<int> {
    set user | user in members && user != excluded && members[user] == session
  }

  /** How many copies of a broadcast a session gets. */
  ghost function Copies<S>(members: map<int, S>, excluded: int, session: S): nat {
    |Through(members, excluded, session)|
  }

  /** When no two users share a session, each member's session gets one copy, and the excluded user's none. */
  lemma ExactlyOnce<S>(members: map<int, S>, excluded: int, user: int)
    requires forall u, v :: u in members && v in members && members[u] == members[v] ==> u == v
    requires user in members
    ensures Copies(members, excluded, members[user]) == if user == excluded then 0 else 1
  {
    assert Through(members, excluded, members[user]) == if user == excluded then {} else {user};
  }

  lemma NoCopyOutside<S>(members: map<int, S>, excluded: int, to: S)
    requires to !in members.Values
    ensures Copies(members, excluded, to) == 0
  {
    assert Through(members, excluded, to) == {};
  }

  method PickAny<T>(s: set<T>) returns (x: T)
    requires s != {}
    ensures x in s
  {
    x :| x in s;
  }

  /** Taking one user off the list of those still to do. */
  lemma OneLessToDo<S>(members: map<int, S>, excluded: int, todo: set<int>, user: int, session: S)
    requires todo <= members.Keys && user in todo
    ensures |Through(members, excluded, session) - (todo - {user})|
         == |Through(members, excluded, session) - todo| + if user != excluded && members[user] == session then 1 else 0
  {
    var through := Through(members, excluded, session);
    if user in through {
      assert through - (todo - {user}) == (through - todo) + {user};
    } else {
      assert through - (todo - {user}) == through - todo;
    }
  }

  /** The recipients collected so far are the sessions of the users done, once for each user. */
  ghost predicate Collected<S>(members: map<int, S>, excluded: int, todo: set<int>, recipients: seq<S>) {
    && todo <= members.Keys
    && (forall s :: s in members.Values ==> multiset(recipients)[s] == |Through(members, excluded, s) - todo|)
    && (forall s :: s in recipients ==> s in members.Values)
  }

  lemma CollectedNone<S>(members: map<int, S>, excluded: int)
    ensures Collected(members, excluded, members.Keys, [])
  {
    forall s | s in members.Values ensures |Through(members, excluded, s) - members.Keys| == 0 {
      assert Through(members, excluded, s) - members.Keys == {};
    }
  }

  lemma CollectedOneMore<S>(members: map<int, S>, excluded: int, todo: set<int>, recipients: seq<S>, user: int)
    requires Collected(members, excluded, todo, recipients) && user in todo
    ensures Collected(members, excluded, todo - {user},
                      if user != excluded then recipients + [members[user]] else recipients)
  {
    var more := if user != excluded then recipients + [members[user]] else recipients;
    forall s | s in members.Values
      ensures multiset(more)[s] == |Through(members, excluded, s) - (todo - {user})|
    {
      OneLessToDo(members, excluded, todo, user, s);
    }
  }

  lemma CollectedAll<S>(members: map<int, S>, excluded: int, recipients: seq<S>)
    requires Collected(members, excluded, {}, recipients)
    ensures forall s :: s in members.Values ==> multiset(recipients)[s] == Copies(members, excluded, s)
  {
    forall s | s in members.Values ensures multiset(recipients)[s] == Copies(members, excluded, s) {
      assert Through(members, excluded, s) - {} == Through(members, excluded, s);
    }
  }

  /** The recipients, whatever the iteration order of the member map. */
  method Snapshot<S(==)>(members: map<int, S>, excluded: int) returns (recipients: seq<S>)
    ensures forall s :: s in members.Values ==> multiset(recipients)[s] == Copies(members, excluded, s)
    ensures forall s :: s in recipients ==> s in members.Values
  {
    recipients := [];
    var todo := members.Keys;
    CollectedNone(members, excluded);
    while todo != {}
      invariant Collected(members, excluded, todo, recipients)
      decreases |todo|
    {
      var user := PickAny(todo);
      CollectedOneMore(members, excluded, todo, recipients, user);
      if user != excluded {
        recipients := recipients + [members[user]];
      }
      todo := todo - {user};
    }
    CollectedAll(members, excluded, recipients);
  }

  lemma OneMoreCopy<S>(recipients: seq<S>, i: nat, s: S, envelope: Envelope)
    requires i < |recipients|
    ensures Repeat(envelope, multiset(recipients[..i + 1])[s])
         == Repeat(envelope, multiset(recipients[..i])[s]) + (if recipients[i] == s then [envelope] else [])
  {
    assert recipients[..i + 1] == recipients[..i] + [recipients[i]];
  }

  method Deliver(recipients: seq<Session>, envelope: Envelope)
    modifies recipients`outbox
    ensures forall s :: s in recipients ==>
              s.outbox == old(s.outbox) + Repeat(envelope, multiset(recipients)[s])
  {
    for i := 0 to |recipients|
      invariant forall s :: s in recipients ==>
                  s.outbox == old(s.outbox) + Repeat(envelope, multiset(recipients[..i])[s])
    {
      forall s | s in recipients
        ensures Repeat(envelope, multiset(recipients[..i + 1])[s])
             == Repeat(envelope, multiset(recipients[..i])[s]) + (if recipients[i] == s then [envelope] else [])
      {
        OneMoreCopy(recipients, i, s, envelope);
      }
      recipients[i].Send(envelope);
    }
    assert recipients[..|recipients|] == recipients;
  }
}
