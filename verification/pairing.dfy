/**
 * Matching and teardown: `find_partner` and `end_chat` (random_connect.py lines 131-213).
 */
module Pairing {
  import opened Optional
  import opened Seqs
  import WaitQueue
  import opened Engine

  /** The notice queued for the waiting partner when a match is made (line 174). */
  function ConnectedNote(nickname: string): string {
    "🎉 Connected! You're now chatting with " + nickname + ". Use #R to send and #M to check messages."
  }

  /** The notice queued for the partner left behind (line 202). */
  const PartnerLeftNote := "Your partner left the chat. Use #meet to find a new one."

  datatype Outcome = Outcome(state: State, partner: Option<string>)

  /** `find_partner`: takes the caller out of the queue, then pairs them with the
      earliest live waiting user under a fresh session id, or queues them when nobody waits. */
  function FindPartner(s: State, u: string): (r: Outcome)
    ensures r.partner.Some? ==> r.partner.value != u && r.partner.value in s.waiting.members
    ensures r.partner.Some? ==>
      && r.state.pairs == s.pairs[u := r.partner.value][r.partner.value := u]
      && r.state.nextSession == s.nextSession + 1
      && u !in r.state.waiting.members && r.partner.value !in r.state.waiting.members
    ensures r.partner.None? ==>
      r.state == s.(waiting := r.state.waiting) && r.state.waiting.order == [u]
    ensures forall v :: r.partner.None? || v != r.partner.value ==>
      ListAt(r.state.notifications, v) == ListAt(s.notifications, v)
    ensures r.partner.Some? ==>
      ListAt(r.state.notifications, r.partner.value)
        == ListAt(s.notifications, r.partner.value) + [ConnectedNote(if u in s.users then s.users[u].nickname else "Partner")]
    ensures r.state.messages == s.messages && r.state.userOrder == s.userOrder && r.state.strictMode == s.strictMode
    ensures r.state.users.Keys == s.users.Keys
    ensures forall v :: v in s.users ==> SameProfile(r.state.users[v], s.users[v])
  {
    var q1 := WaitQueue.Remove(s.waiting, u);
    if |q1.order| == 0 then
      Outcome(s.(waiting := WaitQueue.Add(q1, u)), None)
    else
      var popped := WaitQueue.PopLive(q1);
      if popped.head.None? then
        Outcome(s.(waiting := WaitQueue.Add(popped.queue, u)), None)
      else
        var p := popped.head.value;
        var nick := if u in s.users then s.users[u].nickname else "Partner";
        Outcome(Pair(s, u, p, popped.queue, ConnectedNote(nick)), Some(p))
  }

  /** The match itself (lines 157-178): links `u` and `p` both ways under the next session
      id, records it in both profiles and queues the "Connected!" notice `note` for `p`. */
  function Pair(s: State, u: string, p: string, rest: WaitQueue.Queue, note: string): (r: State)
    ensures r.pairs == s.pairs[u := p][p := u] && r.waiting == rest
    ensures r.nextSession == s.nextSession + 1
    ensures r.notifications == s.notifications[p := ListAt(s.notifications, p) + [note]]
    ensures r.messages == s.messages && r.userOrder == s.userOrder && r.strictMode == s.strictMode
    ensures r.users.Keys == s.users.Keys
    ensures forall v :: v in s.users ==> SameProfile(r.users[v], s.users[v])
  {
    var sid := s.nextSession;
    var users2 := Relink(Relink(s.users, u, Some(p), Some(sid)), p, Some(u), Some(sid));
    s.(
      waiting := rest,
      pairs := s.pairs[u := p][p := u],
      users := users2,
      nextSession := sid + 1,
      notifications := s.notifications[p := ListAt(s.notifications, p) + [note]])
  }

  /** What `find_partner` does to a valid state for an unpaired caller with a profile:
      with nobody else waiting the caller is queued; otherwise the caller is paired with
      the earliest-enqueued other user, both profiles carry the new session id, neither
      stays queued, and the partner receives exactly one "Connected!" notice. */
  lemma FindPartnerSpec(s: State, u: string)
    requires Valid(s) && u in s.users && u !in s.pairs
    ensures var r := FindPartner(s, u);
      var others := Without(s.waiting.order, u);
      && (|others| == 0 ==> r.partner.None? && r.state == s.(waiting := WaitQueue.Queue([u], {u})))
      && (|others| > 0 ==>
        && r.partner == Some(others[0])
        && r.state.waiting.order == others[1..]
        && r.state.users[u].partner == Some(others[0])
        && r.state.users[others[0]].partner == Some(u)
        && r.state.users[u].session == r.state.users[others[0]].session == Some(s.nextSession)
        && r.state.notifications[others[0]]
             == ListAt(s.notifications, others[0]) + [ConnectedNote(s.users[u].nickname)])
  {
  }

  /** `end_chat`: for a paired user, removes both directions of the pair, clears both
      profiles' partner and session, and notifies the partner once; otherwise only takes
      the user out of the queue. The ender is never re-queued. */
  function EndChat(s: State, u: string): (r: Outcome)
    ensures r.partner == Lookup(s.pairs, u)
    ensures u !in r.state.pairs
    ensures r.partner.Some? ==>
      && r.state.pairs == s.pairs - {u, r.partner.value}
      && r.state.waiting == s.waiting
      && r.state.notifications == s.notifications[r.partner.value := ListAt(s.notifications, r.partner.value) + [PartnerLeftNote]]
    ensures r.partner.None? ==> r.state == s.(waiting := WaitQueue.Remove(s.waiting, u)) && u !in r.state.waiting.members
    ensures r.state.users.Keys == s.users.Keys
    ensures forall v :: v in s.users ==> SameProfile(r.state.users[v], s.users[v])
    ensures r.state.messages == s.messages && r.state.userOrder == s.userOrder && r.state.nextSession == s.nextSession
    ensures r.state.strictMode == s.strictMode
  {
    if u in s.pairs then
      var p := s.pairs[u];
      var users2 := Relink(Relink(s.users, u, None, None), p, None, None);
      Outcome(s.(
        pairs := s.pairs - {u, p},
        users := users2,
        notifications := s.notifications[p := ListAt(s.notifications, p) + [PartnerLeftNote]]), Some(p))
    else
      Outcome(s.(waiting := WaitQueue.Remove(s.waiting, u)), None)
  }

  /** `find_partner` gives a new session id (`uuid.uuid4()` at line 162) to the two users
      it pairs and changes no other profile's session. */
  lemma FindPartnerFresh(s: State, u: string)
    ensures SessionsFresh(s, FindPartner(s, u).state)
    ensures var r := FindPartner(s, u);
      forall v :: v in r.state.users && (v !in s.users || r.state.users[v].session != s.users[v].session)
        ==> r.partner.Some? && (v == u || v == r.partner.value)
  {
    var r := FindPartner(s, u);
    if r.partner.None? {
      assert r.state.users == s.users;
    } else {
      var q1 := WaitQueue.Remove(s.waiting, u);
      var popped := WaitQueue.PopLive(q1);
      var nick := if u in s.users then s.users[u].nickname else "Partner";
      assert r.state == Pair(s, u, r.partner.value, popped.queue, ConnectedNote(nick));
      PairFresh(s, u, r.partner.value, popped.queue, ConnectedNote(nick));
    }
  }

  /** `Pair` gives `u` and `p` the counter's current value and leaves every other session. */
  lemma PairFresh(s: State, u: string, p: string, rest: WaitQueue.Queue, note: string)
    ensures var r := Pair(s, u, p, rest, note);
      forall v :: v in r.users ==>
        if v == u || v == p then r.users[v].session == Some(s.nextSession) else r.users[v].session == s.users[v].session
  {
  }

  /** In a valid state the session id of a new pair is held by nobody before. */
  lemma FindPartnerNewSession(s: State, u: string)
    requires Valid(s) && u in s.users && u !in s.pairs
    ensures var r := FindPartner(s, u);
      r.partner.Some? ==> forall v :: v in s.users ==> s.users[v].session != r.state.users[u].session
  {
    FindPartnerSpec(s, u);
  }

  /** `end_chat` only clears sessions. */
  lemma EndChatFresh(s: State, u: string)
    ensures SessionsFresh(s, EndChat(s, u).state)
  {
    NoNewSessions(s, EndChat(s, u).state);
  }

  /** On a valid state `end_chat` unpairs both sides: afterwards neither has a partner or a session. */
  lemma EndChatUnpairsBoth(s: State, u: string)
    requires Valid(s) && u in s.pairs
    ensures var r := EndChat(s, u);
      var p := s.pairs[u];
      && r.partner == Some(p) && p != u
      && u !in r.state.pairs && p !in r.state.pairs
      && r.state.users[u].partner == None && r.state.users[u].session == None
      && r.state.users[p].partner == None && r.state.users[p].session == None
      && u !in r.state.waiting.members && p !in r.state.waiting.members
  {
  }

  /** The effect of tearing down the pair `u`, `p` on links: both pair entries and both
      profiles' links go, everything else about pairs, profiles and the queue stays. */
  ghost predicate Unpaired(s: State, r: State, u: string, p: string) {
    && r.pairs == s.pairs - {u, p}
    && r.waiting == s.waiting
    && r.users.Keys == s.users.Keys
    && r.nextSession == s.nextSession
    && r.userOrder == s.userOrder
    && (forall v :: v in r.users ==>
          r.users[v] == if v == u || v == p then s.users[v].(partner := None, session := None) else s.users[v])
  }

  lemma UnpairedLinks(s: State, r: State, u: string, p: string)
    requires Symmetric(s) && Mirrored(s) && u in s.pairs && p == s.pairs[u]
    requires Unpaired(s, r, u, p)
    ensures Symmetric(r) && Mirrored(r)
  {
    assert Symmetric(r) by {
      forall a | a in r.pairs ensures r.pairs[a] != a && r.pairs[a] in r.pairs && r.pairs[r.pairs[a]] == a {
        assert a in s.pairs && a != u && a != p;
        assert s.pairs[a] != u && s.pairs[a] != p;
      }
    }
    forall v | v in r.users ensures r.users[v].partner == Lookup(r.pairs, v) && (r.users[v].session.Some? <==> v in r.pairs) {
      if v != u && v != p && v in s.pairs {
        assert s.pairs[v] != u && s.pairs[v] != p;
      }
    }
  }

  lemma UnpairedShared(s: State, r: State, u: string, p: string)
    requires Symmetric(s) && SessionsShared(s)
    requires u in s.pairs && p == s.pairs[u]
    requires Unpaired(s, r, u, p)
    ensures SessionsShared(r)
  {
    forall a | a in r.pairs && a in r.users && r.pairs[a] in r.users
      ensures r.users[a].session == r.users[r.pairs[a]].session
    {
      assert a in s.pairs && a != u && a != p;
      assert s.pairs[a] != u && s.pairs[a] != p;
      assert r.users[a] == s.users[a] && r.users[s.pairs[a]] == s.users[s.pairs[a]];
    }
  }

  lemma UnpairedDistinct(s: State, r: State, u: string, p: string)
    requires Symmetric(s) && SessionsDistinct(s)
    requires u in s.pairs && p == s.pairs[u]
    requires Unpaired(s, r, u, p)
    ensures SessionsDistinct(r)
  {
    assert forall v :: v in r.users <==> v in s.users;
    forall a, b | a in r.users && b in r.users && a != b && r.users[a].session.Some? && r.users[a].session == r.users[b].session
      ensures a in r.pairs && r.pairs[a] == b
    {
      assert a != u && a != p && b != u && b != p;
      assert r.users[a] == s.users[a] && r.users[b] == s.users[b];
      assert a in s.users && b in s.users && s.users[a].session == s.users[b].session;
      assert a in s.pairs && s.pairs[a] == b;
    }
  }

  lemma UnpairedSessions(s: State, r: State, u: string, p: string)
    requires Symmetric(s) && SessionsShared(s) && SessionsIssued(s) && SessionsDistinct(s)
    requires u in s.pairs && p == s.pairs[u]
    requires Unpaired(s, r, u, p)
    ensures SessionsShared(r) && SessionsIssued(r) && SessionsDistinct(r)
  {
    UnpairedShared(s, r, u, p);
    UnpairedDistinct(s, r, u, p);
    assert SessionsIssued(r);
  }

  /** Tearing down a pair keeps the queue, the profile set and the insertion order. */
  lemma UnpairedRest(s: State, r: State, u: string, p: string)
    requires Exclusive(s) && Known(s) && OrderOk(s)
    requires Unpaired(s, r, u, p)
    ensures Exclusive(r) && Known(r) && OrderOk(r)
  {
  }

  lemma UnpairedValid(s: State, r: State, u: string, p: string)
    requires Valid(s) && u in s.pairs && p == s.pairs[u]
    requires Unpaired(s, r, u, p) && MailboxesOk(r)
    ensures Valid(r)
  {
    UnpairedLinks(s, r, u, p);
    UnpairedSessions(s, r, u, p);
    UnpairedRest(s, r, u, p);
  }

  /** On a paired user `end_chat` has the shape of `Unpaired`. */
  lemma EndChatUnpairs(s: State, u: string)
    requires Known(s) && Symmetric(s) && u in s.pairs
    ensures Unpaired(s, EndChat(s, u).state, u, s.pairs[u])
  {
    var p := s.pairs[u];
    var r := EndChat(s, u).state;
    assert u in s.users && p in s.users;
    assert r.users == Relink(Relink(s.users, u, None, None), p, None, None);
  }

  /** Queues under the mailbox invariant stay well formed after one notice is appended. */
  lemma NoticeKeepsMailboxes(s: State, r: State, p: string, note: string)
    requires MailboxesOk(s)
    requires r.notifications == s.notifications[p := ListAt(s.notifications, p) + [note]]
    requires r.messages == s.messages
    ensures MailboxesOk(r)
  {
  }

  lemma EndChatValid(s: State, u: string)
    requires Valid(s)
    ensures Valid(EndChat(s, u).state)
  {
    var r := EndChat(s, u).state;
    if u in s.pairs {
      var p := s.pairs[u];
      EndChatUnpairs(s, u);
      NoticeKeepsMailboxes(s, r, p, PartnerLeftNote);
      UnpairedValid(s, r, u, p);
    } else {
      LeaveQueueValid(s, u);
    }
  }

  /** Leaving the queue keeps the invariants. */
  lemma LeaveQueueValid(s: State, u: string)
    requires Valid(s)
    ensures Valid(s.(waiting := WaitQueue.Remove(s.waiting, u)))
  {
    var r := s.(waiting := WaitQueue.Remove(s.waiting, u));
    assert Exclusive(r);
    assert Known(r);
  }

  /** The effect of pairing the unpaired `u` with the waiting `p` under session id `n` on links. */
  ghost predicate Joined(s: State, r: State, u: string, p: string, n: nat) {
    && r.pairs == s.pairs[u := p][p := u]
    && WaitQueue.Valid(r.waiting)
    && r.waiting.members == s.waiting.members - {u, p}
    && r.users.Keys == s.users.Keys
    && n == s.nextSession && r.nextSession == n + 1
    && r.userOrder == s.userOrder
    && (forall v :: v in r.users ==>
          r.users[v] == if v == u then s.users[v].(partner := Some(p), session := Some(n))
                        else if v == p then s.users[v].(partner := Some(u), session := Some(n))
                        else s.users[v])
  }

  lemma JoinedLinks(s: State, r: State, u: string, p: string, n: nat)
    requires Symmetric(s) && Mirrored(s) && u !in s.pairs && p !in s.pairs && p != u
    requires Joined(s, r, u, p, n)
    ensures Symmetric(r) && Mirrored(r)
  {
    assert Symmetric(r) by {
      forall a | a in r.pairs ensures r.pairs[a] != a && r.pairs[a] in r.pairs && r.pairs[r.pairs[a]] == a {
        if a != u && a != p {
          assert a in s.pairs && s.pairs[a] in s.pairs;
          assert r.pairs[a] == s.pairs[a] && s.pairs[a] != u && s.pairs[a] != p;
        }
      }
    }
    forall v | v in r.users ensures r.users[v].partner == Lookup(r.pairs, v) && (r.users[v].session.Some? <==> v in r.pairs) {
      if v != u && v != p {
        assert r.users[v] == s.users[v];
        assert Lookup(r.pairs, v) == Lookup(s.pairs, v);
      }
    }
  }

  /** Apart from the new pair, every session id in use was issued before `n`. */
  lemma JoinedOlderSessions(s: State, r: State, u: string, p: string, n: nat)
    requires SessionsIssued(s) && Joined(s, r, u, p, n)
    ensures forall v :: v in r.users && v != u && v != p && r.users[v].session.Some? ==> r.users[v].session.value < n
  {
    forall v | v in r.users && v != u && v != p && r.users[v].session.Some? ensures r.users[v].session.value < n {
      assert r.users[v] == s.users[v];
    }
  }

  lemma JoinedShared(s: State, r: State, u: string, p: string, n: nat)
    requires Symmetric(s) && SessionsShared(s)
    requires u !in s.pairs && p !in s.pairs && p != u
    requires Joined(s, r, u, p, n)
    ensures SessionsShared(r)
  {
    forall a | a in r.pairs && a in r.users && r.pairs[a] in r.users
      ensures r.users[a].session == r.users[r.pairs[a]].session
    {
      if a != u && a != p {
        assert s.pairs[a] in s.pairs;
        assert s.pairs[a] != u && s.pairs[a] != p;
      }
    }
  }

  lemma JoinedDistinct(s: State, r: State, u: string, p: string, n: nat)
    requires SessionsIssued(s) && SessionsDistinct(s)
    requires p != u && u in s.users && p in s.users
    requires Joined(s, r, u, p, n)
    ensures SessionsDistinct(r)
  {
    JoinedOlderSessions(s, r, u, p, n);
    forall a, b | a in r.users && b in r.users && a != b && r.users[a].session.Some? && r.users[a].session == r.users[b].session
      ensures a in r.pairs && r.pairs[a] == b
    {
      if a != u && a != p && b != u && b != p {
        assert s.pairs[a] == b;
      }
    }
  }

  lemma JoinedSessions(s: State, r: State, u: string, p: string, n: nat)
    requires Symmetric(s) && SessionsShared(s) && SessionsIssued(s) && SessionsDistinct(s)
    requires u !in s.pairs && p !in s.pairs && p != u && u in s.users && p in s.users
    requires Joined(s, r, u, p, n)
    ensures SessionsShared(r) && SessionsIssued(r) && SessionsDistinct(r)
  {
    JoinedShared(s, r, u, p, n);
    JoinedOlderSessions(s, r, u, p, n);
    JoinedDistinct(s, r, u, p, n);
  }

  /** A new pair leaves the queue, and the profile set and insertion order stay. */
  lemma JoinedRest(s: State, r: State, u: string, p: string, n: nat)
    requires Exclusive(s) && Known(s) && OrderOk(s) && u in s.users && p in s.users
    requires Joined(s, r, u, p, n)
    ensures Exclusive(r) && Known(r) && OrderOk(r)
  {
    assert forall v :: v in r.users <==> v in s.users;
  }

  lemma JoinedValid(s: State, r: State, u: string, p: string, n: nat)
    requires Valid(s) && u in s.users && u !in s.pairs && p in s.waiting.members && p != u
    requires Joined(s, r, u, p, n) && MailboxesOk(r)
    ensures Valid(r)
  {
    assert p !in s.pairs && p in s.users;
    JoinedLinks(s, r, u, p, n);
    JoinedSessions(s, r, u, p, n);
    JoinedRest(s, r, u, p, n);
  }

  /** `Pair` on two distinct users with profiles, with the rest of the queue as left by
      the match, has the shape of `Joined`. */
  lemma PairJoins(s: State, u: string, p: string, rest: WaitQueue.Queue, note: string)
    requires u in s.users && p in s.users && u != p
    requires WaitQueue.Valid(rest) && rest.members == s.waiting.members - {u, p}
    ensures Joined(s, Pair(s, u, p, rest, note), u, p, s.nextSession)
  {
    var r := Pair(s, u, p, rest, note);
    var n := s.nextSession;
    assert r.users == Relink(Relink(s.users, u, Some(p), Some(n)), p, Some(u), Some(n));
  }

  /** The queue `find_partner` leaves after a match: valid, without the caller and the partner. */
  lemma FindPartnerQueue(s: State, u: string)
    requires WaitQueue.Valid(s.waiting)
    ensures var q1 := WaitQueue.Remove(s.waiting, u);
      var popped := WaitQueue.PopLive(q1);
      |q1.order| > 0 && popped.head.Some? ==>
        && WaitQueue.Valid(popped.queue)
        && popped.queue.members == s.waiting.members - {u, popped.head.value}
  {
    var q1 := WaitQueue.Remove(s.waiting, u);
    if |q1.order| > 0 {
      WaitQueue.DropHeadValid(q1);
    }
  }

  /** A match made by `find_partner` has the shape of `Joined`. */
  lemma FindPartnerJoins(s: State, u: string)
    requires Valid(s) && u in s.users && u !in s.pairs
    ensures var o := FindPartner(s, u);
      o.partner.Some? ==> Joined(s, o.state, u, o.partner.value, s.nextSession) && MailboxesOk(o.state)
  {
    var q1 := WaitQueue.Remove(s.waiting, u);
    var popped := WaitQueue.PopLive(q1);
    if |q1.order| > 0 && popped.head.Some? {
      var p := popped.head.value;
      var note := ConnectedNote(s.users[u].nickname);
      assert FindPartner(s, u) == Outcome(Pair(s, u, p, popped.queue, note), Some(p));
      FindPartnerQueue(s, u);
      assert p in s.users;
      PairJoins(s, u, p, popped.queue, note);
      NoticeKeepsMailboxes(s, Pair(s, u, p, popped.queue, note), p, note);
    }
  }

  /** When nobody is matched only the queue changes, and the caller is its one entry. */
  lemma FindPartnerQueuesValid(s: State, u: string)
    requires Valid(s) && u in s.users && u !in s.pairs
    requires FindPartner(s, u).partner.None?
    ensures Valid(FindPartner(s, u).state)
  {
    var r := FindPartner(s, u).state;
    assert r == s.(waiting := r.waiting) && r.waiting.order == [u];
    assert WaitQueue.Valid(r.waiting);
    assert Exclusive(r);
    assert Known(r);
  }

  lemma FindPartnerValid(s: State, u: string)
    requires Valid(s) && u in s.users && u !in s.pairs
    ensures Valid(FindPartner(s, u).state)
  {
    var o := FindPartner(s, u);
    if o.partner.Some? {
      FindPartnerJoins(s, u);
      JoinedValid(s, o.state, u, o.partner.value, s.nextSession);
    } else {
      FindPartnerQueuesValid(s, u);
    }
  }
}
