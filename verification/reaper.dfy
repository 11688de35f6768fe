/**
 * Housekeeping: `cleanup_inactive_users` and `get_system_stats` (random_connect.py
 * lines 403-432).
 */
module Reaper {
  import opened Optional
  import opened Seqs
  import opened Engine
  import opened Pairing
  import WaitQueue

  /** `(current_time - last_activity).total_seconds() > timeout_minutes * 60`, on whole seconds. */
  predicate Idle(st: UserState, now: int, timeoutMinutes: int) {
    now - st.lastActivity > timeoutMinutes * 60
  }

  /** The idle users among `order`, in that order. */
  function IdleAmong(users: map<string, UserState>, order: seq<string>, now: int, timeoutMinutes: int): (r: seq<string>)
    ensures forall v :: v in r <==> v in order && v in users && Idle(users[v], now, timeoutMinutes)
    ensures |r| <= |order|
  {
    if |order| == 0 then []
    else
      var rest := IdleAmong(users, order[1..], now, timeoutMinutes);
      assert forall v :: v in order <==> v == order[0] || v in order[1..];
      if order[0] in users && Idle(users[order[0]], now, timeoutMinutes) then [order[0]] + rest else rest
  }

  /** The first loop of `cleanup_inactive_users`: the idle users in `user_states` order. */
  function InactiveUsers(s: State, now: int, timeoutMinutes: int): (r: seq<string>)
    ensures OrderOk(s) ==> forall v :: v in r <==> v in s.users && Idle(s.users[v], now, timeoutMinutes)
  {
    IdleAmong(s.users, s.userOrder, now, timeoutMinutes)
  }

  /** One step of the second loop: end the user's chat, then drop the profile. */
  function ReapOne(s: State, u: string): (r: State)
    ensures r.users.Keys == s.users.Keys - {u}
    ensures forall v :: v in r.users ==> r.users[v].lastActivity == s.users[v].lastActivity
    ensures r.pairs == if u in s.pairs then s.pairs - {u, s.pairs[u]} else s.pairs
    ensures r.notifications == if u in s.pairs
      then s.notifications[s.pairs[u] := ListAt(s.notifications, s.pairs[u]) + [PartnerLeftNote]]
      else s.notifications
    ensures r.messages == s.messages && r.strictMode == s.strictMode
  {
    var ended := EndChat(s, u).state;
    ended.(users := ended.users - {u}, userOrder := Without(ended.userOrder, u))
  }

  function ReapAll(s: State, us: seq<string>): State
    decreases |us|
  {
    if |us| == 0 then s else ReapAll(ReapOne(s, us[0]), us[1..])
  }

  /** A sweep ends chats and drops profiles; it issues no session id. */
  lemma {:induction false} ReapAllFresh(s: State, us: seq<string>)
    ensures SessionsFresh(s, ReapAll(s, us))
    decreases |us|
  {
    if |us| == 0 {
      NoNewSessions(s, s);
    } else {
      var s1 := ReapOne(s, us[0]);
      EndChatFresh(s, us[0]);
      NoNewSessions(EndChat(s, us[0]).state, s1);
      FreshChain(s, EndChat(s, us[0]).state, s1);
      ReapAllFresh(s1, us[1..]);
      FreshChain(s, s1, ReapAll(s, us));
    }
  }

  /** `cleanup_inactive_users` */
  function CleanupInactiveUsers(s: State, now: int, timeoutMinutes: int): State {
    ReapAll(s, InactiveUsers(s, now, timeoutMinutes))
  }

  /** Dropping the profile of a user who is neither paired nor waiting keeps the invariants. */
  lemma DropProfileValid(e: State, u: string)
    requires Valid(e) && u !in e.pairs && u !in e.waiting.members
    ensures Valid(e.(users := e.users - {u}, userOrder := Without(e.userOrder, u)))
  {
    var r := e.(users := e.users - {u}, userOrder := Without(e.userOrder, u));
    DropProfileOrder(e, r, u);
    DropProfileLinks(e, r, u);
    assert r.waiting == e.waiting && r.pairs == e.pairs;
    assert r.notifications == e.notifications && r.messages == e.messages;
  }

  lemma DropProfileOrder(e: State, r: State, u: string)
    requires OrderOk(e)
    requires r.users == e.users - {u} && r.userOrder == Without(e.userOrder, u)
    ensures OrderOk(r)
  {
    WithoutNoDup(e.userOrder, u);
  }

  /** Dropping an unlinked profile keeps every invariant about links and sessions. */
  lemma DropProfileLinks(e: State, r: State, u: string)
    requires Known(e) && Mirrored(e) && SessionsShared(e) && SessionsIssued(e) && SessionsDistinct(e)
    requires u !in e.pairs && u !in e.waiting.members
    requires r.users == e.users - {u} && r.pairs == e.pairs && r.waiting == e.waiting && r.nextSession == e.nextSession
    ensures Known(r) && Mirrored(r) && SessionsShared(r) && SessionsIssued(r) && SessionsDistinct(r)
  {
    assert forall v :: v in r.users <==> v in e.users && v != u;
    assert forall v :: v in r.users ==> r.users[v] == e.users[v];
  }

  lemma ReapOneValid(s: State, u: string)
    requires Valid(s)
    ensures Valid(ReapOne(s, u))
  {
    EndChatValid(s, u);
    var e := EndChat(s, u).state;
    if u in s.pairs {
      assert u !in s.waiting.members;
    }
    DropProfileValid(e, u);
  }

  lemma {:induction false} ReapAllValid(s: State, us: seq<string>)
    requires Valid(s)
    ensures Valid(ReapAll(s, us))
    decreases |us|
  {
    if |us| > 0 {
      ReapOneValid(s, us[0]);
      ReapAllValid(ReapOne(s, us[0]), us[1..]);
    }
  }

  /** Reaping removes exactly the listed profiles and keeps the others' activity times. */
  lemma {:induction false} ReapAllProfiles(s: State, us: seq<string>)
    ensures var r := ReapAll(s, us);
      && (forall v :: v in r.users <==> v in s.users && v !in us)
      && (forall v :: v in r.users ==> r.users[v].lastActivity == s.users[v].lastActivity)
    decreases |us|
  {
    if |us| > 0 {
      ReapAllProfiles(ReapOne(s, us[0]), us[1..]);
      assert forall v :: v in us <==> v == us[0] || v in us[1..];
    }
  }

  /** After the sweep the remaining profiles are exactly the ones that were not idle, with
      their activity times, and the invariants hold. */
  lemma CleanupKeepsExactlyActive(s: State, now: int, timeoutMinutes: int)
    requires Valid(s)
    ensures var r := CleanupInactiveUsers(s, now, timeoutMinutes);
      && Valid(r)
      && (forall v :: v in r.users <==> v in s.users && !Idle(s.users[v], now, timeoutMinutes))
      && (forall v :: v in r.users ==> r.users[v].lastActivity == s.users[v].lastActivity)
  {
    var us := InactiveUsers(s, now, timeoutMinutes);
    ReapAllValid(s, us);
    ReapAllProfiles(s, us);
  }

  /** Reaping someone else leaves an unpaired user unpaired and their notifications alone. */
  lemma ReapOneQuiet(s: State, w: string, v: string)
    requires Symmetric(s) && v !in s.pairs
    ensures var s1 := ReapOne(s, w);
      v !in s1.pairs && ListAt(s1.notifications, v) == ListAt(s.notifications, v)
  {
    if w in s.pairs {
      assert s.pairs[w] in s.pairs && s.pairs[w] != v;
    }
  }

  /** Reaping a third user leaves the pair `u`, `p` and `p`'s notifications alone. */
  lemma ReapOneOther(s: State, w: string, u: string, p: string)
    requires Symmetric(s) && u in s.pairs && s.pairs[u] == p && w != u && w != p
    ensures var s1 := ReapOne(s, w);
      u in s1.pairs && s1.pairs[u] == p && ListAt(s1.notifications, p) == ListAt(s.notifications, p)
  {
    if w in s.pairs {
      assert s.pairs[w] != u && s.pairs[w] != p;
    }
  }

  /** Reaping `u` unpairs the partner and adds one "partner left" notice for them. */
  lemma ReapOnePartner(s: State, u: string)
    requires Symmetric(s) && u in s.pairs
    ensures var s1 := ReapOne(s, u);
      var p := s.pairs[u];
      p !in s1.pairs && ListAt(s1.notifications, p) == ListAt(s.notifications, p) + [PartnerLeftNote]
  {
  }

  /** A user who is not paired stays unpaired and receives no notification while others are reaped. */
  lemma {:induction false} ReapAllQuiet(s: State, us: seq<string>, v: string)
    requires Valid(s) && v !in s.pairs
    ensures var r := ReapAll(s, us);
      v !in r.pairs && ListAt(r.notifications, v) == ListAt(s.notifications, v)
    decreases |us|
  {
    if |us| > 0 {
      var s1 := ReapOne(s, us[0]);
      assert ReapAll(s, us) == ReapAll(s1, us[1..]);
      ReapOneQuiet(s, us[0], v);
      ReapOneValid(s, us[0]);
      ReapAllQuiet(s1, us[1..], v);
    }
  }

  /** While the pair `u`, `p` is intact and `p` is not reaped, reaping `u` unpairs `p` and
      adds one "partner left" notice to what `p` held. */
  lemma {:induction false} ReapAllNotifiesOnce(s: State, us: seq<string>, u: string, p: string)
    requires Valid(s) && u in us && p !in us
    requires u in s.pairs && s.pairs[u] == p
    ensures var r := ReapAll(s, us);
      p !in r.pairs && ListAt(r.notifications, p) == ListAt(s.notifications, p) + [PartnerLeftNote]
    decreases |us|
  {
    var w := us[0];
    var s1 := ReapOne(s, w);
    assert ReapAll(s, us) == ReapAll(s1, us[1..]);
    ReapOneValid(s, w);
    if w == u {
      ReapOnePartner(s, u);
      ReapAllQuiet(s1, us[1..], p);
    } else {
      assert w != p && u in us[1..];
      ReapOneOther(s, w, u, p);
      ReapAllNotifiesOnce(s1, us[1..], u, p);
    }
  }

  /** An active user whose partner is reaped survives the sweep, unpaired, with exactly one
      "partner left" notice added. */
  lemma CleanupNotifiesActivePartner(s: State, now: int, timeoutMinutes: int, u: string)
    requires Valid(s) && u in s.pairs
    requires Idle(s.users[u], now, timeoutMinutes) && !Idle(s.users[s.pairs[u]], now, timeoutMinutes)
    ensures var r := CleanupInactiveUsers(s, now, timeoutMinutes);
      var p := s.pairs[u];
      && p in r.users && p !in r.pairs
      && ListAt(r.notifications, p) == ListAt(s.notifications, p) + [PartnerLeftNote]
  {
    var us := InactiveUsers(s, now, timeoutMinutes);
    ReapAllProfiles(s, us);
    ReapAllNotifiesOnce(s, us, u, s.pairs[u]);
  }

  // ---------------------------------------------------------------------------
  // Statistics

  datatype Stats = Stats(activeUsers: nat, waitingUsers: nat, activePairs: nat, totalConnections: nat)

  /** `get_system_stats`: each pair is stored in both directions, hence the halving. */
  function SystemStats(s: State): (r: Stats)
    ensures r.activePairs == r.totalConnections
  {
    Stats(|s.users|, |s.waiting.order|, |s.pairs| / 2, |s.pairs| / 2)
  }

  /** Removing two distinct keys shrinks a map by two. */
  lemma RemoveTwoCard(pairs: map<string, string>, a: string, b: string)
    requires a in pairs && b in pairs && a != b
    ensures |pairs - {a, b}| == |pairs| - 2
  {
    var rest := pairs - {a, b};
    assert rest.Keys == pairs.Keys - {a, b};
    assert pairs.Keys == rest.Keys + {a, b};
    assert |pairs.Keys| == |rest.Keys| + 2;
  }

  /** Removing both directions of one pair keeps a pairing symmetric and drops two entries. */
  lemma RemovePairSymmetric(s: State, a: string)
    requires Symmetric(s) && a in s.pairs
    ensures var r := s.(pairs := s.pairs - {a, s.pairs[a]});
      Symmetric(r) && |s.pairs| == |r.pairs| + 2
  {
    var b := s.pairs[a];
    var rest := s.pairs - {a, b};
    forall x | x in rest ensures rest[x] != x && rest[x] in rest && rest[rest[x]] == x {
      assert s.pairs[x] != a && s.pairs[x] != b;
    }
    RemoveTwoCard(s.pairs, a, b);
  }

  lemma ParityStep(n: nat, m: nat)
    requires m == n + 2 && n % 2 == 0
    ensures m % 2 == 0
  {
  }

  /** A symmetric pairing without self-pairs has an even number of entries. */
  lemma {:induction false} EvenPairs(s: State)
    requires Symmetric(s)
    ensures |s.pairs| % 2 == 0
    decreases |s.pairs|
  {
    if |s.pairs| > 0 {
      var a :| a in s.pairs;
      var s2 := s.(pairs := s.pairs - {a, s.pairs[a]});
      RemovePairSymmetric(s, a);
      EvenPairs(s2);
      ParityStep(|s2.pairs|, |s.pairs|);
    }
  }

  /** In a valid state the statistics count every pair once and every waiting user once. */
  lemma StatsCountOnce(s: State)
    requires Valid(s)
    ensures var r := SystemStats(s);
      && 2 * r.activePairs == |s.pairs|
      && r.waitingUsers == |s.waiting.members|
      && r.activeUsers == |s.userOrder|
  {
    EvenPairs(s);
    WaitQueue.SizeMatches(s.waiting);
    NoDupCard(s.userOrder);
    assert s.users.Keys == set x | x in s.userOrder;
  }
}
