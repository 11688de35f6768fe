/**
 * The state of `RandomConnectManager` (random_connect.py lines 22-48) as one immutable
 * record, the invariants that tie its maps together, and the profile store
 * (`get_or_create_user_state`, `get_partner`, `get_partner_nickname`,
 * `toggle_phone_masking`).
 *
 * `uuid.uuid4()` session ids are replaced by a counter held in the state, and
 * `datetime.now()` by a clock reading in seconds passed to each operation.
 */
module Engine {
  import opened Optional
  import opened Seqs
  import WaitQueue
  import Mailbox

  /** `UserState`; the user id is the key under which the profile is stored. */
  datatype UserState = UserState(
    nickname: string,
    maskingEnabled: bool,
    partner: Option<string>,
    session: Option<nat>,
    lastActivity: int)

  datatype State = State(
    waiting: WaitQueue.Queue,                   // available_users / available_set
    pairs: map<string, string>,                 // active_pairs
    users: map<string, UserState>,              // user_states
    userOrder: seq<string>,                     // insertion order of user_states
    notifications: map<string, seq<string>>,    // pending_notifications
    messages: map<string, seq<string>>,         // pending_messages
    strictMode: bool,
    nextSession: nat)                           // the next fresh session id

  /** `RandomConnectManager()`: everything empty, strict mode on. */
  function Init(): (s: State)
    ensures s.strictMode && s.pairs == map[] && s.users == map[]
  {
    State(WaitQueue.Empty, map[], map[], [], map[], map[], true, 0)
  }

  const MaxQueuedMessages := Mailbox.Capacity

  /** Session ids only move forward from `s` to `r`: the counter never goes back, and a
      session id that a profile holds in `r` but did not hold in `s` had not been issued
      in `s`. */
  ghost predicate SessionsFresh(s: State, r: State) {
    && s.nextSession <= r.nextSession
    && forall v :: v in r.users && r.users[v].session.Some?
         && (v !in s.users || r.users[v].session != s.users[v].session)
         ==> r.users[v].session.value >= s.nextSession
  }

  /** Two versions of a profile agree on everything but the pairing fields. */
  predicate SameProfile(a: UserState, b: UserState) {
    a.nickname == b.nickname && a.maskingEnabled == b.maskingEnabled && a.lastActivity == b.lastActivity
  }

  // ---------------------------------------------------------------------------
  // Invariants

  /** No user is both waiting and paired. */
  ghost predicate Exclusive(s: State) {
    forall u :: u in s.waiting.members ==> u !in s.pairs
  }

  /** `active_pairs[a] == b` implies `active_pairs[b] == a`, and nobody is paired with themself. */
  ghost predicate Symmetric(s: State) {
    forall a :: a in s.pairs ==> s.pairs[a] != a && s.pairs[a] in s.pairs && s.pairs[s.pairs[a]] == a
  }

  /** Waiting and paired users have profiles. */
  ghost predicate Known(s: State) {
    && (forall u :: u in s.waiting.members ==> u in s.users)
    && (forall u :: u in s.pairs ==> u in s.users)
  }

  /** Each profile's partner field mirrors `active_pairs`, and a session id is held exactly while paired. */
  ghost predicate Mirrored(s: State) {
    forall u :: u in s.users ==>
      && s.users[u].partner == Lookup(s.pairs, u)
      && (s.users[u].session.Some? <==> u in s.pairs)
  }

  /** Paired users carry the same session id. */
  ghost predicate SessionsShared(s: State) {
    forall a :: a in s.pairs && a in s.users && s.pairs[a] in s.users ==>
      s.users[a].session == s.users[s.pairs[a]].session
  }

  /** Every session id in use was issued before `nextSession`. */
  ghost predicate SessionsIssued(s: State) {
    forall u :: u in s.users && s.users[u].session.Some? ==> s.users[u].session.value < s.nextSession
  }

  /** A session id identifies one pair: two different users sharing one are partners. */
  ghost predicate SessionsDistinct(s: State) {
    forall a, b :: a in s.users && b in s.users && a != b && s.users[a].session.Some? && s.users[a].session == s.users[b].session
      ==> a in s.pairs && s.pairs[a] == b
  }

  /** The insertion order lists every profile once. */
  ghost predicate OrderOk(s: State) {
    && NoDup(s.userOrder)
    && forall u :: u in s.userOrder <==> u in s.users
  }

  /** Mailbox lists are created on first append and removed when drained, so none is empty;
      relayed-message lists never exceed the cap. */
  ghost predicate MailboxesOk(s: State) {
    && (forall u :: u in s.notifications ==> |s.notifications[u]| > 0)
    && (forall u :: u in s.messages ==> 0 < |s.messages[u]| <= MaxQueuedMessages)
  }

  ghost predicate Valid(s: State) {
    && WaitQueue.Valid(s.waiting)
    && Exclusive(s)
    && Symmetric(s)
    && Known(s)
    && Mirrored(s)
    && SessionsShared(s)
    && SessionsIssued(s)
    && SessionsDistinct(s)
    && OrderOk(s)
    && MailboxesOk(s)
  }

  lemma InitValid()
    ensures Valid(Init())
  {
  }

  /** The session check of `_handle_message_routing` (line 386) always passes for a paired
      user of a valid state, so its mismatch branch is unreachable. */
  lemma PairedSessionsAgree(s: State, u: string)
    requires Valid(s) && u in s.pairs
    ensures u in s.users && s.pairs[u] in s.users
    ensures s.users[u].session.Some? && s.users[u].session == s.users[s.pairs[u]].session
  {
  }

  /** Dropping one user's queued messages keeps every invariant. */
  lemma DropMessagesValid(s: State, u: string)
    requires Valid(s)
    ensures Valid(s.(messages := s.messages - {u}))
  {
    var r := s.(messages := s.messages - {u});
    assert MailboxesOk(r);
    MailboxesOnlyValid(s, r);
  }

  /** A change confined to the mailboxes keeps every invariant but the mailbox one. */
  lemma MailboxesOnlyValid(s: State, r: State)
    requires Valid(s)
    requires r == s.(notifications := r.notifications, messages := r.messages)
    requires MailboxesOk(r)
    ensures Valid(r)
  {
    assert Exclusive(r) && Symmetric(r) && Known(r) && Mirrored(r);
    assert SessionsShared(r) && SessionsIssued(r) && SessionsDistinct(r) && OrderOk(r);
  }

  // ---------------------------------------------------------------------------
  // Profile store

  /** `f"User_{user_id[:8]}"` */
  function DefaultNickname(u: string): (r: string)
    ensures 5 <= |r| <= 13 && r[..5] == "User_"
    ensures |r| - 5 == (if |u| <= 8 then |u| else 8) && r[5..] == u[..|r| - 5]
  {
    "User_" + (if |u| <= 8 then u else u[..8])
  }

  /** `get_or_create_user_state`: creates a default profile on first contact, then stamps
      the activity time. */
  function GetOrCreate(s: State, u: string, nickname: Option<string>, now: int): (r: State)
    ensures u in r.users && r.users[u].lastActivity == now
    ensures r.users.Keys == s.users.Keys + {u}
    ensures forall v :: v in s.users && v != u ==> r.users[v] == s.users[v]
    ensures u in s.users ==> r.users[u] == s.users[u].(lastActivity := now) && r.userOrder == s.userOrder
    ensures u !in s.users ==>
      && r.users[u].maskingEnabled && r.users[u].partner == None && r.users[u].session == None
      && r.users[u].nickname == (if nickname.None? || nickname.value == "" then DefaultNickname(u) else nickname.value)
      && r.userOrder == s.userOrder + [u]
    ensures r == s.(users := r.users, userOrder := r.userOrder)
  {
    if u in s.users then
      s.(users := s.users[u := s.users[u].(lastActivity := now)])
    else
      var nick := if nickname.None? || nickname.value == "" then DefaultNickname(u) else nickname.value;
      s.(users := s.users[u := UserState(nick, true, None, None, now)], userOrder := s.userOrder + [u])
  }

  /** A change confined to profile contents that keeps every partner and session field
      (new profiles start unpaired) and keeps the insertion order well formed preserves
      the invariants. */
  lemma ProfilesOnlyValid(s: State, r: State)
    requires Valid(s)
    requires r == s.(users := r.users, userOrder := r.userOrder)
    requires s.users.Keys <= r.users.Keys
    requires forall v :: v in s.users ==> r.users[v].partner == s.users[v].partner && r.users[v].session == s.users[v].session
    requires forall v :: v in r.users && v !in s.users ==> r.users[v].partner == None && r.users[v].session == None
    requires OrderOk(r)
    ensures Valid(r)
  {
    assert Known(r);
    ProfilesOnlyMirrored(s, r);
    ProfilesOnlySessions(s, r);
  }

  lemma ProfilesOnlyMirrored(s: State, r: State)
    requires Mirrored(s) && Known(s) && r.pairs == s.pairs
    requires s.users.Keys <= r.users.Keys
    requires forall v :: v in s.users ==> r.users[v].partner == s.users[v].partner && r.users[v].session == s.users[v].session
    requires forall v :: v in r.users && v !in s.users ==> r.users[v].partner == None && r.users[v].session == None
    ensures Mirrored(r)
  {
    forall v | v in r.users ensures r.users[v].partner == Lookup(r.pairs, v) && (r.users[v].session.Some? <==> v in r.pairs) {
      if v !in s.users {
        assert v !in s.pairs;
      }
    }
  }

  lemma ProfilesOnlySessions(s: State, r: State)
    requires Symmetric(s) && Known(s) && SessionsShared(s) && SessionsIssued(s) && SessionsDistinct(s)
    requires r.pairs == s.pairs && r.nextSession == s.nextSession
    requires s.users.Keys <= r.users.Keys
    requires forall v :: v in s.users ==> r.users[v].partner == s.users[v].partner && r.users[v].session == s.users[v].session
    requires forall v :: v in r.users && v !in s.users ==> r.users[v].partner == None && r.users[v].session == None
    ensures SessionsShared(r) && SessionsIssued(r) && SessionsDistinct(r)
  {
    assert SessionsShared(r) by {
      forall a | a in r.pairs && a in r.users && r.pairs[a] in r.users
        ensures r.users[a].session == r.users[r.pairs[a]].session
      {
        assert a in s.users && s.pairs[a] in s.users;
        assert r.users[a].session == s.users[a].session;
      }
    }
    assert SessionsDistinct(r) by {
      forall a, b | a in r.users && b in r.users && a != b && r.users[a].session.Some? && r.users[a].session == r.users[b].session
        ensures a in r.pairs && r.pairs[a] == b
      {
        if a in s.users && b in s.users {
          assert s.users[a].session == s.users[b].session;
          assert a in s.pairs && s.pairs[a] == b;
        }
      }
    }
  }

  /** Replacing one profile by a version with the same links keeps the invariants. */
  lemma ProfileEditValid(s: State, u: string, st: UserState)
    requires Valid(s) && u in s.users
    requires st.partner == s.users[u].partner && st.session == s.users[u].session
    ensures Valid(s.(users := s.users[u := st]))
  {
    var r := s.(users := s.users[u := st]);
    assert r.users.Keys == s.users.Keys;
    KeepsLinks(s.users, u, st);
    ProfilesOnlyValid(s, r);
  }

  lemma KeepsLinks(m: map<string, UserState>, u: string, st: UserState)
    requires u in m && st.partner == m[u].partner && st.session == m[u].session
    ensures forall v :: v in m ==> m[u := st][v].partner == m[v].partner && m[u := st][v].session == m[v].session
  {
  }

  /** Appending a fresh name keeps a duplicate-free order duplicate-free. */
  lemma AppendFresh(order: seq<string>, u: string)
    requires NoDup(order) && u !in order
    ensures NoDup(order + [u])
  {
    var o := order + [u];
    forall i, j | 0 <= i < j < |o| ensures o[i] != o[j] {
      if j == |order| {
        assert o[i] == order[i];
      }
    }
  }

  /** A fresh, unpaired profile appended to the store keeps the invariants. */
  lemma NewProfileValid(s: State, u: string, st: UserState)
    requires Valid(s) && u !in s.users && st.partner == None && st.session == None
    ensures Valid(s.(users := s.users[u := st], userOrder := s.userOrder + [u]))
  {
    var r := s.(users := s.users[u := st], userOrder := s.userOrder + [u]);
    assert u !in s.userOrder;
    AppendFresh(s.userOrder, u);
    assert OrderOk(r);
    assert forall v :: v in s.users ==> r.users[v] == s.users[v];
    ProfilesOnlyValid(s, r);
  }

  lemma GetOrCreateValid(s: State, u: string, nickname: Option<string>, now: int)
    requires Valid(s)
    ensures Valid(GetOrCreate(s, u, nickname, now))
  {
    if u in s.users {
      ProfileEditValid(s, u, s.users[u].(lastActivity := now));
    } else {
      var nick := if nickname.None? || nickname.value == "" then DefaultNickname(u) else nickname.value;
      NewProfileValid(s, u, UserState(nick, true, None, None, now));
    }
  }

  /** Sets the partner and session fields of `u`'s profile, when there is one. */
  function Relink(users: map<string, UserState>, u: string, partner: Option<string>, session: Option<nat>): (r: map<string, UserState>)
    ensures r.Keys == users.Keys
    ensures u in users ==> r[u] == users[u].(partner := partner, session := session)
    ensures forall v :: v in users && v != u ==> r[v] == users[v]
    ensures forall v :: v in users ==> SameProfile(r[v], users[v])
  {
    if u in users then users[u := users[u].(partner := partner, session := session)] else users
  }

  /** `get_partner`: the partner recorded in `active_pairs`. */
  function GetPartner(s: State, u: string): (r: Option<string>)
    ensures r.Some? <==> u in s.pairs
    ensures Valid(s) && r.Some? ==> r.value != u && Lookup(s.pairs, r.value) == Some(u) && s.users[u].partner == r
  {
    Lookup(s.pairs, u)
  }

  /** `get_partner_nickname`: the partner's nickname when the partner has a profile. */
  function GetPartnerNickname(s: State, u: string): (r: Option<string>)
    ensures r.Some? ==> u in s.pairs && s.pairs[u] in s.users && r.value == s.users[s.pairs[u]].nickname
    ensures Valid(s) ==> (r.Some? <==> u in s.pairs)
  {
    if u in s.pairs && s.pairs[u] in s.users then Some(s.users[s.pairs[u]].nickname) else None
  }

  datatype Toggled = Toggled(state: State, enabled: bool)

  /** `toggle_phone_masking`: touches the profile, then flips its masking flag. */
  function ToggleMasking(s: State, u: string, now: int): (r: Toggled)
    ensures r.state.users.Keys == s.users.Keys + {u}
    ensures u in r.state.users && r.enabled == r.state.users[u].maskingEnabled
    ensures u in s.users ==> r.enabled == !s.users[u].maskingEnabled
    ensures u !in s.users ==> !r.enabled
    ensures r.state.users[u] == GetOrCreate(s, u, None, now).users[u].(maskingEnabled := r.enabled)
    ensures r.state == GetOrCreate(s, u, None, now).(users := r.state.users)
    ensures forall v :: v in s.users && v != u ==> r.state.users[v] == s.users[v]
  {
    var s1 := GetOrCreate(s, u, None, now);
    var st := s1.users[u];
    Toggled(s1.(users := s1.users[u := st.(maskingEnabled := !st.maskingEnabled)]), !st.maskingEnabled)
  }

  lemma ToggleValid(s: State, u: string, now: int)
    requires Valid(s)
    ensures Valid(ToggleMasking(s, u, now).state)
  {
    var s1 := GetOrCreate(s, u, None, now);
    GetOrCreateValid(s, u, None, now);
    var st := s1.users[u];
    ProfileEditValid(s1, u, st.(maskingEnabled := !st.maskingEnabled));
  }

  /** A change that issues no session id and at most clears a profile's session keeps
      session ids fresh. */
  lemma NoNewSessions(s: State, r: State)
    requires s.nextSession <= r.nextSession
    requires forall v :: v in r.users ==> r.users[v].session.None? || (v in s.users && r.users[v].session == s.users[v].session)
    ensures SessionsFresh(s, r)
  {
  }

  /** Freshness composes along consecutive changes. */
  lemma FreshChain(s: State, m: State, r: State)
    requires SessionsFresh(s, m) && SessionsFresh(m, r)
    ensures SessionsFresh(s, r)
  {
    forall v | v in r.users && r.users[v].session.Some? && (v !in s.users || r.users[v].session != s.users[v].session)
      ensures r.users[v].session.value >= s.nextSession
    {
      if v in m.users && r.users[v].session == m.users[v].session {
        assert m.users[v].session.Some?;
      }
    }
  }

  lemma GetOrCreateFresh(s: State, u: string, nickname: Option<string>, now: int)
    ensures SessionsFresh(s, GetOrCreate(s, u, nickname, now))
  {
    NoNewSessions(s, GetOrCreate(s, u, nickname, now));
  }

  lemma ToggleFresh(s: State, u: string, now: int)
    ensures SessionsFresh(s, ToggleMasking(s, u, now).state)
  {
    NoNewSessions(s, ToggleMasking(s, u, now).state);
  }

  /** Masking starts on, and toggling twice restores the flag. */
  lemma ToggleTwiceRestores(s: State, u: string, now: int, later: int)
    ensures var once := ToggleMasking(s, u, now);
      ToggleMasking(once.state, u, later).enabled == (u !in s.users || s.users[u].maskingEnabled)
  {
  }
}
