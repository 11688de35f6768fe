/**
 * The manager over time: a run is a sequence of inbound messages and cleanup sweeps
 * applied to the global `RandomConnectManager()` (random_connect.py line 435).
 */
module Lifecycle {
  import opened Optional
  import opened Engine
  import Router
  import Reaper

  datatype Event =
    | Message(user: string, text: string, nickname: Option<string>, now: int)
    | Cleanup(now: int, timeoutMinutes: int)

  function Step(s: State, e: Event): State {
    match e
    case Message(u, text, nickname, now) => Router.Process(s, u, text, nickname, now).state
    case Cleanup(now, timeoutMinutes) => Reaper.CleanupInactiveUsers(s, now, timeoutMinutes)
  }

  function Run(s: State, events: seq<Event>): State
    decreases |events|
  {
    if |events| == 0 then s else Run(Step(s, events[0]), events[1..])
  }

  lemma StepValid(s: State, e: Event)
    requires Valid(s)
    ensures Valid(Step(s, e))
  {
    match e
    case Message(u, text, nickname, now) => Router.ProcessValid(s, u, text, nickname, now);
    case Cleanup(now, timeoutMinutes) => Reaper.CleanupKeepsExactlyActive(s, now, timeoutMinutes);
  }

  lemma {:induction false} RunValid(s: State, events: seq<Event>)
    requires Valid(s)
    ensures Valid(Run(s, events))
    decreases |events|
  {
    if |events| > 0 {
      StepValid(s, events[0]);
      RunValid(Step(s, events[0]), events[1..]);
    }
  }

  lemma StepFresh(s: State, e: Event)
    ensures SessionsFresh(s, Step(s, e))
  {
    match e
    case Message(u, text, nickname, now) => Router.ProcessFresh(s, u, text, nickname, now);
    case Cleanup(now, timeoutMinutes) => Reaper.ReapAllFresh(s, Reaper.InactiveUsers(s, now, timeoutMinutes));
  }

  lemma {:induction false} RunFresh(s: State, events: seq<Event>)
    ensures SessionsFresh(s, Run(s, events))
    decreases |events|
  {
    if |events| == 0 {
      NoNewSessions(s, s);
    } else {
      StepFresh(s, events[0]);
      RunFresh(Step(s, events[0]), events[1..]);
      FreshChain(s, Step(s, events[0]), Run(s, events));
    }
  }

  /** Session ids are fresh on every pairing: whatever happened since a valid state `s`
      (for example `#bye` and other traffic), a user who is unpaired and then paired by
      the next event gets a session id that nobody held in `s`, so in particular not the
      user's own earlier one. */
  lemma RepairedSessionIsNew(s: State, events: seq<Event>, e: Event, u: string)
    requires Valid(s)
    requires var t := Run(s, events); u !in t.pairs && u in Step(t, e).pairs
    ensures var r := Step(Run(s, events), e);
      && u in r.users && r.users[u].session.Some?
      && forall v :: v in s.users ==> s.users[v].session != r.users[u].session
  {
    var t := Run(s, events);
    RunValid(s, events);
    StepValid(t, e);
    RunFresh(s, events);
    StepFresh(t, e);
    PairedAfresh(s, t, Step(t, e), u);
  }

  /** The state-level argument: `u` held no session in `t`, so the one it holds in `r` is
      at least `t`'s counter, which no id in use at `s` reaches. */
  lemma PairedAfresh(s: State, t: State, r: State, u: string)
    requires SessionsIssued(s) && SessionsFresh(s, t) && SessionsFresh(t, r)
    requires Known(t) && Mirrored(t) && Known(r) && Mirrored(r)
    requires u !in t.pairs && u in r.pairs
    ensures u in r.users && r.users[u].session.Some?
    ensures forall v :: v in s.users ==> s.users[v].session != r.users[u].session
  {
    assert u !in t.users || t.users[u].session.None?;
  }

  /** What a user of the manager sees of its consistency: nobody is both waiting and
      chatting, pairings are mutual, partners share a session id, and the statistics
      count each pair once. */
  predicate Consistent(s: State) {
    && (forall u :: u in s.waiting.members ==> u !in s.pairs)
    && (forall a :: a in s.pairs ==> s.pairs[a] in s.pairs && s.pairs[s.pairs[a]] == a)
    && (forall a :: a in s.pairs ==>
          a in s.users && s.pairs[a] in s.users
          && s.users[a].session.Some? && s.users[a].session == s.users[s.pairs[a]].session)
    && 2 * Reaper.SystemStats(s).activePairs == |s.pairs|
  }

  /** Whatever happens from start-up, the manager stays consistent. */
  lemma ReachableIsConsistent(events: seq<Event>)
    ensures Consistent(Run(Init(), events))
  {
    InitValid();
    RunValid(Init(), events);
    Reaper.StatsCountOnce(Run(Init(), events));
  }
}
