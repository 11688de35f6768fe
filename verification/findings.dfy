/**
 * Python truthiness on partner ids. `end_chat` (random_connect.py line 187), the `#meet`
 * handler (lines 296 and 301), the `#bye` handler (line 314), the `#again` handler
 * (line 332), `get_partner_nickname` (line 229) and message routing (line 380) test
 * `if partner_id:`, which is false for the empty user id as well as for "no partner".
 * Once a user with the empty id is paired, its partner can neither end the chat nor be
 * refused a second `#meet`, ends up both paired and waiting, cannot send, and is told
 * "looking" when it was in fact matched. The rest of the model tests presence in
 * `active_pairs`.
 */
module Findings {
  import opened Optional
  import opened Engine
  import opened Pairing
  import WaitQueue
  import Relay
  import Router

  /** `end_chat` as written: a partner id of "" is treated as no partner. It agrees with
      the corrected `EndChat` whenever the partner id is not empty. */
  function EndChatAsWritten(s: State, u: string): (r: Outcome)
    ensures u !in s.pairs || s.pairs[u] != "" ==> r == EndChat(s, u)
    ensures u in s.pairs && s.pairs[u] == "" ==> r.partner.None? && r.state.pairs == s.pairs
  {
    if u in s.pairs && s.pairs[u] != "" then EndChat(s, u)
    else Outcome(s.(waiting := WaitQueue.Remove(s.waiting, u)), None)
  }

  /** `get_partner_nickname` as written: `if partner_id and ...` (line 229). */
  function GetPartnerNicknameAsWritten(s: State, u: string): (r: Option<string>)
    ensures u !in s.pairs || s.pairs[u] != "" ==> r == GetPartnerNickname(s, u)
    ensures u in s.pairs && s.pairs[u] == "" ==> r.None?
  {
    if u in s.pairs && s.pairs[u] != "" && s.pairs[u] in s.users then Some(s.users[s.pairs[u]].nickname)
    else None
  }

  /** `_handle_meet_command` as written: `if current_partner:` and `if partner_id:`. It
      agrees with the corrected handler unless the empty id is paired or waiting. */
  function HandleMeetAsWritten(s: State, u: string): (r: Relay.Reply)
    ensures (u !in s.pairs || s.pairs[u] != "") && "" !in s.waiting.members ==> r == Router.HandleMeet(s, u)
    ensures u in s.pairs && s.pairs[u] == "" ==> r.state == FindPartner(s, u).state
  {
    if u in s.pairs && s.pairs[u] != "" then Relay.Reply(s, Router.AlreadyChattingReply)
    else
      var o := FindPartner(s, u);
      if o.partner.Some? && o.partner.value != "" then
        Relay.Reply(o.state, Router.ConnectedReply(GetPartnerNicknameAsWritten(o.state, u)))
      else Relay.Reply(o.state, Router.LookingReply)
  }

  /** `_handle_bye_command` as written: `if partner_id:` (line 314) on what the as-written
      `end_chat` returns. */
  function HandleByeAsWritten(s: State, u: string): (r: Relay.Reply)
    ensures u !in s.pairs || s.pairs[u] != "" ==> r == Router.HandleBye(s, u)
    ensures u in s.pairs && s.pairs[u] == "" ==> r.text == Router.NotInChatReply && r.state.pairs == s.pairs
  {
    var o := EndChatAsWritten(s, u);
    Relay.Reply(o.state, if o.partner.Some? && o.partner.value != "" then Router.ChatEndedReply else Router.NotInChatReply)
  }

  /** `_handle_again_command` as written: the as-written `end_chat`, then
      `if new_partner_id:` (line 332) on what `find_partner` returns. It agrees with the
      corrected handler unless the empty id is paired with the user or waiting. */
  function HandleAgainAsWritten(s: State, u: string): (r: Relay.Reply)
    ensures (u !in s.pairs || s.pairs[u] != "") && "" !in s.waiting.members ==> r == Router.HandleAgain(s, u)
  {
    var ended := EndChatAsWritten(s, u);
    var o := FindPartner(ended.state, u);
    if o.partner.Some? && o.partner.value != "" then
      Relay.Reply(o.state, Router.NewConnectionReply(GetPartnerNicknameAsWritten(o.state, u)))
    else Relay.Reply(o.state, Router.LookingAgainReply)
  }

  /** `_handle_who_command` over the as-written `get_partner_nickname`. */
  function HandleWhoAsWritten(s: State, u: string): (r: Relay.Reply)
    ensures u !in s.pairs || s.pairs[u] != "" ==> r == Router.HandleWho(s, u)
    ensures u in s.pairs && s.pairs[u] == "" ==> r == Relay.Reply(s, Router.NobodyReply)
  {
    var nick := GetPartnerNicknameAsWritten(s, u);
    Relay.Reply(s, if nick.Some? && nick.value != "" then Router.WhoReply(nick.value) else Router.NobodyReply)
  }

  /** `_handle_message_routing` as written: `if not partner_id:` (line 380) turns away a
      user whose partner id is empty, so nothing is queued. It agrees with
      `Relay.RouteMessage` otherwise. */
  function RouteMessageAsWritten(s: State, u: string, message: string): (r: Relay.Reply)
    ensures u !in s.pairs || s.pairs[u] != "" ==> r == Relay.RouteMessage(s, u, message)
    ensures u in s.pairs && s.pairs[u] == "" && |ListAt(s.notifications, u)| == 0 ==>
      r.state.messages == s.messages && r.text == Relay.NoPartnerReply
  {
    if u in s.pairs && s.pairs[u] == "" && |ListAt(s.notifications, u)| == 0 then
      Relay.Reply(s.(notifications := s.notifications - {u}), Relay.NoPartnerReply)
    else Relay.RouteMessage(s, u, message)
  }

  /** The user with the empty id has a profile and nothing else has happened. */
  function Joined(): State {
    GetOrCreate(Init(), "", None, 0)
  }

  /** From `Joined`, the user with the empty id has sent `#meet` and waits alone. */
  function Alone(): State {
    Router.HandleMeet(Joined(), "").state
  }

  /** From `Alone`, user "b" gets a profile. */
  function Waiting(): State {
    GetOrCreate(Alone(), "b", None, 1)
  }

  /** From `Waiting`, user "b" sends `#meet` and is matched with the empty id. */
  function Scenario(): State {
    Router.HandleMeet(Waiting(), "b").state
  }

  lemma JoinedValid()
    ensures var j := Joined();
      && Valid(j) && j.pairs == map[] && j.waiting.order == [] && "" in j.users
      && j.users.Keys == {""} && j.notifications == map[] && j.messages == map[]
      && j.users[""].nickname == "User_"
  {
    InitValid();
    GetOrCreateValid(Init(), "", None, 0);
  }

  lemma AloneValid()
    ensures var a := Alone();
      && Valid(a) && a.pairs == map[] && a.waiting.order == [""]
      && a.users.Keys == {""} && a.notifications == map[] && a.messages == map[]
      && a.users[""].nickname == "User_"
  {
    JoinedValid();
    Router.MeetPairsOrQueues(Joined(), "");
    Router.MeetValid(Joined(), "");
  }

  lemma WaitingValid()
    ensures var w := Waiting();
      && Valid(w) && w.pairs == map[] && w.waiting.order == [""]
      && w.users.Keys == {"", "b"} && w.notifications == map[] && w.messages == map[]
      && w.users[""].nickname == "User_"
  {
    AloneValid();
    GetOrCreateValid(Alone(), "b", None, 1);
  }

  lemma ScenarioValid()
    ensures Valid(Scenario()) && Scenario().pairs == map["b" := "", "" := "b"]
  {
    WaitingValid();
    var w := Waiting();
    assert Seqs.Without(w.waiting.order, "b") == [""];
    Router.MeetPairsOrQueues(w, "b");
    Router.MeetValid(w, "b");
  }

  /** Only the two users of the scenario have profiles, "b" has no pending notification,
      no message is queued, and the empty id's nickname is the default one. */
  lemma ScenarioUsers()
    ensures Scenario().users.Keys == {"", "b"} && "b" !in Scenario().notifications
    ensures Scenario().messages == map[]
    ensures Scenario().users[""].nickname == "User_"
  {
    WaitingValid();
    MeetKeepsProfiles(Waiting(), "b");
  }

  /** `#meet` keeps profiles, nicknames and message queues, and notifies nobody but the
      partner. */
  lemma MeetKeepsProfiles(s: State, u: string)
    requires Valid(s) && u in s.users && u !in s.pairs
    ensures var r := Router.HandleMeet(s, u).state;
      && r.users.Keys == s.users.Keys && r.messages == s.messages
      && (forall v :: v in s.users ==> r.users[v].nickname == s.users[v].nickname)
      && forall v :: FindPartner(s, u).partner.None? || v != FindPartner(s, u).partner.value ==>
           ListAt(r.notifications, v) == ListAt(s.notifications, v)
  {
    var o := FindPartner(s, u);
    assert Router.HandleMeet(s, u).state == o.state;
    assert forall v :: v in s.users ==> SameProfile(o.state.users[v], s.users[v]);
  }

  /** As written, "b" cannot leave the chat with `#bye`, and a second `#meet` queues "b"
      while still paired, so "b" is both waiting and chatting. */
  lemma EmptyIdBreaksExclusive()
    ensures var s := Scenario();
      && EndChatAsWritten(s, "b").partner.None? && "b" in EndChatAsWritten(s, "b").state.pairs
      && var m := HandleMeetAsWritten(s, "b").state;
         "b" in m.waiting.members && "b" in m.pairs && !Exclusive(m)
  {
    ScenarioValid();
    ScenarioUsers();
    EmptyPartnerBreaks(Scenario());
  }

  /** Any valid state in which "b" is paired with the empty id goes wrong as written. */
  lemma EmptyPartnerBreaks(s: State)
    requires Valid(s) && s.pairs == map["b" := "", "" := "b"] && s.users.Keys == {"", "b"}
    ensures && EndChatAsWritten(s, "b").partner.None? && "b" in EndChatAsWritten(s, "b").state.pairs
      && var m := HandleMeetAsWritten(s, "b").state;
         "b" in m.waiting.members && "b" in m.pairs && !Exclusive(m)
  {
    assert s.waiting.members == {};
    WaitQueue.SizeMatches(s.waiting);
    assert |s.waiting.order| == 0;
    assert WaitQueue.Remove(s.waiting, "b") == s.waiting;
    var o := FindPartner(s, "b");
    assert o == Outcome(s.(waiting := WaitQueue.Add(s.waiting, "b")), None);
  }

  /** As written, in the scenario state "b" cannot send: the content `hi` of `#R hi` (see
      `Router.SendCarriesBody`) is dropped with "No partner found"; `#bye` claims "b" is not in a chat and `#who` names nobody. The
      corrected operations queue the message for the empty id, end the chat and name
      the empty id's nickname. */
  lemma EmptyPartnerSilenced()
    ensures var s := Scenario();
      && RouteMessageAsWritten(s, "b", "hi").text == Relay.NoPartnerReply
      && RouteMessageAsWritten(s, "b", "hi").state.messages == map[]
      && |ListAt(Relay.RouteMessage(s, "b", "hi").state.messages, "")| == 1
      && HandleByeAsWritten(s, "b").text == Router.NotInChatReply
      && Router.HandleBye(s, "b").text == Router.ChatEndedReply
      && HandleWhoAsWritten(s, "b").text == Router.NobodyReply
      && Router.HandleWho(s, "b").text == Router.WhoReply("User_")
  {
    ScenarioValid();
    ScenarioUsers();
    var s := Scenario();
    SendSilenced(s, "hi");
    ByeAndWhoSilenced(s);
  }

  /** In any valid state in which "b" is paired with the empty id, has no pending
      notification and nobody has queued messages, the message "b" sends is dropped as
      written and queued for the empty id by the corrected routing. */
  lemma SendSilenced(s: State, m: string)
    requires Valid(s) && s.pairs == map["b" := "", "" := "b"] && "b" !in s.notifications
    requires s.messages == map[]
    ensures && RouteMessageAsWritten(s, "b", m).text == Relay.NoPartnerReply
      && RouteMessageAsWritten(s, "b", m).state.messages == map[]
      && "b" in s.users
      && ListAt(Relay.RouteMessage(s, "b", m).state.messages, "") == [Relay.Outgoing(s.users["b"], m)]
  {
    Relay.RouteDelivers(s, "b", m);
  }

  /** In any valid state in which "b" is paired with the empty id, whose nickname is the
      default one, `#bye` and `#who` from "b" answer as if "b" had no partner as written. */
  lemma ByeAndWhoSilenced(s: State)
    requires Valid(s) && s.pairs == map["b" := "", "" := "b"]
    requires "" in s.users && s.users[""].nickname == "User_"
    ensures && HandleByeAsWritten(s, "b").text == Router.NotInChatReply
      && Router.HandleBye(s, "b").text == Router.ChatEndedReply
      && HandleWhoAsWritten(s, "b").text == Router.NobodyReply
      && Router.HandleWho(s, "b").text == Router.WhoReply("User_")
  {
  }

  /** As written, with the empty id waiting, `#meet` or `#again` from "b" pairs "b" with it
      but replies that "b" is still looking; the corrected replies announce the match. */
  lemma MatchReportedAsLooking()
    ensures var w := Waiting();
      && "b" in HandleMeetAsWritten(w, "b").state.pairs
      && HandleMeetAsWritten(w, "b").text == Router.LookingReply
      && Router.HandleMeet(w, "b").text != Router.LookingReply
      && "b" in HandleAgainAsWritten(w, "b").state.pairs
      && HandleAgainAsWritten(w, "b").text == Router.LookingAgainReply
      && Router.HandleAgain(w, "b").text != Router.LookingAgainReply
  {
    WaitingValid();
    MatchedAsLooking(Waiting());
  }

  /** Any valid state in which only the empty id waits and "b" is an unpaired user. */
  lemma MatchedAsLooking(w: State)
    requires Valid(w) && w.waiting.order == [""] && "b" in w.users && "b" !in w.pairs
    ensures && "b" in HandleMeetAsWritten(w, "b").state.pairs
      && HandleMeetAsWritten(w, "b").text == Router.LookingReply
      && Router.HandleMeet(w, "b").text != Router.LookingReply
      && "b" in HandleAgainAsWritten(w, "b").state.pairs
      && HandleAgainAsWritten(w, "b").text == Router.LookingAgainReply
      && Router.HandleAgain(w, "b").text != Router.LookingAgainReply
  {
    assert Seqs.Without(w.waiting.order, "b") == [""];
    FindPartnerSpec(w, "b");
    assert EndChatAsWritten(w, "b").state == EndChat(w, "b").state == w;
  }

  /** The corrected operations on the same state: `#bye` ends the chat with "" and frees
      both, and a second `#meet` is refused without changing anything. */
  lemma CorrectedKeepsExclusive()
    ensures var s := Scenario();
      && EndChat(s, "b").partner == Some("") && "b" !in EndChat(s, "b").state.pairs
      && Router.HandleMeet(s, "b") == Relay.Reply(s, Router.AlreadyChattingReply)
      && Exclusive(Router.HandleMeet(s, "b").state)
  {
    ScenarioValid();
  }
}
