/**
 * Delivering messages between partners: `_handle_message_routing` (random_connect.py
 * lines 369-401) queues a relayed message in the partner's mailbox, and
 * `_handle_inbox_command` (lines 354-367) drains the caller's mailboxes.
 */
module Relay {
  import opened Optional
  import opened Seqs
  import opened Text
  import opened Mailbox
  import opened Engine
  import Redact

  /** A handler's outcome: the next state and the reply text. */
  datatype Reply = Reply(state: State, text: string)

  const NoPartnerReply := "No partner found. Use #meet to connect."

  function SentReply(nickname: string, message: string): string {
    "📤 Message sent to your partner from " + nickname + ": " + message
  }

  /** Text under the sender's masking setting: `process_message` applies it to every
      inbound message (lines 244-246), and routing applies it once more to the text it
      queues for the partner (line 391). */
  function Outgoing(me: UserState, message: string): (r: string)
    ensures !me.maskingEnabled ==> r == message
    ensures me.maskingEnabled ==> Redact.ShortRuns(r, 10)
  {
    if me.maskingEnabled then
      Redact.MaskLeavesNoLongRun(message);
      Redact.MaskPhoneNumbers(message)
    else message
  }

  /** `_handle_message_routing`: a pending notification is answered first (only the newest
      is shown, all are dropped); otherwise the message goes to the partner's capped queue,
      provided both sides still carry the same session id. */
  function RouteMessage(s: State, u: string, message: string): (r: Reply)
    ensures r.state == s.(notifications := s.notifications - {u}, messages := r.state.messages)
    ensures var pending := ListAt(s.notifications, u);
      |pending| > 0 ==> r.state.messages == s.messages && r.text == pending[|pending| - 1]
    ensures u !in s.pairs ==> r.state.messages == s.messages
    ensures r.state.messages != s.messages ==>
      && u in s.pairs && u in s.users
      && r.state.messages == s.messages[s.pairs[u] := PushCapped(ListAt(s.messages, s.pairs[u]), Outgoing(s.users[u], message))]
      && r.text == SentReply(s.users[u].nickname, message)
  {
    var pending := ListAt(s.notifications, u);
    var s1 := s.(notifications := s.notifications - {u});
    if |pending| > 0 then Reply(s1, pending[|pending| - 1])
    else if u !in s1.pairs then Reply(s1, NoPartnerReply)
    else
      var p := s1.pairs[u];
      if u !in s1.users || p !in s1.users || s1.users[u].session != s1.users[p].session then
        Reply(s1, NoPartnerReply)
      else
        var me := s1.users[u];
        var queue := PushCapped(ListAt(s1.messages, p), Outgoing(me, message));
        Reply(s1.(messages := s1.messages[p := queue]), SentReply(me.nickname, message))
  }

  /** A paired user without pending notifications always gets through in a well-formed
      state: the session-mismatch branch never fires. */
  lemma RouteDelivers(s: State, u: string, message: string)
    requires Valid(s) && u in s.pairs && u !in s.notifications
    ensures var r := RouteMessage(s, u, message);
      var p := s.pairs[u];
      && u in s.users
      && r.state.messages == s.messages[p := PushCapped(ListAt(s.messages, p), Outgoing(s.users[u], message))]
      && r.text == SentReply(s.users[u].nickname, message)
  {
    PairedSessionsAgree(s, u);
  }

  /** The three outcomes of routing in a well-formed state; a paired user without pending
      notifications always gets through, and the partner's queue keeps the newest
      `Capacity` messages. */
  lemma RouteSpec(s: State, u: string, message: string)
    requires Valid(s)
    ensures var r := RouteMessage(s, u, message);
      && (u in s.notifications ==>
            r.state == s.(notifications := s.notifications - {u})
            && r.text == s.notifications[u][|s.notifications[u]| - 1])
      && (u !in s.notifications && u !in s.pairs ==> r.state == s && r.text == NoPartnerReply)
      && (u !in s.notifications && u in s.pairs ==>
            var p := s.pairs[u];
            var sent := Outgoing(s.users[u], message);
            && r.state == s.(messages := s.messages[p := Last(Capacity, ListAt(s.messages, p) + [sent])])
            && r.text == SentReply(s.users[u].nickname, message))
  {
    if u !in s.notifications && u in s.pairs {
      RouteDelivers(s, u, message);
      var p := s.pairs[u];
      assert |ListAt(s.messages, p)| <= Capacity;
    }
  }

  /** Pushing onto one queue keeps every queue non-empty and within the cap. */
  lemma PushKeepsQueuesOk(msgs: map<string, seq<string>>, p: string, m: string)
    requires forall v :: v in msgs ==> 0 < |msgs[v]| <= Capacity
    ensures var after := msgs[p := PushCapped(ListAt(msgs, p), m)];
      forall v :: v in after ==> 0 < |after[v]| <= Capacity
  {
    assert |ListAt(msgs, p)| <= Capacity;
  }

  lemma RouteValid(s: State, u: string, message: string)
    requires Valid(s)
    ensures Valid(RouteMessage(s, u, message).state)
  {
    var r := RouteMessage(s, u, message).state;
    if r.messages != s.messages {
      PushKeepsQueuesOk(s.messages, s.pairs[u], Outgoing(s.users[u], message));
    }
    assert MailboxesOk(r);
    MailboxesOnlyValid(s, r);
  }

  /** `_handle_inbox_command`: drains both of the caller's mailboxes. */
  function Inbox(s: State, u: string): (r: Reply)
    ensures u !in r.state.notifications && u !in r.state.messages
    ensures r.state == s.(notifications := s.notifications - {u}, messages := s.messages - {u})
    ensures r.text == InboxEmpty <==> |ListAt(s.notifications, u)| == 0 && |ListAt(s.messages, u)| == 0
  {
    var ns := ListAt(s.notifications, u);
    var ms := ListAt(s.messages, u);
    InboxReplyEmptyIff(ns, ms);
    Reply(s.(notifications := s.notifications - {u}, messages := s.messages - {u}), InboxReply(ns, ms))
  }

  /** In a well-formed state the inbox is empty exactly when the user has no mailbox. */
  lemma InboxEmptyIff(s: State, u: string)
    requires Valid(s)
    ensures Inbox(s, u).text == InboxEmpty <==> u !in s.notifications && u !in s.messages
  {
  }

  lemma InboxValid(s: State, u: string)
    requires Valid(s)
    ensures Valid(Inbox(s, u).state)
  {
    var r := s.(notifications := s.notifications - {u}, messages := s.messages - {u});
    assert MailboxesOk(r);
    MailboxesOnlyValid(s, r);
    assert Inbox(s, u).state == r;
  }

  /** End to end: a message relayed by a paired user shows up as the last line of the
      partner's next `#M`. */
  lemma RelayedReachesInbox(s: State, u: string, message: string)
    requires Valid(s) && u in s.pairs && u !in s.notifications
    ensures var r := RouteMessage(s, u, message);
      EndsWith(Inbox(r.state, s.pairs[u]).text, PartnerLine(Outgoing(s.users[u], message)))
  {
    RouteDelivers(s, u, message);
    var r := RouteMessage(s, u, message);
    var p := s.pairs[u];
    var ms := ListAt(r.state.messages, p);
    assert ms == PushCapped(ListAt(s.messages, p), Outgoing(s.users[u], message));
    InboxEndsWithNewest(ListAt(r.state.notifications, p), ms);
  }
}
