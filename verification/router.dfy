/**
 * The message front end: `is_command`, `process_message` and the command handlers
 * (random_connect.py lines 233-352). Every inbound message first touches the sender's
 * profile, is masked when the sender has masking on, and is then dispatched on its
 * stripped, lower-cased prefix.
 */
module Router {
  import opened Optional
  import opened Seqs
  import opened Text
  import opened Mailbox
  import opened Engine
  import opened Pairing
  import Relay
  import Redact

  datatype Command = Meet | Bye | Again | Hide | Who | CheckInbox | Send | Plain

  /** The command prefixes in the order `process_message` tests them, and what each selects. */
  const Prefixes: seq<string> := ["#meet", "#bye", "#again", "#hide", "#who", "#m", "#r"]
  const Selected: seq<Command> := [Meet, Bye, Again, Hide, Who, CheckInbox, Send]

  const AlreadyChattingReply := "You're already in a chat! Use #bye to end it first, or #again to find a new partner."
  const LookingReply := "🔍" + " Looking for someone to chat with... Please wait while we find you a partner!"
  const ChatEndedReply := "👋 Chat ended. Use #meet to connect with someone new!"
  const NotInChatReply := "You're not currently in a chat."
  const LookingAgainReply := "🔍" + " Looking for a new chat partner... Please wait!"
  const NobodyReply := "You're not currently in a chat. Use #meet to connect!"
  const UsageReply := "Usage: #R your message here"
  const StrictTip := "Use #R to send a message to your partner, and #M to check messages."

  /** `f"{partner_nickname}"`, which renders a missing nickname as `None`. */
  function Shown(nickname: Option<string>): string {
    if nickname.Some? then nickname.value else "None"
  }

  /** The "Connected!" reply; its leading emoji tells it apart from the "Looking" reply. */
  function ConnectedReply(nickname: Option<string>): (r: string)
    ensures |r| > 0 && r[0] != LookingReply[0]
  {
    "🎉" + " Connected! You're now chatting with " + Shown(nickname) + ". Say hello!"
  }

  /** The "New connection!" reply; its leading emoji tells it apart from the "Looking" reply. */
  function NewConnectionReply(nickname: Option<string>): (r: string)
    ensures |r| > 0 && r[0] != LookingAgainReply[0]
  {
    "🔄" + " New connection! You're now chatting with " + Shown(nickname) + ". Say hello!"
  }

  function MaskingReply(enabled: bool): string {
    "🔒 Phone number masking is now " + (if enabled then "ON" else "OFF") + "."
  }

  function WhoReply(nickname: string): string {
    "👤 You're chatting with: " + nickname
  }

  /** `message.strip().lower()` */
  function Normalize(m: string): string {
    Lower(Strip(m))
  }

  /** The `if`/`elif` chain of `process_message`: the first prefix that matches wins. */
  function Classify(m: string): Command {
    Select(Normalize(m))
  }

  function Select(t: string): Command {
    if StartsWith(t, "#meet") then Meet
    else if StartsWith(t, "#bye") then Bye
    else if StartsWith(t, "#again") then Again
    else if StartsWith(t, "#hide") then Hide
    else if StartsWith(t, "#who") then Who
    else if StartsWith(t, "#m") then CheckInbox
    else if StartsWith(t, "#r") then Send
    else Plain
  }

  /** `any(message.startswith(cmd) for cmd in commands)` on the normalized message. */
  predicate AnyPrefix(t: string) {
    exists k :: 0 <= k < |Prefixes| && StartsWith(t, Prefixes[k])
  }

  /** The chain selects the command of the first matching prefix, and falls through
      exactly when no prefix matches. */
  lemma SelectIsFirstMatch(t: string)
    ensures Select(t) == Plain <==> !AnyPrefix(t)
    ensures forall k :: 0 <= k < |Prefixes| && StartsWith(t, Prefixes[k]) && FirstAt(t, k) ==> Select(t) == Selected[k]
  {
    var p0, p1, p2, p3, p4, p5, p6 := Prefixes[0], Prefixes[1], Prefixes[2], Prefixes[3], Prefixes[4], Prefixes[5], Prefixes[6];
    if StartsWith(t, p0) || StartsWith(t, p1) || StartsWith(t, p2) || StartsWith(t, p3)
      || StartsWith(t, p4) || StartsWith(t, p5) || StartsWith(t, p6) {
      assert AnyPrefix(t);
    }
    forall k | 0 <= k < |Prefixes| && StartsWith(t, Prefixes[k]) && FirstAt(t, k)
      ensures Select(t) == Selected[k]
    {
      if k >= 1 { assert !StartsWith(t, p0); }
      if k >= 2 { assert !StartsWith(t, p1); }
      if k >= 3 { assert !StartsWith(t, p2); }
      if k >= 4 { assert !StartsWith(t, p3); }
      if k >= 5 { assert !StartsWith(t, p4); }
      if k >= 6 { assert !StartsWith(t, p5); }
    }
  }

  /** No prefix before the `k`-th matches `t`. */
  predicate FirstAt(t: string, k: nat) {
    forall j :: 0 <= j < k && j < |Prefixes| ==> !StartsWith(t, Prefixes[j])
  }

  /** `is_command`: exactly when `process_message` takes a command branch. */
  function IsCommand(m: string): (r: bool)
    ensures r <==> Classify(m) != Plain
  {
    SelectIsFirstMatch(Normalize(m));
    AnyPrefix(Normalize(m))
  }

  /** The text after `#r`: `message.strip()[2:].strip()`, empty when nothing follows.
      It is the piece of the stripped message after its first two characters that has
      only whitespace around it and none at its own ends. */
  function RelayContent(m: string): (r: string)
    ensures |Strip(m)| <= 2 ==> r == ""
    ensures |r| > 0 ==> |r| + 2 <= |Strip(m)| && !IsSpace(r[0]) && !IsSpace(r[|r| - 1])
    ensures var t := Strip(m);
      |t| > 2 ==> exists i :: AroundSpaces(t, 2, i, r)
  {
    var t := Strip(m);
    if |t| > 2 then
      ContentInner(t);
      Strip(t[2..])
    else ""
  }

  /** `t[from..]` is whitespace, then `piece` starting at `i`, then whitespace. */
  predicate AroundSpaces(t: string, from: nat, i: nat, piece: string) {
    && from <= i && i + |piece| <= |t|
    && (forall k :: 0 <= k < |piece| ==> piece[k] == t[i + k])
    && (forall k :: from <= k < i ==> IsSpace(t[k]))
    && (forall k :: i + |piece| <= k < |t| ==> IsSpace(t[k]))
  }

  lemma ContentInner(t: string)
    requires |t| > 2
    ensures AroundSpaces(t, 2, 2 + StripStart(t[2..], 0), Strip(t[2..]))
  {
    var x := t[2..];
    ShiftAround(t, x, StripStart(x, 0), Strip(x));
  }

  /** A piece between whitespace in `t[2..]` sits between whitespace in `t`, two further on. */
  lemma ShiftAround(t: string, x: string, j: nat, r: string)
    requires |t| >= 2 && x == t[2..] && j + |r| <= |x|
    requires forall k :: 0 <= k < |r| ==> r[k] == x[j + k]
    requires forall k :: 0 <= k < j ==> IsSpace(x[k])
    requires forall k :: j + |r| <= k < |x| ==> IsSpace(x[k])
    ensures AroundSpaces(t, 2, 2 + j, r)
  {
    forall k | 2 <= k < 2 + j ensures IsSpace(t[k]) {
      assert t[k] == x[k - 2];
    }
    forall k | 2 + j + |r| <= k < |t| ensures IsSpace(t[k]) {
      assert t[k] == x[k - 2];
    }
  }

  /** A normalized message starting with `#r` is a relay command: no earlier prefix can match. */
  lemma HashRSelectsSend(t: string)
    requires |t| >= 2 && t[0] == '#' && t[1] == 'r'
    ensures Select(t) == Send
  {
    assert !StartsWith(t, "#meet") && !StartsWith(t, "#bye") && !StartsWith(t, "#again");
    assert !StartsWith(t, "#hide") && !StartsWith(t, "#who") && !StartsWith(t, "#m");
    assert t[..2] == "#r";
  }

  /** Stripping a space-led string whose body has no whitespace at its ends yields the body. */
  lemma StripSpaceLed(body: string)
    requires |body| > 0 && !IsSpace(body[0]) && !IsSpace(body[|body| - 1])
    ensures Strip([' '] + body) == body
  {
    var rest := [' '] + body;
    assert StripStart(rest, 1) == 1;
    assert StripStart(rest, 0) == 1;
    var r := Strip(rest);
    assert |r| == |body|;
    assert forall k :: 0 <= k < |r| ==> r[k] == body[k];
  }

  /** A message opening with `#R ` and ending in a non-space character is already stripped. */
  lemma SendIsStripped(r: char, body: string)
    requires |body| > 0 && !IsSpace(body[|body| - 1])
    ensures Strip(['#', r, ' '] + body) == ['#', r, ' '] + body
  {
    var m := ['#', r, ' '] + body;
    assert m[0] == '#' && m[|m| - 1] == body[|body| - 1];
  }

  /** `#R body` relays exactly `body` when it has no whitespace at its ends, whatever the
      case of the command letter. */
  lemma SendCarriesBody(r: char, body: string)
    requires r == 'r' || r == 'R'
    requires |body| > 0 && !IsSpace(body[0]) && !IsSpace(body[|body| - 1])
    ensures Classify(['#', r, ' '] + body) == Send
    ensures RelayContent(['#', r, ' '] + body) == body
  {
    SendClassified(r, body);
    SendContent(r, body);
  }

  lemma SendClassified(r: char, body: string)
    requires r == 'r' || r == 'R'
    requires |body| > 0 && !IsSpace(body[|body| - 1])
    ensures Classify(['#', r, ' '] + body) == Send
  {
    var m := ['#', r, ' '] + body;
    SendIsStripped(r, body);
    var t := Lower(m);
    assert t[0] == LowerChar(m[0]) && t[1] == LowerChar(m[1]);
    HashRSelectsSend(t);
  }

  lemma SendContent(r: char, body: string)
    requires |body| > 0 && !IsSpace(body[0]) && !IsSpace(body[|body| - 1])
    ensures RelayContent(['#', r, ' '] + body) == body
  {
    var m := ['#', r, ' '] + body;
    SendIsStripped(r, body);
    assert m[2..] == [' '] + body;
    StripSpaceLed(body);
  }

  // ---------------------------------------------------------------------------
  // Handlers

  /** `_handle_meet_command` */
  function HandleMeet(s: State, u: string): (r: Relay.Reply)
    ensures u in s.pairs ==> r == Relay.Reply(s, AlreadyChattingReply)
    ensures u !in s.pairs ==> (u in r.state.pairs <==> r.text != LookingReply)
  {
    if u in s.pairs then Relay.Reply(s, AlreadyChattingReply)
    else
      var o := FindPartner(s, u);
      if o.partner.Some? then Relay.Reply(o.state, ConnectedReply(GetPartnerNickname(o.state, u)))
      else Relay.Reply(o.state, LookingReply)
  }

  /** `_handle_bye_command` */
  function HandleBye(s: State, u: string): (r: Relay.Reply)
    ensures r.state == EndChat(s, u).state
    ensures r.text == (if u in s.pairs then ChatEndedReply else NotInChatReply)
  {
    var o := EndChat(s, u);
    Relay.Reply(o.state, if o.partner.Some? then ChatEndedReply else NotInChatReply)
  }

  /** `_handle_again_command`: ends the current chat, then looks for a new partner. */
  function HandleAgain(s: State, u: string): (r: Relay.Reply)
    ensures u in r.state.pairs <==> r.text != LookingAgainReply
  {
    Rematch(EndChat(s, u).state, u)
  }

  /** The second half of `_handle_again_command`: `find_partner` and the reply naming the
      new partner, if any. */
  function Rematch(s: State, u: string): (r: Relay.Reply)
    ensures u !in s.pairs ==> (u in r.state.pairs <==> r.text != LookingAgainReply)
  {
    var o := FindPartner(s, u);
    if o.partner.Some? then Relay.Reply(o.state, NewConnectionReply(GetPartnerNickname(o.state, u)))
    else Relay.Reply(o.state, LookingAgainReply)
  }

  /** `_handle_hide_command` */
  function HandleHide(s: State, u: string, now: int): (r: Relay.Reply)
    ensures r.state == ToggleMasking(s, u, now).state
    ensures r.text == MaskingReply(r.state.users[u].maskingEnabled)
  {
    var t := ToggleMasking(s, u, now);
    Relay.Reply(t.state, MaskingReply(t.enabled))
  }

  /** `_handle_who_command` */
  function HandleWho(s: State, u: string): (r: Relay.Reply)
    ensures r.state == s
    ensures Valid(s) && u in s.pairs && s.users[s.pairs[u]].nickname != "" ==> r.text == WhoReply(s.users[s.pairs[u]].nickname)
    ensures u !in s.pairs ==> r.text == NobodyReply
  {
    var nick := GetPartnerNickname(s, u);
    Relay.Reply(s, if nick.Some? && nick.value != "" then WhoReply(nick.value) else NobodyReply)
  }

  /** Non-command text in permissive mode: routed like `#R`, then up to ten of the
      sender's own queued messages are appended to the reply and the queue is dropped. */
  function HandlePlain(s: State, u: string, m: string): (r: Relay.Reply)
    ensures var out := Relay.RouteMessage(s, u, m);
      var queued := ListAt(out.state.messages, u);
      && r.state == out.state.(messages := out.state.messages - {u})
      && StartsWith(r.text, out.text)
      && (|queued| == 0 ==> r.text == out.text)
      && (|queued| > 0 ==>
            && r.text == out.text + "\n\n" + Join("\n", Piggyback(queued))
            && EndsWith(r.text, PartnerLine(queued[|queued| - 1])))
  {
    var out := Relay.RouteMessage(s, u, m);
    var queued := ListAt(out.state.messages, u);
    var s1 := out.state.(messages := out.state.messages - {u});
    if |queued| > 0 then
      var lines := Piggyback(queued);
      var text := out.text + "\n\n" + Join("\n", lines);
      assert text[..|out.text|] == out.text;
      EndsWithAppended(out.text + "\n\n", Join("\n", lines), lines[|lines| - 1]);
      Relay.Reply(s1, text)
    else Relay.Reply(s1, out.text)
  }

  /** What every handler leaves alone: no profile is dropped and none but the sender's is
      created, other users keep nickname, masking and activity time, a sender already
      stamped with `now` keeps that stamp and its nickname, and strict mode stays. */
  ghost predicate Framed(s: State, r: State, u: string, now: int) {
    && s.users.Keys <= r.users.Keys <= s.users.Keys + {u}
    && (forall v :: v in s.users && v != u ==> SameProfile(r.users[v], s.users[v]))
    && (u in s.users && s.users[u].lastActivity == now ==>
          r.users[u].lastActivity == now && r.users[u].nickname == s.users[u].nickname)
    && r.strictMode == s.strictMode
  }

  /** The command branch of `process_message` for a message already masked. */
  function Dispatch(s: State, u: string, m: string, now: int): (r: Relay.Reply)
    ensures Framed(s, r.state, u, now)
  {
    Handle(s, u, Classify(m), m, now)
  }

  /** The handler for command `c`, which `Dispatch` selects from the message `m`. */
  function Handle(s: State, u: string, c: Command, m: string, now: int): (r: Relay.Reply)
    ensures Framed(s, r.state, u, now)
  {
    if IsSessionCommand(c) then HandleSession(s, u, c, now) else HandleMail(s, u, c, m, now)
  }

  predicate IsSessionCommand(c: Command) {
    c.Meet? || c.Bye? || c.Again? || c.Hide? || c.Who?
  }

  /** The commands about pairing and the profile. */
  function HandleSession(s: State, u: string, c: Command, now: int): (r: Relay.Reply)
    requires IsSessionCommand(c)
    ensures Framed(s, r.state, u, now)
  {
    match c
    case Meet => HandleMeet(s, u)
    case Bye => HandleBye(s, u)
    case Again => HandleAgain(s, u)
    case Hide => HandleHide(s, u, now)
    case Who => HandleWho(s, u)
  }

  /** The commands about mailboxes, and plain text. */
  function HandleMail(s: State, u: string, c: Command, m: string, now: int): (r: Relay.Reply)
    requires !IsSessionCommand(c)
    ensures Framed(s, r.state, u, now)
  {
    match c
    case CheckInbox => Relay.Inbox(s, u)
    case Send =>
      var content := RelayContent(m);
      if content == "" then Relay.Reply(s, UsageReply) else Relay.RouteMessage(s, u, content)
    case Plain =>
      if s.strictMode then Relay.Reply(s, StrictTip) else HandlePlain(s, u, m)
  }

  /** `process_message`: touch (or create) the sender's profile, mask when enabled, dispatch. */
  function Process(s: State, u: string, message: string, nickname: Option<string>, now: int): (r: Relay.Reply)
    ensures r.state.users.Keys == s.users.Keys + {u}
    ensures r.state.users[u].lastActivity == now
    ensures u in s.users ==> r.state.users[u].nickname == s.users[u].nickname
    ensures forall v :: v in s.users && v != u ==> SameProfile(r.state.users[v], s.users[v])
    ensures r.state.strictMode == s.strictMode
  {
    var s1 := GetOrCreate(s, u, nickname, now);
    Dispatch(s1, u, Relay.Outgoing(s1.users[u], message), now)
  }

  // ---------------------------------------------------------------------------
  // Properties

  /** `#meet` from an unpaired user: with nobody else waiting the user is queued alone;
      otherwise the user is paired with the earliest other waiting user and told that
      user's nickname. */
  lemma MeetPairsOrQueues(s: State, u: string)
    requires Valid(s) && u in s.users && u !in s.pairs
    ensures var r := HandleMeet(s, u);
      var others := Without(s.waiting.order, u);
      && (|others| == 0 ==>
            r.text == LookingReply && r.state.pairs == s.pairs && r.state.waiting.order == [u])
      && (|others| > 0 ==>
            others[0] in s.users && r.state.pairs == s.pairs[u := others[0]][others[0] := u]
            && r.state.waiting.order == others[1..]
            && r.text == ConnectedReply(Some(s.users[others[0]].nickname)))
  {
    MatchNamed(s, u);
  }

  /** What `find_partner` does for an unpaired user, including the nickname the caller
      is then told. */
  lemma MatchNamed(s: State, u: string)
    requires Valid(s) && u in s.users && u !in s.pairs
    ensures var o := FindPartner(s, u);
      var others := Without(s.waiting.order, u);
      && (|others| == 0 ==>
            o.partner.None? && o.state.pairs == s.pairs && o.state.waiting.order == [u])
      && (|others| > 0 ==>
            others[0] in s.users && o.partner == Some(others[0])
            && o.state.pairs == s.pairs[u := others[0]][others[0] := u]
            && o.state.waiting.order == others[1..]
            && GetPartnerNickname(o.state, u) == Some(s.users[others[0]].nickname))
  {
    FindPartnerSpec(s, u);
    var others := Without(s.waiting.order, u);
    var o := FindPartner(s, u);
    if |others| > 0 {
      var p := others[0];
      assert p in s.waiting.order && p in s.users;
      assert o.state.pairs[u] == p && p in o.state.users;
      assert SameProfile(o.state.users[p], s.users[p]);
    }
  }

  /** `#bye` leaves the user neither paired nor waiting; a former partner is unpaired too
      and receives the "partner left" notice. */
  lemma ByeLeavesBothFree(s: State, u: string)
    requires Valid(s)
    ensures var r := HandleBye(s, u);
      && u !in r.state.pairs && u !in r.state.waiting.members
      && (u in s.pairs ==>
            var p := s.pairs[u];
            p !in r.state.pairs
            && r.state.notifications[p] == ListAt(s.notifications, p) + [PartnerLeftNote])
  {
    if u in s.pairs {
      EndChatUnpairsBoth(s, u);
    }
  }

  /** `#again` never reconnects a user with the partner it just left: that partner is
      neither paired nor waiting when the new search starts. */
  lemma AgainFindsSomeoneElse(s: State, u: string)
    requires Valid(s) && u in s.pairs
    ensures var r := HandleAgain(s, u);
      u in r.state.pairs ==> r.state.pairs[u] != s.pairs[u]
  {
    var p := s.pairs[u];
    var ended := EndChat(s, u);
    EndChatUnpairsBoth(s, u);
    var o := FindPartner(ended.state, u);
    if o.partner.Some? {
      assert o.partner.value in ended.state.waiting.members;
    }
  }

  /** The effect `#again` promises: a former partner is unpaired and receives the
      "partner left" notice; then, with nobody else waiting, the user waits alone, and
      otherwise the user is paired with the earliest other waiting user and told that
      user's nickname. */
  ghost predicate AgainOutcome(s: State, u: string, r: Relay.Reply) {
    var others := Without(s.waiting.order, u);
    && (u in s.pairs ==>
          && s.pairs[u] !in r.state.pairs
          && ListAt(r.state.notifications, s.pairs[u])
               == ListAt(s.notifications, s.pairs[u]) + [PartnerLeftNote])
    && (|others| == 0 ==>
          r.text == LookingAgainReply && u !in r.state.pairs && r.state.waiting.order == [u])
    && (|others| > 0 ==>
          others[0] in s.users && u in r.state.pairs && r.state.pairs[u] == others[0]
          && r.state.waiting.order == others[1..]
          && r.text == NewConnectionReply(Some(s.users[others[0]].nickname)))
  }

  /** `#again` in a valid state does what `AgainOutcome` describes. */
  lemma AgainSpec(s: State, u: string)
    requires Valid(s) && u in s.users
    ensures AgainOutcome(s, u, HandleAgain(s, u))
  {
    var ended := EndChat(s, u).state;
    EndForAgain(s, u);
    RematchSpec(ended, u);
    AgainCombine(s, u, ended, Rematch(ended, u));
  }

  /** The first half of `#again` leaves the user unpaired and unqueued, keeps the rest of
      the queue and every nickname, and frees a former partner with one notice. */
  lemma EndForAgain(s: State, u: string)
    requires Valid(s) && u in s.users
    ensures var ended := EndChat(s, u).state;
      && Valid(ended) && u in ended.users && u !in ended.pairs
      && Without(ended.waiting.order, u) == Without(s.waiting.order, u)
      && (forall v :: v in ended.users ==> v in s.users && SameProfile(ended.users[v], s.users[v]))
      && (u in s.pairs ==>
            && s.pairs[u] != u && s.pairs[u] !in ended.pairs && s.pairs[u] !in ended.waiting.members
            && ListAt(ended.notifications, s.pairs[u]) == ListAt(s.notifications, s.pairs[u]) + [PartnerLeftNote])
  {
    var ended := EndChat(s, u).state;
    EndChatValid(s, u);
    if u in s.pairs {
      EndChatUnpairsBoth(s, u);
      assert ended.waiting == s.waiting;
    } else {
      assert ended.waiting == WaitQueue.Remove(s.waiting, u);
    }
  }

  /** Chaining the end of the chat with `Rematch` gives `AgainOutcome`. */
  lemma AgainCombine(s: State, u: string, ended: State, r: Relay.Reply)
    requires Rematched(ended, u, r) && u !in ended.pairs
    requires Without(ended.waiting.order, u) == Without(s.waiting.order, u)
    requires forall v :: v in ended.users ==> v in s.users && SameProfile(ended.users[v], s.users[v])
    requires u in s.pairs ==>
      && s.pairs[u] != u && s.pairs[u] !in ended.pairs && s.pairs[u] !in ended.waiting.members
      && ListAt(ended.notifications, s.pairs[u]) == ListAt(s.notifications, s.pairs[u]) + [PartnerLeftNote]
    ensures AgainOutcome(s, u, r)
  {
    var others := Without(s.waiting.order, u);
    if u in s.pairs && |others| > 0 {
      assert s.pairs[u] != others[0];
    }
  }

  /** What `Rematch` does for an unpaired user: queued alone when nobody else waits,
      otherwise paired with the earliest other waiting user, who receives one
      "Connected!" notice naming the user while nobody else is notified. */
  ghost predicate Rematched(s: State, u: string, r: Relay.Reply) {
    var others := Without(s.waiting.order, u);
    && (|others| == 0 ==>
          && r.text == LookingAgainReply && r.state.pairs == s.pairs
          && r.state.waiting.order == [u] && r.state.notifications == s.notifications)
    && (|others| > 0 ==>
          && others[0] in s.users && others[0] in s.waiting.members
          && r.state.pairs == s.pairs[u := others[0]][others[0] := u]
          && r.state.waiting.order == others[1..]
          && r.text == NewConnectionReply(Some(s.users[others[0]].nickname))
          && u in s.users
          && ListAt(r.state.notifications, others[0])
               == ListAt(s.notifications, others[0]) + [ConnectedNote(s.users[u].nickname)]
          && forall v :: v != others[0] ==> ListAt(r.state.notifications, v) == ListAt(s.notifications, v))
  }

  /** `Rematch` for an unpaired user in a valid state does what `Rematched` describes. */
  lemma RematchSpec(s: State, u: string)
    requires Valid(s) && u in s.users && u !in s.pairs
    ensures Rematched(s, u, Rematch(s, u))
  {
    MatchNamed(s, u);
    RematchNotice(s, u);
  }

  /** The partner found by `Rematch` gets exactly one "Connected!" notice naming the user. */
  lemma RematchNotice(s: State, u: string)
    requires Valid(s) && u in s.users && u !in s.pairs
    ensures var others := Without(s.waiting.order, u);
      |others| > 0 ==>
        ListAt(Rematch(s, u).state.notifications, others[0])
          == ListAt(s.notifications, others[0]) + [ConnectedNote(s.users[u].nickname)]
  {
    MatchNamed(s, u);
    assert Rematch(s, u).state == FindPartner(s, u).state;
  }

  /** `#again` that finds a new partner gives the user a session id that nobody, the user
      included, held before: the old chat's id is never reused. */
  lemma AgainFreshSession(s: State, u: string)
    requires Valid(s) && u in s.users
    ensures var r := HandleAgain(s, u);
      u in r.state.pairs ==> forall v :: v in s.users ==> s.users[v].session != r.state.users[u].session
  {
    EndForAgain(s, u);
    var ended := EndChat(s, u).state;
    FindPartnerSpec(ended, u);
    assert HandleAgain(s, u).state == FindPartner(ended, u).state;
  }

  // Session freshness, handler by handler

  lemma MeetFresh(s: State, u: string)
    ensures SessionsFresh(s, HandleMeet(s, u).state)
  {
    if u !in s.pairs {
      FindPartnerFresh(s, u);
    }
  }

  lemma AgainFresh(s: State, u: string)
    ensures SessionsFresh(s, HandleAgain(s, u).state)
  {
    var ended := EndChat(s, u).state;
    EndChatFresh(s, u);
    FindPartnerFresh(ended, u);
    FreshChain(s, ended, HandleAgain(s, u).state);
  }

  lemma SessionCommandFresh(s: State, u: string, c: Command, now: int)
    requires IsSessionCommand(c)
    ensures SessionsFresh(s, HandleSession(s, u, c, now).state)
  {
    match c
    case Meet => MeetFresh(s, u);
    case Bye => EndChatFresh(s, u);
    case Again => AgainFresh(s, u);
    case Hide => ToggleFresh(s, u, now);
    case Who =>
  }

  lemma MailCommandFresh(s: State, u: string, c: Command, m: string, now: int)
    requires !IsSessionCommand(c)
    ensures SessionsFresh(s, HandleMail(s, u, c, m, now).state)
  {
    var r := HandleMail(s, u, c, m, now).state;
    assert r.users == s.users && r.nextSession == s.nextSession;
  }

  /** Handling one inbound message issues session ids only afresh. */
  lemma ProcessFresh(s: State, u: string, message: string, nickname: Option<string>, now: int)
    ensures SessionsFresh(s, Process(s, u, message, nickname, now).state)
  {
    var s1 := GetOrCreate(s, u, nickname, now);
    var m := Relay.Outgoing(s1.users[u], message);
    GetOrCreateFresh(s, u, nickname, now);
    var c := Classify(m);
    if IsSessionCommand(c) {
      SessionCommandFresh(s1, u, c, now);
    } else {
      MailCommandFresh(s1, u, c, m, now);
    }
    FreshChain(s, s1, Process(s, u, message, nickname, now).state);
  }

  /** `#hide` sent twice restores the masking flag, and the second reply reports it. */
  lemma HideTwiceRestores(s: State, u: string, now: int, later: int)
    ensures var once := HandleHide(s, u, now);
      var twice := HandleHide(once.state, u, later);
      twice.text == MaskingReply(u !in s.users || s.users[u].maskingEnabled)
  {
    ToggleTwiceRestores(s, u, now, later);
  }

  /** In strict mode, text that is not a command changes nothing but the sender's profile
      touch: no queue, pair or mailbox moves. */
  lemma StrictPlainOnlyTouches(s: State, u: string, message: string, nickname: Option<string>, now: int)
    requires s.strictMode
    requires var s1 := GetOrCreate(s, u, nickname, now); !IsCommand(Relay.Outgoing(s1.users[u], message))
    ensures Process(s, u, message, nickname, now) == Relay.Reply(GetOrCreate(s, u, nickname, now), StrictTip)
  {
    var s1 := GetOrCreate(s, u, nickname, now);
    var m := Relay.Outgoing(s1.users[u], message);
    assert Classify(m) == Plain;
    DispatchStrictPlain(s1, u, m, now);
  }

  lemma DispatchStrictPlain(s: State, u: string, m: string, now: int)
    requires s.strictMode && Classify(m) == Plain
    ensures Dispatch(s, u, m, now) == Relay.Reply(s, StrictTip)
  {
  }

  /** `#r` with nothing after it answers with the usage line and changes nothing but the
      sender's profile touch. */
  lemma EmptySendOnlyTouches(s: State, u: string, message: string, nickname: Option<string>, now: int)
    requires var m := Relay.Outgoing(GetOrCreate(s, u, nickname, now).users[u], message);
      Classify(m) == Send && RelayContent(m) == ""
    ensures Process(s, u, message, nickname, now) == Relay.Reply(GetOrCreate(s, u, nickname, now), UsageReply)
  {
    var s1 := GetOrCreate(s, u, nickname, now);
    DispatchEmptySend(s1, u, Relay.Outgoing(s1.users[u], message), now);
  }

  lemma DispatchEmptySend(s: State, u: string, m: string, now: int)
    requires Classify(m) == Send && RelayContent(m) == ""
    ensures Dispatch(s, u, m, now) == Relay.Reply(s, UsageReply)
  {
  }

  /** `#meet` while paired changes nothing but the sender's profile touch. */
  lemma MeetWhilePaired(s: State, u: string, message: string, nickname: Option<string>, now: int)
    requires u in s.pairs
    requires var s1 := GetOrCreate(s, u, nickname, now); Classify(Relay.Outgoing(s1.users[u], message)) == Meet
    ensures Process(s, u, message, nickname, now) == Relay.Reply(GetOrCreate(s, u, nickname, now), AlreadyChattingReply)
  {
  }

  lemma MeetValid(s: State, u: string)
    requires Valid(s) && u in s.users
    ensures Valid(HandleMeet(s, u).state)
  {
    if u !in s.pairs {
      FindPartnerValid(s, u);
    }
  }

  lemma AgainValid(s: State, u: string)
    requires Valid(s) && u in s.users
    ensures Valid(HandleAgain(s, u).state)
  {
    var ended := EndChat(s, u).state;
    EndChatValid(s, u);
    RematchValid(ended, u);
  }

  lemma RematchValid(s: State, u: string)
    requires Valid(s) && u in s.users && u !in s.pairs
    ensures Valid(Rematch(s, u).state)
  {
    FindPartnerValid(s, u);
    assert Rematch(s, u).state == FindPartner(s, u).state;
  }

  lemma PlainValid(s: State, u: string, m: string)
    requires Valid(s)
    ensures Valid(HandlePlain(s, u, m).state)
  {
    var out := Relay.RouteMessage(s, u, m);
    Relay.RouteValid(s, u, m);
    DropMessagesValid(out.state, u);
  }

  lemma DispatchValid(s: State, u: string, m: string, now: int)
    requires Valid(s) && u in s.users
    ensures Valid(Dispatch(s, u, m, now).state)
  {
    HandleValid(s, u, Classify(m), m, now);
  }

  lemma HandleValid(s: State, u: string, c: Command, m: string, now: int)
    requires Valid(s) && u in s.users
    ensures Valid(Handle(s, u, c, m, now).state)
  {
    if IsSessionCommand(c) {
      SessionValid(s, u, c, now);
    } else {
      MailValid(s, u, c, m, now);
    }
  }

  lemma SessionValid(s: State, u: string, c: Command, now: int)
    requires Valid(s) && u in s.users && IsSessionCommand(c)
    ensures Valid(HandleSession(s, u, c, now).state)
  {
    match c
    case Meet => MeetValid(s, u);
    case Bye => EndChatValid(s, u);
    case Again => AgainValid(s, u);
    case Hide => ToggleValid(s, u, now);
    case Who =>
  }

  lemma MailValid(s: State, u: string, c: Command, m: string, now: int)
    requires Valid(s) && u in s.users && !IsSessionCommand(c)
    ensures Valid(HandleMail(s, u, c, m, now).state)
  {
    match c
    case CheckInbox => Relay.InboxValid(s, u);
    case Send => Relay.RouteValid(s, u, RelayContent(m));
    case Plain => if !s.strictMode { PlainValid(s, u, m); }
  }

  /** Every inbound message keeps the engine's invariants. */
  lemma ProcessValid(s: State, u: string, message: string, nickname: Option<string>, now: int)
    requires Valid(s)
    ensures Valid(Process(s, u, message, nickname, now).state)
  {
    var s1 := GetOrCreate(s, u, nickname, now);
    GetOrCreateValid(s, u, nickname, now);
    DispatchValid(s1, u, Relay.Outgoing(s1.users[u], message), now);
  }
}
