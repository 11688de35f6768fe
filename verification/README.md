# Random Connect matchmaking engine in Dafny

This project models `RandomConnectManager` from `mcp-bearer-token/random_connect.py`. It is the in-memory engine behind an anonymous "random chat" service. Users send text messages. `#meet` puts them in a first-come-first-served waiting queue or pairs them with the earliest waiting user. `#R` relays a message into the partner's capped mailbox and `#M` drains one's own mailboxes. `#bye` and `#again` end a chat, and `#hide` toggles phone-number masking. A periodic sweep removes idle users, and a statistics call counts users, waiting users and pairs.

The engine is one immutable `Engine.State` record. Every operation is a pure function from a state to the next state, plus a reply where the source returns text. The modules follow the source:

| module | file | what it holds |
|---|---|---|
| `Redact` | redact.dfy | `mask_phone_numbers`: a backtracking matcher for the regular-expression fragment the ten masking rules use, `re.sub`, and the rules as data |
| `WaitQueue` | wait_queue.dfy | the `available_users` deque mirrored by `available_set` |
| `Engine` | engine.dfy | the state, its invariants and the profile store |
| `Pairing` | pairing.dfy | `find_partner` and `end_chat` |
| `Mailbox` | mailbox.dfy | the 100-message cap and the rendering of drained mailboxes |
| `Relay` | relay.dfy | `_handle_message_routing` and `_handle_inbox_command` |
| `Router` | router.dfy | `is_command`, `process_message` and the command handlers |
| `Reaper` | reaper.dfy | `cleanup_inactive_users` and `get_system_stats` |
| `Lifecycle` | lifecycle.dfy | runs of messages and sweeps from start-up |
| `Findings` | findings.dfy | the empty-user-id defect, as written and corrected |
| `Optional`, `Seqs`, `Text` | optional.dfy, seqs.dfy, text.dfy | `Option`, `dict.get`, list helpers, `strip`, `lower`, `startswith`, `join` |

Inputs the engine takes from outside are parameters:
- The clock (`datetime.now()`) is a whole-second `now: int` passed to every operation that reads it.
- Session ids (`uuid.uuid4()`) come from a counter `nextSession` held in the state. Every pairing takes the counter's value and advances it, so a new pair's id was never held before (Lifecycle.RepairedSessionIsNew, Router.AgainFreshSession).
- Nicknames, user ids, message text and the sweep timeout are arguments.

`Engine.Valid` is the invariant every reachable state keeps. It requires that:
- The queue set equals the deque's elements and the deque has no duplicates.
- Nobody is both waiting and paired.
- `active_pairs` is symmetric and has no self-pairs.
- Waiting and paired users have profiles.
- Profile partner fields mirror `active_pairs`, and a session id is held exactly while paired.
- Partners share a session id and no other user holds it.
- The insertion order of `user_states` lists each profile once.
- Mailboxes are never empty lists, and relayed-message queues hold at most 100 messages.

## Model

| member | source | states |
|---|---|---|
| Redact.MaskPhoneNumbers | mcp-bearer-token/random_connect.py:65-78 | empty text is returned unchanged |
| Redact.MaskLeavesNoLongRun | mcp-bearer-token/random_connect.py:51-76 | after masking, no run of ten or more consecutive digits remains anywhere in the text |
| Redact.MaskHidesBareNumbers | mcp-bearer-token/random_connect.py:76 | after masking, no run of eight or more digits with a non-word character or a text end on both sides remains |
| Redact.MatchBare | mcp-bearer-token/random_connect.py:76 | `\b\d{8,}\b` matches at a position exactly when a word boundary precedes a maximal run of at least eight digits that is followed by a boundary, and the match covers the whole run |
| Redact.SubFromRuns | mcp-bearer-token/random_connect.py:71-72 | a substitution by `[hidden]` never lengthens a digit run: text whose runs are all shorter than n still has only such runs afterwards |
| Redact.SubFromStart | mcp-bearer-token/random_connect.py:71-72 | the output of a substitution starts with no more digits than its input |
| WaitQueue.Add | mcp-bearer-token/random_connect.py:109-113 | the user becomes a member; a member is not added twice (no-op); otherwise the user is appended at the back; the set/deque agreement and no-duplicates are kept |
| WaitQueue.Remove | mcp-bearer-token/random_connect.py:115-129 | the user is no longer a member, other members stay, and the deque keeps the other entries in their order; a non-member leaves the queue unchanged |
| WaitQueue.PopLive | mcp-bearer-token/random_connect.py:144-149 | stale heads are skipped and the earliest entry still in the set is taken; if none, the deque is drained; on a well-formed queue it is the head |
| WaitQueue.SizeMatches | mcp-bearer-token/random_connect.py:41-42 | on a well-formed queue the deque and the set have the same size |
| Engine.InitValid | mcp-bearer-token/random_connect.py:40-48 | the freshly constructed manager satisfies every invariant |
| Engine.PairedSessionsAgree | mcp-bearer-token/random_connect.py:384-388 | in a valid state both sides of a pair have profiles carrying the same session id, so the session-mismatch branch never fires |
| Engine.DefaultNickname | mcp-bearer-token/random_connect.py:96-97 | the default nickname is `User_` followed by the first eight characters of the id (fewer if the id is shorter) |
| Engine.GetOrCreate | mcp-bearer-token/random_connect.py:93-107 | the profile exists afterwards with activity time `now`; a new profile has masking on, no partner and the given nickname or the default when none or empty is given, and is appended to the insertion order; nothing else changes |
| Engine.GetOrCreateValid | mcp-bearer-token/random_connect.py:93-107 | creating or touching a profile keeps every invariant |
| Engine.GetPartner | mcp-bearer-token/random_connect.py:215-217 | a partner is reported exactly for paired users; in a valid state the partner differs from the user, is paired back with the user, and matches the profile's partner field |
| Engine.GetPartnerNickname | mcp-bearer-token/random_connect.py:226-231 | a nickname is the partner's profile nickname; in a valid state one is reported exactly when the user is paired |
| Engine.ToggleMasking | mcp-bearer-token/random_connect.py:219-224 | the masking flag of an existing profile is negated and returned; a fresh profile (default on) ends up off; other profiles are untouched |
| Engine.ToggleValid | mcp-bearer-token/random_connect.py:219-224 | toggling masking keeps every invariant |
| Engine.ToggleTwiceRestores | mcp-bearer-token/random_connect.py:219-224 | toggling twice restores the original flag (on for a user without a profile) |
| Pairing.FindPartner | mcp-bearer-token/random_connect.py:131-180 | a partner found is someone else who was waiting; both pair directions are added, a fresh session id is consumed, and neither user stays queued; with no partner only the queue changes, holding just the caller; nobody but the partner gets a notification, and the partner gets exactly one "Connected!" notice naming the caller ("Partner" when the caller has no profile); profiles keep nickname, masking and activity time |
| Pairing.FindPartnerSpec | mcp-bearer-token/random_connect.py:131-180 | for an unpaired caller: an empty queue (after removing the caller) queues the caller; otherwise the partner is the earliest-enqueued other user, both profiles carry the new session id, the rest of the queue is kept in order, and the partner receives exactly one "Connected!" notice naming the caller |
| Pairing.FindPartnerFresh | mcp-bearer-token/random_connect.py:157-168 | `find_partner` never lowers the session counter, changes the session of nobody but the two users it pairs, and any session it hands out had not been issued before |
| Pairing.FindPartnerNewSession | mcp-bearer-token/random_connect.py:160-168 | in a valid state the session id of a new pair differs from every session id held before the call |
| Pairing.FindPartnerValid | mcp-bearer-token/random_connect.py:131-180 | matching or queueing an unpaired user keeps every invariant |
| Pairing.EndChat | mcp-bearer-token/random_connect.py:182-213 | for a paired user both pair entries are removed, the partner gets one "partner left" notice and is returned, and the queue is untouched; for an unpaired user only the queue changes, without the user, and no partner is returned; the ender is never queued |
| Pairing.EndChatUnpairsBoth | mcp-bearer-token/random_connect.py:182-213 | in a valid state, after ending a chat neither side is paired, waiting, or holding a partner or session id |
| Pairing.EndChatValid | mcp-bearer-token/random_connect.py:182-213 | ending a chat keeps every invariant |
| Pairing.EndChatFresh | mcp-bearer-token/random_connect.py:182-213 | ending a chat issues no session id: sessions are only cleared |
| Mailbox.PushCapped | mcp-bearer-token/random_connect.py:392-397 | the new message is last, and a queue within the cap becomes the last 100 of the old queue plus the message |
| Mailbox.PushAllKeepsNewest | mcp-bearer-token/random_connect.py:392-397 | relaying any number of messages leaves exactly the newest 100, oldest dropped first |
| Mailbox.InboxLines | mcp-bearer-token/random_connect.py:360-365 | the reply lines are the last three notifications, each prefixed `ℹ️ `, then the last five messages, each prefixed `💬 Partner: `, in original order |
| Mailbox.InboxReplyEmptyIff | mcp-bearer-token/random_connect.py:354-367 | the reply is `📭 Inbox empty.` exactly when both drained lists were empty; otherwise it opens with the first shown notification, or the first shown message |
| Mailbox.InboxEndsWithNewest | mcp-bearer-token/random_connect.py:363-366 | when a message was waiting, the reply ends with the newest one |
| Mailbox.Piggyback | mcp-bearer-token/random_connect.py:281-282 | the lines appended to a plain message are the newest ten queued messages (all of them when fewer), oldest first, each prefixed `💬 Partner: ` |
| Relay.Outgoing | mcp-bearer-token/random_connect.py:391 | the relayed text is the message itself when the sender's masking is off, and has no ten-digit run when it is on; `process_message` masks inbound text the same way (lines 244-246) |
| Relay.RouteMessage | mcp-bearer-token/random_connect.py:369-401 | pending notifications are all dropped; with one pending the newest is returned and nothing is queued; a user with no entry in `active_pairs` queues nothing; otherwise only the partner's queue changes, by the masked text under the cap, and the echo names the sender |
| Relay.RouteSpec | mcp-bearer-token/random_connect.py:369-401 | in a valid state: with notifications pending, the newest is returned and all are removed; for a user with no entry in `active_pairs`, "No partner found" and no change; otherwise the partner's queue becomes the last 100 of itself plus the masked text, and nothing else changes |
| Relay.RouteDelivers | mcp-bearer-token/random_connect.py:369-401 | in a valid state a paired user with no notification pending always gets through: the session check never refuses, the partner's queue gains the masked message under the cap, and the echo names the sender |
| Relay.RouteValid | mcp-bearer-token/random_connect.py:369-401 | routing keeps every invariant, including the 100-message cap |
| Relay.Inbox | mcp-bearer-token/random_connect.py:354-367 | both of the user's mailboxes are removed and nothing else changes; the reply is the empty-inbox text exactly when both lists were empty |
| Relay.InboxEmptyIff | mcp-bearer-token/random_connect.py:354-358 | in a valid state the inbox is empty exactly when the user has neither mailbox |
| Relay.InboxValid | mcp-bearer-token/random_connect.py:354-367 | draining keeps every invariant |
| Relay.RelayedReachesInbox | mcp-bearer-token/random_connect.py:391-401 | a message relayed by a paired user appears, as masked, as the last line of the partner's next `#M` reply |
| Router.IsCommand | mcp-bearer-token/random_connect.py:233-237 | a message counts as a command exactly when `process_message` takes one of its command branches |
| Router.SelectIsFirstMatch | mcp-bearer-token/random_connect.py:248-272 | the dispatcher falls through exactly when no prefix matches, and otherwise selects the command of the first matching prefix in the order `#meet`, `#bye`, `#again`, `#hide`, `#who`, `#m`, `#r` |
| Router.RelayContent | mcp-bearer-token/random_connect.py:272 | content is empty for stripped messages of at most two characters; otherwise it is the piece of the stripped message after its first two characters that is left when the whitespace around it is removed: only whitespace precedes it from position 2 and only whitespace follows it, and it has no whitespace at its ends |
| Router.SendCarriesBody | mcp-bearer-token/random_connect.py:270-275 | `#R body` or `#r body` is a relay command whose content is exactly `body` when `body` has no whitespace at its ends |
| Router.HandleMeet | mcp-bearer-token/random_connect.py:290-307 | a paired user gets the "already in a chat" reply and nothing changes; for an unpaired user the reply is "Looking" exactly when the user is still unpaired afterwards |
| Router.HandleBye | mcp-bearer-token/random_connect.py:309-319 | the state is `end_chat`'s, and the reply says the chat ended exactly when the user was paired |
| Router.HandleAgain | mcp-bearer-token/random_connect.py:321-338 | the reply is "Looking for a new chat partner" exactly when the user is unpaired afterwards |
| Router.AgainSpec | mcp-bearer-token/random_connect.py:321-338 | in a valid state a former partner ends up unpaired with one more "partner left" notice; with nobody else waiting the user waits alone and is told "Looking"; otherwise the user is paired with the earliest other waiting user, the rest of the queue keeps its order, and the reply names that user's nickname |
| Router.AgainFreshSession | mcp-bearer-token/random_connect.py:321-338 | when `#again` pairs the user anew, the new session id differs from every session id held before, the user's old one included |
| Router.RematchSpec | mcp-bearer-token/random_connect.py:330-338 | for an unpaired user: nobody else waiting queues the user alone and changes no pair or notification; otherwise both pair directions with the earliest other waiting user are added, that user receives exactly one "Connected!" notice naming the caller and nobody else is notified, and the reply names that user's nickname |
| Router.RematchNotice | mcp-bearer-token/random_connect.py:166-178 | when `#again` finds another waiting user, that user's notifications grow by exactly one "Connected!" notice naming the caller |
| Router.HandleHide | mcp-bearer-token/random_connect.py:340-344 | the reply reports the masking flag the profile now has |
| Router.HandleWho | mcp-bearer-token/random_connect.py:346-352 | nothing changes; in a valid state a paired user whose partner's nickname is not empty is told it (the source tests the nickname's truthiness), and an unpaired one is told they are not in a chat |
| Router.HandlePlain | mcp-bearer-token/random_connect.py:278-285 | the message is routed and the sender's own queued messages are removed; the reply is the routing reply when nothing was queued, and otherwise the routing reply, a blank line and the `Piggyback` lines joined by newlines, ending with the newest queued message |
| Router.Dispatch | mcp-bearer-token/random_connect.py:248-288 | no handler drops a profile or creates one other than the sender's; other users keep nickname, masking and activity time; a sender already stamped with `now` keeps that stamp and its nickname |
| Router.Process | mcp-bearer-token/random_connect.py:239-288 | afterwards the sender has a profile with activity time `now` and an unchanged nickname; no other profile is created, dropped or touched beyond its pairing fields; strict mode is unchanged |
| Router.MeetPairsOrQueues | mcp-bearer-token/random_connect.py:290-307 | `#meet` from an unpaired user queues them alone and leaves every pair when nobody else waits; otherwise it adds both pair directions with the earliest other waiting user and no other pair, keeps the rest of the queue in order, and names that user's nickname |
| Router.MeetWhilePaired | mcp-bearer-token/random_connect.py:294-298 | `#meet` while paired changes nothing but the sender's activity time |
| Router.ByeLeavesBothFree | mcp-bearer-token/random_connect.py:309-319 | after `#bye` the user is neither paired nor waiting, and a former partner is unpaired with one "partner left" notice added |
| Router.AgainFindsSomeoneElse | mcp-bearer-token/random_connect.py:321-338 | `#again` never reconnects the user with the partner just left |
| Router.HideTwiceRestores | mcp-bearer-token/random_connect.py:340-344 | the second of two `#hide` replies reports the original flag |
| Router.StrictPlainOnlyTouches | mcp-bearer-token/random_connect.py:277-288 | in strict mode, non-command text gets the tip and changes nothing but the sender's profile touch |
| Router.EmptySendOnlyTouches | mcp-bearer-token/random_connect.py:270-274 | `#r` with empty content gets the usage line and changes nothing but the sender's profile touch |
| Router.ProcessValid | mcp-bearer-token/random_connect.py:239-288 | every inbound message keeps every invariant |
| Router.ProcessFresh | mcp-bearer-token/random_connect.py:239-288 | handling any inbound message never lowers the session counter, and a session id a profile newly holds had not been issued before |
| Reaper.InactiveUsers | mcp-bearer-token/random_connect.py:408-413 | the listed users are exactly the profiles idle for more than the timeout |
| Reaper.ReapOne | mcp-bearer-token/random_connect.py:415-421 | the profile goes; a pair it was in goes in both directions and the partner gets one "partner left" notice; other activity times and the message queues are untouched |
| Reaper.ReapAllValid | mcp-bearer-token/random_connect.py:415-421 | reaping any list of users keeps every invariant |
| Reaper.ReapAllFresh | mcp-bearer-token/random_connect.py:415-421 | a sweep issues no session id |
| Reaper.ReapAllProfiles | mcp-bearer-token/random_connect.py:415-421 | exactly the listed profiles are removed, and the others keep their activity times |
| Reaper.CleanupKeepsExactlyActive | mcp-bearer-token/random_connect.py:403-421 | after the sweep the profiles are exactly those not idle, with their activity times, and every invariant holds |
| Reaper.ReapAllNotifiesOnce | mcp-bearer-token/random_connect.py:415-418 | reaping a paired user whose partner is not reaped unpairs the partner and adds exactly one "partner left" notice |
| Reaper.CleanupNotifiesActivePartner | mcp-bearer-token/random_connect.py:403-421 | an active user whose partner is reaped survives unpaired with exactly one new "partner left" notice |
| Reaper.SystemStats | mcp-bearer-token/random_connect.py:424-432 | the active-pairs and total-connections figures coincide |
| Reaper.EvenPairs | mcp-bearer-token/random_connect.py:430 | a symmetric pairing without self-pairs has an even number of entries |
| Reaper.StatsCountOnce | mcp-bearer-token/random_connect.py:424-432 | in a valid state the pair count times two is the number of entries, the waiting count is the number of waiting users, and the user count is the number of profiles |
| Lifecycle.StepValid | mcp-bearer-token/random_connect.py:239-421 | one message or one sweep keeps every invariant |
| Lifecycle.RunValid | mcp-bearer-token/random_connect.py:239-421 | any sequence of messages and sweeps keeps every invariant |
| Lifecycle.RunFresh | mcp-bearer-token/random_connect.py:239-421 | over any run of messages and sweeps, a session id a profile newly holds had not been issued at the start |
| Lifecycle.RepairedSessionIsNew | mcp-bearer-token/random_connect.py:157-168 | after any run from a valid state (a `#bye` and later traffic, say), a user paired again by the next event gets a session id that nobody, the user included, held at the start |
| Lifecycle.ReachableIsConsistent | mcp-bearer-token/random_connect.py:435 | from start-up, nobody is ever both waiting and paired, pairs are mutual, partners share a session id, and the pair count is exact |
| Findings.EndChatAsWritten | mcp-bearer-token/random_connect.py:182-213 | agrees with `EndChat` unless the partner id is empty, when no partner is returned and the pair stays |
| Findings.HandleMeetAsWritten | mcp-bearer-token/random_connect.py:290-307 | agrees with `HandleMeet` unless the empty id is paired or waiting; a user paired with the empty id is sent to `find_partner` again |
| Findings.GetPartnerNicknameAsWritten | mcp-bearer-token/random_connect.py:226-231 | agrees with `GetPartnerNickname` unless the partner id is empty, when no nickname is reported |
| Findings.HandleByeAsWritten | mcp-bearer-token/random_connect.py:309-319 | agrees with `HandleBye` unless the partner id is empty, when the reply is "not in a chat" and the pair stays |
| Findings.HandleAgainAsWritten | mcp-bearer-token/random_connect.py:321-338 | agrees with `HandleAgain` unless the empty id is the partner or is waiting |
| Findings.HandleWhoAsWritten | mcp-bearer-token/random_connect.py:346-352 | agrees with `HandleWho` unless the partner id is empty, when the reply names nobody |
| Findings.RouteMessageAsWritten | mcp-bearer-token/random_connect.py:369-381 | agrees with `RouteMessage` unless the partner id is empty; then, with no notification pending, the reply is "No partner found" and nothing is queued |
| Findings.AloneValid | mcp-bearer-token/random_connect.py:290-307 | after the empty id's `#meet` the state is valid, has no pair, and the empty id waits alone |
| Findings.WaitingValid | mcp-bearer-token/random_connect.py:93-107 | after "b" also gets a profile the state is still valid, with the empty id waiting alone and nothing queued |
| Findings.ScenarioValid | mcp-bearer-token/random_connect.py:290-307 | the empty id waits and "b" then meets it: the state is valid and holds the pair "b"/"" |
| Findings.EmptyIdBreaksExclusive | mcp-bearer-token/random_connect.py:187 | in that state, as written, `#bye` from "b" ends nothing, and `#meet` from "b" queues "b" while it is still paired |
| Findings.EmptyPartnerBreaks | mcp-bearer-token/random_connect.py:182-213 | in any valid state where only "b" and the empty id have profiles and are paired, the as-written `#bye` from "b" leaves the pair, and the as-written `#meet` queues "b" while paired |
| Findings.MeetKeepsProfiles | mcp-bearer-token/random_connect.py:290-307 | `#meet` from an unpaired user keeps every profile's nickname and the message queues, and leaves the notifications of everyone but the chosen partner (everyone, when no partner is found) unchanged |
| Findings.EmptyPartnerSilenced | mcp-bearer-token/random_connect.py:380 | in the scenario state, as written, "b"'s message is dropped with "No partner found", `#bye` says "not in a chat" and `#who` names nobody; corrected, the message is queued for the empty id, the chat ends and `#who` names `User_` |
| Findings.SendSilenced | mcp-bearer-token/random_connect.py:377-381 | in any valid state where "b" is paired with the empty id, has no notification pending and nothing is queued, as written the message is dropped, and corrected it becomes the empty id's only queued message |
| Findings.ByeAndWhoSilenced | mcp-bearer-token/random_connect.py:309-352 | in any valid state where "b" is paired with the empty id and the empty id has a profile whose nickname is `User_`, as written `#bye` and `#who` answer as if "b" had no partner, and corrected they end the chat and name the partner |
| Findings.MatchReportedAsLooking | mcp-bearer-token/random_connect.py:332 | with the empty id waiting alone, as written `#meet` and `#again` from "b" pair "b" with it yet reply "Looking"; corrected, the replies announce the match |
| Findings.MatchedAsLooking | mcp-bearer-token/random_connect.py:299-338 | the same for any valid state in which only the empty id waits and "b" is an unpaired user with a profile |
| Findings.CorrectedKeepsExclusive | mcp-bearer-token/random_connect.py:296 | in the same state the corrected `#bye` ends the chat and the corrected `#meet` is refused without change |

## Left out

- The server module `mcp-bearer-token/random_connect_server.py` is not part of this model. It holds tool registration, environment loading, bearer-token authentication, help text and the periodic cleanup task.
- Logging, `sanitize_for_logging` and the `UserState.__post_init__` warning are left out. They only write to the log.
- The `threading.Lock` is left out, and every operation is one atomic step. In the source, `cleanup_inactive_users` holds the non-reentrant lock (line 405) and calls `end_chat`, which acquires it again (line 184). A sweep that finds an idle user therefore deadlocks. The model gives the sweep's evident intended meaning, and a sequential model cannot exhibit the deadlock.
- The `try`/`except` around the "Connected!" notice (lines 172-178) is left out: nothing in its body can raise for the states the model reaches.
- Character classes are ASCII. Python's `\d`, `\s`, `\w`, `str.strip` and `str.lower` also cover non-ASCII digits, spaces, letters and case mappings.
- The clock has whole seconds. The source compares `total_seconds()`, which includes microseconds, with `timeout_minutes * 60`.
- `uuid.uuid4()` is replaced by a counter. A random UUID is only overwhelmingly likely to be new; the counter makes that certain, and the freshness lemmas rely on it.
- The `user_id` field of `UserState` is the key of the profile map and is not stored twice.
- Engine.GetPartnerNickname: tests presence of the partner id, where `get_partner_nickname` tests `if partner_id` (line 229); the two differ only for the empty user id, and the as-written version is in Findings.
- Relay.RouteMessage: tests whether the user has an entry in `active_pairs`, where line 380 tests the partner id's truthiness; the two differ only for the empty user id, modelled as written in Findings.RouteMessageAsWritten.
- Relay.RouteSpec: "no partner" means no entry in `active_pairs`, for the reason given for Relay.RouteMessage.
- Router.HandleBye, Router.HandleAgain, Router.HandleMeet, Router.HandleWho and Pairing.EndChat: test presence of the partner id, where lines 187, 229, 296, 301, 314 and 332 test its truthiness; the as-written versions are in Findings.
- Redact.MaskPhoneNumbers: only the digit-run guarantees are proved. Which separator-bearing numbers each of the nine phone patterns hides is not stated. Idempotence and identity on digit-free text are not proved either.
- Reaper.SystemStats: its contract states only that the two pair figures agree. The counting facts need the invariants and are in Reaper.StatsCountOnce.
- Reaped users' mailboxes are kept, as in the source, which removes only the profile (line 421).
- Notifications have no cap, as in the source, and are truncated only on display.

## Findings

| source | as written | input that shows it | evidently intended | confidence | as-written member | corrected member |
|---|---|---|---|---|---|---|
| mcp-bearer-token/random_connect.py:187 | `if partner_id:` in `end_chat`, and `if current_partner:` / `if partner_id:` in `_handle_meet_command` (lines 296, 301), treat the empty user id `""` as "no partner" | user `""` sends `#meet` and waits; user `"b"` sends `#meet` and is paired with `""`; `"b"` sends `#bye`, which replies "not in a chat" and leaves the pair; `"b"` sends `#meet` and is queued while still paired | test `partner_id is not None` (presence in `active_pairs`), so the empty id is an ordinary user | not executed; medium (depends on the empty id reaching the engine) | Findings.EndChatAsWritten, Findings.HandleMeetAsWritten, Findings.EmptyIdBreaksExclusive, Findings.EmptyPartnerBreaks | Pairing.EndChat, Router.HandleMeet, Findings.CorrectedKeepsExclusive |
| mcp-bearer-token/random_connect.py:380 | `if not partner_id:` in `_handle_message_routing` treats a partner id of `""` as "no partner" | after the scenario above, `"b"` sends `#R hi` (the manager starts in strict mode, so plain `hi` only gets the tip), which passes content `hi` to `_handle_message_routing` and is answered "No partner found" | the message is queued for `""` | not executed; medium (depends on the empty id reaching the engine) | Findings.RouteMessageAsWritten, Findings.EmptyPartnerSilenced, Findings.SendSilenced | Relay.RouteMessage, Relay.RouteDelivers |
| mcp-bearer-token/random_connect.py:314 | `if partner_id:` in `_handle_bye_command`, with `get_partner_nickname`'s `if partner_id` (line 229) | after the scenario above, `"b"` sends `#bye`, then `#who` | `#bye` ends the chat; `#who` names `User_` | not executed; medium (depends on the empty id reaching the engine) | Findings.HandleByeAsWritten, Findings.HandleWhoAsWritten, Findings.GetPartnerNicknameAsWritten, Findings.ByeAndWhoSilenced | Router.HandleBye, Router.HandleWho, Engine.GetPartnerNickname |
| mcp-bearer-token/random_connect.py:332 | `if new_partner_id:` in `_handle_again_command` (and `if partner_id:` at line 301 in `_handle_meet_command`) | user `""` sends `#meet` and waits; user `"b"` sends `#again` (or `#meet`); `"b"` is paired with `""` but told it is still looking | the reply announces the new connection | not executed; medium (depends on the empty id reaching the engine) | Findings.HandleAgainAsWritten, Findings.HandleMeetAsWritten, Findings.MatchReportedAsLooking, Findings.MatchedAsLooking | Router.HandleAgain, Router.AgainSpec, Router.HandleMeet |
