/**
 * The per-user mailboxes as lists: the capped relayed-message queue (random_connect.py
 * lines 392-397) and the way drained mailboxes are rendered (lines 280-284, 354-367).
 */
module Mailbox {
  import opened Seqs
  import opened Text

  /** At most this many relayed messages wait for one recipient. */
  const Capacity := 100
  /** `#M` shows at most the last three notifications and the last five messages. */
  const ShownNotifications := 3
  const ShownMessages := 5
  /** Permissive mode appends at most the last ten queued messages to a reply. */
  const ShownPiggybacked := 10

  const InboxEmpty := "📭 Inbox empty."

  /** `queue.append(m)` followed by `del queue[0]` when the queue outgrew the cap. */
  function PushCapped(q: seq<string>, m: string): (r: seq<string>)
    ensures 0 < |r| && r[|r| - 1] == m
    ensures |q| <= Capacity ==> |r| <= Capacity && r == Last(Capacity, q + [m])
  {
    var q1 := q + [m];
    if |q1| > Capacity then q1[1..] else q1
  }

  /** Relaying the messages `ms` one after another. */
  function PushAll(q: seq<string>, ms: seq<string>): seq<string>
    decreases |ms|
  {
    if |ms| == 0 then q else PushAll(PushCapped(q, ms[0]), ms[1..])
  }

  /** A suffix at least as long as the window has the same last `n` elements. */
  lemma LastOfSuffix<T>(n: nat, w: seq<T>, k: nat)
    requires k <= |w| && |w| - k >= (if |w| < n then |w| else n)
    ensures Last(n, w[k..]) == Last(n, w)
  {
  }

  /** Trimming to the last `n` before appending does not change the last `n` after it. */
  lemma LastAppend<T>(n: nat, x: seq<T>, y: seq<T>)
    ensures Last(n, Last(n, x) + y) == Last(n, x + y)
  {
    var k := |x| - |Last(n, x)|;
    assert Last(n, x) + y == (x + y)[k..];
    LastOfSuffix(n, x + y, k);
  }

  /** Relaying the first message and keeping the newest `Capacity` of the rest gives the
      newest `Capacity` of everything. */
  lemma PushFirstNewest(q: seq<string>, ms: seq<string>)
    requires |q| <= Capacity && |ms| > 0
    ensures Last(Capacity, PushCapped(q, ms[0]) + ms[1..]) == Last(Capacity, q + ms)
  {
    LastAppend(Capacity, q + [ms[0]], ms[1..]);
    assert q + [ms[0]] + ms[1..] == q + ms;
  }

  /** However many messages are relayed, the queue holds exactly the newest `Capacity`
      of them (with what it held before), oldest dropped first. */
  lemma {:induction false} PushAllKeepsNewest(q: seq<string>, ms: seq<string>)
    requires |q| <= Capacity
    ensures PushAll(q, ms) == Last(Capacity, q + ms)
    decreases |ms|
  {
    if |ms| == 0 {
      assert q + ms == q;
    } else {
      var q1 := PushCapped(q, ms[0]);
      assert PushAll(q, ms) == PushAll(q1, ms[1..]);
      PushAllKeepsNewest(q1, ms[1..]);
      PushFirstNewest(q, ms);
    }
  }

  function NoticeLine(n: string): string { "ℹ️ " + n }
  function PartnerLine(m: string): string { "💬 Partner: " + m }

  function PartnerLines(ms: seq<string>): (r: seq<string>)
    ensures |r| == |ms| && forall k :: 0 <= k < |ms| ==> r[k] == PartnerLine(ms[k])
  {
    seq(|ms|, k requires 0 <= k < |ms| => PartnerLine(ms[k]))
  }

  /** The lines a plain message brings back in permissive mode: one line per queued
      message, for the newest `ShownPiggybacked` of them, oldest first. */
  function Piggyback(queued: seq<string>): (r: seq<string>)
    ensures |r| == if |queued| < ShownPiggybacked then |queued| else ShownPiggybacked
    ensures forall k :: 0 <= k < |r| ==> r[k] == PartnerLine(queued[|queued| - |r| + k])
  {
    var n := if |queued| < ShownPiggybacked then |queued| else ShownPiggybacked;
    seq(n, k requires 0 <= k < n => PartnerLine(queued[|queued| - n + k]))
  }

  /** The lines of an `#M` reply: the last three notifications, then the last five messages. */
  function InboxLines(ns: seq<string>, ms: seq<string>): (r: seq<string>)
    ensures var shownN := Last(ShownNotifications, ns);
      var shownM := Last(ShownMessages, ms);
      && |r| == |shownN| + |shownM|
      && (forall k :: 0 <= k < |shownN| ==> r[k] == NoticeLine(shownN[k]))
      && (forall k :: 0 <= k < |shownM| ==> r[|shownN| + k] == PartnerLine(shownM[k]))
  {
    var shownN := Last(ShownNotifications, ns);
    seq(|shownN|, k requires 0 <= k < |shownN| => NoticeLine(shownN[k])) + PartnerLines(Last(ShownMessages, ms))
  }

  /** The text of an `#M` reply for the drained lists. */
  function InboxReply(ns: seq<string>, ms: seq<string>): string {
    if |ns| == 0 && |ms| == 0 then InboxEmpty else Join("\n", InboxLines(ns, ms))
  }

  /** The first line of a non-empty reply: the oldest shown notification, or the oldest
      shown message when there is no notification. */
  lemma FirstLine(ns: seq<string>, ms: seq<string>)
    requires |ns| > 0 || |ms| > 0
    ensures var lines := InboxLines(ns, ms);
      && |lines| > 0
      && lines[0] == if |ns| > 0 then NoticeLine(Last(ShownNotifications, ns)[0]) else PartnerLine(Last(ShownMessages, ms)[0])
  {
    var shownN := Last(ShownNotifications, ns);
    assert |ns| > 0 ==> |shownN| > 0;
    assert |ns| == 0 ==> |shownN| == 0;
  }

  /** Both kinds of line open with an emoji other than the empty-inbox one. */
  lemma LineLead(line: string, ns: seq<string>, ms: seq<string>)
    requires |ns| > 0 || |ms| > 0
    requires line == if |ns| > 0 then NoticeLine(Last(ShownNotifications, ns)[0]) else PartnerLine(Last(ShownMessages, ms)[0])
    ensures |line| > 0 && line[0] != InboxEmpty[0]
  {
    if |ns| > 0 {
      assert line[0] == 'ℹ';
    } else {
      assert line[0] == '💬';
    }
  }

  /** The reply is the "inbox empty" text exactly when both drained lists were empty;
      otherwise it opens with the oldest shown item. */
  lemma InboxReplyEmptyIff(ns: seq<string>, ms: seq<string>)
    ensures InboxReply(ns, ms) == InboxEmpty <==> |ns| == 0 && |ms| == 0
    ensures |ns| > 0 ==> StartsWith(InboxReply(ns, ms), NoticeLine(Last(ShownNotifications, ns)[0]))
    ensures |ns| == 0 && |ms| > 0 ==> StartsWith(InboxReply(ns, ms), PartnerLine(Last(ShownMessages, ms)[0]))
  {
    if |ns| > 0 || |ms| > 0 {
      var lines := InboxLines(ns, ms);
      var r := InboxReply(ns, ms);
      assert r == Join("\n", lines);
      FirstLine(ns, ms);
      var line := lines[0];
      assert StartsWith(r, line);
      LineLead(line, ns, ms);
      assert r[0] == line[0];
      assert r != InboxEmpty;
    }
  }

  /** When a message is waiting, the reply ends with the newest one. */
  lemma InboxEndsWithNewest(ns: seq<string>, ms: seq<string>)
    requires |ms| > 0
    ensures EndsWith(InboxReply(ns, ms), PartnerLine(ms[|ms| - 1]))
  {
    var shownM := Last(ShownMessages, ms);
    assert shownM[|shownM| - 1] == ms[|ms| - 1];
    var lines := InboxLines(ns, ms);
    assert lines[|lines| - 1] == PartnerLine(ms[|ms| - 1]);
  }
}
