/**
 * The waiting queue: the `available_users` deque mirrored by the `available_set`
 * membership set (random_connect.py lines 41-42, 109-154).
 */
module WaitQueue {
  import opened Optional
  import opened Seqs

  datatype Queue = Queue(order: seq<string>, members: set<string>)

  const Empty := Queue([], {})

  /** The set holds exactly the deque's entries, and the deque has no duplicates. */
  ghost predicate Valid(q: Queue) {
    && NoDup(q.order)
    && forall x :: x in q.members <==> x in q.order
  }

  /** `_queue_add`: appends `u` unless the set already holds it. */
  function Add(q: Queue, u: string): (r: Queue)
    ensures u in r.members && r.members == q.members + {u}
    ensures u in q.members ==> r == q
    ensures q.order <= r.order && |r.order| <= |q.order| + 1
    ensures Valid(q) ==> Valid(r) && r.order == if u in q.order then q.order else q.order + [u]
  {
    if u in q.members then q
    else
      var r := Queue(q.order + [u], q.members + {u});
      assert Valid(q) ==> NoDup(r.order) by {
        if Valid(q) {
          forall i, j | 0 <= i < j < |r.order| ensures r.order[i] != r.order[j] {
            if j == |q.order| {
              assert r.order[i] == q.order[i];
            }
          }
        }
      }
      r
  }

  /** `_queue_remove`: drops `u` from the set and the deque when the set holds it; the
      fast path pops the head when it is `u`, the slow path rebuilds the deque without `u`. */
  function Remove(q: Queue, u: string): (r: Queue)
    ensures u !in r.members && r.members == q.members - {u}
    ensures u !in q.members ==> r == q
    ensures Valid(q) ==> Valid(r) && r.order == Without(q.order, u)
  {
    if u !in q.members then q
    else if |q.order| > 0 && q.order[0] == u then
      var r := Queue(q.order[1..], q.members - {u});
      assert Valid(q) ==> Valid(r) && r.order == Without(q.order, u) by {
        if Valid(q) {
          DropHeadValid(q);
          assert u !in r.order;
        }
      }
      r
    else
      var r := Queue(Without(q.order, u), q.members - {u});
      assert Valid(q) ==> Valid(r) by {
        if Valid(q) {
          WithoutNoDup(q.order, u);
        }
      }
      r
  }

  /** Taking the head off a well-formed queue, from the deque and the set alike, keeps it
      well formed; the head does not occur again. */
  lemma DropHeadValid(q: Queue)
    requires Valid(q) && |q.order| > 0
    ensures Valid(Queue(q.order[1..], q.members - {q.order[0]}))
    ensures q.order[0] !in q.order[1..]
  {
    var u := q.order[0];
    var tail := q.order[1..];
    assert u !in tail by {
      forall k | 0 <= k < |tail| ensures tail[k] != u {
        assert tail[k] == q.order[k + 1];
      }
    }
    assert NoDup(tail) by {
      forall i, j | 0 <= i < j < |tail| ensures tail[i] != tail[j] {
        assert tail[i] == q.order[i + 1] && tail[j] == q.order[j + 1];
      }
    }
    assert forall x :: x in tail ==> x in q.order;
    assert forall x :: x in q.order && x != u ==> x in tail by {
      assert q.order == [u] + tail;
    }
  }

  datatype Popped = Popped(queue: Queue, head: Option<string>)

  /** `x` sits at position `j` of the deque, is still in the set, and every entry before
      it is stale. */
  predicate Earliest(q: Queue, j: int, x: string) {
    && 0 <= j < |q.order| && q.order[j] == x && x in q.members
    && forall k :: 0 <= k < j ==> q.order[k] !in q.members
  }

  /** Putting a stale entry in front moves the earliest live entry back by one. */
  lemma EarliestShift(q: Queue, j: int, x: string)
    requires |q.order| > 0 && q.order[0] !in q.members
    requires Earliest(Queue(q.order[1..], q.members), j, x)
    ensures Earliest(q, j + 1, x)
  {
    forall k | 1 <= k < j + 1 ensures q.order[k] !in q.members {
      assert q.order[k] == q.order[1..][k - 1];
    }
  }

  /** The matching loop of `find_partner` (lines 145-149): pops entries from the front,
      skipping those no longer in the set, until one still in the set is found. */
  function PopLive(q: Queue): (r: Popped)
    ensures r.head.Some? ==> r.head.value in q.members && r.queue.members == q.members - {r.head.value}
    ensures r.head.None? ==> r.queue == Queue([], q.members) && forall x :: x in q.order ==> x !in q.members
    ensures r.head.Some? ==> exists j :: Earliest(q, j, r.head.value) && r.queue.order == q.order[j + 1..]
    ensures Valid(q) && |q.order| > 0 ==> r == Popped(Queue(q.order[1..], q.members - {q.order[0]}), Some(q.order[0]))
    decreases |q.order|
  {
    if |q.order| == 0 then Popped(q, None)
    else if q.order[0] in q.members then
      assert Earliest(q, 0, q.order[0]);
      Popped(Queue(q.order[1..], q.members - {q.order[0]}), Some(q.order[0]))
    else
      var r := PopLive(Queue(q.order[1..], q.members));
      assert r.head.Some? ==> exists j :: Earliest(q, j, r.head.value) && r.queue.order == q.order[j + 1..] by {
        if r.head.Some? {
          var j :| Earliest(Queue(q.order[1..], q.members), j, r.head.value) && r.queue.order == q.order[1..][j + 1..];
          assert q.order[j + 2..] == q.order[1..][j + 1..];
          EarliestShift(q, j, r.head.value);
        }
      }
      assert r.head.None? ==> forall x :: x in q.order ==> x !in q.members by {
        assert q.order == [q.order[0]] + q.order[1..];
      }
      r
  }

  /** A well-formed queue holds as many entries as its set. */
  lemma SizeMatches(q: Queue)
    requires Valid(q)
    ensures |q.order| == |q.members|
  {
    NoDupCard(q.order);
    assert q.members == set x | x in q.order;
  }
}
