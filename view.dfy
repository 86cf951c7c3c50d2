/**
 * The view that completing, editing and displaying all work on:
 * `tasks.Where(t => t is WorkTask == isWorkTask).OrderBy(t => t.Priority)`.
 * It is given as the sequence of positions, in the task list, of the tasks it
 * shows, so that two tasks with equal fields are still told apart.
 */
module TaskView {
  import opened Tasks

  predicate Matches(t: TaskValue, isWorkTask: bool) {
    t.kind.Work? == isWorkTask
  }

  /** The `Where` step on the tasks themselves. */
  function Filter(ts: seq<TaskValue>, isWorkTask: bool): (r: seq<TaskValue>)
    ensures |r| <= |ts|
    ensures forall k :: 0 <= k < |r| ==> Matches(r[k], isWorkTask)
  {
    if ts == [] then []
    else
      var front := Filter(ts[..|ts| - 1], isWorkTask);
      if Matches(ts[|ts| - 1], isWorkTask) then front + [ts[|ts| - 1]] else front
  }

  /** The `Where` step on positions: the matching positions, in list order. */
  function MatchingIndices(ts: seq<TaskValue>, isWorkTask: bool): (r: seq<nat>)
    ensures forall k :: 0 <= k < |r| ==> r[k] < |ts|
    ensures forall a, b :: 0 <= a < b < |r| ==> r[a] < r[b]
    ensures forall i: nat :: i in r <==> i < |ts| && Matches(ts[i], isWorkTask)
  {
    if ts == [] then []
    else
      var front := MatchingIndices(ts[..|ts| - 1], isWorkTask);
      if Matches(ts[|ts| - 1], isWorkTask) then front + [|ts| - 1] else front
  }

  predicate InBounds(ts: seq<TaskValue>, v: seq<nat>) {
    forall k :: 0 <= k < |v| ==> v[k] < |ts|
  }

  /** The tasks at the given positions. */
  function At(ts: seq<TaskValue>, v: seq<nat>): (r: seq<TaskValue>)
    requires InBounds(ts, v)
    ensures |r| == |v| && forall k :: 0 <= k < |v| ==> r[k] == ts[v[k]]
  {
    seq(|v|, k requires 0 <= k < |v| => ts[v[k]])
  }

  /** Priorities never decrease along the view. */
  predicate SortedByPriority(ts: seq<TaskValue>, v: seq<nat>)
    requires InBounds(ts, v)
  {
    forall a, b :: 0 <= a < b < |v| ==> ts[v[a]].priority <= ts[v[b]].priority
  }

  /** Tasks of equal priority keep their order in the list (a stable sort). */
  predicate TiesInListOrder(ts: seq<TaskValue>, v: seq<nat>)
    requires InBounds(ts, v)
  {
    forall a, b :: 0 <= a < b < |v| && ts[v[a]].priority == ts[v[b]].priority ==> v[a] < v[b]
  }

  /**
   * What the source promises of the view: it shows each task of the chosen
   * kind, and only those, ordered by priority, ties in list order.
   */
  ghost predicate IsStableView(ts: seq<TaskValue>, isWorkTask: bool, v: seq<nat>) {
    && InBounds(ts, v)
    && (forall i: nat :: i in v <==> i < |ts| && Matches(ts[i], isWorkTask))
    && SortedByPriority(ts, v)
    && TiesInListOrder(ts, v)
  }

  /** Position `i` goes before position `j` in a stable sort by priority. */
  predicate Before(ts: seq<TaskValue>, i: nat, j: nat)
    requires i < |ts| && j < |ts|
  {
    ts[i].priority < ts[j].priority || (ts[i].priority == ts[j].priority && i < j)
  }

  predicate Ordered(ts: seq<TaskValue>, v: seq<nat>)
    requires InBounds(ts, v)
  {
    forall a, b :: 0 <= a < b < |v| ==> Before(ts, v[a], v[b])
  }

  /** Puts position `x` in front of the first position whose priority is not below its own. */
  function Insert(ts: seq<TaskValue>, x: nat, s: seq<nat>): (r: seq<nat>)
    requires x < |ts| && InBounds(ts, s)
    ensures InBounds(ts, r)
    ensures multiset(r) == multiset(s) + multiset{x}
  {
    if s == [] then [x]
    else if ts[x].priority <= ts[s[0]].priority then [x] + s
    else
      assert s == [s[0]] + s[1..];
      [s[0]] + Insert(ts, x, s[1..])
  }

  /** The `OrderBy` step: an insertion sort by priority of the given positions. */
  function SortByPriority(ts: seq<TaskValue>, idx: seq<nat>): (r: seq<nat>)
    requires InBounds(ts, idx)
    ensures InBounds(ts, r)
    ensures multiset(r) == multiset(idx)
  {
    if idx == [] then []
    else
      assert idx == [idx[0]] + idx[1..];
      Insert(ts, idx[0], SortByPriority(ts, idx[1..]))
  }

  /** The view, as positions in `ts`. */
  function View(ts: seq<TaskValue>, isWorkTask: bool): (r: seq<nat>)
    ensures InBounds(ts, r)
    ensures multiset(r) == multiset(MatchingIndices(ts, isWorkTask))
  {
    SortByPriority(ts, MatchingIndices(ts, isWorkTask))
  }

  lemma {:induction false} InsertOrdered(ts: seq<TaskValue>, x: nat, s: seq<nat>)
    requires x < |ts| && InBounds(ts, s) && Ordered(ts, s)
    requires forall k :: 0 <= k < |s| ==> x < s[k]
    ensures Ordered(ts, Insert(ts, x, s))
  {
    if s != [] && ts[x].priority > ts[s[0]].priority {
      var rest := Insert(ts, x, s[1..]);
      InsertOrdered(ts, x, s[1..]);
      forall k | 0 <= k < |rest|
        ensures Before(ts, s[0], rest[k])
      {
        assert rest[k] in multiset(rest);
        if rest[k] != x {
          assert rest[k] in multiset(s[1..]);
          var j :| 0 <= j < |s[1..]| && s[1..][j] == rest[k];
          assert Before(ts, s[0], s[j + 1]);
        }
      }
    }
  }

  lemma {:induction false} SortOrdered(ts: seq<TaskValue>, idx: seq<nat>)
    requires InBounds(ts, idx)
    requires forall a, b :: 0 <= a < b < |idx| ==> idx[a] < idx[b]
    ensures Ordered(ts, SortByPriority(ts, idx))
  {
    if idx != [] {
      var rest := SortByPriority(ts, idx[1..]);
      SortOrdered(ts, idx[1..]);
      forall k | 0 <= k < |rest|
        ensures idx[0] < rest[k]
      {
        assert rest[k] in multiset(idx[1..]);
        var j :| 0 <= j < |idx[1..]| && idx[1..][j] == rest[k];
        assert idx[j + 1] == rest[k];
      }
      InsertOrdered(ts, idx[0], rest);
    }
  }

  /** The view has the properties the source relies on. */
  lemma ViewIsStable(ts: seq<TaskValue>, isWorkTask: bool)
    ensures IsStableView(ts, isWorkTask, View(ts, isWorkTask))
    ensures multiset(View(ts, isWorkTask)) == multiset(MatchingIndices(ts, isWorkTask))
  {
    var m := MatchingIndices(ts, isWorkTask);
    SortOrdered(ts, m);
    SameMembers(View(ts, isWorkTask), m);
  }

  lemma SameMembers(v: seq<nat>, w: seq<nat>)
    requires multiset(v) == multiset(w)
    ensures forall i :: i in v <==> i in w
  {
    forall i
      ensures i in v <==> i in w
    {
      assert i in v <==> i in multiset(v);
      assert i in w <==> i in multiset(w);
    }
  }

  lemma EmptyWhenNoMembers(s: seq<nat>)
    ensures (forall i :: i !in s) ==> s == []
  {
    if s != [] {
      assert s[0] in s;
    }
  }

  /** In a sequence ordered by `Before`, the first position goes before every other one. */
  lemma FirstIsLeast(ts: seq<TaskValue>, v: seq<nat>, i: nat)
    requires InBounds(ts, v) && Ordered(ts, v)
    requires i in v
    ensures v[0] == i || Before(ts, v[0], i)
  {
    var j :| 0 <= j < |v| && v[j] == i;
    if j != 0 {
      assert Before(ts, v[0], v[j]);
    }
  }

  /** Two orderings of the same positions, both strict in `Before`, are the same ordering. */
  lemma {:induction false} OrderedUnique(ts: seq<TaskValue>, v: seq<nat>, w: seq<nat>)
    requires InBounds(ts, v) && InBounds(ts, w)
    requires Ordered(ts, v) && Ordered(ts, w)
    requires forall i :: i in v <==> i in w
    ensures v == w
  {
    EmptyWhenNoMembers(v);
    EmptyWhenNoMembers(w);
    if v != [] && w != [] {
      assert v[0] in w && w[0] in v;
      FirstIsLeast(ts, v, w[0]);
      FirstIsLeast(ts, w, v[0]);
      assert v[0] == w[0];
      forall i
        ensures i in v[1..] <==> i in w[1..]
      {
        if i in v[1..] {
          var j :| 0 <= j < |v[1..]| && v[1..][j] == i;
          assert Before(ts, v[0], v[j + 1]);
          assert i in w;
        }
        if i in w[1..] {
          var j :| 0 <= j < |w[1..]| && w[1..][j] == i;
          assert Before(ts, w[0], w[j + 1]);
          assert i in v;
        }
      }
      OrderedUnique(ts, v[1..], w[1..]);
      assert v == [v[0]] + v[1..];
      assert w == [w[0]] + w[1..];
    }
  }

  /**
   * The view is the only ordering with the promised properties, so it is
   * exactly what a stable sort by priority of the matching tasks yields.
   */
  lemma ViewCharacterized(ts: seq<TaskValue>, isWorkTask: bool, v: seq<nat>)
    ensures v == View(ts, isWorkTask) <==> IsStableView(ts, isWorkTask, v)
  {
    ViewIsStable(ts, isWorkTask);
    if IsStableView(ts, isWorkTask, v) {
      var u := View(ts, isWorkTask);
      assert Ordered(ts, v);
      assert Ordered(ts, u);
      OrderedUnique(ts, v, u);
    }
  }

  /** The tasks the view shows are a reordering of the `Where` result. */
  lemma ViewPermutesFilter(ts: seq<TaskValue>, isWorkTask: bool)
    ensures multiset(At(ts, View(ts, isWorkTask))) == multiset(Filter(ts, isWorkTask))
  {
    SortPermutesTasks(ts, MatchingIndices(ts, isWorkTask));
    MatchingIndicesFilter(ts, isWorkTask);
  }

  lemma {:induction false} InsertPermutesTasks(ts: seq<TaskValue>, x: nat, s: seq<nat>)
    requires x < |ts| && InBounds(ts, s)
    ensures multiset(At(ts, Insert(ts, x, s))) == multiset(At(ts, s)) + multiset{ts[x]}
  {
    if s == [] {
    } else if ts[x].priority <= ts[s[0]].priority {
      AtCons(ts, x, s);
    } else {
      var r := Insert(ts, x, s[1..]);
      assert Insert(ts, x, s) == [s[0]] + r;
      InsertPermutesTasks(ts, x, s[1..]);
      AtCons(ts, s[0], r);
      AtHead(ts, s);
      var first := ts[s[0]];
      assert multiset(At(ts, [s[0]] + r)) == multiset{first} + multiset(At(ts, r));
      assert multiset(At(ts, s)) == multiset{first} + multiset(At(ts, s[1..]));
    }
  }

  lemma {:induction false} SortPermutesTasks(ts: seq<TaskValue>, idx: seq<nat>)
    requires InBounds(ts, idx)
    ensures multiset(At(ts, SortByPriority(ts, idx))) == multiset(At(ts, idx))
  {
    if idx != [] {
      var sorted := SortByPriority(ts, idx[1..]);
      assert SortByPriority(ts, idx) == Insert(ts, idx[0], sorted);
      SortPermutesTasks(ts, idx[1..]);
      InsertPermutesTasks(ts, idx[0], sorted);
      AtHead(ts, idx);
      assert multiset(At(ts, idx)) == multiset{ts[idx[0]]} + multiset(At(ts, idx[1..]));
    }
  }

  lemma {:induction false} MatchingIndicesFilter(ts: seq<TaskValue>, isWorkTask: bool)
    ensures At(ts, MatchingIndices(ts, isWorkTask)) == Filter(ts, isWorkTask)
  {
    if ts != [] {
      var last := |ts| - 1;
      var init := ts[..last];
      var front := MatchingIndices(init, isWorkTask);
      MatchingIndicesFilter(init, isWorkTask);
      AtPrefix(ts, last, front);
      if Matches(ts[last], isWorkTask) {
        AtSnoc(ts, front, last);
      }
    }
  }

  /** Positions inside a prefix pick the same tasks from the prefix as from the whole. */
  lemma AtPrefix(ts: seq<TaskValue>, n: nat, v: seq<nat>)
    requires n <= |ts| && InBounds(ts[..n], v)
    ensures InBounds(ts, v) && At(ts, v) == At(ts[..n], v)
  {
    assert InBounds(ts, v);
  }

  lemma AtSnoc(ts: seq<TaskValue>, v: seq<nat>, x: nat)
    requires x < |ts| && InBounds(ts, v)
    ensures InBounds(ts, v + [x])
    ensures At(ts, v + [x]) == At(ts, v) + [ts[x]]
  {
    assert InBounds(ts, v + [x]);
  }

  lemma AtHead(ts: seq<TaskValue>, v: seq<nat>)
    requires v != [] && InBounds(ts, v)
    ensures InBounds(ts, v[1..])
    ensures At(ts, v) == [ts[v[0]]] + At(ts, v[1..])
  {
    assert InBounds(ts, v[1..]);
  }

  lemma AtCons(ts: seq<TaskValue>, x: nat, s: seq<nat>)
    requires x < |ts| && InBounds(ts, s)
    ensures InBounds(ts, [x] + s)
    ensures At(ts, [x] + s) == [ts[x]] + At(ts, s)
  {
    assert InBounds(ts, [x] + s);
  }
}
