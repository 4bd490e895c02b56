/**
  `merge_async_iterators`: one pending `__anext__` task per live iterator, any non-empty subset of
  which may be found completed at each wait. Modelled as a transition system over all schedules,
  and as the nested loops of the source under an arbitrary scheduler.
 */
module MergeIterators {

  /** A pending `__anext__` call: which iterator it belongs to and how many items preceded it. */
  datatype Task = Task(iter: nat, pos: nat)

  /** The `awaits` dict, the completed tasks still to be handled, the next task id, the output. */
  datatype State<T> = State(awaits: map<nat, Task>, done: set<nat>, next: nat, yielded: seq<(nat, T)>)

  /** The first task of each of `n` iterators; task `i` belongs to iterator `i`. */
  function FirstTasks(n: nat): (r: map<nat, Task>) {
    map i: nat | 0 <= i < n :: Task(i, 0)
  }

  function Initial<T>(src: seq<seq<T>>): (s: State<T>) {
    State(FirstTasks(|src|), {}, |src|, [])
  }

  /** `await asyncio.wait(..., FIRST_COMPLETED)`: some non-empty set of pending tasks is complete. */
  ghost predicate Wait<T>(s: State<T>, s': State<T>) {
    && s.done == {}
    && s'.done != {} && s'.done <= s.awaits.Keys
    && s' == s.(done := s'.done)
  }

  /** One turn of the inner loop, for the completed task `d`. */
  function Handle<T>(src: seq<seq<T>>, s: State<T>, d: nat): (r: State<T>)
    requires d in s.awaits && s.awaits[d].iter < |src|
  {
    var task := s.awaits[d];
    if task.pos < |src[task.iter]| then
      State((s.awaits - {d})[s.next := Task(task.iter, task.pos + 1)],
            s.done - {d},
            s.next + 1,
            s.yielded + [(task.iter, src[task.iter][task.pos])])
    else
      s.(awaits := s.awaits - {d}, done := s.done - {d})
  }

  ghost predicate Step<T>(src: seq<seq<T>>, s: State<T>, s': State<T>) {
    || Wait(s, s')
    || exists d :: d in s.done && d in s.awaits && s.awaits[d].iter < |src| && s' == Handle(src, s, d)
  }

  /** The items yielded with tag `i`, in order. */
  ghost function Tagged<T>(yielded: seq<(nat, T)>, i: nat): (r: seq<T>) {
    if yielded == [] then []
    else
      var last := yielded[|yielded| - 1];
      Tagged(yielded[..|yielded| - 1], i) + if last.0 == i then [last.1] else []
  }

  lemma TaggedSnoc<T>(yielded: seq<(nat, T)>, y: (nat, T), i: nat)
    ensures Tagged(yielded + [y], i) == Tagged(yielded, i) + if y.0 == i then [y.1] else []
  {
  }

  /** Iterator `i` still has a pending task. */
  ghost predicate Live<T>(s: State<T>, i: nat) {
    exists t :: t in s.awaits && s.awaits[t].iter == i
  }

  ghost predicate TaskOk<T>(src: seq<seq<T>>, s: State<T>, t: nat)
    requires t in s.awaits
  {
    var task := s.awaits[t];
    && task.iter < |src| && task.pos <= |src[task.iter]|
    && Tagged(s.yielded, task.iter) == src[task.iter][..task.pos]
  }

  ghost predicate Inv<T>(src: seq<seq<T>>, s: State<T>) {
    && s.done <= s.awaits.Keys
    && (forall t :: t in s.awaits ==> t < s.next)
    && (forall t :: t in s.awaits ==> TaskOk(src, s, t))
    && (forall t, u :: t in s.awaits && u in s.awaits && s.awaits[t].iter == s.awaits[u].iter ==> t == u)
    && (forall i: nat :: i < |src| && !Live(s, i) ==> Tagged(s.yielded, i) == src[i])
    && (forall k :: 0 <= k < |s.yielded| ==> s.yielded[k].0 < |src|)
  }

  lemma InitialInv<T>(src: seq<seq<T>>)
    ensures Inv(src, Initial(src))
  {
    var s := Initial(src);
    forall i: nat | i < |src|
      ensures Live(s, i)
    {
      assert i in s.awaits && s.awaits[i].iter == i;
    }
  }

  lemma HandleItemInv<T>(src: seq<seq<T>>, s: State<T>, d: nat)
    requires Inv(src, s) && d in s.awaits && TaskOk(src, s, d)
    requires s.awaits[d].pos < |src[s.awaits[d].iter]|
    ensures Inv(src, Handle(src, s, d))
  {
    var s' := Handle(src, s, d);
    assert s'.awaits[s.next] == Task(s.awaits[d].iter, s.awaits[d].pos + 1);
    forall t | t in s'.awaits
      ensures TaskOk(src, s', t)
    {
      HandleItemTask(src, s, d, t);
    }
    forall i: nat | i < |src| && !Live(s', i)
      ensures Tagged(s'.yielded, i) == src[i]
    {
      HandleItemRetired(src, s, d, i);
    }
  }

  lemma HandleItemTask<T>(src: seq<seq<T>>, s: State<T>, d: nat, t: nat)
    requires Inv(src, s) && d in s.awaits && TaskOk(src, s, d)
    requires s.awaits[d].pos < |src[s.awaits[d].iter]| && t in Handle(src, s, d).awaits
    ensures TaskOk(src, Handle(src, s, d), t)
  {
  }

  /** Yielding an item retires no iterator and leaves the retired ones alone. */
  lemma HandleItemRetired<T>(src: seq<seq<T>>, s: State<T>, d: nat, i: nat)
    requires Inv(src, s) && d in s.awaits && TaskOk(src, s, d) && i < |src|
    requires s.awaits[d].pos < |src[s.awaits[d].iter]| && !Live(Handle(src, s, d), i)
    ensures Tagged(Handle(src, s, d).yielded, i) == src[i]
  {
    var task, s' := s.awaits[d], Handle(src, s, d);
    assert s'.awaits[s.next].iter == task.iter;
    TaggedSnoc(s.yielded, (task.iter, src[task.iter][task.pos]), i);
    assert forall t :: t in s.awaits && t != d ==> t in s'.awaits && s'.awaits[t] == s.awaits[t];
    assert !Live(s, i);
  }

  lemma HandleStopInv<T>(src: seq<seq<T>>, s: State<T>, d: nat)
    requires Inv(src, s) && d in s.awaits && TaskOk(src, s, d)
    requires s.awaits[d].pos == |src[s.awaits[d].iter]|
    ensures Inv(src, Handle(src, s, d))
  {
    var s' := Handle(src, s, d);
    forall t | t in s'.awaits
      ensures TaskOk(src, s', t)
    {
      assert TaskOk(src, s, t);
    }
    forall i: nat | i < |src| && !Live(s', i)
      ensures Tagged(s'.yielded, i) == src[i]
    {
      if i != s.awaits[d].iter {
        assert forall t :: t in s.awaits && t != d ==> t in s'.awaits && s'.awaits[t] == s.awaits[t];
        assert !Live(s, i);
      }
    }
  }

  /** Handling a completed task yields its iterator's next item, or retires an exhausted iterator. */
  lemma HandleInv<T>(src: seq<seq<T>>, s: State<T>, d: nat)
    requires Inv(src, s) && d in s.awaits
    ensures TaskOk(src, s, d) && Inv(src, Handle(src, s, d))
  {
    assert TaskOk(src, s, d);
    if s.awaits[d].pos < |src[s.awaits[d].iter]| {
      HandleItemInv(src, s, d);
    } else {
      HandleStopInv(src, s, d);
    }
  }

  lemma StepInv<T>(src: seq<seq<T>>, s: State<T>, s': State<T>)
    requires Inv(src, s) && Step(src, s, s')
    ensures Inv(src, s')
  {
    if Wait(s, s') {
      forall t | t in s'.awaits
        ensures TaskOk(src, s', t)
      {
        assert TaskOk(src, s, t);
      }
      assert forall i: nat :: Live(s', i) <==> Live(s, i);
    } else {
      var d :| d in s.done && d in s.awaits && s.awaits[d].iter < |src| && s' == Handle(src, s, d);
      HandleInv(src, s, d);
    }
  }

  ghost function Total<T>(src: seq<seq<T>>): nat {
    if src == [] then 0 else Total(src[..|src| - 1]) + |src[|src| - 1]|
  }

  ghost function TaggedBelow<T>(yielded: seq<(nat, T)>, n: nat): nat {
    if n == 0 then 0 else TaggedBelow(yielded, n - 1) + |Tagged(yielded, n - 1)|
  }

  /** Every output with a tag below `n` is counted once over the tags. */
  lemma {:induction false} TaggedPartition<T>(yielded: seq<(nat, T)>, n: nat)
    requires forall k :: 0 <= k < |yielded| ==> yielded[k].0 < n
    ensures TaggedBelow(yielded, n) == |yielded|
  {
    if yielded == [] {
      TaggedBelowEmpty<T>(n);
    } else {
      var init, last := yielded[..|yielded| - 1], yielded[|yielded| - 1];
      TaggedPartition(init, n);
      TaggedBelowSnoc(init, last, n);
      assert yielded == init + [last];
    }
  }

  lemma {:induction false} TaggedBelowEmpty<T>(n: nat)
    ensures TaggedBelow<T>([], n) == 0
  {
    if n > 0 {
      TaggedBelowEmpty<T>(n - 1);
    }
  }

  lemma {:induction false} TaggedBelowSnoc<T>(yielded: seq<(nat, T)>, y: (nat, T), n: nat)
    ensures TaggedBelow(yielded + [y], n) == TaggedBelow(yielded, n) + if y.0 < n then 1 else 0
  {
    if n > 0 {
      TaggedBelowSnoc(yielded, y, n - 1);
      TaggedSnoc(yielded, y, n - 1);
    }
  }

  /** The yielded items of each iterator are a prefix of its items. */
  ghost predicate PrefixOfEach<T>(src: seq<seq<T>>, yielded: seq<(nat, T)>) {
    forall i: nat :: i < |src| ==> Tagged(yielded, i) <= src[i]
  }

  lemma InvPrefix<T>(src: seq<seq<T>>, s: State<T>)
    requires Inv(src, s)
    ensures PrefixOfEach(src, s.yielded)
    ensures |s.yielded| <= Total(src)
  {
    forall i: nat | i < |src|
      ensures Tagged(s.yielded, i) <= src[i]
    {
      if t :| t in s.awaits && s.awaits[t].iter == i {
        assert TaskOk(src, s, t);
      }
    }
    TaggedPartition(s.yielded, |src|);
    TaggedAtMostTotal(src, s.yielded);
  }

  lemma {:induction false} TaggedAtMostTotal<T>(src: seq<seq<T>>, yielded: seq<(nat, T)>)
    requires PrefixOfEach(src, yielded)
    ensures TaggedBelow(yielded, |src|) <= Total(src)
    ensures (forall i: nat :: i < |src| ==> Tagged(yielded, i) == src[i]) ==> TaggedBelow(yielded, |src|) == Total(src)
  {
    if src != [] {
      var init := src[..|src| - 1];
      assert forall i: nat :: i < |init| ==> init[i] == src[i];
      TaggedAtMostTotal(init, yielded);
    }
  }

  /** Items still to be yielded plus live iterators, with a waiting state ranked above its successors. */
  ghost function Rank<T>(src: seq<seq<T>>, s: State<T>): int {
    2 * (Total(src) - |s.yielded| + |s.awaits|) + if s.done == {} then 1 else 0
  }

  lemma RankNonNegative<T>(src: seq<seq<T>>, s: State<T>)
    requires Inv(src, s)
    ensures 0 <= Rank(src, s)
  {
    InvPrefix(src, s);
  }

  lemma StepDecreases<T>(src: seq<seq<T>>, s: State<T>, s': State<T>)
    requires Inv(src, s) && Step(src, s, s')
    ensures 0 <= Rank(src, s') < Rank(src, s)
  {
    StepInv(src, s, s');
    RankNonNegative(src, s');
    if !Wait(s, s') {
      var d :| d in s.done && d in s.awaits && s.awaits[d].iter < |src| && s' == Handle(src, s, d);
      HandleSize(src, s, d);
    }
  }

  lemma HandleSize<T>(src: seq<seq<T>>, s: State<T>, d: nat)
    requires Inv(src, s) && d in s.awaits
    ensures TaskOk(src, s, d)
    ensures var s' := Handle(src, s, d);
            |s'.awaits| - |s'.yielded| == |s.awaits| - |s.yielded| - 1
  {
  }

  // ---------------------------------------------------------------------------------------
  // Every schedule
  // ---------------------------------------------------------------------------------------

  ghost predicate IsRun<T>(src: seq<seq<T>>, run: seq<State<T>>) {
    && run != [] && run[0] == Initial(src)
    && forall k :: 0 <= k < |run| - 1 ==> Step(src, run[k], run[k + 1])
  }

  ghost predicate Finished<T>(s: State<T>) {
    s.awaits == map[] && s.done == {}
  }

  lemma {:induction false} RunInv<T>(src: seq<seq<T>>, run: seq<State<T>>)
    requires IsRun(src, run)
    ensures Inv(src, run[|run| - 1])
    ensures |run| - 1 + Rank(src, run[|run| - 1]) <= Rank(src, Initial(src))
  {
    if |run| == 1 {
      InitialInv(src);
    } else {
      var before := run[..|run| - 1];
      RunInv(src, before);
      assert Step(src, run[|run| - 2], run[|run| - 1]);
      StepInv(src, run[|run| - 2], run[|run| - 1]);
      StepDecreases(src, run[|run| - 2], run[|run| - 1]);
    }
  }

  /** An unfinished state can always move. */
  lemma NoDeadlock<T>(src: seq<seq<T>>, s: State<T>)
    requires Inv(src, s) && !Finished(s)
    ensures exists s' :: Step(src, s, s')
  {
    if s.done == {} {
      assert s.awaits.Keys != {} by {
        assert s.awaits != map[];
        var t :| t in s.awaits;
      }
      assert Step(src, s, s.(done := s.awaits.Keys));
    } else {
      var d :| d in s.done;
      assert TaskOk(src, s, d);
      assert Step(src, s, Handle(src, s, d));
    }
  }

  /** A state without pending tasks has yielded every item of every iterator once, and nothing else. */
  lemma FinishedComplete<T>(src: seq<seq<T>>, s: State<T>)
    requires Inv(src, s) && s.awaits == map[]
    ensures forall i: nat :: i < |src| ==> Tagged(s.yielded, i) == src[i]
    ensures |s.yielded| == Total(src)
  {
    assert forall i: nat :: !Live(s, i);
    InvPrefix(src, s);
    TaggedPartition(s.yielded, |src|);
    TaggedAtMostTotal(src, s.yielded);
  }

  /**
    In every interleaving: what has been yielded so far is, per iterator, a prefix of its items; an
    iterator with items left has exactly one pending task; the run is at most two steps per item
    and per iterator long; a finished run has yielded every item of every iterator exactly once
    and nothing else; an unfinished state can always move.
   */
  lemma MergeCorrect<T>(src: seq<seq<T>>, run: seq<State<T>>)
    requires IsRun(src, run)
    ensures var s := run[|run| - 1];
            && PrefixOfEach(src, s.yielded)
            && (forall i: nat :: i < |src| && Tagged(s.yielded, i) != src[i] ==> Live(s, i))
            && (forall t, u :: t in s.awaits && u in s.awaits && s.awaits[t].iter == s.awaits[u].iter ==> t == u)
            && (Finished(s) ==> |s.yielded| == Total(src) && forall i: nat :: i < |src| ==> Tagged(s.yielded, i) == src[i])
            && (!Finished(s) ==> exists s' :: Step(src, s, s'))
    ensures |run| <= 2 * (Total(src) + |src|) + 2
  {
    RunInv(src, run);
    var s := run[|run| - 1];
    InvPrefix(src, s);
    FirstTasksSize(|src|);
    if Finished(s) {
      FinishedComplete(src, s);
    } else {
      NoDeadlock(src, s);
    }
  }

  lemma {:induction false} FirstTasksSize(n: nat)
    ensures |FirstTasks(n)| == n
  {
    if n > 0 {
      FirstTasksSize(n - 1);
      assert FirstTasks(n) == FirstTasks(n - 1)[n - 1 := Task(n - 1, 0)];
    }
  }

  /** What the loops of `Merge` keep. */
  ghost predicate LoopInv<T>(src: seq<seq<T>>, s: State<T>, fuel: nat) {
    Inv(src, s) && |s.yielded| <= Total(src) && Total(src) - |s.yielded| + |s.awaits| == fuel
  }

  lemma HandleLoopInv<T>(src: seq<seq<T>>, s: State<T>, d: nat, fuel: nat)
    requires LoopInv(src, s, fuel) && d in s.done
    ensures d in s.awaits && s.awaits[d].iter < |src|
    ensures 0 < fuel && LoopInv(src, Handle(src, s, d), fuel - 1)
  {
    HandleInv(src, s, d);
    HandleSize(src, s, d);
    InvPrefix(src, Handle(src, s, d));
  }

  lemma WaitLoopInv<T>(src: seq<seq<T>>, s: State<T>, done: set<nat>, fuel: nat)
    requires LoopInv(src, s, fuel) && s.done == {} && done != {} && done <= s.awaits.Keys
    ensures LoopInv(src, s.(done := done), fuel)
  {
  }

  /** The generator run to its end, under an arbitrary scheduler. */
  method Merge<T>(src: seq<seq<T>>) returns (yielded: seq<(nat, T)>)
    ensures forall i: nat :: i < |src| ==> Tagged(yielded, i) == src[i]
    ensures |yielded| == Total(src)
  {
    var awaits, next: nat := FirstTasks(|src|), |src|;
    yielded := [];
    InitialInv(src);
    InvPrefix(src, Initial(src));
    ghost var fuel: nat := Total(src) + |awaits|;
    while awaits != map[]
      invariant LoopInv(src, State(awaits, {}, next, yielded), fuel)
      decreases fuel
    {
      assert awaits.Keys != {};
      var done: set<nat> :| done != {} && done <= awaits.Keys;
      WaitLoopInv(src, State(awaits, {}, next, yielded), done, fuel);
      awaits, next, yielded, fuel := MergeBatch(src, awaits, done, next, yielded, fuel);
    }
    FinishedComplete(src, State(awaits, {}, next, yielded));
  }

  /** The inner loop: each completed task yields an item and is replaced, or retires its iterator. */
  method MergeBatch<T>(src: seq<seq<T>>, awaits0: map<nat, Task>, done0: set<nat>, next0: nat,
                       yielded0: seq<(nat, T)>, ghost fuel0: nat)
    returns (awaits: map<nat, Task>, next: nat, yielded: seq<(nat, T)>, ghost fuel: nat)
    requires LoopInv(src, State(awaits0, done0, next0, yielded0), fuel0) && done0 != {}
    ensures LoopInv(src, State(awaits, {}, next, yielded), fuel)
    ensures fuel < fuel0 && yielded0 <= yielded
  {
    awaits, next, yielded, fuel := awaits0, next0, yielded0, fuel0;
    var done := done0;
    while done != {}
      invariant LoopInv(src, State(awaits, done, next, yielded), fuel)
      invariant yielded0 <= yielded
      invariant fuel <= fuel0 && (done != done0 ==> fuel < fuel0)
      decreases fuel
    {
      var d :| d in done;
      HandleLoopInv(src, State(awaits, done, next, yielded), d, fuel);
      awaits, next, yielded := HandleTask(src, awaits, done, next, yielded, d);
      done, fuel := done - {d}, fuel - 1;
    }
  }

  /** `awaits.pop(d)`, then a new task and a yield unless the iterator is exhausted. */
  method HandleTask<T>(src: seq<seq<T>>, awaits: map<nat, Task>, ghost done: set<nat>, next: nat, yielded: seq<(nat, T)>, d: nat)
    returns (awaits': map<nat, Task>, next': nat, yielded': seq<(nat, T)>)
    requires d in awaits && awaits[d].iter < |src|
    ensures State(awaits', done - {d}, next', yielded') == Handle(src, State(awaits, done, next, yielded), d)
    ensures yielded <= yielded'
  {
    var task := awaits[d];
    awaits', next', yielded' := awaits - {d}, next, yielded;
    if task.pos < |src[task.iter]| {
      awaits' := awaits'[next := Task(task.iter, task.pos + 1)];
      next' := next + 1;
      yielded' := yielded + [(task.iter, src[task.iter][task.pos])];
    }
  }
}
