/**
 What each worker takes, over every run: its items in the order of the queue, in batches that
 are full as long as there is enough, and one item more at most once the run is cancelled.
 */
module WorkStealRuns {
  import opened WorkSteal

  /** Which item a step takes from the queue, if it takes one. */
  function TakenNow<T>(s: State<T>, step: Step): seq<T>
    requires Enabled(s, step)
  {
    if step.Take? && s.queue != [] then [s.queue[0]] else []
  }

  /** The items that worker `w` takes in the course of a run, one after the other. */
  ghost function TakenBy<T>(first: State<T>, steps: seq<Step>, limit: nat, w: nat, s: State<T>): seq<T>
    requires Run(first, steps, limit, s)
    decreases |steps|
  {
    if steps == [] then []
    else
      TakenNowBy(first, steps[0], w) + TakenBy(Next(first, steps[0], limit), steps[1..], limit, w, s)
  }

  /** The items that all of them take. */
  ghost function TakenByAll<T>(first: State<T>, steps: seq<Step>, limit: nat, s: State<T>): seq<T>
    requires Run(first, steps, limit, s)
    decreases |steps|
  {
    if steps == [] then []
    else TakenNow(first, steps[0]) + TakenByAll(Next(first, steps[0], limit), steps[1..], limit, s)
  }

  /** What worker `w` takes from the queue in a step. */
  function TakenNowBy<T>(s: State<T>, step: Step, w: nat): seq<T>
    requires Enabled(s, step)
  {
    if step.Take? && step.w == w then TakenNow(s, step) else []
  }

  lemma StepHas<T>(s: State<T>, step: Step, limit: nat, w: nat)
    requires Enabled(s, step) && w < |s.workers|
    ensures w < |Next(s, step, limit).workers|
    ensures Had(Next(s, step, limit).workers[w]) == Had(s.workers[w]) + TakenNowBy(s, step, w)
  {
    var s' := Next(s, step, limit);
    if TakenNowBy(s, step, w) != [] {
      MoreHad(s.workers[w], s'.workers[w], s.queue[0]);
    } else {
      if step.Count? && step.w == w {
        AllMore(s.workers[w].done, s.workers[w].stage.batch);
      }
      NothingMore(Had(s'.workers[w]), Had(s.workers[w]));
    }
  }

  lemma NothingMore<T>(a: seq<T>, b: seq<T>)
    requires a == b
    ensures a == b + []
  {
  }

  lemma Regroup<T>(a: seq<T>, b: seq<T>, c: seq<T>, x: seq<T>, y: seq<T>)
    requires b == a + x && c == b + y
    ensures c == a + (x + y)
  {
  }

  /** Each worker has what it took, in that order. */
  lemma {:induction false} HasWhatItTook<T>(first: State<T>, steps: seq<Step>, limit: nat, s: State<T>, w: nat)
    requires Run(first, steps, limit, s) && w < |first.workers|
    ensures w < |s.workers| && Had(s.workers[w]) == Had(first.workers[w]) + TakenBy(first, steps, limit, w, s)
    decreases |steps|
  {
    if steps == [] {
      NothingMore(Had(s.workers[w]), Had(first.workers[w]));
    } else {
      var second := Next(first, steps[0], limit);
      StepHas(first, steps[0], limit, w);
      HasWhatItTook(second, steps[1..], limit, s, w);
      Regroup(Had(first.workers[w]), Had(second.workers[w]), Had(s.workers[w]),
              TakenNowBy(first, steps[0], w), TakenBy(second, steps[1..], limit, w, s));
    }
  }

  /** All of them took the front of the queue, in its order. */
  lemma {:induction false} TakenInOrder<T>(first: State<T>, steps: seq<Step>, limit: nat, s: State<T>)
    requires Run(first, steps, limit, s)
    ensures first.queue == TakenByAll(first, steps, limit, s) + s.queue
    decreases |steps|
  {
    if steps == [] {
      assert [] + s.queue == s.queue;
    } else {
      var second := Next(first, steps[0], limit);
      TakenInOrder(second, steps[1..], limit, s);
      QueueStep(first, steps[0], limit);
      assert TakenNow(first, steps[0]) + (TakenByAll(second, steps[1..], limit, s) + s.queue)
          == TakenNow(first, steps[0]) + TakenByAll(second, steps[1..], limit, s) + s.queue;
    }
  }

  lemma QueueStep<T>(s: State<T>, step: Step, limit: nat)
    requires Enabled(s, step)
    ensures s.queue == TakenNow(s, step) + Next(s, step, limit).queue
  {
    assert [] + s.queue == s.queue;
  }

  /** From the start: what a worker has is what it took, and all took the front of the input. */
  lemma EachHasItsOwn<T>(items: seq<T>, workers: nat, limit: nat, steps: seq<Step>, s: State<T>, w: nat)
    requires Run(Start(items, workers), steps, limit, s) && w < workers
    ensures w < |s.workers| && Had(s.workers[w]) == TakenBy(Start(items, workers), steps, limit, w, s)
    ensures items == TakenByAll(Start(items, workers), steps, limit, s) + s.queue
  {
    HasWhatItTook(Start(items, workers), steps, limit, s, w);
    TakenInOrder(Start(items, workers), steps, limit, s);
    NothingYet(items, workers, w);
    AfterNothing(Had(Start(items, workers).workers[w]), TakenBy(Start(items, workers), steps, limit, w, s));
  }

  lemma NothingYet<T>(items: seq<T>, workers: nat, w: nat)
    requires w < workers
    ensures Had(Start(items, workers).workers[w]) == [] && Start(items, workers).queue == items
  {
  }

  lemma AfterNothing<T>(a: seq<T>, b: seq<T>)
    requires a == []
    ensures a + b == b
  {
  }

  // ----- Cancelling -----

  /** How many items a worker may still take when the run is cancelled: the one it has looked for already. */
  function StillTakes<T>(stage: Stage<T>): nat {
    if stage.Taking? then 1 else 0
  }

  /** Once the run is cancelled a worker takes one item more at most, and none if it has yet to look. */
  lemma {:induction false} AfterCancel<T>(first: State<T>, steps: seq<Step>, limit: nat, s: State<T>, w: nat)
    requires Run(first, steps, limit, s) && first.cancelled && w < |first.workers|
    ensures s.cancelled && w < |s.workers|
    ensures |TakenBy(first, steps, limit, w, s)| + StillTakes(s.workers[w].stage)
         <= StillTakes(first.workers[w].stage)
    decreases |steps|
  {
    if steps != [] {
      AfterCancel(Next(first, steps[0], limit), steps[1..], limit, s, w);
    }
  }

  // ----- Full batches -----

  /** A batch below the limit is run only when there is no more to take, or the run is cancelled. */
  predicate FullOrLast<T>(s: State<T>, batch: seq<T>, limit: nat) {
    |batch| >= limit || s.cancelled || s.queue == []
  }

  ghost predicate WorkerFull<T>(s: State<T>, w: Worker<T>, limit: nat) {
    && (forall batch <- w.done :: FullOrLast(s, batch, limit))
    && (w.stage.Running? || w.stage.Ran? || w.stage.Panicked? || w.stage.Stopped? ==>
          FullOrLast(s, Held(w.stage), limit))
  }

  ghost predicate AllFull<T>(s: State<T>, limit: nat) {
    forall i | 0 <= i < |s.workers| :: WorkerFull(s, s.workers[i], limit)
  }

  lemma StepFull<T>(s: State<T>, step: Step, limit: nat)
    requires Enabled(s, step) && AllFull(s, limit) && limit > 0
    ensures AllFull(Next(s, step, limit), limit)
  {
    var s' := Next(s, step, limit);
    forall i | 0 <= i < |s'.workers| ensures WorkerFull(s', s'.workers[i], limit) {
      assert WorkerFull(s, s.workers[i], limit);
    }
  }

  lemma {:induction false} RunFull<T>(first: State<T>, steps: seq<Step>, limit: nat, s: State<T>)
    requires Run(first, steps, limit, s) && AllFull(first, limit) && limit > 0
    ensures AllFull(s, limit)
    decreases |steps|
  {
    if steps != [] {
      StepFull(first, steps[0], limit);
      RunFull(Next(first, steps[0], limit), steps[1..], limit, s);
    }
  }

  /** So as long as there is more to take, every batch that was run was full. */
  lemma BatchesFull<T>(
      items: seq<T>, workers: nat, batchSize: nat, steps: seq<Step>, s: State<T>, w: nat, batch: seq<T>)
    requires Run(Start(items, workers), steps, BatchLimit(batchSize), s) && w < |s.workers|
    requires batch in s.workers[w].done && s.queue != [] && !s.cancelled
    ensures |batch| == BatchLimit(batchSize) == if batchSize == 0 then 1 else batchSize
  {
    var limit := BatchLimit(batchSize);
    RunFull(Start(items, workers), steps, limit, s);
    Conserved(items, workers, batchSize, steps, s);
    assert WorkerFull(s, s.workers[w], limit) && BatchesWithin(s.workers[w], limit);
  }

  // ----- What ends a worker early -----

  lemma {:induction false} EndsEarly<T>(first: State<T>, steps: seq<Step>, limit: nat, s: State<T>, w: nat)
    requires Run(first, steps, limit, s)
    ensures s.cancelled <==> first.cancelled || Cancel in steps
    ensures w < |first.workers| ==>
              && w < |s.workers|
              && (s.workers[w].stage.Panicked? <==> first.workers[w].stage.Panicked? || Finish(w, true) in steps)
    decreases |steps|
  {
    if steps != [] {
      assert steps == [steps[0]] + steps[1..];
      EndsEarly(Next(first, steps[0], limit), steps[1..], limit, s, w);
    }
  }

  /** A run is cancelled exactly if someone has asked for it, and a worker is lost exactly if its batch panicked. */
  lemma OnlyIfAsked<T>(items: seq<T>, workers: nat, limit: nat, steps: seq<Step>, s: State<T>, w: nat)
    requires Run(Start(items, workers), steps, limit, s)
    ensures Enabled(s, Cancel) && (s.cancelled <==> Cancel in steps)
    ensures w < workers ==> w < |s.workers| && (s.workers[w].stage.Panicked? <==> Finish(w, true) in steps)
  {
    EndsEarly(Start(items, workers), steps, limit, s, w);
  }

  /** Every step but cancelling is one of a worker. */
  lemma {:induction false} EachCounted(steps: seq<Step>, step: Step)
    ensures WorkerSteps(steps + [step]) == WorkerSteps(steps) + if step == Cancel then 0 else 1
  {
    if steps == [] {
      assert steps + [step] == [step] && [step][1..] == [];
    } else {
      assert (steps + [step])[1..] == steps[1..] + [step];
      EachCounted(steps[1..], step);
    }
  }
}
