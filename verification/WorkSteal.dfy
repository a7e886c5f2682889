/**
 Workers that take batches from one queue, as an interleaving of single steps: a worker
 looks whether the run is cancelled, takes one item, runs a batch, counts it.
 */
module WorkSteal {

  datatype Stage<T> =
    | Looking(batch: seq<T>)
    | Taking(batch: seq<T>)
    | Running(batch: seq<T>)
    | Ran(batch: seq<T>)
    | Stopped
    | Panicked(lost: seq<T>)

  /** A worker and the batches it has run and counted. */
  datatype Worker<T> = Worker(stage: Stage<T>, done: seq<seq<T>>)

  /** `handed` lists the items taken from the queue so far. */
  datatype State<T> = State(
    queue: seq<T>, handed: seq<T>, workers: seq<Worker<T>>, processed: nat, cancelled: bool)

  datatype Step =
    | Cancel
    | Look(w: nat)
    | Take(w: nat)
    | Finish(w: nat, panics: bool)
    | Count(w: nat)

  /** Zero cannot dequeue a batch; one preserves forward progress. */
  function BatchLimit(batchSize: nat): nat {
    if batchSize == 0 then 1 else batchSize
  }

  function Start<T>(items: seq<T>, workers: nat): State<T> {
    State(items, [], seq(workers, i => Worker(Looking([]), [])), 0, false)
  }

  predicate Enabled<T>(s: State<T>, step: Step) {
    match step
    case Cancel => true
    case Look(w) => w < |s.workers| && s.workers[w].stage.Looking?
    case Take(w) => w < |s.workers| && s.workers[w].stage.Taking?
    case Finish(w, _) => w < |s.workers| && s.workers[w].stage.Running?
    case Count(w) => w < |s.workers| && s.workers[w].stage.Ran?
  }

  /** A batch that gets no more items is run; an empty one ends the worker. */
  function Closed<T>(batch: seq<T>): Stage<T> {
    if batch == [] then Stopped else Running(batch)
  }

  function Next<T>(s: State<T>, step: Step, limit: nat): State<T>
    requires Enabled(s, step)
  {
    match step
    case Cancel => s.(cancelled := true)
    case Look(w) =>
      var batch := s.workers[w].stage.batch;
      At(s, w, if |batch| >= limit || s.cancelled then Closed(batch) else Taking(batch))
    case Take(w) =>
      var batch := s.workers[w].stage.batch;
      if s.queue == [] then At(s, w, Closed(batch))
      else
        At(s, w, Looking(batch + [s.queue[0]])).(queue := s.queue[1..], handed := s.handed + [s.queue[0]])
    case Finish(w, panics) =>
      var batch := s.workers[w].stage.batch;
      At(s, w, if panics then Panicked(batch) else Ran(batch))
    case Count(w) =>
      var batch := s.workers[w].stage.batch;
      s.(workers := s.workers[w := Worker(Looking([]), s.workers[w].done + [batch])],
         processed := s.processed + |batch|)
  }

  function At<T>(s: State<T>, w: nat, stage: Stage<T>): State<T>
    requires w < |s.workers|
  {
    s.(workers := s.workers[w := s.workers[w].(stage := stage)])
  }

  /** The run after some steps. */
  ghost predicate Run<T>(first: State<T>, steps: seq<Step>, limit: nat, s: State<T>)
    decreases |steps|
  {
    if steps == [] then s == first
    else Enabled(first, steps[0]) && Run(Next(first, steps[0], limit), steps[1..], limit, s)
  }

  // ----- Where the items are -----

  /** The items of the batch at hand. */
  function Held<T>(stage: Stage<T>): seq<T> {
    match stage
    case Stopped => []
    case Panicked(lost) => lost
    case _ => stage.batch
  }

  function All<T>(batches: seq<seq<T>>): seq<T> {
    if batches == [] then [] else All(batches[..|batches| - 1]) + batches[|batches| - 1]
  }

  /** The items a worker has taken. */
  function Had<T>(w: Worker<T>): seq<T> {
    All(w.done) + Held(w.stage)
  }

  function AllHad<T>(workers: seq<Worker<T>>): multiset<T> {
    if workers == [] then multiset{} else multiset(Had(workers[0])) + AllHad(workers[1..])
  }

  /** How many items have been run and counted. */
  function CountedBy<T>(workers: seq<Worker<T>>): nat {
    if workers == [] then 0 else |All(workers[0].done)| + CountedBy(workers[1..])
  }

  /** How many items are still at hand, or were lost. */
  function HeldBy<T>(workers: seq<Worker<T>>): nat {
    if workers == [] then 0 else |Held(workers[0].stage)| + HeldBy(workers[1..])
  }

  lemma {:induction false} HadSame<T>(workers: seq<Worker<T>>, w: nat, worker: Worker<T>)
    requires w < |workers| && Had(worker) == Had(workers[w])
    ensures AllHad(workers[w := worker]) == AllHad(workers)
  {
    if w > 0 {
      HadSame(workers[1..], w - 1, worker);
      assert workers[w := worker][1..] == workers[1..][w - 1 := worker];
    } else {
      assert workers[w := worker][1..] == workers[1..];
    }
  }

  lemma {:induction false} HadMore<T>(workers: seq<Worker<T>>, w: nat, worker: Worker<T>, item: T)
    requires w < |workers| && Had(worker) == Had(workers[w]) + [item]
    ensures AllHad(workers[w := worker]) == AllHad(workers) + multiset{item}
  {
    if w > 0 {
      HadMore(workers[1..], w - 1, worker, item);
      assert workers[w := worker][1..] == workers[1..][w - 1 := worker];
    } else {
      assert workers[w := worker][1..] == workers[1..];
    }
  }

  lemma {:induction false} ReplaceCounts<T>(workers: seq<Worker<T>>, w: nat, worker: Worker<T>)
    requires w < |workers|
    ensures CountedBy(workers[w := worker]) + |All(workers[w].done)| == CountedBy(workers) + |All(worker.done)|
    ensures HeldBy(workers[w := worker]) + |Held(workers[w].stage)| == HeldBy(workers) + |Held(worker.stage)|
  {
    if w > 0 {
      ReplaceCounts(workers[1..], w - 1, worker);
      assert workers[w := worker][1..] == workers[1..][w - 1 := worker];
    } else {
      assert workers[w := worker][1..] == workers[1..];
    }
  }

  /** A batch has at least one item and at most the limit. */
  predicate GoodBatch<T>(batch: seq<T>, limit: nat) {
    0 < |batch| <= limit
  }

  ghost predicate GoodWorker<T>(s: State<T>, w: Worker<T>, limit: nat) {
    && (forall batch <- w.done :: GoodBatch(batch, limit))
    && (w.stage.Looking? ==> |w.stage.batch| <= limit)
    && (w.stage.Taking? ==> |w.stage.batch| < limit)
    && (w.stage.Running? || w.stage.Ran? || w.stage.Panicked? ==> GoodBatch(Held(w.stage), limit))
    && (w.stage.Stopped? ==> s.cancelled || s.queue == [])
  }

  ghost predicate ItemsKept<T>(items: seq<T>, s: State<T>) {
    && items == s.handed + s.queue
    && multiset(s.handed) == AllHad(s.workers)
    && s.processed == CountedBy(s.workers)
    && |s.handed| == s.processed + HeldBy(s.workers)
  }

  ghost predicate WorkersKept<T>(s: State<T>, limit: nat) {
    forall i | 0 <= i < |s.workers| :: GoodWorker(s, s.workers[i], limit)
  }

  /** What holds at every step. */
  ghost predicate Kept<T>(items: seq<T>, s: State<T>, limit: nat) {
    ItemsKept(items, s) && WorkersKept(s, limit)
  }

  lemma AllMore<T>(batches: seq<seq<T>>, batch: seq<T>)
    ensures All(batches + [batch]) == All(batches) + batch
  {
    assert (batches + [batch])[..|batches|] == batches;
  }

  /** A step of one worker that does not bring the queue to life again. */
  lemma WorkersStay<T>(s: State<T>, s': State<T>, w: nat, limit: nat)
    requires WorkersKept(s, limit) && w < |s.workers| && |s'.workers| == |s.workers|
    requires s'.workers == s.workers[w := s'.workers[w]]
    requires (s.cancelled ==> s'.cancelled) && (s.queue == [] ==> s'.queue == [])
    requires GoodWorker(s', s'.workers[w], limit)
    ensures WorkersKept(s', limit)
  {
    forall i | 0 <= i < |s'.workers| ensures GoodWorker(s', s'.workers[i], limit) {
      assert GoodWorker(s, s.workers[i], limit);
    }
  }

  /** A step of one worker that leaves the queue, and the items at hand, as they are. */
  lemma SameItems<T>(items: seq<T>, s: State<T>, w: nat, stage: Stage<T>, limit: nat)
    requires Kept(items, s, limit) && w < |s.workers|
    requires Held(stage) == Held(s.workers[w].stage)
    requires GoodWorker(s, s.workers[w].(stage := stage), limit)
    ensures Kept(items, At(s, w, stage), limit)
  {
    var worker := s.workers[w].(stage := stage);
    HadSame(s.workers, w, worker);
    ReplaceCounts(s.workers, w, worker);
    WorkersStay(s, At(s, w, stage), w, limit);
  }

  lemma TakeKeeps<T>(items: seq<T>, s: State<T>, w: nat, limit: nat)
    requires Kept(items, s, limit) && Enabled(s, Take(w)) && s.queue != []
    ensures Kept(items, Next(s, Take(w), limit), limit)
  {
    var s' := Next(s, Take(w), limit);
    var item, batch := s.queue[0], s.workers[w].stage.batch;
    assert GoodWorker(s, s.workers[w], limit);
    WorkersStay(s, s', w, limit);
    TakeItem(items, s, w, limit);
  }

  lemma TakeItem<T>(items: seq<T>, s: State<T>, w: nat, limit: nat)
    requires ItemsKept(items, s) && Enabled(s, Take(w)) && s.queue != []
    ensures ItemsKept(items, Next(s, Take(w), limit))
  {
    var worker := Next(s, Take(w), limit).workers[w];
    var item := s.queue[0];
    MoreHad(s.workers[w], worker, item);
    HadMore(s.workers, w, worker, item);
    ReplaceCounts(s.workers, w, worker);
    HandedMore(s.handed, s.queue);
  }

  lemma MoreHad<T>(before: Worker<T>, after: Worker<T>, item: T)
    requires after.done == before.done && Held(after.stage) == Held(before.stage) + [item]
    ensures Had(after) == Had(before) + [item]
  {
  }

  lemma HandedMore<T>(handed: seq<T>, queue: seq<T>)
    requires queue != []
    ensures handed + queue == handed + [queue[0]] + queue[1..]
    ensures multiset(handed + [queue[0]]) == multiset(handed) + multiset{queue[0]}
  {
  }

  lemma CountKeeps<T>(items: seq<T>, s: State<T>, w: nat, limit: nat)
    requires Kept(items, s, limit) && Enabled(s, Count(w))
    ensures Kept(items, Next(s, Count(w), limit), limit)
  {
    var s' := Next(s, Count(w), limit);
    assert GoodWorker(s, s.workers[w], limit);
    WorkersStay(s, s', w, limit);
    CountItems(items, s, w, limit);
  }

  lemma CountItems<T>(items: seq<T>, s: State<T>, w: nat, limit: nat)
    requires ItemsKept(items, s) && Enabled(s, Count(w))
    ensures ItemsKept(items, Next(s, Count(w), limit))
  {
    var worker := Next(s, Count(w), limit).workers[w];
    AllMore(s.workers[w].done, s.workers[w].stage.batch);
    assert Had(worker) == Had(s.workers[w]);
    HadSame(s.workers, w, worker);
    ReplaceCounts(s.workers, w, worker);
  }

  lemma CancelKeeps<T>(items: seq<T>, s: State<T>, limit: nat)
    requires Kept(items, s, limit)
    ensures Kept(items, s.(cancelled := true), limit)
  {
    var s' := s.(cancelled := true);
    forall i | 0 <= i < |s'.workers| ensures GoodWorker(s', s'.workers[i], limit) {
      assert GoodWorker(s, s.workers[i], limit);
    }
  }

  lemma StepKeeps<T>(items: seq<T>, s: State<T>, step: Step, limit: nat)
    requires Kept(items, s, limit) && Enabled(s, step) && limit > 0
    ensures Kept(items, Next(s, step, limit), limit)
  {
    match step
    case Cancel => CancelKeeps(items, s, limit);
    case Look(w) =>
      assert GoodWorker(s, s.workers[w], limit);
      SameItems(items, s, w, Next(s, step, limit).workers[w].stage, limit);
    case Take(w) =>
      if s.queue == [] {
        assert GoodWorker(s, s.workers[w], limit);
        SameItems(items, s, w, Closed(s.workers[w].stage.batch), limit);
      } else {
        TakeKeeps(items, s, w, limit);
      }
    case Finish(w, panics) =>
      assert GoodWorker(s, s.workers[w], limit);
      SameItems(items, s, w, Next(s, step, limit).workers[w].stage, limit);
    case Count(w) => CountKeeps(items, s, w, limit);
  }

  lemma SameWorkers<T>(s: State<T>, step: Step, limit: nat)
    requires Enabled(s, step)
    ensures |Next(s, step, limit).workers| == |s.workers|
  {
  }

  lemma {:induction false} IdleWorkers<T>(workers: seq<Worker<T>>)
    requires forall i | 0 <= i < |workers| :: workers[i] == Worker(Looking([]), [])
    ensures AllHad(workers) == multiset{} && CountedBy(workers) == HeldBy(workers) == 0
  {
    if workers != [] {
      IdleWorkers(workers[1..]);
    }
  }

  lemma StartKept<T>(items: seq<T>, workers: nat, limit: nat)
    ensures Kept(items, Start(items, workers), limit)
  {
    var s := Start(items, workers);
    IdleWorkers(s.workers);
    assert s.handed + s.queue == items;
  }

  lemma {:induction false} RunKeeps<T>(items: seq<T>, first: State<T>, steps: seq<Step>, limit: nat, s: State<T>)
    requires Kept(items, first, limit) && Run(first, steps, limit, s) && limit > 0
    ensures Kept(items, s, limit) && |s.workers| == |first.workers|
    decreases |steps|
  {
    if steps != [] {
      var second := Next(first, steps[0], limit);
      StepKeeps(items, first, steps[0], limit);
      SameWorkers(first, steps[0], limit);
      RunKeeps(items, second, steps[1..], limit, s);
    }
  }

  /** Its batches so far, and the one at hand or lost, are within the limit; none of them is run empty. */
  ghost predicate BatchesWithin<T>(w: Worker<T>, limit: nat) {
    && (forall batch <- w.done :: GoodBatch(batch, limit))
    && |Held(w.stage)| <= limit
    && (w.stage.Running? || w.stage.Ran? || w.stage.Panicked? ==> GoodBatch(Held(w.stage), limit))
  }

  /**
   At every step, the queue is the rest of the input, and the items taken from it lie in
   exactly one batch of one worker each, none of which is above the limit.
   */
  lemma Conserved<T>(items: seq<T>, workers: nat, batchSize: nat, steps: seq<Step>, s: State<T>)
    requires Run(Start(items, workers), steps, BatchLimit(batchSize), s)
    ensures items == s.handed + s.queue
    ensures multiset(items) == AllHad(s.workers) + multiset(s.queue)
    ensures |s.handed| == s.processed + HeldBy(s.workers)
    ensures forall i | 0 <= i < |s.workers| :: BatchesWithin(s.workers[i], BatchLimit(batchSize))
  {
    var limit := BatchLimit(batchSize);
    StartKept(items, workers, limit);
    RunKeeps(items, Start(items, workers), steps, limit, s);
    forall i | 0 <= i < |s.workers| ensures BatchesWithin(s.workers[i], limit) {
      assert GoodWorker(s, s.workers[i], limit);
    }
  }

  // ----- The end of a run -----

  predicate Over<T>(s: State<T>) {
    forall i | 0 <= i < |s.workers| :: s.workers[i].stage.Stopped? || s.workers[i].stage.Panicked?
  }

  predicate NonePanicked<T>(s: State<T>) {
    forall i | 0 <= i < |s.workers| :: !s.workers[i].stage.Panicked?
  }

  lemma {:induction false} NothingHeld<T>(workers: seq<Worker<T>>)
    requires forall i | 0 <= i < |workers| :: workers[i].stage.Stopped?
    ensures HeldBy(workers) == 0
  {
    if workers != [] {
      NothingHeld(workers[1..]);
    }
  }

  /** Without a panic, what was handed out was processed; without cancelling, that is everything. */
  lemma Outcome<T>(items: seq<T>, workers: nat, batchSize: nat, steps: seq<Step>, s: State<T>)
    requires Run(Start(items, workers), steps, BatchLimit(batchSize), s)
    requires Over(s) && NonePanicked(s) && workers > 0
    ensures s.processed == |s.handed| && s.handed <= items
    ensures multiset(s.handed) == AllHad(s.workers)
    ensures !s.cancelled ==> s.handed == items && s.processed == |items|
  {
    var limit := BatchLimit(batchSize);
    StartKept(items, workers, limit);
    RunKeeps(items, Start(items, workers), steps, limit, s);
    NothingHeld(s.workers);
    assert GoodWorker(s, s.workers[0], limit);
  }

  // ----- Every run ends -----

  function Weight<T>(stage: Stage<T>): int {
    match stage
    case Looking(batch) => 2 + 5 * |batch|
    case Taking(batch) => 1 + 5 * |batch|
    case Running(batch) => 5 * |batch| - 1
    case Ran(batch) => 5 * |batch| - 2
    case Stopped => 0
    case Panicked(_) => 0
  }

  function Weights<T>(workers: seq<Worker<T>>): int {
    if workers == [] then 0 else Weight(workers[0].stage) + Weights(workers[1..])
  }

  /** How many steps the workers can still take, at most. */
  function Remaining<T>(s: State<T>): int {
    10 * |s.queue| + Weights(s.workers)
  }

  lemma {:induction false} ReplaceWeight<T>(workers: seq<Worker<T>>, w: nat, worker: Worker<T>)
    requires w < |workers|
    ensures Weights(workers[w := worker]) == Weights(workers) - Weight(workers[w].stage) + Weight(worker.stage)
  {
    if w > 0 {
      ReplaceWeight(workers[1..], w - 1, worker);
      assert workers[w := worker][1..] == workers[1..][w - 1 := worker];
    } else {
      assert workers[w := worker][1..] == workers[1..];
    }
  }

  lemma StepDecreases<T>(items: seq<T>, s: State<T>, step: Step, limit: nat)
    requires Kept(items, s, limit) && Enabled(s, step) && !step.Cancel?
    ensures Remaining(Next(s, step, limit)) < Remaining(s)
  {
    var s' := Next(s, step, limit);
    assert GoodWorker(s, s.workers[step.w], limit);
    ReplaceWeight(s.workers, step.w, s'.workers[step.w]);
  }

  lemma {:induction false} WeightsNatural<T>(items: seq<T>, s: State<T>, workers: seq<Worker<T>>, limit: nat)
    requires forall i | 0 <= i < |workers| :: GoodWorker(s, workers[i], limit)
    ensures Weights(workers) >= 0
    decreases |workers|
  {
    if workers != [] {
      assert GoodWorker(s, workers[0], limit);
      WeightsNatural(items, s, workers[1..], limit);
    }
  }

  /** The steps that workers take. */
  function WorkerSteps(steps: seq<Step>): nat {
    if steps == [] then 0 else (if steps[0].Cancel? then 0 else 1) + WorkerSteps(steps[1..])
  }

  lemma {:induction false} RunDecreases<T>(items: seq<T>, first: State<T>, steps: seq<Step>, limit: nat, s: State<T>)
    requires Kept(items, first, limit) && Run(first, steps, limit, s) && limit > 0
    ensures WorkerSteps(steps) + Remaining(s) <= Remaining(first)
    decreases |steps|
  {
    if steps != [] {
      StepKeeps(items, first, steps[0], limit);
      if !steps[0].Cancel? {
        StepDecreases(items, first, steps[0], limit);
      }
      RunDecreases(items, Next(first, steps[0], limit), steps[1..], limit, s);
    }
  }

  lemma {:induction false} StartWeight<T>(items: seq<T>, workers: nat)
    ensures Weights(Start(items, workers).workers) == 2 * workers
    decreases workers
  {
    if workers > 0 {
      StartWeight(items, workers - 1);
      assert Start(items, workers).workers[1..] == Start(items, workers - 1).workers;
    }
  }

  /** However the workers interleave, they take a bounded number of steps. */
  lemma Bounded<T>(items: seq<T>, workers: nat, batchSize: nat, steps: seq<Step>, s: State<T>)
    requires Run(Start(items, workers), steps, BatchLimit(batchSize), s)
    ensures WorkerSteps(steps) <= 10 * |items| + 2 * workers
  {
    var limit := BatchLimit(batchSize);
    StartKept(items, workers, limit);
    StartWeight(items, workers);
    RunKeeps(items, Start(items, workers), steps, limit, s);
    RunDecreases(items, Start(items, workers), steps, limit, s);
    WeightsNatural(items, s, s.workers, limit);
  }

  /** As long as the run is not over, some worker can take a step. */
  lemma NotStuck<T>(s: State<T>) returns (step: Step)
    requires !Over(s)
    ensures Enabled(s, step) && !step.Cancel?
  {
    var i :| 0 <= i < |s.workers| && !s.workers[i].stage.Stopped? && !s.workers[i].stage.Panicked?;
    match s.workers[i].stage
    case Looking(_) => step := Look(i);
    case Taking(_) => step := Take(i);
    case Running(_) => step := Finish(i, false);
    case Ran(_) => step := Count(i);
  }

  /** From wherever it stands, a run can go on to its end. */
  lemma {:induction false} Finishes<T>(items: seq<T>, s: State<T>, limit: nat) returns (more: seq<Step>, last: State<T>)
    requires Kept(items, s, limit) && limit > 0
    ensures Run(s, more, limit, last) && Over(last)
    decreases Remaining(s)
  {
    if Over(s) {
      more, last := [], s;
    } else {
      var step := NotStuck(s);
      var s' := Next(s, step, limit);
      StepKeeps(items, s, step, limit);
      StepDecreases(items, s, step, limit);
      WeightsNatural(items, s, s.workers, limit);
      more, last := Finishes(items, s', limit);
      assert ([step] + more)[1..] == more;
      more := [step] + more;
    }
  }
}
