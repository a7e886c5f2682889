/**
 Merges into files, run side by side. Each takes the lock of its path from a registry
 that drops the locks nobody holds, as an interleaving of single steps with explicit
 reference counts.
 */
module MergeLock {
  import opened Results

  type Thread = nat
  type Path = string
  type LockId = nat

  /** Where a merge stands; from the registry on, it has a handle of a lock. */
  datatype Stage<D> =
    | Called
    | InRegistry
    | Sweeping(lock: LockId, todo: set<Path>)
    | Ready(lock: LockId)
    | Locked(lock: LockId)
    | HasRead(lock: LockId, data: D)
    | Wrote(lock: LockId)
    | Unlocked(lock: LockId)
    | Finished

  datatype Call<!D(!new)> = Call(path: Path, merge: D -> D, stage: Stage<D>)

  /**
   The registry maps paths to locks; `strong` counts the handles of each lock, the one
   in the registry included; `owners` are the threads inside a lock.
   */
  datatype State<!D(!new)> = State(
    calls: map<Thread, Call<D>>,
    guard: Option<Thread>,
    registry: map<Path, LockId>,
    strong: map<LockId, nat>,
    next: LockId,
    owners: map<LockId, Thread>,
    files: map<Path, D>)

  datatype Action =
    | Enter(t: Thread)
    | Find(t: Thread)
    | Examine(t: Thread, path: Path)
    | Leave(t: Thread)
    | Acquire(t: Thread)
    | Read(t: Thread)
    | Write(t: Thread, ok: bool)
    | Release(t: Thread)
    | Drop(t: Thread)

  predicate HasHandle<D(!new)>(c: Call<D>) {
    !c.stage.Called? && !c.stage.InRegistry? && !c.stage.Finished?
  }

  predicate Inside<D(!new)>(c: Call<D>) {
    c.stage.Locked? || c.stage.HasRead? || c.stage.Wrote?
  }

  predicate Enabled<D(!new)>(s: State<D>, a: Action) {
    a.t in s.calls &&
    var c := s.calls[a.t];
    match a
    case Enter(_) => c.stage.Called? && s.guard.None?
    case Find(_) => c.stage.InRegistry?
    case Examine(_, path) => c.stage.Sweeping? && path in c.stage.todo
    case Leave(_) => c.stage.Sweeping? && c.stage.todo == {}
    case Acquire(_) => c.stage.Ready? && c.stage.lock !in s.owners
    case Read(_) => c.stage.Locked? && c.path in s.files
    case Write(_, _) => c.stage.HasRead?
    case Release(_) => c.stage.Wrote?
    case Drop(_) => c.stage.Unlocked?
  }

  function At<D(!new)>(s: State<D>, t: Thread, stage: Stage<D>): State<D>
    requires t in s.calls
  {
    s.(calls := s.calls[t := s.calls[t].(stage := stage)])
  }

  /** A registered lock that only the registry holds is dropped. */
  function Examined<D(!new)>(s: State<D>, path: Path): State<D> {
    if path in s.registry && s.registry[path] in s.strong && s.strong[s.registry[path]] <= 1 then
      s.(registry := s.registry - {path}, strong := s.strong - {s.registry[path]})
    else s
  }

  /** The lock of a path, made if there is none, with one more handle. */
  function Found<D(!new)>(s: State<D>, path: Path): (State<D>, LockId) {
    if path in s.registry then
      var lock := s.registry[path];
      (s.(strong := s.strong[lock := 1 + if lock in s.strong then s.strong[lock] else 0]), lock)
    else
      (s.(registry := s.registry[path := s.next], strong := s.strong[s.next := 2], next := s.next + 1), s.next)
  }

  /** A merge writes the file it has read. */
  function Stored<D(!new)>(s: State<D>, t: Thread): State<D>
    requires t in s.calls && s.calls[t].stage.HasRead?
  {
    var c := s.calls[t];
    At(s, t, Wrote(c.stage.lock)).(files := s.files[c.path := c.merge(c.stage.data)])
  }

  function Next<D(!new)>(s: State<D>, a: Action): State<D>
    requires Enabled(s, a)
  {
    var c := s.calls[a.t];
    match a
    case Enter(t) => At(s, t, InRegistry).(guard := Some(t))
    case Find(t) =>
      var (s', lock) := Found(s, c.path);
      At(s', t, Sweeping(lock, s'.registry.Keys))
    case Examine(t, path) => At(Examined(s, path), t, Sweeping(c.stage.lock, c.stage.todo - {path}))
    case Leave(t) => At(s, t, Ready(c.stage.lock)).(guard := None)
    case Acquire(t) => At(s, t, Locked(c.stage.lock)).(owners := s.owners[c.stage.lock := t])
    case Read(t) => At(s, t, HasRead(c.stage.lock, s.files[c.path]))
    case Write(t, ok) => if ok then Stored(s, t) else At(s, t, Wrote(c.stage.lock))
    case Release(t) => At(s, t, Unlocked(c.stage.lock)).(owners := s.owners - {c.stage.lock})
    case Drop(t) =>
      var lock := c.stage.lock;
      At(s, t, Finished).(
        strong := if lock in s.strong && s.strong[lock] > 0 then s.strong[lock := s.strong[lock] - 1] else s.strong)
  }

  /** No merge has started, and no lock exists. */
  ghost predicate Initial<D(!new)>(s: State<D>) {
    && (forall t <- s.calls :: s.calls[t].stage.Called? && s.calls[t].path in s.files)
    && s.guard.None? && s.registry == map[] && s.strong == map[] && s.owners == map[]
  }

  /** `s` comes from `first` by some interleaving of steps. */
  ghost predicate Reaches<D(!new)>(first: State<D>, actions: seq<Action>, s: State<D>)
    decreases |actions|
  {
    if actions == [] then first == s
    else
      var last := |actions| - 1;
      exists m :: Reaches(first, actions[..last], m) && Enabled(m, actions[last]) && s == Next(m, actions[last])
  }

  // ----- What files should hold -----

  /** The threads that have acquired the lock of a path, in the order in which they did. */
  function Turns<D(!new)>(first: State<D>, actions: seq<Action>, path: Path): seq<Thread> {
    if actions == [] then []
    else
      var last, before := actions[|actions| - 1], Turns(first, actions[..|actions| - 1], path);
      if last.Acquire? && last.t in first.calls && first.calls[last.t].path == path then before + [last.t] else before
  }

  /** Those whose write has succeeded. */
  function Successful(turns: seq<Thread>, actions: seq<Action>): seq<Thread> {
    if turns == [] then []
    else
      var last, before := turns[|turns| - 1], Successful(turns[..|turns| - 1], actions);
      if Write(last, true) in actions then before + [last] else before
  }

  /** The merges of some threads, made one after the other. */
  function Applied<D(!new)>(first: State<D>, turns: seq<Thread>, data: D): D {
    if turns == [] then data
    else
      var last, before := turns[|turns| - 1], Applied(first, turns[..|turns| - 1], data);
      if last in first.calls then first.calls[last].merge(before) else before
  }

  predicate Once(turns: seq<Thread>) {
    forall i, j | 0 <= i < j < |turns| :: turns[i] != turns[j]
  }

  // ----- What every step keeps -----

  ghost function Holders<D(!new)>(s: State<D>, lock: LockId): set<Thread> {
    set t | t in s.calls && HasHandle(s.calls[t]) && s.calls[t].stage.lock == lock
  }

  /** A handle is a handle of the lock that is registered for the path. */
  ghost predicate Registered<D(!new)>(s: State<D>, t: Thread)
    requires t in s.calls
  {
    HasHandle(s.calls[t]) ==> s.calls[t].path in s.registry && s.registry[s.calls[t].path] == s.calls[t].stage.lock
  }

  ghost predicate Counted<D(!new)>(s: State<D>, path: Path)
    requires path in s.registry
  {
    && s.registry[path] < s.next
    && s.registry[path] in s.strong
    && s.strong[s.registry[path]] == 1 + |Holders(s, s.registry[path])|
  }

  ghost predicate OwnLock<D(!new)>(s: State<D>) {
    forall p, q | p in s.registry && q in s.registry && s.registry[p] == s.registry[q] :: p == q
  }

  ghost predicate Exclusive<D(!new)>(s: State<D>, t: Thread)
    requires t in s.calls
  {
    Inside(s.calls[t]) ==> s.calls[t].stage.lock in s.owners && s.owners[s.calls[t].stage.lock] == t
  }

  ghost predicate OwnerInside<D(!new)>(s: State<D>, lock: LockId)
    requires lock in s.owners
  {
    && s.owners[lock] in s.calls
    && Inside(s.calls[s.owners[lock]])
    && s.calls[s.owners[lock]].stage.lock == lock
  }

  ghost predicate Guarded<D(!new)>(s: State<D>, t: Thread)
    requires t in s.calls
  {
    s.calls[t].stage.InRegistry? || s.calls[t].stage.Sweeping? <==> s.guard == Some(t)
  }

  /** What a merge has read is still what the file holds. */
  ghost predicate Current<D(!new)>(s: State<D>, t: Thread)
    requires t in s.calls
  {
    && s.calls[t].path in s.files
    && (s.calls[t].stage.HasRead? ==> s.calls[t].stage.data == s.files[s.calls[t].path])
  }

  ghost predicate LocksKept<D(!new)>(s: State<D>) {
    && OwnLock(s)
    && (forall p <- s.registry :: Counted(s, p))
    && (forall t <- s.calls :: Registered(s, t))
    && (forall t <- s.calls :: Guarded(s, t))
    && (s.guard.Some? ==> s.guard.value in s.calls)
  }

  ghost predicate OwnersKept<D(!new)>(s: State<D>) {
    && (forall t <- s.calls :: Exclusive(s, t))
    && (forall lock <- s.owners :: OwnerInside(s, lock))
  }

  /** It has acquired the lock of its path. */
  predicate HadTurn<D(!new)>(c: Call<D>) {
    Inside(c) || c.stage.Unlocked? || c.stage.Finished?
  }

  predicate HasWritten<D(!new)>(c: Call<D>) {
    c.stage.Wrote? || c.stage.Unlocked? || c.stage.Finished?
  }

  /** A merge has had its turn exactly when it is among the turns; inside the lock is the last of them. */
  ghost predicate TurnTaken<D(!new)>(first: State<D>, actions: seq<Action>, s: State<D>, t: Thread)
    requires t in s.calls
  {
    var turns := Turns(first, actions, s.calls[t].path);
    && (HadTurn(s.calls[t]) <==> t in turns)
    && (Inside(s.calls[t]) ==> turns != [] && turns[|turns| - 1] == t)
    && (Write(t, true) in actions ==> HasWritten(s.calls[t]))
  }

  ghost predicate SameMerge<D(!new)>(first: State<D>, s: State<D>, t: Thread)
    requires t in s.calls && t in first.calls
  {
    s.calls[t].path == first.calls[t].path && s.calls[t].merge == first.calls[t].merge
  }

  ghost predicate TurnsKept<D(!new)>(first: State<D>, actions: seq<Action>, s: State<D>) {
    && s.calls.Keys == first.calls.Keys
    && (forall t <- s.calls :: SameMerge(first, s, t))
    && (forall t <- s.calls :: TurnTaken(first, actions, s, t))
    && forall path :: Once(Turns(first, actions, path))
  }

  /** The merges that were written to a file, made in the order of their turns. */
  function Expected<D(!new)>(first: State<D>, actions: seq<Action>, path: Path): D
    requires path in first.files
  {
    Applied(first, Successful(Turns(first, actions, path), actions), first.files[path])
  }

  ghost predicate FilesKept<D(!new)>(first: State<D>, actions: seq<Action>, s: State<D>) {
    && (forall t <- s.calls :: Current(s, t))
    && s.files.Keys == first.files.Keys
    && (forall p <- s.files :: s.files[p] == Expected(first, actions, p))
  }

  /** Only `t` has moved, and its merge is the same. */
  ghost predicate Moved<D(!new)>(s: State<D>, s': State<D>, t: Thread) {
    && t in s.calls && s'.calls.Keys == s.calls.Keys
    && s'.calls[t].path == s.calls[t].path && s'.calls[t].merge == s.calls[t].merge
    && forall u <- s.calls | u != t :: s'.calls[u] == s.calls[u]
  }

  lemma NextMoves<D(!new)>(s: State<D>, a: Action)
    requires Enabled(s, a)
    ensures Moved(s, Next(s, a), a.t)
  {
  }

  ghost predicate SameHandle<D(!new)>(c: Call<D>, c': Call<D>) {
    && (HasHandle(c) <==> HasHandle(c'))
    && (HasHandle(c) ==> c.stage.lock == c'.stage.lock)
  }

  lemma HoldersSame<D(!new)>(s: State<D>, s': State<D>, t: Thread, lock: LockId)
    requires Moved(s, s', t) && SameHandle(s.calls[t], s'.calls[t])
    ensures Holders(s', lock) == Holders(s, lock)
  {
  }

  lemma HoldersFound<D(!new)>(s: State<D>, s': State<D>, t: Thread, lock: LockId)
    requires Moved(s, s', t)
    requires !HasHandle(s.calls[t]) && HasHandle(s'.calls[t])
    ensures |Holders(s', lock)| == |Holders(s, lock)| + if s'.calls[t].stage.lock == lock then 1 else 0
  {
    if s'.calls[t].stage.lock == lock {
      assert Holders(s', lock) == Holders(s, lock) + {t};
    } else {
      assert Holders(s', lock) == Holders(s, lock);
    }
  }

  lemma HoldersDropped<D(!new)>(s: State<D>, s': State<D>, t: Thread, lock: LockId)
    requires Moved(s, s', t)
    requires HasHandle(s.calls[t]) && !HasHandle(s'.calls[t])
    ensures |Holders(s', lock)| == |Holders(s, lock)| - if s.calls[t].stage.lock == lock then 1 else 0
  {
    if s.calls[t].stage.lock == lock {
      assert Holders(s', lock) == Holders(s, lock) - {t};
    } else {
      assert Holders(s', lock) == Holders(s, lock);
    }
  }

  lemma GuardStays<D(!new)>(s: State<D>, a: Action, u: Thread)
    requires Enabled(s, a) && u in s.calls && Guarded(s, u) && Guarded(s, a.t) && Moved(s, Next(s, a), a.t)
    ensures Guarded(Next(s, a), u)
  {
  }

  /** Only one thread is in the registry. */
  lemma StepKeepsGuard<D(!new)>(s: State<D>, a: Action)
    requires LocksKept(s) && Enabled(s, a)
    ensures forall u <- Next(s, a).calls :: Guarded(Next(s, a), u)
    ensures Next(s, a).guard.Some? ==> Next(s, a).guard.value in s.calls
  {
    NextMoves(s, a);
    assert Guarded(s, a.t);
    forall u <- Next(s, a).calls ensures Guarded(Next(s, a), u) {
      assert Guarded(s, u);
      GuardStays(s, a, u);
    }
  }

  /** A step that moves one thread and touches neither registry nor handles. */
  lemma MoveKeepsLocks<D(!new)>(s: State<D>, s': State<D>, t: Thread)
    requires LocksKept(s) && Moved(s, s', t) && SameHandle(s.calls[t], s'.calls[t])
    requires s'.registry == s.registry && s'.strong == s.strong && s'.next == s.next
    requires forall u <- s'.calls :: Guarded(s', u)
    requires s'.guard.Some? ==> s'.guard.value in s.calls
    ensures LocksKept(s')
  {
    forall p <- s'.registry ensures Counted(s', p) {
      assert Counted(s, p);
      HoldersSame(s, s', t, s.registry[p]);
    }
    forall u <- s'.calls ensures Registered(s', u) {
      assert Registered(s, u);
    }
  }

  /** A lock that is not registered has no handles. */
  lemma NewLockFree<D(!new)>(s: State<D>)
    requires LocksKept(s)
    ensures Holders(s, s.next) == {}
  {
    forall u <- s.calls ensures u !in Holders(s, s.next) {
      assert Registered(s, u);
      if HasHandle(s.calls[u]) {
        assert Counted(s, s.calls[u].path);
      }
    }
  }

  /** A lock that was registered counts one more handle if it is the one that was found. */
  lemma KnownCounted<D(!new)>(s: State<D>, t: Thread, p: Path)
    requires LocksKept(s) && Enabled(s, Find(t)) && p in s.registry && p in Next(s, Find(t)).registry
    ensures Counted(Next(s, Find(t)), p)
  {
    var s' := Next(s, Find(t));
    NextMoves(s, Find(t));
    assert Counted(s, p);
    HoldersFound(s, s', t, s'.registry[p]);
    if s.calls[t].path in s.registry {
      assert Counted(s, s.calls[t].path);
    }
  }

  /** A new lock has one handle. */
  lemma NewCounted<D(!new)>(s: State<D>, t: Thread, p: Path)
    requires LocksKept(s) && Enabled(s, Find(t)) && p !in s.registry && p in Next(s, Find(t)).registry
    ensures Counted(Next(s, Find(t)), p)
  {
    var s' := Next(s, Find(t));
    NextMoves(s, Find(t));
    HoldersFound(s, s', t, s'.registry[p]);
    NewLockFree(s);
  }

  lemma FindOwnLock<D(!new)>(s: State<D>, t: Thread)
    requires LocksKept(s) && Enabled(s, Find(t))
    ensures OwnLock(Next(s, Find(t)))
  {
    var s' := Next(s, Find(t));
    forall p, q | p in s'.registry && q in s'.registry && s'.registry[p] == s'.registry[q] ensures p == q {
      assert p in s.registry ==> Counted(s, p);
      assert q in s.registry ==> Counted(s, q);
    }
  }

  lemma FindKeepsLocks<D(!new)>(s: State<D>, t: Thread)
    requires LocksKept(s) && Enabled(s, Find(t))
    ensures LocksKept(Next(s, Find(t)))
  {
    var s' := Next(s, Find(t));
    StepKeepsGuard(s, Find(t));
    forall p <- s'.registry ensures Counted(s', p) {
      if p in s.registry {
        KnownCounted(s, t, p);
      } else {
        NewCounted(s, t, p);
      }
    }
    FindOwnLock(s, t);
    forall u <- s'.calls ensures Registered(s', u) {
      assert Registered(s, u);
    }
  }

  lemma ExamineKeepsLocks<D(!new)>(s: State<D>, t: Thread, path: Path)
    requires LocksKept(s) && Enabled(s, Examine(t, path))
    ensures LocksKept(Next(s, Examine(t, path)))
  {
    var s' := Next(s, Examine(t, path));
    StepKeepsGuard(s, Examine(t, path));
    NextMoves(s, Examine(t, path));
    forall p <- s'.registry ensures Counted(s', p) {
      assert Counted(s, p) && (path in s.registry ==> Counted(s, path));
      HoldersSame(s, s', t, s.registry[p]);
    }
    forall u <- s'.calls ensures Registered(s', u) {
      assert Registered(s, u);
      if HasHandle(s.calls[u]) {
        assert u in Holders(s, s.calls[u].stage.lock) && Counted(s, s.calls[u].path);
      }
    }
  }

  lemma DropKeepsLocks<D(!new)>(s: State<D>, t: Thread)
    requires LocksKept(s) && Enabled(s, Drop(t))
    ensures LocksKept(Next(s, Drop(t)))
  {
    var s' := Next(s, Drop(t));
    StepKeepsGuard(s, Drop(t));
    NextMoves(s, Drop(t));
    assert Registered(s, t);
    forall p <- s'.registry ensures Counted(s', p) {
      assert Counted(s, p);
      HoldersDropped(s, s', t, s.registry[p]);
    }
    forall u <- s'.calls ensures Registered(s', u) {
      assert Registered(s, u);
    }
  }

  lemma PlainHandle<D(!new)>(s: State<D>, a: Action)
    requires Enabled(s, a) && !a.Find? && !a.Examine? && !a.Drop? && a.t in Next(s, a).calls
    ensures SameHandle(s.calls[a.t], Next(s, a).calls[a.t])
  {
  }

  lemma PlainRegistry<D(!new)>(s: State<D>, a: Action)
    requires Enabled(s, a) && !a.Find? && !a.Examine? && !a.Drop?
    ensures var s' := Next(s, a); s'.registry == s.registry && s'.strong == s.strong && s'.next == s.next
  {
  }

  lemma PlainKeepsLocks<D(!new)>(s: State<D>, a: Action)
    requires LocksKept(s) && Enabled(s, a) && !a.Find? && !a.Examine? && !a.Drop?
    ensures LocksKept(Next(s, a))
  {
    StepKeepsGuard(s, a);
    NextMoves(s, a);
    PlainHandle(s, a);
    PlainRegistry(s, a);
    MoveKeepsLocks(s, Next(s, a), a.t);
  }

  lemma StepKeepsLocks<D(!new)>(s: State<D>, a: Action)
    requires LocksKept(s) && Enabled(s, a)
    ensures LocksKept(Next(s, a))
  {
    if a.Find? {
      FindKeepsLocks(s, a.t);
    } else if a.Examine? {
      ExamineKeepsLocks(s, a.t, a.path);
    } else if a.Drop? {
      DropKeepsLocks(s, a.t);
    } else {
      PlainKeepsLocks(s, a);
    }
  }

  lemma OwnerStays<D(!new)>(s: State<D>, s': State<D>, t: Thread)
    requires OwnersKept(s) && Moved(s, s', t) && s'.owners == s.owners
    requires Inside(s.calls[t]) <==> Inside(s'.calls[t])
    requires Inside(s.calls[t]) ==> s.calls[t].stage.lock == s'.calls[t].stage.lock
    ensures OwnersKept(s')
  {
    forall u <- s'.calls ensures Exclusive(s', u) {
      assert Exclusive(s, u);
    }
    forall lock <- s'.owners ensures OwnerInside(s', lock) {
      assert OwnerInside(s, lock);
    }
  }

  lemma AcquireKeepsOwners<D(!new)>(s: State<D>, t: Thread)
    requires OwnersKept(s) && Enabled(s, Acquire(t))
    ensures OwnersKept(Next(s, Acquire(t)))
  {
    var s' := Next(s, Acquire(t));
    NextMoves(s, Acquire(t));
    forall u <- s'.calls ensures Exclusive(s', u) {
      assert Exclusive(s, u);
    }
    forall lock <- s'.owners ensures OwnerInside(s', lock) {
      assert lock in s.owners ==> OwnerInside(s, lock);
    }
  }

  lemma ReleaseKeepsOwners<D(!new)>(s: State<D>, t: Thread)
    requires OwnersKept(s) && Enabled(s, Release(t))
    ensures OwnersKept(Next(s, Release(t)))
  {
    var s' := Next(s, Release(t));
    NextMoves(s, Release(t));
    assert Exclusive(s, t);
    forall u <- s'.calls ensures Exclusive(s', u) {
      assert Exclusive(s, u);
    }
    forall lock <- s'.owners ensures OwnerInside(s', lock) {
      assert OwnerInside(s, lock);
    }
  }

  lemma StepKeepsOwners<D(!new)>(s: State<D>, a: Action)
    requires OwnersKept(s) && Enabled(s, a)
    ensures OwnersKept(Next(s, a))
  {
    if a.Acquire? {
      AcquireKeepsOwners(s, a.t);
    } else if a.Release? {
      ReleaseKeepsOwners(s, a.t);
    } else {
      NextMoves(s, a);
      OwnerStays(s, Next(s, a), a.t);
    }
  }

  /** Two merges of one path are not both inside its lock. */
  lemma InsideAlone<D(!new)>(s: State<D>, t: Thread, u: Thread)
    requires LocksKept(s) && OwnersKept(s) && t in s.calls && u in s.calls
    requires s.calls[t].path == s.calls[u].path && Inside(s.calls[t]) && Inside(s.calls[u])
    ensures t == u
  {
    assert Registered(s, t) && Registered(s, u) && Exclusive(s, t) && Exclusive(s, u);
  }

  // ----- Turns -----

  lemma TurnsMore<D(!new)>(first: State<D>, actions: seq<Action>, a: Action, path: Path)
    ensures Turns(first, actions + [a], path)
         == if a.Acquire? && a.t in first.calls && first.calls[a.t].path == path
            then Turns(first, actions, path) + [a.t]
            else Turns(first, actions, path)
  {
    assert (actions + [a])[..|actions|] == actions;
  }

  /** Who comes to acquire a lock finds nobody inside. */
  lemma NobodyInside<D(!new)>(s: State<D>, t: Thread, u: Thread)
    requires LocksKept(s) && OwnersKept(s) && Enabled(s, Acquire(t))
    requires u in s.calls && s.calls[u].path == s.calls[t].path
    ensures !Inside(s.calls[u])
  {
    assert Registered(s, t) && Registered(s, u) && Exclusive(s, u);
  }

  /** Who acquires the lock takes the next turn. */
  lemma AcquirerTakesTurn<D(!new)>(first: State<D>, actions: seq<Action>, s: State<D>, t: Thread)
    requires Enabled(s, Acquire(t)) && t in first.calls && SameMerge(first, s, t) && TurnTaken(first, actions, s, t)
    ensures TurnTaken(first, actions + [Acquire(t)], Next(s, Acquire(t)), t)
  {
    TurnsMore(first, actions, Acquire(t), s.calls[t].path);
  }

  /** No other turn is taken, and nobody else is inside. */
  lemma OthersWait<D(!new)>(first: State<D>, actions: seq<Action>, s: State<D>, t: Thread, u: Thread)
    requires Enabled(s, Acquire(t)) && t in first.calls && SameMerge(first, s, t)
    requires u in s.calls && u != t && TurnTaken(first, actions, s, u)
    requires s.calls[u].path == s.calls[t].path ==> !Inside(s.calls[u])
    ensures TurnTaken(first, actions + [Acquire(t)], Next(s, Acquire(t)), u)
  {
    TurnsMore(first, actions, Acquire(t), s.calls[u].path);
  }

  lemma AcquireTakesTurn<D(!new)>(first: State<D>, actions: seq<Action>, s: State<D>, t: Thread, u: Thread)
    requires LocksKept(s) && OwnersKept(s) && TurnsKept(first, actions, s) && Enabled(s, Acquire(t)) && u in s.calls
    ensures TurnTaken(first, actions + [Acquire(t)], Next(s, Acquire(t)), u)
  {
    assert SameMerge(first, s, t) && TurnTaken(first, actions, s, t) && TurnTaken(first, actions, s, u);
    if u == t {
      AcquirerTakesTurn(first, actions, s, t);
    } else {
      if s.calls[u].path == s.calls[t].path {
        NobodyInside(s, t, u);
      }
      OthersWait(first, actions, s, t, u);
    }
  }

  /** A step other than acquiring the lock neither takes a turn nor gives one back. */
  lemma TurnStays<D(!new)>(s: State<D>, a: Action)
    requires Enabled(s, a) && !a.Acquire?
    ensures a.t in Next(s, a).calls
    ensures var (c, c') := (s.calls[a.t], Next(s, a).calls[a.t]);
            && c'.path == c.path
            && (HadTurn(c') <==> HadTurn(c)) && (Inside(c') ==> Inside(c))
            && (a.Write? || HasWritten(c) ==> HasWritten(c'))
  {
  }

  lemma OtherTakesNoTurn<D(!new)>(first: State<D>, actions: seq<Action>, s: State<D>, a: Action, u: Thread)
    requires TurnsKept(first, actions, s) && Enabled(s, a) && !a.Acquire? && u in s.calls
    requires Moved(s, Next(s, a), a.t)
    ensures TurnTaken(first, actions + [a], Next(s, a), u)
  {
    TurnsMore(first, actions, a, s.calls[u].path);
    assert TurnTaken(first, actions, s, u);
    if u == a.t {
      TurnStays(s, a);
    }
  }

  lemma OnceMore(turns: seq<Thread>, t: Thread)
    requires Once(turns) && t !in turns
    ensures Once(turns + [t])
  {
  }

  lemma StepKeepsTurns<D(!new)>(first: State<D>, actions: seq<Action>, s: State<D>, a: Action)
    requires LocksKept(s) && OwnersKept(s) && TurnsKept(first, actions, s) && Enabled(s, a)
    ensures TurnsKept(first, actions + [a], Next(s, a))
  {
    var s' := Next(s, a);
    NextMoves(s, a);
    forall u <- s'.calls ensures SameMerge(first, s', u) {
      assert SameMerge(first, s, u);
    }
    forall u <- s'.calls ensures TurnTaken(first, actions + [a], s', u) {
      if a.Acquire? {
        AcquireTakesTurn(first, actions, s, a.t, u);
      } else {
        OtherTakesNoTurn(first, actions, s, a, u);
      }
    }
    forall path ensures Once(Turns(first, actions + [a], path)) {
      TurnsMore(first, actions, a, path);
      assert TurnTaken(first, actions, s, a.t) && SameMerge(first, s, a.t);
      if a.Acquire? && s.calls[a.t].path == path {
        OnceMore(Turns(first, actions, path), a.t);
      }
    }
  }

  // ----- Files -----

  lemma {:induction false} SuccessfulMeans(turns: seq<Thread>, actions: seq<Action>, t: Thread)
    ensures t in Successful(turns, actions) <==> t in turns && Write(t, true) in actions
  {
    if turns != [] {
      var front, last := turns[..|turns| - 1], turns[|turns| - 1];
      SuccessfulMeans(front, actions, t);
      assert turns == front + [last];
    }
  }

  lemma {:induction false} SuccessfulSame(turns: seq<Thread>, actions: seq<Action>, a: Action)
    requires a.Write? && a.ok ==> a.t !in turns
    ensures Successful(turns, actions + [a]) == Successful(turns, actions)
  {
    if turns != [] {
      var last := turns[|turns| - 1];
      SuccessfulSame(turns[..|turns| - 1], actions, a);
      assert last in turns;
    }
  }

  lemma SuccessfulMore(turns: seq<Thread>, actions: seq<Action>, t: Thread)
    requires turns != [] && turns[|turns| - 1] == t && Once(turns) && Write(t, true) !in actions
    ensures Successful(turns, actions + [Write(t, true)]) == Successful(turns, actions) + [t]
  {
    SuccessfulSame(turns[..|turns| - 1], actions, Write(t, true));
  }

  /** Who acquires a lock has not written yet. */
  lemma AcquireKeepsSuccessful<D(!new)>(first: State<D>, actions: seq<Action>, s: State<D>, t: Thread, path: Path)
    requires TurnsKept(first, actions, s) && Enabled(s, Acquire(t))
    ensures Successful(Turns(first, actions + [Acquire(t)], path), actions + [Acquire(t)])
         == Successful(Turns(first, actions, path), actions)
  {
    TurnsMore(first, actions, Acquire(t), path);
    SuccessfulSame(Turns(first, actions + [Acquire(t)], path), actions, Acquire(t));
    assert TurnTaken(first, actions, s, t);
    var turns := Turns(first, actions, path);
    assert (turns + [t])[..|turns|] == turns;
  }

  lemma OtherKeepsSuccessful<D(!new)>(first: State<D>, actions: seq<Action>, s: State<D>, a: Action, path: Path)
    requires TurnsKept(first, actions, s) && Enabled(s, a)
    requires a.Write? && a.ok ==> a.t !in Turns(first, actions, path)
    ensures Successful(Turns(first, actions + [a], path), actions + [a])
         == Successful(Turns(first, actions, path), actions)
  {
    if a.Acquire? {
      AcquireKeepsSuccessful(first, actions, s, a.t, path);
    } else {
      TurnsMore(first, actions, a, path);
      SuccessfulSame(Turns(first, actions, path), actions, a);
    }
  }

  /** Only threads of a path take turns on it. */
  lemma {:induction false} TurnsOn<D(!new)>(first: State<D>, actions: seq<Action>, path: Path, t: Thread)
    requires t in Turns(first, actions, path)
    ensures t in first.calls && first.calls[t].path == path
  {
    var last := actions[|actions| - 1];
    if !(last.Acquire? && last.t == t && t in first.calls && first.calls[t].path == path) {
      TurnsOn(first, actions[..|actions| - 1], path, t);
    }
  }

  /** A successful write adds its merge to those that the file holds. */
  lemma WriteSucceeds<D(!new)>(first: State<D>, actions: seq<Action>, s: State<D>, t: Thread)
    requires TurnsKept(first, actions, s) && Enabled(s, Write(t, true))
    ensures Successful(Turns(first, actions + [Write(t, true)], s.calls[t].path), actions + [Write(t, true)])
         == Successful(Turns(first, actions, s.calls[t].path), actions) + [t]
  {
    var path := s.calls[t].path;
    assert TurnTaken(first, actions, s, t);
    TurnsMore(first, actions, Write(t, true), path);
    SuccessfulMore(Turns(first, actions, path), actions, t);
  }

  lemma AppliedMore<D(!new)>(first: State<D>, turns: seq<Thread>, t: Thread, data: D)
    requires t in first.calls
    ensures Applied(first, turns + [t], data) == first.calls[t].merge(Applied(first, turns, data))
  {
    assert (turns + [t])[..|turns|] == turns;
  }

  lemma StepKeepsFiles<D(!new)>(first: State<D>, actions: seq<Action>, s: State<D>, a: Action)
    requires LocksKept(s) && OwnersKept(s) && TurnsKept(first, actions, s) && FilesKept(first, actions, s)
    requires Enabled(s, a)
    ensures FilesKept(first, actions + [a], Next(s, a))
  {
    if a.Write? && a.ok {
      WriteKeepsFiles(first, actions, s, a.t);
    } else {
      NextMoves(s, a);
      ReadKeepsFiles(first, actions, s, a);
    }
  }

  lemma ReadKeepsFiles<D(!new)>(first: State<D>, actions: seq<Action>, s: State<D>, a: Action)
    requires TurnsKept(first, actions, s) && FilesKept(first, actions, s) && Enabled(s, a) && !(a.Write? && a.ok)
    requires Moved(s, Next(s, a), a.t)
    ensures FilesKept(first, actions + [a], Next(s, a))
  {
    var s' := Next(s, a);
    FilesSame(s, a);
    forall u <- s'.calls ensures Current(s', u) {
      assert Current(s, u);
    }
    forall p <- s'.files ensures s'.files[p] == Expected(first, actions + [a], p) {
      OtherKeepsSuccessful(first, actions, s, a, p);
    }
  }

  lemma FilesSame<D(!new)>(s: State<D>, a: Action)
    requires Enabled(s, a) && !(a.Write? && a.ok) && Current(s, a.t)
    ensures Next(s, a).files == s.files && Current(Next(s, a), a.t)
  {
  }

  lemma WrittenFile<D(!new)>(first: State<D>, actions: seq<Action>, s: State<D>, t: Thread, p: Path)
    requires TurnsKept(first, actions, s) && FilesKept(first, actions, s) && Enabled(s, Write(t, true))
    requires p in s.files && p in first.files && p in Stored(s, t).files
    ensures Stored(s, t).files[p] == Expected(first, actions + [Write(t, true)], p)
  {
    assert Current(s, t) && SameMerge(first, s, t);
    if p == s.calls[t].path {
      WriteSucceeds(first, actions, s, t);
      AppliedMore(first, Successful(Turns(first, actions, p), actions), t, first.files[p]);
    } else {
      if t in Turns(first, actions, p) {
        TurnsOn(first, actions, p, t);
      }
      OtherKeepsSuccessful(first, actions, s, Write(t, true), p);
    }
  }

  lemma AllStayCurrent<D(!new)>(s: State<D>, t: Thread)
    requires LocksKept(s) && OwnersKept(s) && Enabled(s, Write(t, true)) && forall u <- s.calls :: Current(s, u)
    ensures forall u <- Stored(s, t).calls :: Current(Stored(s, t), u)
    ensures Stored(s, t).files.Keys == s.files.Keys
  {
    assert Current(s, t);
    forall u <- Stored(s, t).calls ensures Current(Stored(s, t), u) {
      assert Current(s, u);
      WriteKeepsCurrent(s, t, u);
    }
  }

  lemma WriteKeepsFiles<D(!new)>(first: State<D>, actions: seq<Action>, s: State<D>, t: Thread)
    requires LocksKept(s) && OwnersKept(s) && TurnsKept(first, actions, s) && FilesKept(first, actions, s)
    requires Enabled(s, Write(t, true))
    ensures FilesKept(first, actions + [Write(t, true)], Stored(s, t))
  {
    var s' := Stored(s, t);
    AllStayCurrent(s, t);
    forall p <- s'.files ensures s'.files[p] == Expected(first, actions + [Write(t, true)], p) {
      WrittenFile(first, actions, s, t, p);
    }
  }

  /** A write changes no file that another merge has read. */
  lemma WriteKeepsCurrent<D(!new)>(s: State<D>, t: Thread, u: Thread)
    requires LocksKept(s) && OwnersKept(s) && t in s.calls && s.calls[t].stage.HasRead?
    requires u in s.calls && Current(s, u)
    ensures Current(Stored(s, t), u)
  {
    if u != t && s.calls[u].stage.HasRead? && s.calls[u].path == s.calls[t].path {
      InsideAlone(s, t, u);
    }
  }

  /** In every interleaving, all of this holds after every step. */
  lemma {:induction false} Invariant<D(!new)>(first: State<D>, actions: seq<Action>, s: State<D>)
    requires Initial(first) && Reaches(first, actions, s)
    ensures LocksKept(s) && OwnersKept(s)
    ensures TurnsKept(first, actions, s) && FilesKept(first, actions, s)
    decreases |actions|
  {
    if actions != [] {
      var front, a := actions[..|actions| - 1], actions[|actions| - 1];
      assert actions == front + [a];
      var m :| Reaches(first, front, m) && Enabled(m, a) && s == Next(m, a);
      Invariant(first, front, m);
      StepKeepsLocks(m, a);
      StepKeepsOwners(m, a);
      StepKeepsTurns(first, front, m, a);
      StepKeepsFiles(first, front, m, a);
    }
  }

  /** All live handles for one path are handles of the same lock, the registered one. */
  lemma OneLockPerPath<D(!new)>(first: State<D>, actions: seq<Action>, s: State<D>, t: Thread, u: Thread)
    requires Initial(first) && Reaches(first, actions, s)
    requires t in s.calls && u in s.calls && HasHandle(s.calls[t]) && HasHandle(s.calls[u])
    ensures s.calls[t].path in s.registry && s.registry[s.calls[t].path] == s.calls[t].stage.lock
    ensures s.calls[t].path == s.calls[u].path <==> s.calls[t].stage.lock == s.calls[u].stage.lock
    ensures s.calls[t].path == s.calls[u].path && Inside(s.calls[t]) && Inside(s.calls[u]) ==> t == u
  {
    Invariant(first, actions, s);
    assert Registered(s, t) && Registered(s, u);
    if s.calls[t].path == s.calls[u].path && Inside(s.calls[t]) && Inside(s.calls[u]) {
      InsideAlone(s, t, u);
    }
  }

  /**
   No update is lost: each file is the result of the merges that were written, each once,
   one after the other in the order in which they acquired its lock.
   */
  lemma NoLostUpdate<D(!new)>(first: State<D>, actions: seq<Action>, s: State<D>, path: Path)
    requires Initial(first) && Reaches(first, actions, s) && path in first.files
    ensures var turns := Turns(first, actions, path);
            && Once(turns)
            && path in s.files && s.files[path] == Expected(first, actions, path)
            && forall t :: t in Successful(turns, actions)
                 <==> t in first.calls && first.calls[t].path == path && Write(t, true) in actions
  {
    var turns := Turns(first, actions, path);
    Invariant(first, actions, s);
    forall t
      ensures t in Successful(turns, actions)
         <==> t in first.calls && first.calls[t].path == path && Write(t, true) in actions
    {
      SuccessfulMeans(turns, actions, t);
      if t in turns {
        TurnsOn(first, actions, path, t);
      }
      if t in first.calls {
        assert SameMerge(first, s, t) && TurnTaken(first, actions, s, t);
      }
    }
  }

  /** A thread that is in the way of others can always take a step. */
  lemma CanMove<D(!new)>(s: State<D>, t: Thread) returns (a: Action)
    requires t in s.calls && !s.calls[t].stage.Finished?
    requires s.calls[t].stage.Called? ==> s.guard.None?
    requires s.calls[t].stage.Ready? ==> s.calls[t].stage.lock !in s.owners
    requires s.calls[t].path in s.files
    ensures Enabled(s, a)
  {
    match s.calls[t].stage
    case Called => a := Enter(t);
    case InRegistry => a := Find(t);
    case Sweeping(_, todo) =>
      if path :| path in todo { a := Examine(t, path); } else { a := Leave(t); }
    case Ready(_) => a := Acquire(t);
    case Locked(_) => a := Read(t);
    case HasRead(_, _) => a := Write(t, true);
    case Wrote(_) => a := Release(t);
    case Unlocked(_) => a := Drop(t);
  }

  /** Whoever cannot take a step waits for one that can. */
  lemma SomeoneMoves<D(!new)>(s: State<D>, t: Thread) returns (a: Action)
    requires LocksKept(s) && OwnersKept(s) && forall u <- s.calls :: Current(s, u)
    requires t in s.calls && !s.calls[t].stage.Finished?
    ensures Enabled(s, a)
  {
    var u := t;
    if s.calls[t].stage.Called? && s.guard.Some? {
      u := s.guard.value;
      assert Guarded(s, u);
    } else if s.calls[t].stage.Ready? && s.calls[t].stage.lock in s.owners {
      u := s.owners[s.calls[t].stage.lock];
      assert OwnerInside(s, s.calls[t].stage.lock);
    }
    assert Current(s, u);
    a := CanMove(s, u);
  }

  /** The merges never wait for each other in a circle. */
  lemma NeverStuck<D(!new)>(first: State<D>, actions: seq<Action>, s: State<D>, t: Thread) returns (a: Action)
    requires Initial(first) && Reaches(first, actions, s)
    requires t in s.calls && !s.calls[t].stage.Finished?
    ensures Enabled(s, a)
  {
    Invariant(first, actions, s);
    a := SomeoneMoves(s, t);
  }
}
