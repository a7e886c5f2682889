/** What the registry drops: the locks that nobody holds, and only those. */
module MergeLockSweeps {
  import opened MergeLock
  import opened Results

  /** Some merge has a handle of the lock of the path. */
  ghost predicate InUse<D(!new)>(s: State<D>, path: Path) {
    exists t :: t in s.calls && HasHandle(s.calls[t]) && s.calls[t].path == path
  }

  /** A registered lock counts two handles or more exactly when a merge has one. */
  lemma UsedIffCounted<D(!new)>(s: State<D>, path: Path)
    requires LocksKept(s) && path in s.registry
    ensures s.registry[path] in s.strong && (s.strong[s.registry[path]] > 1 <==> InUse(s, path))
  {
    var lock := s.registry[path];
    assert Counted(s, path);
    if InUse(s, path) {
      var t :| t in s.calls && HasHandle(s.calls[t]) && s.calls[t].path == path;
      assert Registered(s, t) && t in Holders(s, lock);
    }
    if t :| t in Holders(s, lock) {
      assert Registered(s, t) && s.registry[s.calls[t].path] == lock;
    }
    assert |Holders(s, lock)| > 0 ==> exists t :: t in Holders(s, lock) by {
      if Holders(s, lock) != {} {
        var t :| t in Holders(s, lock);
      }
    }
  }

  lemma ExaminedRegistry<D(!new)>(s: State<D>, t: Thread, path: Path)
    requires LocksKept(s) && Enabled(s, Examine(t, path))
    ensures Next(s, Examine(t, path)).registry
         == if path in s.registry && !InUse(s, path) then s.registry - {path} else s.registry
  {
    if path in s.registry {
      UsedIffCounted(s, path);
    }
  }

  lemma LocksAreKept<D(!new)>(first: State<D>, actions: seq<Action>, s: State<D>)
    requires Initial(first) && Reaches(first, actions, s)
    ensures LocksKept(s)
  {
    Invariant(first, actions, s);
  }

  /** In any run, a lock that is examined stays registered exactly when it is in use; the others stay as they are. */
  lemma ExaminedIff<D(!new)>(first: State<D>, actions: seq<Action>, s: State<D>, t: Thread, path: Path, other: Path)
    requires Initial(first) && Reaches(first, actions, s) && Enabled(s, Examine(t, path))
    ensures var s' := Next(s, Examine(t, path));
            && (path in s'.registry <==> path in s.registry && InUse(s, path))
            && (other != path ==> Get(s'.registry, other) == Get(s.registry, other))
  {
    LocksAreKept(first, actions, s);
    ExaminedRegistry(s, t, path);
  }

  /** While `t` sweeps, a path that is not in use has still to be examined, or has lost its lock. */
  ghost predicate Idle<D(!new)>(s: State<D>, t: Thread, path: Path) {
    && LocksKept(s) && t in s.calls && s.calls[t].stage.Sweeping? && s.calls[t].path != path
    && !InUse(s, path) && (path in s.registry ==> path in s.calls[t].stage.todo)
  }

  /** Only by finding one does a merge get a handle. */
  lemma NoNewHandle<D(!new)>(s: State<D>, a: Action, u: Thread)
    requires Enabled(s, a) && u in s.calls && a != Find(u)
    ensures var s' := Next(s, a);
            u in s'.calls && s'.calls[u].path == s.calls[u].path && (HasHandle(s'.calls[u]) ==> HasHandle(s.calls[u]))
  {
    NextMoves(s, a);
  }

  lemma StaysUnused<D(!new)>(s: State<D>, a: Action, path: Path)
    requires Enabled(s, a) && !InUse(s, path) && (a.Find? ==> s.calls[a.t].path != path)
    ensures !InUse(Next(s, a), path)
  {
    var s' := Next(s, a);
    NextMoves(s, a);
    forall u | u in s'.calls && s'.calls[u].path == path ensures !HasHandle(s'.calls[u]) {
      NoNewHandle(s, a, u);
    }
  }

  lemma SameRegistry<D(!new)>(s: State<D>, a: Action)
    requires Enabled(s, a) && !a.Find? && !a.Examine?
    ensures Next(s, a).registry == s.registry
  {
  }

  /** Nobody else is in the registry while `t` sweeps. */
  lemma SweepsAlone<D(!new)>(s: State<D>, a: Action, t: Thread, path: Path)
    requires Idle(s, t, path) && Enabled(s, a) && a != Leave(t)
    ensures !a.Find? && !a.Enter? && (a.t == t ==> a.Examine?) && (a.t != t ==> !a.Examine?)
  {
    assert Guarded(s, t) && Guarded(s, a.t);
  }

  lemma SweepStep<D(!new)>(s: State<D>, a: Action, t: Thread, path: Path)
    requires Idle(s, t, path) && Enabled(s, a) && a != Leave(t)
    ensures Idle(Next(s, a), t, path)
  {
    SweepsAlone(s, a, t, path);
    StepKeepsLocks(s, a);
    StaysUnused(s, a, path);
    if a.Examine? {
      ExaminedRegistry(s, t, a.path);
      assert Next(s, a).calls[t].stage.todo == s.calls[t].stage.todo - {a.path};
    } else {
      SameRegistry(s, a);
      NextMoves(s, a);
    }
  }

  lemma {:induction false} SweepRun<D(!new)>(m: State<D>, actions: seq<Action>, s: State<D>, t: Thread, path: Path)
    requires Idle(m, t, path) && Reaches(m, actions, s)
    requires forall i | 0 <= i < |actions| :: actions[i] != Leave(t)
    ensures Idle(s, t, path)
    decreases |actions|
  {
    if actions != [] {
      var front, a := actions[..|actions| - 1], actions[|actions| - 1];
      var s0 :| Reaches(m, front, s0) && Enabled(s0, a) && s == Next(s0, a);
      SweepRun(m, front, s0, t, path);
      SweepStep(s0, a, t, path);
    }
  }

  lemma FindSweepsAll<D(!new)>(m: State<D>, t: Thread, path: Path)
    requires LocksKept(m) && Enabled(m, Find(t)) && m.calls[t].path != path && !InUse(m, path)
    ensures Idle(Next(m, Find(t)), t, path)
  {
    var s := Next(m, Find(t));
    StepKeepsLocks(m, Find(t));
    StaysUnused(m, Find(t), path);
    assert s.calls[t].stage.todo == s.registry.Keys;
  }

  /**
   Whenever a merge has taken its lock and leaves the registry, every other path that was
   not in use when it came has no lock registered any more, whatever others did meanwhile.
   */
  lemma IdleLocksGo<D(!new)>(first: State<D>, before: seq<Action>, m: State<D>, t: Thread,
                             meanwhile: seq<Action>, s: State<D>, path: Path)
    requires Initial(first) && Reaches(first, before, m) && Enabled(m, Find(t))
    requires m.calls[t].path != path && !InUse(m, path)
    requires Reaches(Next(m, Find(t)), meanwhile, s) && Enabled(s, Leave(t))
    requires forall i | 0 <= i < |meanwhile| :: meanwhile[i] != Leave(t)
    ensures path !in Next(s, Leave(t)).registry
  {
    LocksAreKept(first, before, m);
    FindSweepsAll(m, t, path);
    SweepRun(Next(m, Find(t)), meanwhile, s, t, path);
  }

  /** The first merge of a path makes a new lock for it, and every other one gets the lock that is registered. */
  lemma FindGives<D(!new)>(first: State<D>, actions: seq<Action>, s: State<D>, t: Thread)
    requires Initial(first) && Reaches(first, actions, s) && Enabled(s, Find(t))
    ensures var (s', path) := (Next(s, Find(t)), s.calls[t].path);
            && s'.calls[t].stage.Sweeping? && Get(s'.registry, path) == Some(s'.calls[t].stage.lock)
            && (path in s.registry ==> s'.registry == s.registry)
            && (path !in s.registry ==>
                  forall p | p in s.registry :: s.registry[p] != s'.calls[t].stage.lock && p in s'.registry)
  {
    LocksAreKept(first, actions, s);
    forall p | p in s.registry ensures s.registry[p] < s.next {
      assert Counted(s, p);
    }
  }
}
