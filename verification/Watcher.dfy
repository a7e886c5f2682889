/**
 The file system watcher: events are gathered by path, and flushed to the table of files
 in batches.
 */
module Watcher {
  import opened Results

  type Path = string

  datatype Kind = Create | Modify | Remove | Access | Unknown

  /** An event as the system reports it. */
  datatype Event = Event(kind: Kind, paths: seq<Path>)

  datatype Action = Created | Modified | Deleted

  type Pending = map<Path, Action>

  datatype Meta = Meta(mtime: int, size: int)

  type Files = map<Path, Meta>

  /** A row of the table; `analysis` stands for the columns that the watcher leaves alone. */
  datatype FileRow = FileRow(meta: Meta, deleted: bool, analysis: Option<string>)

  type Table = map<Path, FileRow>

  datatype Stats = Stats(added: nat, modified: nat, deleted: nat)

  const FLUSH_BATCH_MAX := 200

  /** Which paths have an extension that is scanned, and which lie under a watched root. */
  datatype Scope = Scope(relevant: Path -> bool, underRoot: Path -> bool)

  // ----- Gathering events -----

  /** What an event asks for; nothing for kinds that say nothing about the file. */
  function ActionOf(kind: Kind): Option<Action> {
    match kind
    case Create => Some(Created)
    case Modify => Some(Modified)
    case Remove => Some(Deleted)
    case Access => None
    case Unknown => None
  }

  /** A modification does not take the place of a creation that is still pending. */
  function Gathered(pending: Pending, kind: Kind, path: Path, scope: Scope): Pending {
    if !scope.relevant(path) || ActionOf(kind).None? then pending
    else if kind == Modify && Get(pending, path) == Some(Created) then pending
    else pending[path := ActionOf(kind).value]
  }

  function GatheredAll(pending: Pending, kind: Kind, paths: seq<Path>, scope: Scope): Pending
    decreases |paths|
  {
    if paths == [] then pending else GatheredAll(Gathered(pending, kind, paths[0], scope), kind, paths[1..], scope)
  }

  // ----- Flushing one path -----

  /** The upsert of a file that exists; it brings a deleted row back. */
  function UpsertedRow(row: Option<FileRow>, meta: Meta): FileRow {
    FileRow(meta, false, if row.Some? then row.value.analysis else None)
  }

  /** The row of a path after its action, given whether the file exists now. */
  function Flushed(row: Option<FileRow>, action: Action, file: Option<Meta>): Option<FileRow> {
    match action
    case Deleted => if row.Some? then Some(row.value.(deleted := true)) else None
    case _ => if file.None? then row else Some(UpsertedRow(row, file.value))
  }

  function Tallied(stats: Stats, row: Option<FileRow>, action: Action, file: Option<Meta>): Stats {
    match action
    case Deleted => if row.Some? && !row.value.deleted then stats.(deleted := stats.deleted + 1) else stats
    case Created => if file.Some? then stats.(added := stats.added + 1) else stats
    case Modified => if file.Some? then stats.(modified := stats.modified + 1) else stats
  }

  class FlushLoop {
    const scope: Scope
    var pending: Pending
    var rows: Table
    var stats: Stats

    constructor (scope: Scope, rows: Table)
      ensures this.scope == scope && this.rows == rows && pending == map[]
    {
      this.scope, this.rows, pending, stats := scope, rows, map[], Stats(0, 0, 0);
    }

    method ProcessEvent(ev: Event)
      modifies this`pending
      ensures pending == GatheredAll(old(pending), ev.kind, ev.paths, scope)
    {
      ghost var goal := GatheredAll(pending, ev.kind, ev.paths, scope);
      for i := 0 to |ev.paths|
        invariant GatheredAll(pending, ev.kind, ev.paths[i..], scope) == goal
      {
        assert ev.paths[i..][1..] == ev.paths[i + 1..];
        var path := ev.paths[i];
        if scope.relevant(path) {
          var action := ActionOf(ev.kind);
          if action.Some? {
            if !(ev.kind == Modify && path in pending && pending[path] == Created) {
              pending := pending[path := action.value];
            }
          }
        }
      }
    }

    method MarkDeleted(path: Path) returns (found: bool)
      modifies this`rows
      ensures found == (path in old(rows) && !old(rows)[path].deleted)
      ensures rows == if path in old(rows) then old(rows)[path := old(rows)[path].(deleted := true)] else old(rows)
    {
      found := path in rows && !rows[path].deleted;
      if path in rows {
        rows := rows[path := rows[path].(deleted := true)];
      }
    }

    method UpsertFile(path: Path, meta: Meta)
      modifies this`rows
      ensures rows == old(rows)[path := UpsertedRow(Get(old(rows), path), meta)]
    {
      var analysis := if path in rows then rows[path].analysis else None;
      rows := rows[path := FileRow(meta, false, analysis)];
    }

    /** One item of a batch. */
    method FlushOne(path: Path, action: Action, files: Files)
      modifies this`rows, this`stats
      ensures !scope.underRoot(path) ==> rows == old(rows) && stats == old(stats)
      ensures scope.underRoot(path) ==>
                && Get(rows, path) == Flushed(Get(old(rows), path), action, Get(files, path))
                && stats == Tallied(old(stats), Get(old(rows), path), action, Get(files, path))
      ensures forall p: Path | p != path :: Get(rows, p) == Get(old(rows), p)
    {
      if !scope.underRoot(path) {
        return;
      }
      if action == Deleted {
        var found := MarkDeleted(path);
        if found {
          stats := stats.(deleted := stats.deleted + 1);
        }
        return;
      }
      if path !in files {
        return;
      }
      UpsertFile(path, files[path]);
      if action == Created {
        stats := stats.(added := stats.added + 1);
      } else {
        stats := stats.(modified := stats.modified + 1);
      }
    }

    /** Up to 200 of the pending paths, whichever come first; the others stay pending. */
    method Drain() returns (items: Pending)
      modifies this`pending
      ensures Batch(old(pending), items) && pending == old(pending) - items.Keys
    {
      items := map[];
      while items.Keys != pending.Keys && |items| < FLUSH_BATCH_MAX
        invariant items.Keys <= pending.Keys && |items| <= FLUSH_BATCH_MAX
        invariant forall p <- items :: items[p] == pending[p]
        decreases FLUSH_BATCH_MAX - |items|
      {
        var p :| p in pending && p !in items;
        items := items[p := pending[p]];
      }
      BatchSize(items.Keys, pending.Keys);
      pending := pending - items.Keys;
    }

    method FlushBatch(files: Files) returns (ghost items: Pending)
      modifies this
      ensures Batch(old(pending), items) && pending == old(pending) - items.Keys
      ensures forall p: Path :: Get(rows, p)
                == if p in items && scope.underRoot(p) then Flushed(Get(old(rows), p), items[p], Get(files, p))
                   else Get(old(rows), p)
      ensures stats == TallyOf(old(stats), items, {}, old(rows), files, scope)
    {
      var batch := Drain();
      items := batch;
      var rest := batch.Keys;
      NoneTallied(stats, items, rows, files, scope);
      while rest != {}
        invariant rest <= batch.Keys && pending == old(pending) - batch.Keys
        invariant FlushedBut(old(rows), rows, items, rest, files, scope)
        invariant stats == TallyOf(old(stats), items, rest, old(rows), files, scope)
        decreases |rest|
      {
        var path :| path in rest;
        OneTallied(old(stats), items, rest, old(rows), files, scope, path);
        ghost var before := rows;
        FlushOne(path, batch[path], files);
        OneFlushed(old(rows), before, rows, items, rest, files, scope, path);
        rest := rest - {path};
      }
    }
  }

  /** The rows when all items of a batch but those in `rest` have been flushed. */
  ghost predicate FlushedBut(before: Table, rows: Table, items: Pending, rest: set<Path>, files: Files, scope: Scope) {
    forall p: Path :: Get(rows, p)
      == if p in items && p !in rest && scope.underRoot(p) then Flushed(Get(before, p), items[p], Get(files, p))
         else Get(before, p)
  }

  lemma OneFlushed(first: Table, before: Table, after: Table, items: Pending, rest: set<Path>, files: Files,
                   scope: Scope, path: Path)
    requires FlushedBut(first, before, items, rest, files, scope) && path in rest && path in items
    requires forall p: Path | p != path :: Get(after, p) == Get(before, p)
    requires Get(after, path) == if scope.underRoot(path) then Flushed(Get(before, path), items[path], Get(files, path))
                                 else Get(before, path)
    ensures FlushedBut(first, after, items, rest - {path}, files, scope)
    ensures Get(before, path) == Get(first, path)
  {
  }

  /** The items of a batch with this action whose files are there. */
  ghost function Present(items: Pending, action: Action, files: Files, scope: Scope): set<Path> {
    set p | p in items && scope.underRoot(p) && items[p] == action && p in files
  }

  /** The items of a batch that are deletions of live rows. */
  ghost function Gone(items: Pending, rows: Table, scope: Scope): set<Path> {
    set p | p in items && scope.underRoot(p) && items[p] == Deleted && p in rows && !rows[p].deleted
  }

  /** The tally with these added, modified and deleted. */
  ghost function Plus(stats: Stats, created: set<Path>, modified: set<Path>, gone: set<Path>): Stats {
    Stats(stats.added + |created|, stats.modified + |modified|, stats.deleted + |gone|)
  }

  /** The tally when all items of a batch but those in `rest` have been flushed. */
  ghost function TallyOf(stats: Stats, items: Pending, rest: set<Path>, rows: Table, files: Files, scope: Scope): Stats
  {
    Plus(stats, Present(items, Created, files, scope) - rest, Present(items, Modified, files, scope) - rest,
         Gone(items, rows, scope) - rest)
  }

  function One(b: bool): nat {
    if b then 1 else 0
  }

  lemma NonePlus(stats: Stats, a: set<Path>, b: set<Path>, c: set<Path>, rest: set<Path>)
    requires a <= rest && b <= rest && c <= rest
    ensures Plus(stats, a - rest, b - rest, c - rest) == stats
  {
    assert a - rest == {} && b - rest == {} && c - rest == {};
  }

  lemma OnePlus(stats: Stats, a: set<Path>, b: set<Path>, c: set<Path>, rest: set<Path>, path: Path)
    requires path in rest
    ensures var before, after := Plus(stats, a - rest, b - rest, c - rest),
                                 Plus(stats, a - (rest - {path}), b - (rest - {path}), c - (rest - {path}));
            && after.added == before.added + One(path in a)
            && after.modified == before.modified + One(path in b)
            && after.deleted == before.deleted + One(path in c)
  {
    OneLess(a, rest, path);
    OneLess(b, rest, path);
    OneLess(c, rest, path);
  }

  /** An item is tallied for what it is. */
  lemma Membership(items: Pending, rows: Table, files: Files, scope: Scope, path: Path, stats: Stats)
    requires path in items
    ensures (if scope.underRoot(path) then Tallied(stats, Get(rows, path), items[path], Get(files, path)) else stats)
         == Stats(stats.added + One(path in Present(items, Created, files, scope)),
                  stats.modified + One(path in Present(items, Modified, files, scope)),
                  stats.deleted + One(path in Gone(items, rows, scope)))
  {
  }

  lemma NoneTallied(stats: Stats, items: Pending, rows: Table, files: Files, scope: Scope)
    ensures TallyOf(stats, items, items.Keys, rows, files, scope) == stats
  {
    NonePlus(stats, Present(items, Created, files, scope), Present(items, Modified, files, scope),
             Gone(items, rows, scope), items.Keys);
  }

  lemma OneTallied(stats: Stats, items: Pending, rest: set<Path>, rows: Table, files: Files, scope: Scope, path: Path)
    requires path in rest && path in items
    ensures var before := TallyOf(stats, items, rest, rows, files, scope);
            TallyOf(stats, items, rest - {path}, rows, files, scope)
            == if scope.underRoot(path) then Tallied(before, Get(rows, path), items[path], Get(files, path)) else before
  {
    OnePlus(stats, Present(items, Created, files, scope), Present(items, Modified, files, scope),
            Gone(items, rows, scope), rest, path);
    Membership(items, rows, files, scope, path, TallyOf(stats, items, rest, rows, files, scope));
  }

  /** So at the end each kind of item is counted once. */
  lemma TallyMeans(stats: Stats, items: Pending, rows: Table, files: Files, scope: Scope)
    ensures var after := TallyOf(stats, items, {}, rows, files, scope);
            && after.added == stats.added + |Present(items, Created, files, scope)|
            && after.modified == stats.modified + |Present(items, Modified, files, scope)|
            && after.deleted == stats.deleted + |Gone(items, rows, scope)|
  {
    assert forall s: set<Path> :: s - {} == s;
  }

  lemma OneLess(s: set<Path>, rest: set<Path>, path: Path)
    requires path in rest
    ensures |s - (rest - {path})| == |s - rest| + One(path in s)
  {
    if path in s {
      assert s - (rest - {path}) == (s - rest) + {path};
    } else {
      assert s - (rest - {path}) == s - rest;
    }
  }

  /** What is pending about a path after an event: a creation outlasts modifications, and nothing else lasts. */
  lemma {:induction false} GatheredMeans(pending: Pending, kind: Kind, paths: seq<Path>, scope: Scope, path: Path)
    ensures Get(GatheredAll(pending, kind, paths, scope), path)
         == if path !in paths || !scope.relevant(path) then Get(pending, path)
            else
              match kind
              case Create => Some(Created)
              case Modify => if Get(pending, path) == Some(Created) then Some(Created) else Some(Modified)
              case Remove => Some(Deleted)
              case _ => Get(pending, path)
    decreases |paths|
  {
    if paths != [] {
      GatheredMeans(Gathered(pending, kind, paths[0], scope), kind, paths[1..], scope, path);
      assert paths == [paths[0]] + paths[1..];
    }
  }

  lemma BatchSize(items: set<Path>, pending: set<Path>)
    requires items <= pending && |items| <= FLUSH_BATCH_MAX
    requires items == pending || |items| == FLUSH_BATCH_MAX
    ensures |items| == if |pending| <= FLUSH_BATCH_MAX then |pending| else FLUSH_BATCH_MAX
  {
    assert pending == items + (pending - items);
  }

  /** What one flush takes: everything if it is few, and otherwise any 200 of the paths. */
  ghost predicate Batch(pending: Pending, items: Pending) {
    && items.Keys <= pending.Keys
    && (forall p <- items :: items[p] == pending[p])
    && |items| == if |pending| <= FLUSH_BATCH_MAX then |pending| else FLUSH_BATCH_MAX
  }

  // ----- A backlog is drained -----

  ghost predicate FlushedTo(before: Pending, after: Pending) {
    exists items: Pending :: Batch(before, items) && after == before - items.Keys
  }

  /** What is pending after each of some flushes. */
  ghost predicate Flushes(pendings: seq<Pending>) {
    forall i | 0 <= i < |pendings| - 1 :: FlushedTo(pendings[i], pendings[i + 1])
  }

  lemma FlushTakes(before: Pending, after: Pending)
    requires FlushedTo(before, after)
    ensures |after| == if |before| <= 200 then 0 else |before| - 200
  {
    var items: Pending :| Batch(before, items) && after == before - items.Keys;
    assert after.Keys == before.Keys - items.Keys;
    assert before.Keys == items.Keys + after.Keys;
  }

  /** Without new events, a backlog of n paths is gone after n / 200 flushes, rounded up. */
  lemma {:induction false} Drained(pendings: seq<Pending>)
    requires |pendings| > 0 && Flushes(pendings)
    requires |pendings[0]| <= 200 * (|pendings| - 1)
    ensures pendings[|pendings| - 1] == map[]
    decreases |pendings|
  {
    if |pendings| > 1 {
      FlushTakes(pendings[0], pendings[1]);
      FlushesRest(pendings);
      Drained(pendings[1..]);
    } else {
      assert pendings[0].Keys == {};
    }
  }

  lemma FlushesRest(pendings: seq<Pending>)
    requires |pendings| > 1 && Flushes(pendings)
    ensures Flushes(pendings[1..])
  {
    forall i | 0 <= i < |pendings[1..]| - 1 ensures FlushedTo(pendings[1..][i], pendings[1..][i + 1]) {
      assert FlushedTo(pendings[i + 1], pendings[i + 2]);
    }
  }
}

/**
 The watcher beside a file system that changes at any time: the table comes to agree
 with the files.
 */
module WatcherRuns {
  import opened Results
  import opened Watcher

  /**
   The files, the events that were reported and not yet gathered, what is pending, the
   items of a batch that are still to be flushed, and the table.
   */
  datatype State = State(files: Files, channel: seq<Event>, pending: Pending, batch: Pending, rows: Table)

  datatype Step =
    /** A file appears, changes or goes away, and this is reported as an event of some kind. */
    | Change(path: Path, file: Option<Meta>, kind: Kind)
    | Gather
    | Drain(items: Pending)
    | Flush(path: Path)

  ghost predicate Enabled(s: State, step: Step) {
    match step
    case Change(_, _, _) => true
    case Gather => s.channel != []
    case Drain(items) => s.batch == map[] && Batch(s.pending, items)
    case Flush(path) => path in s.batch
  }

  function WithFile(files: Files, path: Path, file: Option<Meta>): Files {
    match file
    case None => files - {path}
    case Some(meta) => files[path := meta]
  }

  function WithRow(rows: Table, path: Path, row: Option<FileRow>): Table {
    match row
    case None => rows - {path}
    case Some(r) => rows[path := r]
  }

  function Next(s: State, step: Step, scope: Scope): State
    requires step.Gather? ==> s.channel != []
    requires step.Flush? ==> step.path in s.batch
  {
    match step
    case Change(path, file, kind) =>
      s.(files := WithFile(s.files, path, file), channel := s.channel + [Event(kind, [path])])
    case Gather =>
      s.(channel := s.channel[1..], pending := GatheredAll(s.pending, s.channel[0].kind, s.channel[0].paths, scope))
    case Drain(items) => s.(pending := s.pending - items.Keys, batch := items)
    case Flush(path) =>
      var row := Flushed(Get(s.rows, path), s.batch[path], Get(s.files, path));
      s.(batch := s.batch - {path}, rows := if scope.underRoot(path) then WithRow(s.rows, path, row) else s.rows)
  }

  ghost predicate Run(first: State, steps: seq<Step>, scope: Scope, s: State)
    decreases |steps|
  {
    if steps == [] then s == first
    else Enabled(first, steps[0]) && Run(Next(first, steps[0], scope), steps[1..], scope, s)
  }

  /** The row is live exactly when the file exists, with its time and size. */
  predicate Agrees(row: Option<FileRow>, file: Option<Meta>) {
    match file
    case None => row.None? || row.value.deleted
    case Some(meta) => row.Some? && !row.value.deleted && row.value.meta == meta
  }

  /** A change that leaves no file is reported as a removal, any other as a creation or a modification. */
  predicate Honest(step: Step)
    requires step.Change?
  {
    if step.file.None? then step.kind == Remove else step.kind == Create || step.kind == Modify
  }

  /** The last of the steps that changes the path. */
  function LastChange(steps: seq<Step>, path: Path): (r: Option<Step>)
    ensures r.Some? ==> r.value.Change? && r.value.path == path
  {
    if steps == [] then None
    else
      var later := LastChange(steps[1..], path);
      if later.Some? then later
      else if steps[0].Change? && steps[0].path == path then Some(steps[0])
      else None
  }

  /** The last event for the path in the channel. */
  function LastKind(channel: seq<Event>, path: Path): (r: Option<Kind>)
    ensures r.Some? ==> ActionOf(r.value).Some?
  {
    if channel == [] then None
    else if path in channel[|channel| - 1].paths && ActionOf(channel[|channel| - 1].kind).Some? then
      Some(channel[|channel| - 1].kind)
    else LastKind(channel[..|channel| - 1], path)
  }

  /** The last thing that is known and not yet flushed about a path. */
  function Outstanding(s: State, path: Path): Option<Action> {
    if LastKind(s.channel, path).Some? then ActionOf(LastKind(s.channel, path).value)
    else if path in s.pending then Some(s.pending[path])
    else Get(s.batch, path)
  }

  /** What is outstanding is a deletion exactly when the file is gone; if nothing is, the row agrees. */
  predicate Tracked(s: State, path: Path) {
    match Outstanding(s, path)
    case None => Agrees(Get(s.rows, path), Get(s.files, path))
    case Some(action) => action == Deleted <==> path !in s.files
  }

  predicate Watched(path: Path, scope: Scope) {
    scope.relevant(path) && scope.underRoot(path)
  }

  lemma LastKindMore(channel: seq<Event>, ev: Event, path: Path)
    ensures LastKind(channel + [ev], path)
         == if path in ev.paths && ActionOf(ev.kind).Some? then Some(ev.kind) else LastKind(channel, path)
  {
    assert (channel + [ev])[..|channel|] == channel;
  }

  lemma {:induction false} LastKindLess(channel: seq<Event>, path: Path)
    requires channel != []
    ensures LastKind(channel, path)
         == if LastKind(channel[1..], path).Some? then LastKind(channel[1..], path)
            else LastKind([channel[0]], path)
  {
    var front, last := channel[..|channel| - 1], channel[|channel| - 1];
    if |channel| == 1 {
      assert channel == [channel[0]] && channel[1..] == [];
    } else {
      LastKindLess(front, path);
      assert channel[1..][..|channel| - 2] == front[1..];
    }
  }

  /** Gathering an event sets its path to what the event asks for, up to creation and modification. */
  lemma {:induction false} GatheredPath(pending: Pending, kind: Kind, paths: seq<Path>, scope: Scope, path: Path)
    requires scope.relevant(path)
    ensures var after := GatheredAll(pending, kind, paths, scope);
            if path in paths && ActionOf(kind).Some? then
              path in after && (after[path] == Deleted <==> kind == Remove)
            else Get(after, path) == Get(pending, path)
    decreases |paths|
  {
    if paths != [] {
      var next := Gathered(pending, kind, paths[0], scope);
      GatheredPath(next, kind, paths[1..], scope, path);
      assert paths == [paths[0]] + paths[1..];
    }
  }

  lemma ChangeTracked(s: State, step: Step, scope: Scope, path: Path)
    requires step.Change? && if step.path == path then Honest(step) else Tracked(s, path)
    ensures Tracked(Next(s, step, scope), path)
  {
    LastKindMore(s.channel, Event(step.kind, [step.path]), path);
  }

  lemma GatherTracked(s: State, scope: Scope, path: Path)
    requires Tracked(s, path) && Watched(path, scope) && s.channel != []
    ensures Tracked(Next(s, Gather, scope), path)
  {
    var ev := s.channel[0];
    LastKindLess(s.channel, path);
    GatheredPath(s.pending, ev.kind, ev.paths, scope, path);
    assert [ev][..0] == [];
    assert LastKind([ev], path) == if path in ev.paths && ActionOf(ev.kind).Some? then Some(ev.kind) else None;
  }

  /** An action that fits the file brings the row to agree with it. */
  lemma FlushAgrees(row: Option<FileRow>, action: Action, file: Option<Meta>)
    requires action == Deleted <==> file.None?
    ensures Agrees(Flushed(row, action, file), file)
  {
  }

  lemma FlushTracked(s: State, step: Step, scope: Scope, path: Path)
    requires Tracked(s, path) && Watched(path, scope) && Enabled(s, step) && (step.Drain? || step.Flush?)
    ensures Tracked(Next(s, step, scope), path)
  {
    if step.Flush? && step.path == path && Outstanding(Next(s, step, scope), path).None? {
      assert Outstanding(s, path) == Some(s.batch[path]);
      FlushAgrees(Get(s.rows, path), s.batch[path], Get(s.files, path));
    }
  }

  lemma StepTracks(s: State, step: Step, scope: Scope, path: Path)
    requires Enabled(s, step) && Tracked(s, path) && Watched(path, scope)
    requires step.Change? && step.path == path ==> Honest(step)
    ensures Tracked(Next(s, step, scope), path)
  {
    match step
    case Change(_, _, _) => ChangeTracked(s, step, scope, path);
    case Gather => GatherTracked(s, scope, path);
    case Drain(_) => FlushTracked(s, step, scope, path);
    case Flush(_) => FlushTracked(s, step, scope, path);
  }

  /** Only the last report about a path matters. */
  lemma {:induction false} RunTracks(first: State, steps: seq<Step>, scope: Scope, s: State, path: Path)
    requires Run(first, steps, scope, s) && Watched(path, scope)
    requires match LastChange(steps, path) case None => Tracked(first, path) case Some(step) => Honest(step)
    ensures Tracked(s, path)
    decreases |steps|
  {
    if steps != [] {
      if LastChange(steps[1..], path).None? {
        if steps[0].Change? && steps[0].path == path {
          ChangeTracked(first, steps[0], scope, path);
        } else {
          StepTracks(first, steps[0], scope, path);
        }
      }
      RunTracks(Next(first, steps[0], scope), steps[1..], scope, s, path);
    }
  }

  predicate Quiet(s: State) {
    s.channel == [] && s.pending == map[] && s.batch == map[]
  }

  /**
   However events are coalesced and flushed, when nothing is outstanding the row of a
   watched path agrees with its file, if its last change was reported for what it was.
   */
  lemma Converges(first: State, steps: seq<Step>, scope: Scope, s: State, path: Path)
    requires Run(first, steps, scope, s) && Quiet(s) && Watched(path, scope)
    requires match LastChange(steps, path) case None => Tracked(first, path) case Some(step) => Honest(step)
    ensures Agrees(Get(s.rows, path), Get(s.files, path))
  {
    RunTracks(first, steps, scope, s, path);
  }

  // ----- When exactly a row comes to agree -----

  predicate IsLive(row: Option<FileRow>) {
    row.Some? && !row.value.deleted
  }

  /** Both say nothing, or a deletion, or that there is a file. */
  predicate SameReport(a: Option<Action>, b: Option<Action>) {
    (a.Some? <==> b.Some?) && (a == Some(Deleted) <==> b == Some(Deleted))
  }

  /** The row of a path before it is last flushed. */
  ghost function RowBeforeFlush(first: State, steps: seq<Step>, scope: Scope, s: State, path: Path): Option<FileRow>
    requires Run(first, steps, scope, s)
    decreases |steps|
  {
    if steps == [] || (steps[0] == Flush(path) && Flush(path) !in steps[1..]) then Get(first.rows, path)
    else RowBeforeFlush(Next(first, steps[0], scope), steps[1..], scope, s, path)
  }

  /**
   At the end the file is as it was, and its row is flushed if and only if something was
   reported about it: with what was reported, from what it was before, which is `row`.
   */
  ghost predicate SettledAs(s: State, last: State, flushed: bool, row: Option<FileRow>, path: Path) {
    && Get(last.files, path) == Get(s.files, path)
    && (flushed <==> Outstanding(s, path).Some?)
    && Get(last.rows, path)
       == match Outstanding(s, path)
          case None => Get(s.rows, path)
          case Some(action) => Flushed(row, action, Get(last.files, path))
  }

  /** The same file, the same row, and the same report. */
  ghost predicate SameAbout(s: State, s': State, path: Path) {
    && Get(s'.files, path) == Get(s.files, path) && Get(s'.rows, path) == Get(s.rows, path)
    && SameReport(Outstanding(s, path), Outstanding(s', path))
  }

  lemma GatherSame(s: State, scope: Scope, path: Path)
    requires s.channel != [] && Watched(path, scope)
    ensures SameAbout(s, Next(s, Gather, scope), path)
  {
    var ev := s.channel[0];
    LastKindLess(s.channel, path);
    GatheredPath(s.pending, ev.kind, ev.paths, scope, path);
    assert [ev][..0] == [];
    assert LastKind([ev], path) == if path in ev.paths && ActionOf(ev.kind).Some? then Some(ev.kind) else None;
  }

  lemma DrainSame(s: State, items: Pending, scope: Scope, path: Path)
    requires Enabled(s, Drain(items))
    ensures SameAbout(s, Next(s, Drain(items), scope), path)
  {
  }

  lemma FlushSame(s: State, other: Path, scope: Scope, path: Path)
    requires Enabled(s, Flush(other)) && other != path
    ensures SameAbout(s, Next(s, Flush(other), scope), path)
  {
  }

  lemma ChangeSame(s: State, change: Step, scope: Scope, path: Path)
    requires change.Change? && change.path != path
    ensures SameAbout(s, Next(s, change, scope), path)
  {
    LastKindMore(s.channel, Event(change.kind, [change.path]), path);
  }

  /** A step that neither changes the file nor flushes the row changes nothing about the path. */
  lemma OtherSame(s: State, step: Step, scope: Scope, path: Path)
    requires Enabled(s, step) && Watched(path, scope)
    requires !(step.Change? && step.path == path) && step != Flush(path)
    ensures SameAbout(s, Next(s, step, scope), path)
  {
    match step
    case Change(_, _, _) => ChangeSame(s, step, scope, path);
    case Gather => GatherSame(s, scope, path);
    case Drain(items) => DrainSame(s, items, scope, path);
    case Flush(other) => FlushSame(s, other, scope, path);
  }

  lemma SameSettles(s: State, s': State, last: State, flushed: bool, row: Option<FileRow>, path: Path)
    requires SameAbout(s, s', path) && SettledAs(s', last, flushed, row, path)
    ensures SettledAs(s, last, flushed, row, path)
  {
  }

  /** A flush writes what is outstanding, unless there is something newer. */
  lemma FlushSettles(s: State, scope: Scope, last: State, flushed: bool, row: Option<FileRow>, path: Path)
    requires Enabled(s, Flush(path)) && Watched(path, scope)
    requires SettledAs(Next(s, Flush(path), scope), last, flushed, row, path)
    ensures SettledAs(s, last, true, if flushed then row else Get(s.rows, path), path)
  {
  }

  /**
   From any state, as long as the file stays as it is, what was last reported about it is
   what its row is last flushed with; if nothing was, the row stays.
   */
  lemma {:induction false} Settles(first: State, steps: seq<Step>, scope: Scope, s: State, path: Path)
    requires Run(first, steps, scope, s) && Watched(path, scope) && Quiet(s) && LastChange(steps, path).None?
    ensures SettledAs(first, s, Flush(path) in steps, RowBeforeFlush(first, steps, scope, s, path), path)
    decreases |steps|
  {
    if steps != [] {
      var second, rest := Next(first, steps[0], scope), steps[1..];
      Settles(second, rest, scope, s, path);
      assert steps == [steps[0]] + rest;
      var row := RowBeforeFlush(second, rest, scope, s, path);
      if steps[0] == Flush(path) {
        FlushSettles(first, scope, s, Flush(path) in rest, row, path);
      } else {
        OtherSame(first, steps[0], scope, path);
        SameSettles(first, second, s, Flush(path) in rest, row, path);
      }
    }
  }

  /** What a change reports is the last thing known about its path. */
  lemma ChangeReported(s: State, change: Step, scope: Scope)
    requires change.Change?
    ensures Outstanding(Next(s, change, scope), change.path)
         == if ActionOf(change.kind).Some? then ActionOf(change.kind) else Outstanding(s, change.path)
  {
    var ev := Event(change.kind, [change.path]);
    LastKindMore(s.channel, ev, change.path);
    assert Next(s, change, scope).channel == s.channel + [ev];
  }

  /** Which actions bring a row to agree: a deletion of a file that is gone, and any other of one that is there. */
  predicate Fits(action: Action, row: Option<FileRow>, file: Option<Meta>) {
    if file.Some? then action != Deleted else action == Deleted || !IsLive(row)
  }

  lemma SettledFits(s: State, last: State, flushed: bool, row: Option<FileRow>, action: Action, path: Path)
    requires SettledAs(s, last, flushed, row, path) && Outstanding(s, path) == Some(action)
    ensures flushed
    ensures Agrees(Get(last.rows, path), Get(last.files, path)) <==> Fits(action, row, Get(s.files, path))
  {
  }

  /**
   Over every run, the row comes to agree exactly when the last change of its file was
   reported as something that fits: as no removal if there is a file, and otherwise as a
   removal, unless the row was dead before that report was flushed.
   */
  lemma {:induction false} AgreesIff(first: State, steps: seq<Step>, scope: Scope, s: State, path: Path)
    requires Run(first, steps, scope, s) && Watched(path, scope) && Quiet(s)
    requires LastChange(steps, path).Some? && ActionOf(LastChange(steps, path).value.kind).Some?
    ensures Flush(path) in steps
    ensures var change := LastChange(steps, path).value;
            && Get(s.files, path) == change.file
            && (Agrees(Get(s.rows, path), Get(s.files, path))
                <==> Fits(ActionOf(change.kind).value, RowBeforeFlush(first, steps, scope, s, path), change.file))
    decreases |steps|
  {
    var second := Next(first, steps[0], scope);
    assert steps == [steps[0]] + steps[1..];
    if LastChange(steps[1..], path).Some? {
      AgreesIff(second, steps[1..], scope, s, path);
    } else {
      var row := RowBeforeFlush(second, steps[1..], scope, s, path);
      ChangeReported(first, steps[0], scope);
      Settles(second, steps[1..], scope, s, path);
      SettledFits(second, s, Flush(path) in steps[1..], row, ActionOf(steps[0].kind).value, path);
    }
  }

  /** No removal of the path is on its way to the table. */
  ghost predicate NoRemoval(s: State, path: Path) {
    && (forall ev <- s.channel :: path in ev.paths ==> ev.kind != Remove)
    && Get(s.pending, path) != Some(Deleted) && Get(s.batch, path) != Some(Deleted)
  }

  lemma {:induction false} NoLastKind(channel: seq<Event>, path: Path)
    requires LastKind(channel, path).None?
    ensures forall ev <- channel :: path in ev.paths ==> ActionOf(ev.kind).None?
  {
    if channel != [] {
      NoLastKind(channel[..|channel| - 1], path);
    }
  }

  lemma StepRowStays(s: State, step: Step, scope: Scope, path: Path)
    requires Enabled(s, step) && !(step.Change? && step.path == path)
    requires NoRemoval(s, path) && path !in s.files
    ensures var s' := Next(s, step, scope);
            path !in s'.files && Get(s'.rows, path) == Get(s.rows, path)
  {
  }

  lemma StepNoRemoval(s: State, step: Step, scope: Scope, path: Path)
    requires Enabled(s, step) && Watched(path, scope) && !(step.Change? && step.path == path)
    requires NoRemoval(s, path)
    ensures NoRemoval(Next(s, step, scope), path)
  {
    if step.Gather? {
      GatheredPath(s.pending, s.channel[0].kind, s.channel[0].paths, scope, path);
    }
  }

  /** As long as no removal is reported, the row of a file that is gone stays as it is. */
  lemma {:induction false} RowStays(first: State, steps: seq<Step>, scope: Scope, s: State, path: Path)
    requires Run(first, steps, scope, s) && Watched(path, scope) && LastChange(steps, path).None?
    requires NoRemoval(first, path) && path !in first.files
    ensures RowBeforeFlush(first, steps, scope, s, path) == Get(first.rows, path)
    decreases |steps|
  {
    if steps != [] {
      StepRowStays(first, steps[0], scope, path);
      StepNoRemoval(first, steps[0], scope, path);
      RowStays(Next(first, steps[0], scope), steps[1..], scope, s, path);
    }
  }

  lemma ChangeNoRemoval(s: State, change: Step, scope: Scope, path: Path)
    requires change.Change? && change.path == path && Outstanding(s, path).None?
    requires change.file.None? && change.kind != Remove
    ensures NoRemoval(Next(s, change, scope), path) && path !in Next(s, change, scope).files
  {
    NoLastKind(s.channel, path);
  }

  /**
   So for a change that is made while nothing about its path is outstanding, all that
   counts is known beforehand: its kind, its file, and the row.
   */
  lemma ChangeAgreesIff(first: State, change: Step, rest: seq<Step>, scope: Scope, s: State, path: Path)
    requires change.Change? && change.path == path && Outstanding(first, path).None?
    requires Run(Next(first, change, scope), rest, scope, s) && LastChange(rest, path).None?
    requires Watched(path, scope) && Quiet(s)
    ensures Agrees(Get(s.rows, path), Get(s.files, path))
       <==> match ActionOf(change.kind)
            case None => Agrees(Get(first.rows, path), change.file)
            case Some(action) => Fits(action, Get(first.rows, path), change.file)
  {
    var second := Next(first, change, scope);
    ChangeReported(first, change, scope);
    Settles(second, rest, scope, s, path);
    if ActionOf(change.kind).Some? {
      var row := RowBeforeFlush(second, rest, scope, s, path);
      SettledFits(second, s, Flush(path) in rest, row, ActionOf(change.kind).value, path);
    }
    if change.file.None? && change.kind != Remove {
      ChangeNoRemoval(first, change, scope, path);
      RowStays(second, rest, scope, s, path);
    }
  }

  /** A file that is renamed away is reported as modified: its row stays live though it is gone. */
  lemma {:induction false} RenamedAwayStays(path: Path, meta: Meta, scope: Scope)
    returns (first: State, steps: seq<Step>, s: State)
    requires Watched(path, scope)
    ensures Quiet(first) && Agrees(Get(first.rows, path), Get(first.files, path))
    ensures Run(first, steps, scope, s) && Quiet(s)
    ensures |steps| > 0 && steps[0] == Change(path, None, Modify)
    ensures path !in s.files && path in s.rows && !s.rows[path].deleted
  {
    var row := FileRow(meta, false, None);
    first := State(map[path := meta], [], map[], map[], map[path := row]);
    var gone := Event(Modify, [path]);
    var items: Pending := map[path := Modified];
    var s1 := State(map[], [gone], map[], map[], first.rows);
    var s2 := State(map[], [], items, map[], first.rows);
    var s3 := State(map[], [], map[], items, first.rows);
    s := State(map[], [], map[], map[], first.rows);
    steps := [Change(path, None, Modify), Gather, Drain(items), Flush(path)];
    assert Next(first, steps[0], scope) == s1;
    RenameGathered(path, scope);
    assert Next(s1, Gather, scope) == s2;
    assert Next(s2, Drain(items), scope) == s3;
    assert Next(s3, Flush(path), scope) == s;
    var t3, t2, t1 := [steps[3]], [steps[2], steps[3]], [steps[1], steps[2], steps[3]];
    assert t3[1..] == [] && t2[1..] == t3 && t1[1..] == t2 && steps[1..] == t1;
    assert Run(s, [], scope, s);
    assert Run(s3, t3, scope, s);
    assert Run(s2, t2, scope, s);
    assert Run(s1, t1, scope, s);
  }

  lemma RenameGathered(path: Path, scope: Scope)
    requires scope.relevant(path)
    ensures GatheredAll(map[], Modify, [path], scope) == map[path := Modified]
  {
    assert [path][1..] == [];
  }
}
