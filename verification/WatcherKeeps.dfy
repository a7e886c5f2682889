/** What the watcher leaves alone, over every run. */
module WatcherKeeps {
  import opened Results
  import opened Watcher
  import opened WatcherRuns

  /** The row is still there, with the columns that the watcher does not write. */
  predicate ColumnsKept(before: Option<FileRow>, after: Option<FileRow>) {
    match before
    case None => after.Some? ==> after.value.analysis == None
    case Some(row) => after.Some? && after.value.analysis == row.analysis
  }

  lemma StepKeepsColumns(s: State, step: Step, scope: Scope, path: Path)
    requires Enabled(s, step)
    ensures ColumnsKept(Get(s.rows, path), Get(Next(s, step, scope).rows, path))
  {
  }

  /** No run takes a row out of the table or touches its other columns. */
  lemma {:induction false} KeepsColumns(first: State, steps: seq<Step>, scope: Scope, s: State, path: Path)
    requires Run(first, steps, scope, s)
    ensures ColumnsKept(Get(first.rows, path), Get(s.rows, path))
    decreases |steps|
  {
    if steps != [] {
      StepKeepsColumns(first, steps[0], scope, path);
      KeepsColumns(Next(first, steps[0], scope), steps[1..], scope, s, path);
    }
  }

  /** A path outside the roots has the row it had. */
  lemma {:induction false} OutsideUntouched(first: State, steps: seq<Step>, scope: Scope, s: State, path: Path)
    requires Run(first, steps, scope, s) && !scope.underRoot(path)
    ensures Get(s.rows, path) == Get(first.rows, path)
    decreases |steps|
  {
    if steps != [] {
      OutsideUntouched(Next(first, steps[0], scope), steps[1..], scope, s, path);
    }
  }

  /** And so has a path that is not scanned, if nothing was pending about it. */
  lemma {:induction false} IrrelevantUntouched(first: State, steps: seq<Step>, scope: Scope, s: State, path: Path)
    requires Run(first, steps, scope, s) && !scope.relevant(path)
    requires path !in first.pending && path !in first.batch
    ensures Get(s.rows, path) == Get(first.rows, path)
    decreases |steps|
  {
    if steps != [] {
      if steps[0].Gather? {
        GatheredMeans(first.pending, first.channel[0].kind, first.channel[0].paths, scope, path);
      }
      IrrelevantUntouched(Next(first, steps[0], scope), steps[1..], scope, s, path);
    }
  }

  // ----- Where times and sizes come from -----

  /** At some moment of the run the file had this time and size. */
  ghost predicate Seen(first: State, steps: seq<Step>, scope: Scope, path: Path, meta: Meta) {
    exists k: nat, mid :: k <= |steps| && Run(first, steps[..k], scope, mid) && Get(mid.files, path) == Some(meta)
  }

  lemma SeenLater(first: State, steps: seq<Step>, scope: Scope, path: Path, meta: Meta)
    requires steps != [] && Enabled(first, steps[0])
    requires Seen(Next(first, steps[0], scope), steps[1..], scope, path, meta)
    ensures Seen(first, steps, scope, path, meta)
  {
    var k: nat, mid :| k <= |steps[1..]| && Run(Next(first, steps[0], scope), steps[1..][..k], scope, mid)
                       && Get(mid.files, path) == Some(meta);
    assert steps[..k + 1][0] == steps[0] && steps[..k + 1][1..] == steps[1..][..k];
    assert Run(first, steps[..k + 1], scope, mid);
  }

  lemma SeenAtOnce(first: State, steps: seq<Step>, scope: Scope, path: Path, meta: Meta)
    ensures Get(first.files, path) == Some(meta) ==> Seen(first, steps, scope, path, meta)
  {
    assert Run(first, steps[..0], scope, first);
  }

  lemma StepMeta(s: State, step: Step, scope: Scope, path: Path)
    requires Enabled(s, step) && path in Next(s, step, scope).rows
    ensures var meta := Next(s, step, scope).rows[path].meta;
            (path in s.rows && s.rows[path].meta == meta) || Get(s.files, path) == Some(meta)
  {
  }

  /** A row has the time and size it had, or those its file had at some moment. */
  lemma {:induction false} MetaWasSeen(first: State, steps: seq<Step>, scope: Scope, s: State, path: Path)
    requires Run(first, steps, scope, s) && path in s.rows
    ensures || (path in first.rows && s.rows[path].meta == first.rows[path].meta)
            || Seen(first, steps, scope, path, s.rows[path].meta)
    decreases |steps|
  {
    if steps != [] {
      var second := Next(first, steps[0], scope);
      var meta := s.rows[path].meta;
      MetaWasSeen(second, steps[1..], scope, s, path);
      if Seen(second, steps[1..], scope, path, meta) {
        SeenLater(first, steps, scope, path, meta);
      } else {
        StepMeta(first, steps[0], scope, path);
        SeenAtOnce(first, steps, scope, path, meta);
      }
    }
  }

  /** A row that is marked keeps its time and size, and a file that is gone leaves its row as it is. */
  lemma FlushOfGone(row: Option<FileRow>, action: Action, file: Option<Meta>)
    requires file.None? || action == Deleted
    ensures var after := Flushed(row, action, file);
            && (row.None? ==> after.None?)
            && (row.Some? ==>
                  after == Some(FileRow(row.value.meta, row.value.deleted || action == Deleted, row.value.analysis)))
  {
  }
}
