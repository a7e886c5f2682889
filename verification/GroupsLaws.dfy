/**
 What the groups index says about the table, and when a cached index is taken for the
 index of the table.
 */
module GroupsLaws {
  import opened Results
  import opened Groups

  // ----- The groups of a table, said row by row -----

  predicate IsIn(row: Row, g: Group, place: Grouping) {
    place(PathOf(row)) == g
  }

  /** The rows of a group. */
  function RowsIn(rows: seq<Row>, g: Group, place: Grouping): seq<Row> {
    if rows == [] then []
    else
      var last := rows[|rows| - 1];
      RowsIn(rows[..|rows| - 1], g, place) + if IsIn(last, g, place) then [last] else []
  }

  function Ids(rows: seq<Row>): (ids: seq<int>)
    ensures |ids| == |rows| && forall i | 0 <= i < |rows| :: ids[i] == rows[i].id
  {
    seq(|rows|, i requires 0 <= i < |rows| => rows[i].id)
  }

  function MaxMtime(rows: seq<Row>): real
    requires rows != []
  {
    var last := MtimeOf(rows[|rows| - 1]);
    if |rows| == 1 then last else Larger(MaxMtime(rows[..|rows| - 1]), last)
  }

  /** It is the largest of the times. */
  lemma {:induction false} MaxIsLargest(rows: seq<Row>)
    requires rows != []
    ensures forall row <- rows :: MtimeOf(row) <= MaxMtime(rows)
    ensures exists row <- rows :: MtimeOf(row) == MaxMtime(rows)
  {
    var front, last := rows[..|rows| - 1], rows[|rows| - 1];
    assert rows == front + [last];
    assert last in rows;
    if |rows| > 1 {
      MaxIsLargest(front);
      var row :| row in front && MtimeOf(row) == MaxMtime(front);
      assert row in rows;
    }
  }

  lemma {:induction false} RowsInMeans(rows: seq<Row>, g: Group, place: Grouping)
    ensures forall row :: row in RowsIn(rows, g, place) <==> row in rows && IsIn(row, g, place)
  {
    if rows != [] {
      var front, last := rows[..|rows| - 1], rows[|rows| - 1];
      assert rows == front + [last];
      RowsInMeans(front, g, place);
    }
  }

  lemma {:induction false} RowsInAscend(rows: seq<Row>, g: Group, place: Grouping)
    requires Ascending(rows)
    ensures Ascending(RowsIn(rows, g, place))
  {
    if rows != [] {
      var front, last := rows[..|rows| - 1], rows[|rows| - 1];
      RowsInAscend(front, g, place);
      RowsInMeans(front, g, place);
      forall row | row in RowsIn(front, g, place) ensures row.id < last.id {
        var i :| 0 <= i < |front| && front[i] == row;
        assert rows[i].id < rows[|rows| - 1].id;
      }
    }
  }

  // ----- The maps hold these groups -----

  ghost predicate Holds(m: Members, g: Group, rows: seq<Row>) {
    && (g.name in m.ids <==> rows != [])
    && (g.name in m.meta <==> rows != [])
    && (rows != [] ==>
          && m.ids[g.name] == Ids(rows)
          && m.meta[g.name] == Meta(PathOf(rows[0]), MaxMtime(rows)))
  }

  function MembersOf(t: Totals, kind: Kind): Members {
    match kind case Folder => t.folders case Archive => t.archives
  }

  ghost predicate Sums(t: Totals, rows: seq<Row>, place: Grouping) {
    && t.fileCount == |rows|
    && t.maxMtime == (if rows == [] then 0.0 else Larger(0.0, MaxMtime(rows)))
    && forall g: Group :: Holds(MembersOf(t, g.kind), g, RowsIn(rows, g, place))
  }

  lemma JoinedHolds(m: Members, name: string, row: Row, g: Group, rows: seq<Row>)
    requires Holds(m, g, rows)
    ensures Holds(Joined(m, name, row), g, if g.name == name then rows + [row] else rows)
  {
    if g.name == name {
      var more := rows + [row];
      assert more[..|more| - 1] == rows;
      assert Ids(more) == Ids(rows) + [row.id];
    }
  }

  lemma RowsInMore(rows: seq<Row>, row: Row, g: Group, place: Grouping)
    ensures RowsIn(rows + [row], g, place)
         == if IsIn(row, g, place) then RowsIn(rows, g, place) + [row] else RowsIn(rows, g, place)
  {
    assert (rows + [row])[..|rows|] == rows;
    assert RowsIn(rows, g, place) + [] == RowsIn(rows, g, place);
  }

  /** A row joins its own group. */
  lemma OwnGroupTaken(t: Totals, rows: seq<Row>, row: Row, place: Grouping)
    requires var g := place(PathOf(row)); Holds(MembersOf(t, g.kind), g, RowsIn(rows, g, place))
    ensures var g := place(PathOf(row));
            Holds(MembersOf(Taken(t, row, place), g.kind), g, RowsIn(rows + [row], g, place))
  {
    var g := place(PathOf(row));
    var members, own := MembersOf(t, g.kind), RowsIn(rows, g, place);
    RowsInMore(rows, row, g, place);
    JoinedHolds(members, g.name, row, g, own);
    assert MembersOf(Taken(t, row, place), g.kind) == Joined(members, g.name, row);
  }

  /** Every other group stays as it is. */
  lemma OtherGroupTaken(t: Totals, rows: seq<Row>, row: Row, g: Group, place: Grouping)
    requires place(PathOf(row)) != g && Holds(MembersOf(t, g.kind), g, RowsIn(rows, g, place))
    ensures Holds(MembersOf(Taken(t, row, place), g.kind), g, RowsIn(rows + [row], g, place))
  {
    var own := place(PathOf(row));
    var members, others := MembersOf(t, g.kind), RowsIn(rows, g, place);
    RowsInMore(rows, row, g, place);
    if own.kind == g.kind {
      JoinedHolds(members, own.name, row, g, others);
      assert MembersOf(Taken(t, row, place), g.kind) == Joined(members, own.name, row);
    } else {
      assert MembersOf(Taken(t, row, place), g.kind) == members;
    }
  }

  lemma MaxMore(rows: seq<Row>, row: Row)
    ensures MaxMtime(rows + [row]) == if rows == [] then MtimeOf(row) else Larger(MaxMtime(rows), MtimeOf(row))
  {
    assert (rows + [row])[..|rows|] == rows;
  }

  lemma TakenSums(t: Totals, rows: seq<Row>, row: Row, place: Grouping)
    requires Sums(t, rows, place)
    ensures Sums(Taken(t, row, place), rows + [row], place)
  {
    MaxMore(rows, row);
    forall g: Group ensures Holds(MembersOf(Taken(t, row, place), g.kind), g, RowsIn(rows + [row], g, place)) {
      if g == place(PathOf(row)) {
        OwnGroupTaken(t, rows, row, place);
      } else {
        OtherGroupTaken(t, rows, row, g, place);
      }
    }
  }

  lemma TakenMore(t: Totals, rows: seq<Row>, row: Row, place: Grouping)
    ensures TakenAll(t, rows + [row], place) == Taken(TakenAll(t, rows, place), row, place)
  {
    TakenInPages(t, rows, [row], place);
    assert [row][1..] == [];
  }

  lemma NextTaken(front: seq<Row>, last: Row, place: Grouping)
    requires Sums(TakenAll(NO_TOTALS, front, place), front, place)
    ensures Sums(TakenAll(NO_TOTALS, front + [last], place), front + [last], place)
  {
    TakenSums(TakenAll(NO_TOTALS, front, place), front, last, place);
    TakenMore(NO_TOTALS, front, last, place);
  }

  lemma NoneTaken(rows: seq<Row>, place: Grouping)
    requires rows == []
    ensures Sums(TakenAll(NO_TOTALS, rows, place), rows, place)
  {
  }

  lemma {:induction false} AllTaken(rows: seq<Row>, place: Grouping)
    ensures Sums(TakenAll(NO_TOTALS, rows, place), rows, place)
    decreases |rows|
  {
    if rows == [] {
      NoneTaken(rows, place);
    } else {
      var front, last := rows[..|rows| - 1], rows[|rows| - 1];
      assert rows == front + [last];
      AllTaken(front, place);
      NextTaken(front, last, place);
    }
  }

  // ----- What the index says -----

  function EntriesOf(index: Index, kind: Kind): map<string, Entry> {
    match kind case Folder => index.folders case Archive => index.zips
  }

  function MinMembers(kind: Kind): nat {
    match kind case Folder => 2 case Archive => 1
  }

  /** The entry of a group: all its ids, the first eight again, and its latest time. */
  ghost predicate Describes(entry: Entry, rows: seq<Row>)
    requires rows != []
  {
    && entry.ids == Ids(rows)
    && entry.reps <= entry.ids && |entry.reps| == (if |rows| < 8 then |rows| else 8)
    && entry.firstPath == PathOf(rows[0])
    && (forall row <- rows :: MtimeOf(row) <= entry.maxMtime)
    && (exists row <- rows :: MtimeOf(row) == entry.maxMtime)
  }

  /** A group is kept exactly when it has enough members, with its entry. */
  lemma IndexMeans(table: seq<Row>, place: Grouping, g: Group)
    ensures var rows := RowsIn(Live(table), g, place);
            var entries := EntriesOf(Built(table, place), g.kind);
            && (g.name in entries <==> |rows| >= MinMembers(g.kind))
            && (g.name in entries ==> Describes(entries[g.name], rows))
    ensures Built(table, place).fileCount == |Live(table)|
  {
    var t := TakenAll(NO_TOTALS, Live(table), place);
    var rows := RowsIn(Live(table), g, place);
    AllTaken(Live(table), place);
    assert Holds(MembersOf(t, g.kind), g, rows);
    assert g.name in MembersOf(t, g.kind).ids ==> |MembersOf(t, g.kind).ids[g.name]| == |rows|;
    if rows != [] {
      MaxIsLargest(rows);
    }
  }

  /** Every live file is in the group of its path and in no other, once, and ids ascend. */
  lemma EachInOneGroup(table: seq<Row>, place: Grouping, row: Row, g: Group)
    requires IsTable(table) && row in table && !row.deleted
    ensures row in RowsIn(Live(table), g, place) <==> g == place(PathOf(row))
    ensures row.id in Ids(RowsIn(Live(table), g, place)) <==> g == place(PathOf(row))
    ensures Ascending(RowsIn(Live(table), g, place))
  {
    var rows := RowsIn(Live(table), g, place);
    LiveRows(table);
    RowsInMeans(Live(table), g, place);
    RowsInAscend(Live(table), g, place);
    if row.id in Ids(rows) {
      var i :| 0 <= i < |rows| && Ids(rows)[i] == row.id;
      assert rows[i] in rows;
      SameId(Live(table), row, rows[i]);
    }
    forall i | 0 <= i < |rows| && rows[i] == row ensures row.id in Ids(rows) {
      assert Ids(rows)[i] == row.id;
    }
  }

  lemma SameId(rows: seq<Row>, a: Row, b: Row)
    requires Ascending(rows) && a in rows && b in rows && a.id == b.id
    ensures a == b
  {
    var i :| 0 <= i < |rows| && rows[i] == a;
    var j :| 0 <= j < |rows| && rows[j] == b;
    if i < j {
      assert rows[i].id < rows[j].id;
    } else if j < i {
      assert rows[j].id < rows[i].id;
    }
  }

  // ----- The signature of the table -----

  datatype Signature = Signature(fileCount: nat, maxMtime: real)

  /** The largest of the times that are not missing, if there is one. */
  function MaxKnown(rows: seq<Row>): Option<real> {
    if rows == [] then None
    else
      var last := rows[|rows| - 1];
      match MaxKnown(rows[..|rows| - 1])
      case None => last.mtime
      case Some(max) => Some(if last.mtime.Some? then Larger(max, last.mtime.value) else max)
  }

  /** Aggregates pass over missing times; a table without any has zero. */
  function DbSignature(table: seq<Row>): Signature {
    var live := Live(table);
    Signature(|live|, match MaxKnown(live) { case None => 0.0 case Some(max) => max })
  }

  predicate Passes(index: Index, s: Signature) {
    index.fileCount == s.fileCount && index.maxMtime == s.maxMtime && index.version == CACHE_VERSION
  }

  lemma {:induction false} MaxWithZero(rows: seq<Row>)
    requires rows != []
    ensures Larger(0.0, MaxMtime(rows)) == Larger(0.0, match MaxKnown(rows) { case None => 0.0 case Some(max) => max })
  {
    if |rows| > 1 {
      MaxWithZero(rows[..|rows| - 1]);
    } else {
      assert MaxKnown(rows[..0]) == None;
    }
  }

  /** The index that is built is valid for its own table, exactly when no time is below zero. */
  lemma BuiltPasses(table: seq<Row>, place: Grouping)
    ensures Passes(Built(table, place), DbSignature(table)) <==> DbSignature(table).maxMtime >= 0.0
  {
    AllTaken(Live(table), place);
    if Live(table) != [] {
      MaxWithZero(Live(table));
    }
  }

  /** A single live file from before 1970 gives an index that does not pass. */
  lemma OldFileFails(path: string, place: Grouping)
    ensures var table := [Row(1, Some(path), Some(-1.0), false)];
            IsTable(table) && !Passes(Built(table, place), DbSignature(table))
  {
    var row := Row(1, Some(path), Some(-1.0), false);
    var table := [row];
    assert table[1..] == [] && table[..0] == [];
    assert Live(table) == [row];
    assert MaxKnown([row]) == Some(-1.0);
    BuiltPasses(table, place);
  }

  /** In particular when no live file has a time below zero. */
  lemma {:induction false} NoNegativeTimes(rows: seq<Row>)
    requires forall row <- rows :: row.mtime.Some? ==> row.mtime.value >= 0.0
    ensures MaxKnown(rows).Some? ==> MaxKnown(rows).value >= 0.0
  {
    if rows != [] {
      assert rows[|rows| - 1] in rows;
      NoNegativeTimes(rows[..|rows| - 1]);
    }
  }

  // ----- The cache -----

  /** An index with the time of the file it belongs to. */
  datatype Stamped = Stamped(stamp: real, index: Index)

  datatype Store = Store(memory: Option<Stamped>, disk: Option<Stamped>)

  function StampOf(disk: Option<Stamped>): real {
    match disk case None => 0.0 case Some(s) => s.stamp
  }

  /** What `get` gives, and the store it leaves; a file that is written is stamped `now`. */
  function Got(s: Store, table: seq<Row>, place: Grouping, now: real): (Index, Store) {
    var current := StampOf(s.disk);
    if s.memory.Some? && s.memory.value.stamp == current then (s.memory.value.index, s)
    else if s.disk.Some? && current != 0.0 && Passes(s.disk.value.index, DbSignature(table)) then
      (s.disk.value.index, s.(memory := Some(Stamped(current, s.disk.value.index))))
    else
      var built := Stamped(now, Built(table, place));
      (built.index, Store(Some(built), Some(built)))
  }

  class GroupsIndexCache {
    const place: Grouping
    var memory: Option<Stamped>
    var disk: Option<Stamped>

    constructor (place: Grouping, disk: Option<Stamped>)
      ensures this.place == place && State() == Store(None, disk)
    {
      this.place := place;
      memory := None;
      this.disk := disk;
    }

    ghost function State(): Store
      reads this
    {
      Store(memory, disk)
    }

    method Get(table: seq<Row>, batchSize: nat, now: real) returns (index: Index)
      requires IsTable(table) && batchSize > 0
      modifies this
      ensures (index, State()) == Got(old(State()), table, place, now)
    {
      var current := StampOf(disk);
      if memory.Some? && memory.value.stamp == current {
        return memory.value.index;
      }
      if current != 0.0 && disk.Some? {
        if Passes(disk.value.index, DbSignature(table)) {
          memory := Some(Stamped(current, disk.value.index));
          return disk.value.index;
        }
      }
      index := BuildGroupsIndex(table, place, batchSize);
      disk := Some(Stamped(now, index));
      memory := Some(Stamped(now, index));
    }

    /** Removing the file may fail, which is ignored. */
    method Invalidate(removed: bool)
      modifies this
      ensures State() == Store(None, if removed then None else old(disk))
    {
      memory := None;
      if removed {
        disk := None;
      }
    }
  }

  // ----- What is given out over a run -----

  /** The table changes, an index is asked for, the cache is dropped (with its file, if that can be removed). */
  datatype Event = Changed(table: seq<Row>) | Asked(now: real) | Dropped(removed: bool)

  datatype World = World(table: seq<Row>, store: Store)

  function Moved(w: World, e: Event, place: Grouping): World {
    match e
    case Changed(table) => w.(table := table)
    case Asked(now) => w.(store := Got(w.store, w.table, place, now).1)
    case Dropped(removed) => w.(store := Store(None, if removed then None else w.store.disk))
  }

  function WorldAfter(first: World, events: seq<Event>, place: Grouping): World {
    if events == [] then first
    else Moved(WorldAfter(first, events[..|events| - 1], place), events[|events| - 1], place)
  }

  /** The tables there have been since the cache was last dropped. */
  function TablesSince(first: World, events: seq<Event>, place: Grouping): seq<seq<Row>> {
    if events == [] then [first.table]
    else
      var before := TablesSince(first, events[..|events| - 1], place);
      match events[|events| - 1]
      case Changed(table) => before + [table]
      case Asked(_) => before
      case Dropped(_) => [WorldAfter(first, events, place).table]
  }

  /** When the cache was last dropped, no file was left. */
  predicate NoFileLeft(first: World, events: seq<Event>, place: Grouping) {
    if events == [] then first.store.disk.None?
    else if events[|events| - 1].Dropped? then WorldAfter(first, events, place).store.disk.None?
    else NoFileLeft(first, events[..|events| - 1], place)
  }

  predicate BuiltFrom(index: Index, tables: seq<seq<Row>>, place: Grouping) {
    exists table <- tables :: index == Built(table, place)
  }

  /** Built from one of the tables, or with the signature of one. */
  predicate FitsOne(index: Index, tables: seq<seq<Row>>, place: Grouping) {
    exists table <- tables :: index == Built(table, place) || Passes(index, DbSignature(table))
  }

  /** What holds of the store at every moment. */
  predicate StoreFits(s: Store, tables: seq<seq<Row>>, noFile: bool, place: Grouping) {
    && (s.memory.Some? ==> FitsOne(s.memory.value.index, tables, place))
    && (noFile && s.memory.Some? ==> BuiltFrom(s.memory.value.index, tables, place))
    && (noFile && s.disk.Some? ==> BuiltFrom(s.disk.value.index, tables, place))
  }

  lemma MoreTables(s: Store, tables: seq<seq<Row>>, table: seq<Row>, noFile: bool, place: Grouping)
    requires StoreFits(s, tables, noFile, place)
    ensures StoreFits(s, tables + [table], noFile, place)
  {
    assert forall t <- tables :: t in tables + [table];
  }

  /** What is given out fits, and so does what is kept. */
  lemma GotFits(s: Store, table: seq<Row>, tables: seq<seq<Row>>, noFile: bool, place: Grouping, now: real)
    requires StoreFits(s, tables, noFile, place) && table in tables
    ensures FitsOne(Got(s, table, place, now).0, tables, place)
    ensures noFile ==> BuiltFrom(Got(s, table, place, now).0, tables, place)
    ensures StoreFits(Got(s, table, place, now).1, tables, noFile, place)
  {
  }

  lemma {:induction false} RunFits(first: World, events: seq<Event>, place: Grouping)
    requires first.store.memory.None?
    ensures var (w, tables) := (WorldAfter(first, events, place), TablesSince(first, events, place));
            w.table in tables && StoreFits(w.store, tables, NoFileLeft(first, events, place), place)
  {
    if events != [] {
      var front, last := events[..|events| - 1], events[|events| - 1];
      var w, tables := WorldAfter(first, front, place), TablesSince(first, front, place);
      var noFile := NoFileLeft(first, front, place);
      RunFits(first, front, place);
      match last
      case Changed(table) => MoreTables(w.store, tables, table, noFile, place);
      case Asked(now) => GotFits(w.store, w.table, tables, noFile, place, now);
      case Dropped(_) =>
    }
  }

  /**
   Over every run, the index that is given out was built from a table there has been since
   the cache was last dropped, or was in the file that this left and has the signature of
   such a table.
   */
  lemma GivenOut(first: World, events: seq<Event>, place: Grouping, now: real)
    requires first.store.memory.None?
    ensures var (w, tables) := (WorldAfter(first, events, place), TablesSince(first, events, place));
            && FitsOne(Got(w.store, w.table, place, now).0, tables, place)
            && (NoFileLeft(first, events, place) ==> BuiltFrom(Got(w.store, w.table, place, now).0, tables, place))
  {
    var w := WorldAfter(first, events, place);
    RunFits(first, events, place);
    GotFits(w.store, w.table, TablesSince(first, events, place), NoFileLeft(first, events, place), place, now);
  }

  /**
   Once an index has been given out, it is given out again, whatever becomes of the table,
   until the cache is dropped.
   */
  lemma {:induction false} SameUntilDropped(w: World, asked: real, events: seq<Event>, place: Grouping, now: real)
    requires forall e <- events :: !e.Dropped?
    ensures var (index, store) := Got(w.store, w.table, place, asked);
            var later := WorldAfter(w.(store := store), events, place);
            later.store == store && Got(store, later.table, place, now) == (index, store)
  {
    if events != [] {
      SameUntilDropped(w, asked, events[..|events| - 1], place, match events[|events| - 1] {
        case Asked(time) => time
        case _ => now
      });
    }
  }

  /** So an index of the empty table is given out again after a file has been added. */
  lemma StaleIndexGivenOut(row: Row, place: Grouping, asked: real, now: real)
    requires !row.deleted
    ensures var w := WorldAfter(World([], Store(None, None)), [Asked(asked), Changed([row])], place);
            w.table == [row] && Got(w.store, w.table, place, now).0 != Built([row], place)
  {
    var first := World([], Store(None, None));
    var events := [Asked(asked), Changed([row])];
    assert events[..1] == [Asked(asked)] && events[..1][..0] == [];
    var store := Got(first.store, [], place, asked).1;
    assert WorldAfter(first, events[..1], place) == World([], store);
    assert WorldAfter(first, events, place) == World([row], store);
    SameUntilDropped(first, asked, [], place, now);
    assert store.memory.value.index == Built([], place);
    IndexMeans([], place, Group(Folder, ""));
    IndexMeans([row], place, Group(Folder, ""));
    assert [row][1..] == [] && Live([row]) == [row];
  }

  /**
   After a restart there is only the file. What it holds is given out again, without a
   rebuild, exactly as long as the table has its signature; otherwise the table's own index is.
   */
  lemma AfterRestart(before: Store, table: seq<Row>, now: real, changed: seq<Row>, place: Grouping, later: real)
    requires before.memory.None? && before.disk.None? && now != 0.0
    ensures var index := Got(before, table, place, now).0;
            var file := Got(before, table, place, now).1.disk;
            && index == Built(table, place) && file == Some(Stamped(now, index))
            && Got(Store(None, file), changed, place, later)
               == if |Live(changed)| == index.fileCount && DbSignature(changed).maxMtime == index.maxMtime
                  then (index, Store(file, file))
                  else (Built(changed, place),
                        Store(Some(Stamped(later, Built(changed, place))), Some(Stamped(later, Built(changed, place)))))
  {
  }

  /** A file whose time cannot be told is never used. */
  lemma NoTimeNoFile(index: Index, table: seq<Row>, place: Grouping, now: real)
    ensures Got(Store(None, Some(Stamped(0.0, index))), table, place, now).0 == Built(table, place)
  {
  }

  /** Neither is one of another version than the fourth, which is that of every index that is built. */
  lemma OtherVersionUnused(index: Index, file: real, table: seq<Row>, place: Grouping, now: real)
    ensures Built(table, place).version == 4
    ensures index.version != 4 ==>
              Got(Store(None, Some(Stamped(file, index))), table, place, now).0 == Built(table, place)
  {
  }
}
