/**
 The groups index: live files, grouped by the folder or the archive they lie in, read
 from the table page by page.
 */
module Groups {
  import opened Results

  // ----- Which group a path belongs to -----

  function AsciiLower(c: char): char {
    if 'A' <= c <= 'Z' then (c as int + 32) as char else c
  }

  function AsciiLowered(s: string): string {
    seq(|s|, i requires 0 <= i < |s| => AsciiLower(s[i]))
  }

  predicate StartsIgnoringCase(haystack: string, needle: string) {
    |needle| <= |haystack| && AsciiLowered(haystack[..|needle|]) == AsciiLowered(needle)
  }

  /** Where `needle` first occurs in `haystack`, whatever the case of its letters. */
  function FindIgnoringCase(haystack: string, needle: string): (r: Option<nat>)
    ensures r.Some? ==> r.value + |needle| <= |haystack|
  {
    if |haystack| < |needle| then None
    else if StartsIgnoringCase(haystack, needle) then Some(0)
    else if haystack == [] then None
    else
      match FindIgnoringCase(haystack[1..], needle)
      case None => None
      case Some(k) => Some(k + 1)
  }

  const BOUNDARIES := [".zip!", ".7z!", ".rar!"]

  predicate IsMemberOf(path: string, boundary: string) {
    var at := FindIgnoringCase(path, boundary);
    at.Some? && at.value > 0 && at.value + |boundary| < |path|
  }

  predicate IsArchiveMember(path: string) {
    path != [] && exists boundary <- BOUNDARIES :: IsMemberOf(path, boundary)
  }

  predicate EndsWith(s: string, suffix: string) {
    |suffix| <= |s| && s[|s| - |suffix|..] == suffix
  }

  predicate IsArchiveFile(path: string) {
    var lower := AsciiLowered(path);
    EndsWith(lower, ".zip") || EndsWith(lower, ".7z") || EndsWith(lower, ".rar")
  }

  /** The end of the archive's name at the first of the boundaries, if there is one. */
  function FirstEnd(path: string, boundaries: seq<string>): (r: Option<(nat, nat)>)
    requires forall i | 0 <= i < |boundaries| :: boundaries[i] != []
    ensures r.Some? ==> r.value.0 <= r.value.1 <= |path|
  {
    if boundaries == [] then None
    else
      var rest := FirstEnd(path, boundaries[1..]);
      match FindIgnoringCase(path, boundaries[0])
      case None => rest
      case Some(k) =>
        if rest.Some? && rest.value.0 < k then rest else Some((k, k + |boundaries[0]| - 1))
  }

  function ArchivePart(path: string): string {
    match FirstEnd(path, BOUNDARIES)
    case None => path
    case Some((_, end)) => path[..end]
  }

  function WithSlashes(path: string): string {
    seq(|path|, i requires 0 <= i < |path| => if path[i] == '\\' then '/' else path[i])
  }

  function LastSlash(s: string): (r: Option<nat>)
    ensures r.Some? ==> r.value < |s|
  {
    if s == [] then None
    else if s[|s| - 1] == '/' then Some(|s| - 1)
    else LastSlash(s[..|s| - 1])
  }

  datatype Kind = Folder | Archive

  /** A group: its kind and its name. */
  datatype Group = Group(kind: Kind, name: string)

  /** Lower case for every letter, which is the business of the library. */
  type Lower = string -> string

  function GroupOf(path: string, lower: Lower): Group {
    if IsArchiveMember(path) then Group(Archive, lower(ArchivePart(path)))
    else if IsArchiveFile(path) then Group(Archive, lower(path))
    else
      var norm := WithSlashes(path);
      var at := LastSlash(norm);
      Group(Folder, if at.Some? && at.value > 0 then lower(norm[..at.value]) else ".")
  }

  // ----- The table -----

  /** A row: its id is its key; the path and the time may be missing. */
  datatype Row = Row(id: int, path: Option<string>, mtime: Option<real>, deleted: bool)

  /** Rows in the order of their ids, which are positive. */
  predicate IsTable(table: seq<Row>) {
    && (forall i | 0 <= i < |table| :: table[i].id > 0)
    && (forall i, j | 0 <= i < j < |table| :: table[i].id < table[j].id)
  }

  function Live(table: seq<Row>): seq<Row> {
    if table == [] then [] else (if table[0].deleted then [] else [table[0]]) + Live(table[1..])
  }

  function After(rows: seq<Row>, id: int): seq<Row> {
    if rows == [] then [] else (if rows[0].id > id then [rows[0]] else []) + After(rows[1..], id)
  }

  function Page(table: seq<Row>, lastId: int, limit: nat): seq<Row> {
    var rows := After(Live(table), lastId);
    if |rows| <= limit then rows else rows[..limit]
  }

  function PathOf(row: Row): string {
    match row.path { case None => "" case Some(path) => path }
  }

  function MtimeOf(row: Row): real {
    match row.mtime { case None => 0.0 case Some(mtime) => mtime }
  }

  /** How paths are grouped. */
  type Grouping = string -> Group

  function ByContainer(lower: Lower): Grouping {
    path => GroupOf(path, lower)
  }

  // ----- Grouping -----

  datatype Meta = Meta(firstPath: string, maxMtime: real)

  datatype Members = Members(ids: map<string, seq<int>>, meta: map<string, Meta>)

  const NOBODY := Members(map[], map[])

  function Larger(a: real, b: real): real {
    if a < b then b else a
  }

  function Joined(m: Members, name: string, row: Row): Members {
    Members(
      m.ids[name := (if name in m.ids then m.ids[name] else []) + [row.id]],
      if name in m.meta then m.meta[name := Meta(m.meta[name].firstPath, Larger(m.meta[name].maxMtime, MtimeOf(row)))]
      else m.meta[name := Meta(PathOf(row), MtimeOf(row))])
  }

  /** The groups of one kind that are being built. */
  class GroupMaps {
    var ids: map<string, seq<int>>
    var meta: map<string, Meta>

    constructor ()
      ensures Value() == NOBODY
    {
      ids := map[];
      meta := map[];
    }

    ghost function Value(): Members
      reads this
    {
      Members(ids, meta)
    }

    method AppendGroup(name: string, fid: int, path: string, mtime: real, ghost row: Row)
      requires fid == row.id && path == PathOf(row) && mtime == MtimeOf(row)
      modifies this
      ensures Value() == Joined(old(Value()), name, row)
    {
      ids := ids[name := (if name in ids then ids[name] else []) + [fid]];
      if name in meta {
        if mtime > meta[name].maxMtime {
          meta := meta[name := meta[name].(maxMtime := mtime)];
        }
      } else {
        meta := meta[name := Meta(path, mtime)];
      }
    }
  }

  /** What has been taken in of the table so far. */
  datatype Totals = Totals(fileCount: nat, maxMtime: real, folders: Members, archives: Members)

  const NO_TOTALS := Totals(0, 0.0, NOBODY, NOBODY)

  function Taken(t: Totals, row: Row, place: Grouping): Totals {
    var group := place(PathOf(row));
    Totals(
      t.fileCount + 1,
      Larger(t.maxMtime, MtimeOf(row)),
      if group.kind == Folder then Joined(t.folders, group.name, row) else t.folders,
      if group.kind == Archive then Joined(t.archives, group.name, row) else t.archives)
  }

  function TakenAll(t: Totals, rows: seq<Row>, place: Grouping): Totals
    decreases |rows|
  {
    if rows == [] then t else TakenAll(Taken(t, rows[0], place), rows[1..], place)
  }

  // ----- The index -----

  datatype Entry = Entry(ids: seq<int>, firstPath: string, reps: seq<int>, maxMtime: real)

  datatype Index = Index(
    fileCount: nat, maxMtime: real, version: nat, folders: map<string, Entry>, zips: map<string, Entry>)

  const CACHE_VERSION := 4

  const REPS := 8

  function EntryOf(ids: seq<int>, meta: Meta): Entry {
    Entry(ids, meta.firstPath, if |ids| <= REPS then ids else ids[..REPS], meta.maxMtime)
  }

  /** The groups with enough members. */
  function Entries(m: Members, minMembers: nat): map<string, Entry> {
    map name | name in m.ids && |m.ids[name]| >= minMembers && name in m.meta :: EntryOf(m.ids[name], m.meta[name])
  }

  method BuildEntries(ids: map<string, seq<int>>, meta: map<string, Meta>, minMembers: nat)
    returns (entries: map<string, Entry>)
    ensures entries == Entries(Members(ids, meta), minMembers)
  {
    entries := map[];
    var names := ids.Keys;
    ghost var all := Entries(Members(ids, meta), minMembers);
    while names != {}
      invariant names <= ids.Keys
      invariant entries == map name | name in all && name !in names :: all[name]
      decreases |names|
    {
      var name :| name in names;
      names := names - {name};
      if |ids[name]| >= minMembers {
        if name in meta {
          entries := entries[name := EntryOf(ids[name], meta[name])];
        }
      }
    }
  }

  function IndexOf(t: Totals): Index {
    Index(t.fileCount, t.maxMtime, CACHE_VERSION, Entries(t.folders, 2), Entries(t.archives, 1))
  }

  /** The index of a table, in one pass over its live rows. */
  function Built(table: seq<Row>, place: Grouping): Index {
    IndexOf(TakenAll(NO_TOTALS, Live(table), place))
  }

  class Builder {
    const place: Grouping
    var fileCount: nat
    var maxMtime: real
    const folders: GroupMaps
    const archives: GroupMaps

    constructor (place: Grouping)
      ensures Valid() && this.place == place && Value() == NO_TOTALS
      ensures fresh(folders) && fresh(archives)
    {
      this.place := place;
      fileCount := 0;
      maxMtime := 0.0;
      folders := new GroupMaps();
      archives := new GroupMaps();
    }

    ghost predicate Valid() {
      folders != archives
    }

    ghost function Value(): Totals
      reads this, folders, archives
    {
      Totals(fileCount, maxMtime, folders.Value(), archives.Value())
    }

    method TakeRow(row: Row)
      requires Valid()
      modifies this, folders, archives
      ensures Value() == Taken(old(Value()), row, place)
    {
      var path, mtime := PathOf(row), MtimeOf(row);
      fileCount := fileCount + 1;
      if mtime > maxMtime {
        maxMtime := mtime;
      }
      var group := place(path);
      if group.kind == Archive {
        archives.AppendGroup(group.name, row.id, path, mtime, row);
      } else {
        folders.AppendGroup(group.name, row.id, path, mtime, row);
      }
    }

    method TakePage(rows: seq<Row>)
      requires Valid()
      modifies this, folders, archives
      ensures Value() == TakenAll(old(Value()), rows, place)
    {
      ghost var goal := TakenAll(Value(), rows, place);
      for i := 0 to |rows|
        invariant TakenAll(Value(), rows[i..], place) == goal
      {
        assert rows[i..][1..] == rows[i + 1..];
        TakeRow(rows[i]);
      }
    }
  }

  /** Page after page, up to the first one that is not full. */
  method BuildGroupsIndex(table: seq<Row>, place: Grouping, batchSize: nat) returns (index: Index)
    requires IsTable(table) && batchSize > 0
    ensures index == Built(table, place)
  {
    var builder := new Builder(place);
    var lastId := 0;
    LiveRows(table);
    AfterNone(Live(table), 0);
    ghost var goal := TakenAll(NO_TOTALS, Live(table), place);
    var full := true;
    while full
      invariant builder.Valid() && fresh(builder) && fresh(builder.folders) && fresh(builder.archives)
      invariant builder.place == place
      invariant full ==> TakenAll(builder.Value(), After(Live(table), lastId), place) == goal
      invariant !full ==> builder.Value() == goal
      decreases full, |After(Live(table), lastId)|
    {
      var rows := Page(table, lastId, batchSize);
      PageStep(Live(table), After(Live(table), lastId), rows, lastId, batchSize, builder.Value(), place);
      builder.TakePage(rows);
      if rows != [] {
        lastId := rows[|rows| - 1].id;
      }
      full := |rows| >= batchSize;
    }
    var folders := BuildEntries(builder.folders.ids, builder.folders.meta, 2);
    var zips := BuildEntries(builder.archives.ids, builder.archives.meta, 1);
    return Index(builder.fileCount, builder.maxMtime, CACHE_VERSION, folders, zips);
  }

  // ----- Paging -----

  ghost predicate Ascending(rows: seq<Row>) {
    forall i, j | 0 <= i < j < |rows| :: rows[i].id < rows[j].id
  }

  lemma {:induction false} LiveRows(table: seq<Row>)
    requires IsTable(table)
    ensures IsTable(Live(table))
    ensures forall row :: row in Live(table) <==> row in table && !row.deleted
  {
    if table != [] {
      LiveRows(table[1..]);
      assert forall row <- Live(table[1..]) :: row in table[1..] && table[0].id < row.id;
    }
  }

  lemma {:induction false} AfterNone(rows: seq<Row>, id: int)
    requires forall row <- rows :: row.id > id
    ensures After(rows, id) == rows
  {
    if rows != [] {
      AfterNone(rows[1..], id);
    }
  }

  /** The rows after an id are the last ones. */
  lemma {:induction false} AfterSuffix(rows: seq<Row>, id: int) returns (k: nat)
    requires Ascending(rows)
    ensures k <= |rows| && After(rows, id) == rows[k..]
    ensures forall i | 0 <= i < k :: rows[i].id <= id
    ensures k < |rows| ==> rows[k].id > id
  {
    k := 0;
    if rows != [] {
      if rows[0].id > id {
        AfterNone(rows[1..], id);
      } else {
        k := AfterSuffix(rows[1..], id);
        k := k + 1;
      }
    }
  }

  lemma SameSuffix(rows: seq<Row>, id: int, k: nat)
    requires Ascending(rows) && k <= |rows|
    requires forall i | 0 <= i < k :: rows[i].id <= id
    requires k < |rows| ==> rows[k].id > id
    ensures After(rows, id) == rows[k..]
  {
    var j := AfterSuffix(rows, id);
  }

  lemma {:induction false} TakenInPages(t: Totals, a: seq<Row>, b: seq<Row>, place: Grouping)
    ensures TakenAll(t, a + b, place) == TakenAll(TakenAll(t, a, place), b, place)
    decreases |a|
  {
    if a == [] {
      assert a + b == b;
    } else {
      assert (a + b)[1..] == a[1..] + b;
      TakenInPages(Taken(t, a[0], place), a[1..], b, place);
    }
  }

  /** Asking for what comes after a page gives the rest. */
  lemma AfterPage(live: seq<Row>, lastId: int, limit: nat)
    requires Ascending(live) && 0 < limit <= |After(live, lastId)|
    ensures After(live, After(live, lastId)[limit - 1].id) == After(live, lastId)[limit..]
  {
    var k := AfterSuffix(live, lastId);
    assert live[k..][limit - 1] == live[k + limit - 1];
    SameSuffix(live, live[k + limit - 1].id, k + limit);
    assert live[k..][limit..] == live[k + limit..];
  }

  /** One page more: either there is less left to do, or nothing. */
  lemma PageStep(live: seq<Row>, rows: seq<Row>, page: seq<Row>, lastId: int, limit: nat, t: Totals, place: Grouping)
    requires Ascending(live) && limit > 0 && rows == After(live, lastId)
    requires page == if |rows| <= limit then rows else rows[..limit]
    ensures |page| < limit ==> page == rows
    ensures |page| >= limit ==> Continues(live, rows, page, t, place)
  {
    if |page| >= limit {
      AfterPage(live, lastId, limit);
      FullPage(rows, limit, t, place);
    }
  }

  /** What comes after the page is the rest of the rows. */
  ghost predicate Continues(live: seq<Row>, rows: seq<Row>, page: seq<Row>, t: Totals, place: Grouping) {
    && page != []
    && |After(live, page[|page| - 1].id)| < |rows|
    && TakenAll(t, rows, place) == TakenAll(TakenAll(t, page, place), After(live, page[|page| - 1].id), place)
  }

  lemma FullPage(rows: seq<Row>, limit: nat, t: Totals, place: Grouping)
    requires 0 < limit <= |rows|
    ensures (if |rows| <= limit then rows else rows[..limit]) == rows[..limit]
    ensures rows[..limit][limit - 1] == rows[limit - 1]
    ensures TakenAll(t, rows, place) == TakenAll(TakenAll(t, rows[..limit], place), rows[limit..], place)
  {
    assert rows == rows[..limit] + rows[limit..];
    TakenInPages(t, rows[..limit], rows[limit..], place);
  }
}
