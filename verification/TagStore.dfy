/**
 The tables of tags and of the tags of files, and how an import replaces the tags that
 come from a file's metadata.
 */
module TagStore {
  import opened Results

  const META := "meta"

  /** Above this many ids, rows are cleared and written anew instead of being compared. */
  const BIND_LIMIT := 900

  datatype Tag = Tag(namespace: Option<string>, tag: string, firstSeen: Option<int>)

  datatype FileTag = FileTag(weight: real, source: string)

  /** A tag of a file, by file id and tag id. */
  type Key = (int, int)

  type FileTags = map<Key, FileTag>

  type Tags = map<int, Tag>

  /** A row to be written. */
  datatype Row = Row(fileId: int, tagId: int, weight: real, source: string)

  datatype Parsed = Parsed(namespace: Option<string>, tag: string, weight: real)

  // ----- One row -----

  /** On conflict the weight is taken over; a source is only ever replaced by the user. */
  function Upserted(t: FileTags, row: Row): FileTags {
    var key := (row.fileId, row.tagId);
    t[key := FileTag(row.weight, if key in t && row.source != "user" then t[key].source else row.source)]
  }

  function UpsertedAll(t: FileTags, rows: seq<Row>): FileTags
    decreases |rows|
  {
    if rows == [] then t else UpsertedAll(Upserted(t, rows[0]), rows[1..])
  }

  /** The rows of a file and a source, but for the tags in `keep`. */
  function Cleared(t: FileTags, fileId: int, source: string, keep: set<int>): FileTags {
    map key | key in t && !(key.0 == fileId && t[key].source == source && key.1 !in keep) :: t[key]
  }

  function Earlier(known: Option<int>, seen: Option<int>): Option<int> {
    if seen.None? then known
    else if known.None? || seen.value < known.value then seen
    else known
  }

  // ----- Rows by tag id -----

  /** The weights of the rows by tag id; a later row takes the place of an earlier one. */
  function Weights(rows: seq<Row>): map<int, real> {
    if rows == [] then map[]
    else
      var last := rows[|rows| - 1];
      Weights(rows[..|rows| - 1])[last.tagId := last.weight]
  }

  /** The weights that the metadata has given the tags of a file. */
  function MetaWeights(t: FileTags, fileId: int): map<int, real> {
    map key | key in t && key.0 == fileId && t[key].source == META :: key.1 := t[key].weight
  }

  /** The table after the tags of one file have been replaced: one row said at a time. */
  function Final(t: FileTags, fileId: int, weights: map<int, real>, key: Key): Option<FileTag> {
    if key.0 != fileId then Get(t, key)
    else if key.1 in weights then Some(FileTag(weights[key.1], if key in t then t[key].source else META))
    else if key in t && t[key].source == META then None
    else Get(t, key)
  }

  ghost predicate IsFinal(t: FileTags, fileId: int, weights: map<int, real>, t': FileTags) {
    forall key: Key :: Get(t', key) == Final(t, fileId, weights, key)
  }

  predicate MetaRows(rows: seq<Row>, fileId: int) {
    forall i | 0 <= i < |rows| :: rows[i].fileId == fileId && rows[i].source == META
  }

  class Store {
    var tags: Tags
    var nextTag: int
    var fileTags: FileTags

    ghost predicate Valid()
      reads this
    {
      (forall id <- tags :: id < nextTag) && Unique(tags)
    }

    constructor ()
      ensures Valid() && tags == map[] && fileTags == map[]
    {
      tags, nextTag, fileTags := map[], 1, map[];
    }

    /** The upsert: it only touches a row that it would change. */
    method InsertFileTag(fileId: int, tagId: int, weight: real, source: string)
      modifies this`fileTags
      ensures fileTags == Upserted(old(fileTags), Row(fileId, tagId, weight, source))
    {
      var key := (fileId, tagId);
      if key !in fileTags {
        fileTags := fileTags[key := FileTag(weight, source)];
      } else {
        var kept := if source == "user" then "user" else fileTags[key].source;
        if fileTags[key].weight != weight || kept != fileTags[key].source {
          fileTags := fileTags[key := FileTag(weight, kept)];
        }
      }
    }

    method ClearTagsForFile(fileId: int, source: string)
      modifies this`fileTags
      ensures fileTags == Cleared(old(fileTags), fileId, source, {})
    {
      fileTags := map key | key in fileTags && !(key.0 == fileId && fileTags[key].source == source) :: fileTags[key];
    }

    method DeleteNotIn(fileId: int, source: string, ids: set<int>)
      modifies this`fileTags
      ensures fileTags == Cleared(old(fileTags), fileId, source, ids)
    {
      fileTags := map key | key in fileTags && !(key.0 == fileId && fileTags[key].source == source && key.1 !in ids)
        :: fileTags[key];
    }

    method WriteRows(rows: seq<Row>)
      modifies this`fileTags
      ensures fileTags == UpsertedAll(old(fileTags), rows)
    {
      ghost var goal := UpsertedAll(fileTags, rows);
      for i := 0 to |rows|
        invariant UpsertedAll(fileTags, rows[i..]) == goal
      {
        assert rows[i..][1..] == rows[i + 1..];
        InsertFileTag(rows[i].fileId, rows[i].tagId, rows[i].weight, rows[i].source);
      }
    }

    /** Every branch leaves the same table. */
    method ReplaceMetaTagsIfChanged(fileId: int, rows: seq<Row>)
      requires MetaRows(rows, fileId)
      modifies this`fileTags
      ensures IsFinal(old(fileTags), fileId, Weights(rows), fileTags)
    {
      ghost var before := fileTags;
      var incoming := Weights(rows);
      if MetaWeights(fileTags, fileId) == incoming {
        UnchangedIsFinal(before, fileId, incoming);
        return;
      }
      if rows == [] {
        ClearTagsForFile(fileId, META);
        return;
      }
      if |incoming| <= BIND_LIMIT {
        DeleteNotIn(fileId, META, incoming.Keys);
      } else {
        ClearTagsForFile(fileId, META);
      }
      ghost var cleared := fileTags;
      WriteRows(rows);
      WrittenIsFinal(before, fileId, rows, cleared);
    }

    /** The id of a tag, which is made if there is none. */
    method UpsertTag(namespace: Option<string>, tag: string, firstSeen: Option<int>) returns (id: int)
      requires Valid()
      modifies this`tags, this`nextTag
      ensures Valid() && nextTag >= old(nextTag)
      ensures id in tags && tags[id].namespace == namespace && tags[id].tag == tag
      ensures tags == old(tags)[id := tags[id]]
      ensures id in old(tags) ==> tags[id] == old(tags)[id].(firstSeen := Earlier(old(tags)[id].firstSeen, firstSeen))
      ensures id !in old(tags) ==> tags[id].firstSeen == firstSeen && NoId(old(tags), namespace, tag)
    {
      var existing := FindTag(namespace, tag);
      if existing.Some? {
        id := existing.value;
        if firstSeen.Some? {
          if tags[id].firstSeen.None? || firstSeen.value < tags[id].firstSeen.value {
            tags := tags[id := tags[id].(firstSeen := firstSeen)];
          }
        }
        return;
      }
      id := nextTag;
      tags := tags[id := Tag(namespace, tag, firstSeen)];
      nextTag := nextTag + 1;
    }

    method FindTag(namespace: Option<string>, tag: string) returns (r: Option<int>)
      ensures r.Some? ==> r.value in tags && Named(tags[r.value], namespace, tag)
      ensures r.None? ==> NoId(tags, namespace, tag)
    {
      var ids := tags.Keys;
      while ids != {}
        invariant ids <= tags.Keys
        invariant forall id <- tags :: id in ids || !Named(tags[id], namespace, tag)
        decreases |ids|
      {
        Inhabited(ids);
        var id :| id in ids;
        if Named(tags[id], namespace, tag) {
          return Some(id);
        }
        ids := ids - {id};
      }
      return None;
    }

    /** The rows of the parsed tags, by tag id. */
    method CollectRows(parsed: seq<Parsed>, mtime: int) returns (weights: map<int, real>)
      requires Valid()
      modifies this`tags, this`nextTag
      ensures Valid() && SameNames(old(tags), tags)
      ensures Collected(tags, parsed, weights)
      ensures forall id <- weights :: mtime != 0 ==> tags[id].firstSeen.Some? && tags[id].firstSeen.value <= mtime
    {
      weights := map[];
      var firstSeen := if mtime != 0 then Some(mtime) else None;
      for i := 0 to |parsed|
        invariant Valid() && SameNames(old(tags), tags)
        invariant Collected(tags, parsed[..i], weights)
        invariant forall id <- weights :: mtime != 0 ==> tags[id].firstSeen.Some? && tags[id].firstSeen.value <= mtime
      {
        ghost var before := tags;
        var id := UpsertTag(parsed[i].namespace, parsed[i].tag, firstSeen);
        CollectMore(before, tags, parsed[..i], parsed[i], weights, id);
        assert parsed[..i] + [parsed[i]] == parsed[..i + 1];
        weights := weights[id := parsed[i].weight];
      }
      assert parsed[..|parsed|] == parsed;
    }

    /** The rows in the order of their tag ids. */
    method BuildMetaRows(fileId: int, parsed: seq<Parsed>, mtime: int) returns (rows: seq<Row>)
      requires Valid()
      modifies this`tags, this`nextTag
      ensures Valid() && SameNames(old(tags), tags)
      ensures MetaRows(rows, fileId) && forall i, j | 0 <= i < j < |rows| :: rows[i].tagId < rows[j].tagId
      ensures Collected(tags, parsed, Weights(rows))
    {
      var weights := CollectRows(parsed, mtime);
      rows := InOrder(fileId, weights);
    }
  }

  /** The rows of the weights whose ids are not among `ids`, in order, and all before `ids`. */
  ghost predicate RowsUpTo(rows: seq<Row>, fileId: int, weights: map<int, real>, ids: set<int>) {
    && MetaRows(rows, fileId)
    && (forall i, j | 0 <= i < j < |rows| :: rows[i].tagId < rows[j].tagId)
    && (forall i | 0 <= i < |rows| :: forall id <- ids :: rows[i].tagId < id)
    && Weights(rows) == map id | id in weights && id !in ids :: weights[id]
  }

  lemma NextRow(rows: seq<Row>, fileId: int, weights: map<int, real>, ids: set<int>, id: int)
    requires RowsUpTo(rows, fileId, weights, ids) && ids <= weights.Keys
    requires id in ids && forall other <- ids :: id <= other
    ensures RowsUpTo(rows + [Row(fileId, id, weights[id], META)], fileId, weights, ids - {id})
  {
    var more := rows + [Row(fileId, id, weights[id], META)];
    assert more[..|more| - 1] == rows;
    assert Weights(more) == Weights(rows)[id := weights[id]];
  }

  /** The rows of a map, in the order of its keys. */
  method InOrder(fileId: int, weights: map<int, real>) returns (rows: seq<Row>)
    ensures MetaRows(rows, fileId) && forall i, j | 0 <= i < j < |rows| :: rows[i].tagId < rows[j].tagId
    ensures Weights(rows) == weights
  {
    rows := [];
    var ids := weights.Keys;
    while ids != {}
      invariant ids <= weights.Keys && RowsUpTo(rows, fileId, weights, ids)
      decreases |ids|
    {
      var id := Smallest(ids);
      NextRow(rows, fileId, weights, ids, id);
      rows := rows + [Row(fileId, id, weights[id], META)];
      ids := ids - {id};
    }
  }

  lemma Inhabited(ids: set<int>)
    requires ids != {}
    ensures exists id: int :: id in ids
  {
    if forall id: int :: id !in ids {
      assert false;
    }
  }

  method Smallest(ids: set<int>) returns (least: int)
    requires ids != {}
    ensures least in ids && forall id <- ids :: least <= id
  {
    Inhabited(ids);
    least :| least in ids;
    var rest := ids - {least};
    while rest != {}
      invariant rest <= ids && least in ids && forall id <- ids :: id in rest || least <= id
      decreases |rest|
    {
      Inhabited(rest);
      var id :| id in rest;
      rest := rest - {id};
      if id < least {
        least := id;
      }
    }
  }

  // ----- Names of tags -----

  predicate Named(t: Tag, namespace: Option<string>, tag: string) {
    t.namespace == namespace && t.tag == tag
  }

  predicate NoId(tags: Tags, namespace: Option<string>, tag: string) {
    forall id <- tags :: !Named(tags[id], namespace, tag)
  }

  /** No two tags have the same namespace and name. */
  predicate Unique(tags: Tags) {
    forall a, b | a in tags && b in tags && Named(tags[b], tags[a].namespace, tags[a].tag) :: a == b
  }

  /** Tags are never taken away or renamed. */
  ghost predicate SameNames(before: Tags, after: Tags) {
    forall id <- before :: id in after && Named(after[id], before[id].namespace, before[id].tag)
  }

  /** The weight of the last of the parsed tags with this name. */
  function LastWeight(parsed: seq<Parsed>, namespace: Option<string>, tag: string): Option<real> {
    if parsed == [] then None
    else
      var last := parsed[|parsed| - 1];
      if last.namespace == namespace && last.tag == tag then Some(last.weight)
      else LastWeight(parsed[..|parsed| - 1], namespace, tag)
  }

  /** Each parsed name has one id, with the weight it was last given; there are no others. */
  ghost predicate Collected(tags: Tags, parsed: seq<Parsed>, weights: map<int, real>) {
    && weights.Keys <= tags.Keys
    && (forall id <- tags :: Get(weights, id) == LastWeight(parsed, tags[id].namespace, tags[id].tag))
    && (forall i | 0 <= i < |parsed| :: !NoId(tags, parsed[i].namespace, parsed[i].tag))
  }

  /** The names that were parsed before still have ids, and the new one has its own. */
  lemma NamesMore(before: Tags, after: Tags, parsed: seq<Parsed>, p: Parsed, id: int)
    requires forall i | 0 <= i < |parsed| :: !NoId(before, parsed[i].namespace, parsed[i].tag)
    requires SameNames(before, after) && id in after && Named(after[id], p.namespace, p.tag)
    ensures forall j | 0 <= j < |parsed + [p]| :: !NoId(after, (parsed + [p])[j].namespace, (parsed + [p])[j].tag)
  {
    var more := parsed + [p];
    forall j | 0 <= j < |more| ensures !NoId(after, more[j].namespace, more[j].tag) {
      if j < |parsed| {
        assert more[j] == parsed[j];
        var other :| other in before && Named(before[other], parsed[j].namespace, parsed[j].tag);
        assert other in after && Named(after[other], parsed[j].namespace, parsed[j].tag);
      } else {
        assert id in after && Named(after[id], p.namespace, p.tag);
      }
    }
  }

  /** The weight of a tag after one more has been parsed. */
  lemma WeightMore(parsed: seq<Parsed>, p: Parsed, tag: Tag)
    ensures LastWeight(parsed + [p], tag.namespace, tag.tag)
         == if Named(tag, p.namespace, p.tag) then Some(p.weight) else LastWeight(parsed, tag.namespace, tag.tag)
  {
    assert (parsed + [p])[..|parsed|] == parsed;
  }

  lemma WeightsMore(before: Tags, after: Tags, parsed: seq<Parsed>, p: Parsed, weights: map<int, real>, id: int,
                    other: int)
    requires Collected(before, parsed, weights) && SameNames(before, after)
    requires id in after && Named(after[id], p.namespace, p.tag) && Unique(after)
    requires after == before[id := after[id]] && other in after
    ensures Get(weights[id := p.weight], other) == LastWeight(parsed + [p], after[other].namespace, after[other].tag)
  {
    WeightMore(parsed, p, after[other]);
    if other != id {
      assert other in before && !Named(after[other], p.namespace, p.tag);
    }
  }

  lemma CollectMore(before: Tags, after: Tags, parsed: seq<Parsed>, p: Parsed, weights: map<int, real>, id: int)
    requires Collected(before, parsed, weights) && SameNames(before, after)
    requires id in after && Named(after[id], p.namespace, p.tag) && Unique(after)
    requires after == before[id := after[id]]
    ensures Collected(after, parsed + [p], weights[id := p.weight])
  {
    NamesMore(before, after, parsed, p, id);
    forall other <- after
      ensures Get(weights[id := p.weight], other) == LastWeight(parsed + [p], after[other].namespace, after[other].tag)
    {
      WeightsMore(before, after, parsed, p, weights, id, other);
    }
  }

  // ----- All branches lead to the same table -----

  /** When the metadata's weights are the incoming ones, nothing is to be done. */
  lemma UnchangedIsFinal(t: FileTags, fileId: int, weights: map<int, real>)
    requires MetaWeights(t, fileId) == weights
    ensures IsFinal(t, fileId, weights, t)
  {
    forall key: Key ensures Get(t, key) == Final(t, fileId, weights, key) {
      assert key.1 in MetaWeights(t, fileId) <==> (fileId, key.1) in t && t[(fileId, key.1)].source == META;
    }
  }

  /** What the upserts of a file's rows leave, row by row. */
  lemma {:induction false} UpsertedRows(t: FileTags, fileId: int, rows: seq<Row>, key: Key)
    requires MetaRows(rows, fileId)
    ensures Get(UpsertedAll(t, rows), key)
         == if key.0 == fileId && key.1 in Weights(rows) then
              Some(FileTag(Weights(rows)[key.1], if key in t then t[key].source else META))
            else Get(t, key)
    decreases |rows|
  {
    if rows != [] {
      var front, last := rows[..|rows| - 1], rows[|rows| - 1];
      UpsertedRows(t, fileId, front, key);
      UpsertedMore(t, front, last);
      assert rows == front + [last];
    }
  }

  lemma {:induction false} UpsertedMore(t: FileTags, rows: seq<Row>, row: Row)
    ensures UpsertedAll(t, rows + [row]) == Upserted(UpsertedAll(t, rows), row)
    decreases |rows|
  {
    if rows == [] {
      assert [] + [row] == [row] && [row][1..] == [];
    } else {
      assert (rows + [row])[1..] == rows[1..] + [row];
      UpsertedMore(Upserted(t, rows[0]), rows[1..], row);
    }
  }

  /** Clearing only the stale rows and clearing all rows come to the same. */
  lemma WrittenIsFinal(t: FileTags, fileId: int, rows: seq<Row>, cleared: FileTags)
    requires MetaRows(rows, fileId)
    requires cleared == Cleared(t, fileId, META, Weights(rows).Keys) || cleared == Cleared(t, fileId, META, {})
    ensures IsFinal(t, fileId, Weights(rows), UpsertedAll(cleared, rows))
  {
    forall key: Key ensures Get(UpsertedAll(cleared, rows), key) == Final(t, fileId, Weights(rows), key) {
      UpsertedRows(cleared, fileId, rows, key);
    }
  }

  // ----- What the final table is -----

  /** There is one final table. */
  lemma FinalUnique(t: FileTags, fileId: int, weights: map<int, real>, a: FileTags, b: FileTags)
    requires IsFinal(t, fileId, weights, a) && IsFinal(t, fileId, weights, b)
    ensures a == b
  {
    forall key: Key ensures Get(a, key) == Get(b, key) {
      assert Get(a, key) == Final(t, fileId, weights, key);
    }
    assert forall key: Key :: key in a <==> Get(a, key).Some?;
    assert a.Keys == b.Keys;
  }

  /** Replacing the tags again with the same rows changes nothing. */
  lemma FinalTwice(t: FileTags, fileId: int, weights: map<int, real>, t': FileTags, t'': FileTags)
    requires IsFinal(t, fileId, weights, t') && IsFinal(t', fileId, weights, t'')
    ensures t'' == t'
  {
    forall key: Key ensures Get(t', key) == Final(t', fileId, weights, key) {
      assert Get(t', key) == Final(t, fileId, weights, key);
    }
    FinalUnique(t', fileId, weights, t'', t');
  }

  /**
   Stale rows of the metadata are gone, incoming weights are set, no row of another file or
   another source is lost or changes its source, and none changes that is not incoming.
   */
  lemma FinalMeans(t: FileTags, fileId: int, weights: map<int, real>, t': FileTags)
    requires IsFinal(t, fileId, weights, t')
    ensures forall key <- t' | key.0 == fileId && t'[key].source == META :: key.1 in weights
    ensures forall id <- weights :: (fileId, id) in t' && t'[(fileId, id)].weight == weights[id]
    ensures forall key <- t | key.0 != fileId || t[key].source != META :: key in t' && t'[key].source == t[key].source
    ensures forall key <- t | key.0 != fileId || (t[key].source != META && key.1 !in weights) :: t'[key] == t[key]
    ensures forall key <- t' | key !in t :: key.0 == fileId && key.1 in weights && t'[key].source == META
  {
    forall key: Key ensures Get(t', key) == Final(t, fileId, weights, key) {
    }
    forall id <- weights ensures (fileId, id) in t' && t'[(fileId, id)].weight == weights[id] {
      assert Get(t', (fileId, id)) == Final(t, fileId, weights, (fileId, id));
    }
    forall key <- t | key.0 != fileId || t[key].source != META
      ensures key in t' && t'[key].source == t[key].source
      ensures key.0 != fileId || key.1 !in weights ==> t'[key] == t[key]
    {
      assert Get(t', key) == Final(t, fileId, weights, key);
    }
    forall key <- t'
      ensures key.0 == fileId && t'[key].source == META ==> key.1 in weights
      ensures key !in t ==> key.0 == fileId && key.1 in weights && t'[key].source == META
    {
      assert Get(t', key) == Final(t, fileId, weights, key);
    }
  }

  /** An import of the same parsed tags gives the metadata's rows the weights last parsed. */
  lemma ImportedWeights(t: FileTags, tags: Tags, fileId: int, parsed: seq<Parsed>, weights: map<int, real>,
                        t': FileTags)
    requires Collected(tags, parsed, weights) && IsFinal(t, fileId, weights, t')
    ensures forall id <- tags :: (fileId, id) in t' && t'[(fileId, id)].source == META ==>
              LastWeight(parsed, tags[id].namespace, tags[id].tag) == Some(t'[(fileId, id)].weight)
    ensures forall id <- tags :: LastWeight(parsed, tags[id].namespace, tags[id].tag).Some? ==> (fileId, id) in t'
  {
    FinalMeans(t, fileId, weights, t');
    forall id <- tags ensures Get(weights, id) == LastWeight(parsed, tags[id].namespace, tags[id].tag) {
    }
  }

  // ----- What many upserts come to -----

  /** The rows for one key, in order. */
  function RowsFor(rows: seq<Row>, key: Key): seq<Row> {
    if rows == [] then []
    else (if (rows[0].fileId, rows[0].tagId) == key then [rows[0]] else []) + RowsFor(rows[1..], key)
  }

  /** The source of a row: the user's once the user has written it, and otherwise the first one. */
  predicate SourceIs(known: Option<FileTag>, rows: seq<Row>, source: string) {
    if exists row <- rows :: row.source == "user" then source == "user"
    else match known
         case Some(row) => source == row.source
         case None => rows != [] && source == rows[0].source
  }

  function WeightAfter(known: real, rows: seq<Row>): real {
    if rows == [] then known else rows[|rows| - 1].weight
  }

  /** What a row is once these have been written for its key. */
  predicate RowIs(known: Option<FileTag>, rows: seq<Row>, now: Option<FileTag>) {
    match now
    case None => known.None? && rows == []
    case Some(row) =>
      && (known.Some? || rows != []) && SourceIs(known, rows, row.source)
      && row.weight == WeightAfter(if known.Some? then known.value.weight else 0.0, rows)
  }

  lemma RowIsMore(known: Option<FileTag>, first: Row, rest: seq<Row>, now: Option<FileTag>)
    requires RowIs(Some(FileTag(first.weight, if known.Some? && first.source != "user" then known.value.source
                                              else first.source)), rest, now)
    ensures RowIs(known, [first] + rest, now)
  {
    assert forall row :: row in [first] + rest <==> row == first || row in rest;
    assert rest != [] ==> ([first] + rest)[|rest|] == rest[|rest| - 1];
  }

  /**
   However many rows are written for a key, its weight is the last one, and no import takes a
   source from the user.
   */
  lemma {:induction false} UpsertedMean(t: FileTags, rows: seq<Row>, key: Key)
    ensures RowIs(Get(t, key), RowsFor(rows, key), Get(UpsertedAll(t, rows), key))
    decreases |rows|
  {
    if rows != [] {
      var first, rest := rows[0], RowsFor(rows[1..], key);
      UpsertedMean(Upserted(t, first), rows[1..], key);
      if (first.fileId, first.tagId) == key {
        RowIsMore(Get(t, key), first, rest, Get(UpsertedAll(t, rows), key));
      } else {
        assert [] + rest == rest;
      }
    }
  }

  /** The times at which a tag is seen, taken in one after the other. */
  function SeenAt(known: Option<int>, times: seq<Option<int>>): Option<int>
    decreases |times|
  {
    if times == [] then known else SeenAt(Earlier(known, times[0]), times[1..])
  }

  /** What is kept is the earliest of the times that are known, if any is. */
  lemma {:induction false} SeenIsEarliest(known: Option<int>, times: seq<Option<int>>)
    ensures SeenAt(known, times) in [known] + times
    ensures forall time <- [known] + times ::
              time.Some? ==> SeenAt(known, times).Some? && SeenAt(known, times).value <= time.value
    decreases |times|
  {
    if times != [] {
      var next := Earlier(known, times[0]);
      SeenIsEarliest(next, times[1..]);
      assert times == [times[0]] + times[1..];
      assert next in [next] + times[1..];
    }
  }
}
