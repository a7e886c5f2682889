/** An archive and its members are put in the same group. */
module GroupPaths {
  import opened Results
  import opened Groups
  import opened GroupsLaws

  /** `needle` occurs at `i`, whatever the case of its letters. */
  predicate Occurs(path: string, needle: string, i: nat) {
    i <= |path| && StartsIgnoringCase(path[i..], needle)
  }

  lemma OccursInTail(path: string, needle: string, i: nat)
    requires i < |path|
    ensures Occurs(path[1..], needle, i) <==> Occurs(path, needle, i + 1)
  {
    assert path[1..][i..] == path[i + 1..];
  }

  lemma OccursFirst(path: string, needle: string)
    ensures Occurs(path, needle, 0) <==> StartsIgnoringCase(path, needle)
  {
    assert path[0..] == path;
  }

  lemma TooShort(path: string, needle: string)
    requires |path| < |needle|
    ensures forall i: nat :: !Occurs(path, needle, i)
  {
  }

  /** What is found is the first occurrence. */
  lemma {:induction false} FindsFirst(path: string, needle: string)
    requires needle != []
    ensures match FindIgnoringCase(path, needle)
            case None => forall i: nat :: !Occurs(path, needle, i)
            case Some(k) => Occurs(path, needle, k) && forall i: nat | i < k :: !Occurs(path, needle, i)
  {
    OccursFirst(path, needle);
    if |path| < |needle| {
      TooShort(path, needle);
    } else if !StartsIgnoringCase(path, needle) {
      FindsFirst(path[1..], needle);
      FoundInTail(path, needle, FindIgnoringCase(path[1..], needle));
    }
  }

  /** What is found in the tail is found one place further on. */
  lemma FoundInTail(path: string, needle: string, at: Option<nat>)
    requires path != [] && !Occurs(path, needle, 0) && (at.Some? ==> at.value < |path|)
    requires match at
             case None => forall i: nat :: !Occurs(path[1..], needle, i)
             case Some(k) => Occurs(path[1..], needle, k) && forall i: nat | i < k :: !Occurs(path[1..], needle, i)
    ensures match at
            case None => forall i: nat :: !Occurs(path, needle, i)
            case Some(k) => Occurs(path, needle, k + 1) && forall i: nat | i < k + 1 :: !Occurs(path, needle, i)
  {
    forall i: nat | Occurs(path, needle, i) ensures i > 0 && Occurs(path[1..], needle, i - 1) {
      if i > 0 {
        OccursInTail(path, needle, i - 1);
      }
    }
    if at.Some? {
      OccursInTail(path, needle, at.value);
    }
  }

  /** The first of the boundaries that occurs is where the archive's name ends. */
  ghost predicate FirstBoundary(path: string, boundaries: seq<string>, k: nat, boundary: string) {
    && boundary in boundaries && Occurs(path, boundary, k)
    && forall b, i: nat | b in boundaries && i < k :: !Occurs(path, b, i)
  }

  lemma {:induction false} FirstEndMeans(path: string, boundaries: seq<string>) returns (boundary: string)
    requires forall i | 0 <= i < |boundaries| :: boundaries[i] != []
    ensures match FirstEnd(path, boundaries)
            case None => forall b, i: nat | b in boundaries :: !Occurs(path, b, i)
            case Some((k, end)) =>
              FirstBoundary(path, boundaries, k, boundary) && end == k + |boundary| - 1
  {
    boundary := [];
    if boundaries != [] {
      assert boundaries == [boundaries[0]] + boundaries[1..];
      boundary := FirstEndMeans(path, boundaries[1..]);
      FindsFirst(path, boundaries[0]);
      var at := FindIgnoringCase(path, boundaries[0]);
      var rest := FirstEnd(path, boundaries[1..]);
      if at.Some? && !(rest.Some? && rest.value.0 < at.value) {
        boundary := boundaries[0];
      }
    }
  }

  lemma OccursInPart(path: string, end: nat, b: string, i: nat)
    requires end <= |path| && Occurs(path[..end], b, i)
    ensures Occurs(path, b, i)
  {
    assert path[..end][i..][..|b|] == path[i..][..|b|];
  }

  /** What comes before the first boundary has no boundary inside, if lengths differ by one at most. */
  lemma NoneBefore(path: string, boundaries: seq<string>, k: nat, boundary: string, b: string)
    requires boundary != [] && FirstBoundary(path, boundaries, k, boundary)
    requires b in boundaries && 0 < |b| && |boundary| <= |b| + 1
    ensures !IsMemberOf(path[..k + |boundary| - 1], b)
  {
    var part := path[..k + |boundary| - 1];
    FindsFirst(part, b);
    var at := FindIgnoringCase(part, b);
    if at.Some? && at.value + |b| < |part| {
      OccursInPart(path, |part|, b, at.value);
    }
  }

  lemma Boundaries()
    ensures forall b | b in BOUNDARIES :: 4 <= |b| <= 5 && AsciiLowered(b) == b
    ensures forall b | b in BOUNDARIES :: b[..|b| - 1] in [".zip", ".7z", ".rar"]
  {
    var zip, sevenZip, rar := ".zip!", ".7z!", ".rar!";
    assert zip[..4] == ".zip" && sevenZip[..3] == ".7z" && rar[..4] == ".rar";
    assert AsciiLowered(zip) == zip && AsciiLowered(sevenZip) == sevenZip && AsciiLowered(rar) == rar;
  }

  /** The archive's name ends in an archive's extension. */
  lemma EndsLikeArchive(path: string, k: nat, boundary: string)
    requires boundary in BOUNDARIES && Occurs(path, boundary, k)
    ensures IsArchiveFile(path[..k + |boundary| - 1])
  {
    Boundaries();
    var part := path[..k + |boundary| - 1];
    var lower, suffix := AsciiLowered(part), boundary[..|boundary| - 1];
    assert AsciiLowered(path[k..][..|boundary|]) == boundary;
    forall i | 0 <= i < |suffix| ensures lower[k + i] == suffix[i] {
      assert path[k..][..|boundary|][i] == path[k + i];
    }
    assert lower[|lower| - |suffix|..] == suffix;
    assert EndsWith(lower, suffix);
  }

  /** A member's path has a boundary. */
  lemma MemberHasBoundary(path: string, boundaries: seq<string>, b: string) returns (boundary: string)
    requires forall i | 0 <= i < |boundaries| :: boundaries[i] != []
    requires b in boundaries && IsMemberOf(path, b)
    ensures FirstEnd(path, boundaries).Some?
    ensures FirstBoundary(path, boundaries, FirstEnd(path, boundaries).value.0, boundary) && boundary != []
    ensures FirstEnd(path, boundaries).value.1 == FirstEnd(path, boundaries).value.0 + |boundary| - 1
  {
    boundary := FirstEndMeans(path, boundaries);
    FindsFirst(path, b);
    assert Occurs(path, b, FindIgnoringCase(path, b).value);
  }

  /** What ends at the first boundary is an archive file, and no member of an archive. */
  lemma EndedIsFile(path: string, k: nat, boundary: string, part: string)
    requires FirstBoundary(path, BOUNDARIES, k, boundary) && boundary != []
    requires part == path[..k + |boundary| - 1]
    ensures IsArchiveFile(part) && !IsArchiveMember(part)
  {
    EndsLikeArchive(path, k, boundary);
    Boundaries();
    var boundaries := BOUNDARIES;
    forall c <- boundaries ensures !IsMemberOf(part, c) {
      NoneBefore(path, boundaries, k, boundary, c);
    }
  }

  lemma PartIsFile(path: string)
    requires IsArchiveMember(path)
    ensures IsArchiveFile(ArchivePart(path)) && !IsArchiveMember(ArchivePart(path))
  {
    var boundaries := BOUNDARIES;
    var b :| b in boundaries && IsMemberOf(path, b);
    var boundary := MemberHasBoundary(path, boundaries, b);
    EndedIsFile(path, FirstEnd(path, boundaries).value.0, boundary, ArchivePart(path));
  }

  /** The archive that a member lies in is an archive file itself, and grouped with its members. */
  lemma ArchiveWithMembers(path: string, lower: Lower)
    requires IsArchiveMember(path)
    ensures IsArchiveFile(ArchivePart(path)) && GroupOf(ArchivePart(path), lower) == GroupOf(path, lower)
  {
    PartIsFile(path);
  }

  /** So in the index of a table, an archive and each of its members are in one entry. */
  lemma ArchiveInOneEntry(table: seq<Row>, lower: Lower, archive: Row, member: Row)
    requires IsTable(table) && archive in table && !archive.deleted && member in table && !member.deleted
    requires IsArchiveMember(PathOf(member)) && PathOf(archive) == ArchivePart(PathOf(member))
    ensures var (zips, name) := (Built(table, ByContainer(lower)).zips, GroupOf(PathOf(member), lower).name);
            name in zips && archive.id in zips[name].ids && member.id in zips[name].ids
  {
    var place := ByContainer(lower);
    var g := GroupOf(PathOf(member), lower);
    ArchiveWithMembers(PathOf(member), lower);
    EachInOneGroup(table, place, archive, g);
    EachInOneGroup(table, place, member, g);
    IndexMeans(table, place, g);
  }
}
