/**
 Which group a path is in, by the parts it is made of; and so which files the index puts
 together.
 */
module GroupFolders {
  import opened Results
  import opened Groups
  import opened GroupsLaws
  import opened GroupPaths

  // ----- Letters -----

  const UPPER := "ABCDEFGHIJKLMNOPQRSTUVWXYZ"
  const LOWER := "abcdefghijklmnopqrstuvwxyz"

  /** Only the letters A to Z change, each to its small letter. */
  lemma LowerLetters(c: char, i: nat)
    requires i < 26
    ensures AsciiLower(UPPER[i]) == LOWER[i]
    ensures c !in UPPER ==> AsciiLower(c) == c
  {
    assert 'A' <= c <= 'Z' ==> UPPER[c as int - 'A' as int] == c;
  }

  /** A text starts with another one if they have the same letters there, whatever their case. */
  lemma StartsIff(haystack: string, needle: string)
    ensures StartsIgnoringCase(haystack, needle)
       <==> |needle| <= |haystack| && forall i | 0 <= i < |needle| :: AsciiLower(haystack[i]) == AsciiLower(needle[i])
  {
    if |needle| <= |haystack| {
      var a, b := AsciiLowered(haystack[..|needle|]), AsciiLowered(needle);
      if forall i | 0 <= i < |needle| :: AsciiLower(haystack[i]) == AsciiLower(needle[i]) {
        assert a == b;
      }
      forall i | 0 <= i < |needle| && a == b ensures AsciiLower(haystack[i]) == AsciiLower(needle[i]) {
        assert a[i] == b[i];
      }
    }
  }

  // ----- Archives -----

  const EXTENSIONS := [".zip", ".7z", ".rar"]

  predicate HasExtension(path: string, ext: string) {
    |ext| <= |path| && AsciiLowered(path[|path| - |ext|..]) == ext
  }

  lemma SuffixLowered(path: string, ext: string)
    ensures EndsWith(AsciiLowered(path), ext) <==> HasExtension(path, ext)
  {
    if |ext| <= |path| {
      assert AsciiLowered(path)[|path| - |ext|..] == AsciiLowered(path[|path| - |ext|..]);
    }
  }

  /** An archive file is one whose name ends in one of the extensions, whatever the case. */
  lemma ArchiveFileIff(path: string)
    ensures IsArchiveFile(path) <==> exists ext <- EXTENSIONS :: HasExtension(path, ext)
  {
    SuffixLowered(path, ".zip");
    SuffixLowered(path, ".7z");
    SuffixLowered(path, ".rar");
  }

  /** The extension with the mark of a member after it first occurs here. */
  ghost predicate FirstMark(path: string, ext: string, k: nat) {
    Occurs(path, ext + "!", k) && forall i: nat | i < k :: !Occurs(path, ext + "!", i)
  }

  lemma Marks(ext: string)
    ensures ext + "!" in BOUNDARIES <==> ext in EXTENSIONS
  {
    var zip, sevenZip, rar := ".zip!", ".7z!", ".rar!";
    assert zip[..4] == ".zip" && sevenZip[..3] == ".7z" && rar[..4] == ".rar";
    assert (ext + "!")[..|ext|] == ext;
    assert ".zip" + "!" == zip && ".7z" + "!" == sevenZip && ".rar" + "!" == rar;
  }

  lemma MarkOf(boundary: string)
    requires boundary in BOUNDARIES
    ensures boundary != [] && boundary == boundary[..|boundary| - 1] + "!" && boundary[..|boundary| - 1] in EXTENSIONS
  {
    Boundaries();
    var zip, sevenZip, rar := ".zip!", ".7z!", ".rar!";
    assert zip[4] == '!' && sevenZip[3] == '!' && rar[4] == '!';
  }

  lemma MemberOfIff(path: string, ext: string)
    requires ext != []
    ensures IsMemberOf(path, ext + "!") <==> exists k: nat :: FirstMark(path, ext, k) && 0 < k < |path| - |ext| - 1
  {
    FindsFirst(path, ext + "!");
    var at := FindIgnoringCase(path, ext + "!");
    if k: nat :| FirstMark(path, ext, k) && 0 < k < |path| - |ext| - 1 {
      assert at == Some(k);
    }
    if at.Some? {
      assert FirstMark(path, ext, at.value);
    }
  }

  /** A member's path has such a mark, neither at its beginning nor at its end. */
  lemma MemberIff(path: string)
    ensures IsArchiveMember(path)
       <==> exists ext, k: nat :: ext in EXTENSIONS && FirstMark(path, ext, k) && 0 < k < |path| - |ext| - 1
  {
    if ext, k: nat :| ext in EXTENSIONS && FirstMark(path, ext, k) && 0 < k < |path| - |ext| - 1 {
      Marks(ext);
      MemberOfIff(path, ext);
      assert path != [];
    }
    if IsArchiveMember(path) {
      var b :| b in BOUNDARIES && IsMemberOf(path, b);
      MarkOf(b);
      MemberOfIff(path, b[..|b| - 1]);
    }
  }

  /** A member is in the group of the archive that ends at the first mark of all. */
  lemma MemberGroup(path: string, ext: string, k: nat, lower: Lower)
    requires ext in EXTENSIONS && Occurs(path, ext + "!", k) && 0 < k < |path| - |ext| - 1
    requires forall e, i: nat | e in EXTENSIONS && i < k :: !Occurs(path, e + "!", i)
    ensures GroupOf(path, lower) == Group(Archive, lower(path[..k + |ext|]))
  {
    var boundaries := BOUNDARIES;
    assert FirstMark(path, ext, k);
    MemberIff(path);
    Marks(ext);
    var boundary := FirstEndMeans(path, boundaries);
    assert Occurs(path, ext + "!", k);
    var at := FirstEnd(path, boundaries).value.0;
    MarkOf(boundary);
    assert at == k;
    SameMark(path, k, ext, boundary[..|boundary| - 1]);
  }

  /** No two of the marks occur in one place. */
  lemma SameMark(path: string, k: nat, a: string, b: string)
    requires a in EXTENSIONS && b in EXTENSIONS && Occurs(path, a + "!", k) && Occurs(path, b + "!", k)
    ensures a == b
  {
    var c := path[k..][1];
    StartsIff(path[k..], a + "!");
    StartsIff(path[k..], b + "!");
    assert AsciiLower(c) == AsciiLower(a[1]) == AsciiLower(b[1]);
    assert ".zip"[1] == 'z' && ".7z"[1] == '7' && ".rar"[1] == 'r';
  }

  /** An archive file that is no member is a group of its own. */
  lemma ArchiveGroup(path: string, lower: Lower)
    requires IsArchiveFile(path) && !IsArchiveMember(path)
    ensures GroupOf(path, lower) == Group(Archive, lower(path))
  {
  }

  // ----- Folders -----

  predicate IsSeparator(c: char) {
    c == '/' || c == '\\'
  }

  predicate NoSeparator(s: string) {
    forall c <- s :: !IsSeparator(c)
  }

  /** A file that is neither an archive nor a member of one. */
  predicate Ordinary(path: string) {
    !IsArchiveMember(path) && !IsArchiveFile(path)
  }

  lemma {:induction false} LastSlashAt(s: string, k: nat)
    requires k < |s| && s[k] == '/' && forall i | k < i < |s| :: s[i] != '/'
    ensures LastSlash(s) == Some(k)
  {
    if k < |s| - 1 {
      LastSlashAt(s[..|s| - 1], k);
    }
  }

  lemma {:induction false} NoSlash(s: string)
    requires '/' !in s
    ensures LastSlash(s) == None
  {
    if s != [] {
      NoSlash(s[..|s| - 1]);
    }
  }

  /** A file in a directory is in the group of that directory, with either separator. */
  lemma InFolder(dir: string, separator: char, name: string, lower: Lower)
    requires dir != [] && IsSeparator(separator) && NoSeparator(name) && Ordinary(dir + [separator] + name)
    ensures GroupOf(dir + [separator] + name, lower) == Group(Folder, lower(WithSlashes(dir)))
  {
    var path := dir + [separator] + name;
    var norm := WithSlashes(path);
    forall i | |dir| < i < |norm| ensures norm[i] != '/' {
      assert path[i] == name[i - |dir| - 1] && path[i] in name;
    }
    LastSlashAt(norm, |dir|);
    assert norm[..|dir|] == WithSlashes(dir);
  }

  /** A file without a directory, or in the root, is in the group of the current one. */
  lemma InNoFolder(path: string, lower: Lower)
    requires Ordinary(path) && (NoSeparator(path) || (path != [] && IsSeparator(path[0]) && NoSeparator(path[1..])))
    ensures GroupOf(path, lower) == Group(Folder, ".")
  {
    var norm := WithSlashes(path);
    if NoSeparator(path) {
      forall i | 0 <= i < |norm| ensures norm[i] != '/' {
        assert path[i] in path;
      }
      NoSlash(norm);
    } else {
      forall i | 0 < i < |norm| ensures norm[i] != '/' {
        assert path[i] == path[1..][i - 1] && path[i] in path[1..];
      }
      LastSlashAt(norm, 0);
    }
  }

  /** Every path is one of these. */
  lemma {:induction false} Directory(path: string) returns (dir: string, separator: char, name: string)
    ensures NoSeparator(path) ||
            (IsSeparator(separator) && NoSeparator(name) && path == dir + [separator] + name)
  {
    dir, separator, name := path, '/', [];
    while dir != [] && !IsSeparator(dir[|dir| - 1])
      invariant path == dir + name && NoSeparator(name)
      decreases |dir|
    {
      name := [dir[|dir| - 1]] + name;
      dir := dir[..|dir| - 1];
    }
    if dir != [] {
      separator := dir[|dir| - 1];
      dir := dir[..|dir| - 1];
    }
  }

  // ----- The folders of the index -----

  /** A live file in a directory. */
  predicate LiesIn(row: Row, table: seq<Row>, dir: string, separator: char, name: string) {
    && row in table && !row.deleted && PathOf(row) == dir + [separator] + name
    && dir != [] && IsSeparator(separator) && NoSeparator(name) && Ordinary(PathOf(row))
  }

  /** Two files in one directory are in one entry, the one of that directory. */
  lemma FolderEntry(table: seq<Row>, lower: Lower, dir: string, a: Row, s: char, x: string, b: Row, t: char, y: string)
    requires IsTable(table) && a != b && LiesIn(a, table, dir, s, x) && LiesIn(b, table, dir, t, y)
    ensures var (folders, name) := (Built(table, ByContainer(lower)).folders, lower(WithSlashes(dir)));
            name in folders && a.id in folders[name].ids && b.id in folders[name].ids
  {
    var place, g := ByContainer(lower), Group(Folder, lower(WithSlashes(dir)));
    InFolder(dir, s, x, lower);
    InFolder(dir, t, y, lower);
    var rows := RowsIn(Live(table), g, place);
    EachInOneGroup(table, place, a, g);
    EachInOneGroup(table, place, b, g);
    TwoRows(rows, a, b);
    IndexMeans(table, place, g);
  }

  lemma TwoRows(rows: seq<Row>, a: Row, b: Row)
    requires a in rows && b in rows && a != b
    ensures |rows| >= 2
  {
  }

  /** Files whose directories have different names are in no entry together. */
  lemma FoldersApart(table: seq<Row>, lower: Lower, dir: string, a: Row, s: char, x: string,
                     other: string, b: Row, t: char, y: string, name: string)
    requires IsTable(table) && LiesIn(a, table, dir, s, x) && LiesIn(b, table, other, t, y)
    requires lower(WithSlashes(dir)) != lower(WithSlashes(other))
    ensures var folders := Built(table, ByContainer(lower)).folders;
            name in folders ==> !(a.id in folders[name].ids && b.id in folders[name].ids)
  {
    var place, g := ByContainer(lower), Group(Folder, name);
    InFolder(dir, s, x, lower);
    InFolder(other, t, y, lower);
    EachInOneGroup(table, place, a, g);
    EachInOneGroup(table, place, b, g);
    IndexMeans(table, place, g);
  }
}
