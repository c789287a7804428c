/**
 The tree scanner and the duplicate detector, which fiche interleaves: for every
 kept file of the walk, handle_file first compares the file's hash with the
 records already in the tree's hash list, then appends the file's own record.
 */
module Scanner {
  import opened Records
  import opened Hashing

  // ---------------------------------------------------------------------------
  // Ignore patterns

  /** A base name is ignored when -i was given and some pattern matches it. */
  predicate IsIgnored(cfg: Config, name: string)
  {
    cfg.ignore.Some? && exists k :: 0 <= k < |cfg.ignore.value| && cfg.matches(name, cfg.ignore.value[k])
  }

  /** is_file_ignored: a search over the patterns that returns at the first match. */
  method IsFileIgnored(cfg: Config, name: string) returns (ignored: bool)
    ensures cfg.ignore.None? ==> !ignored
    ensures cfg.ignore == Some([]) ==> !ignored
    ensures ignored <==> IsIgnored(cfg, name)
  {
    if cfg.ignore.Some? {
      var patterns := cfg.ignore.value;
      var k := 0;
      while k < |patterns|
        invariant 0 <= k <= |patterns|
        invariant forall i :: 0 <= i < k ==> !cfg.matches(name, patterns[i])
      {
        if cfg.matches(name, patterns[k]) {
          return true;
        }
        k := k + 1;
      }
    }
    return false;
  }

  // ---------------------------------------------------------------------------
  // Paths

  predicate IsSeparator(c: char) { c == '/' || c == '\\' }

  predicate EndsWithSeparator(root: string) { |root| > 0 && IsSeparator(root[|root| - 1]) }

  /**
   The path handed to handle_file: the walk root, then the file name, with a
   '/' in between unless the root already ends with '/' or '\'.
   */
  function JoinPath(root: string, name: string): (p: string)
    ensures |root| + |name| <= |p| <= |root| + |name| + 1
    ensures |p| == |root| + |name| <==> EndsWithSeparator(root)
    ensures p[..|root|] == root && p[|p| - |name|..] == name
    ensures |p| > |name| && IsSeparator(p[|p| - |name| - 1])
    ensures !EndsWithSeparator(root) ==> p[|root|] == '/'
  {
    if EndsWithSeparator(root) then root + name else root + "/" + name
  }

  // ---------------------------------------------------------------------------
  // The visit order

  /** The paths of the kept files of one walk entry, in listing order. */
  function KeptIn(cfg: Config, root: string, names: seq<string>): seq<string>
  {
    if names == [] then []
    else
      var last := names[|names| - 1];
      KeptIn(cfg, root, names[..|names| - 1]) + if IsIgnored(cfg, last) then [] else [JoinPath(root, last)]
  }

  /** The paths handed to handle_file, in the order of the walk. */
  function VisitOrder(cfg: Config, walk: seq<WalkEntry>): seq<string>
  {
    if walk == [] then []
    else
      var last := walk[|walk| - 1];
      VisitOrder(cfg, walk[..|walk| - 1]) + KeptIn(cfg, last.root, last.files)
  }

  /** The hash list of a tree whose kept files are `paths`, in that order. */
  function HashList(cfg: Config, disk: Disk, paths: seq<string>): (rs: seq<FileRecord>)
    ensures |rs| == |paths|
    ensures forall k :: 0 <= k < |paths| ==> rs[k] == FileRecord(paths[k], FileHash(cfg, disk, paths[k]))
  {
    seq(|paths|, k requires 0 <= k < |paths| => FileRecord(paths[k], FileHash(cfg, disk, paths[k])))
  }

  lemma KeptInPrefixStep(cfg: Config, root: string, names: seq<string>, m: nat)
    requires m < |names|
    ensures KeptIn(cfg, root, names[..m + 1])
      == KeptIn(cfg, root, names[..m]) + if IsIgnored(cfg, names[m]) then [] else [JoinPath(root, names[m])]
  {
    assert names[..m + 1][..m] == names[..m];
  }

  lemma VisitOrderPrefixStep(cfg: Config, walk: seq<WalkEntry>, k: nat)
    requires k < |walk|
    ensures VisitOrder(cfg, walk[..k + 1]) == VisitOrder(cfg, walk[..k]) + KeptIn(cfg, walk[k].root, walk[k].files)
  {
    assert walk[..k + 1][..k] == walk[..k];
  }

  ghost predicate KeptAt(cfg: Config, names: seq<string>, root: string, m: int, p: string)
  {
    0 <= m < |names| && !IsIgnored(cfg, names[m]) && p == JoinPath(root, names[m])
  }

  ghost predicate VisitedAt(cfg: Config, walk: seq<WalkEntry>, k: int, m: int, p: string)
  {
    0 <= k < |walk| && KeptAt(cfg, walk[k].files, walk[k].root, m, p)
  }

  /** A path is kept from a walk entry exactly when it joins the root with a listed, non-ignored name. */
  lemma {:induction false} KeptInMember(cfg: Config, root: string, names: seq<string>, p: string)
    ensures p in KeptIn(cfg, root, names) <==> exists m :: KeptAt(cfg, names, root, m, p)
    decreases |names|
  {
    if names != [] {
      var init := names[..|names| - 1];
      KeptInMember(cfg, root, init, p);
      if p in KeptIn(cfg, root, names) {
        if p in KeptIn(cfg, root, init) {
          var m :| KeptAt(cfg, init, root, m, p);
          assert KeptAt(cfg, names, root, m, p);
        } else {
          assert KeptAt(cfg, names, root, |names| - 1, p);
        }
      } else {
        forall m | 0 <= m < |names|
          ensures !KeptAt(cfg, names, root, m, p)
        {
          if m < |names| - 1 {
            assert init[m] == names[m];
            assert !KeptAt(cfg, init, root, m, p);
          }
        }
      }
    }
  }

  /**
   The visit order holds exactly the paths of the non-ignored files of the
   walk: every kept file is handed to handle_file, and no ignored one is.
   */
  lemma {:induction false} VisitOrderMember(cfg: Config, walk: seq<WalkEntry>, p: string)
    ensures p in VisitOrder(cfg, walk) <==> exists k, m :: VisitedAt(cfg, walk, k, m, p)
    decreases |walk|
  {
    if walk != [] {
      var init := walk[..|walk| - 1];
      var last := walk[|walk| - 1];
      VisitOrderMember(cfg, init, p);
      KeptInMember(cfg, last.root, last.files, p);
      if p in VisitOrder(cfg, walk) {
        if p in VisitOrder(cfg, init) {
          var k, m :| VisitedAt(cfg, init, k, m, p);
          assert VisitedAt(cfg, walk, k, m, p);
        } else {
          var m :| KeptAt(cfg, last.files, last.root, m, p);
          assert VisitedAt(cfg, walk, |walk| - 1, m, p);
        }
      } else {
        forall k, m | 0 <= k < |walk|
          ensures !VisitedAt(cfg, walk, k, m, p)
        {
          if k < |walk| - 1 {
            assert init[k] == walk[k];
            assert !VisitedAt(cfg, init, k, m, p);
          }
        }
      }
    }
  }

  /** The positions (entry k, file m) of the non-ignored files of one walk entry. */
  ghost function KeptPositionsIn(cfg: Config, names: seq<string>, k: int): set<(int, int)>
  {
    set m | 0 <= m < |names| && !IsIgnored(cfg, names[m]) :: (k, m)
  }

  /** The positions (entry k, file m) of the non-ignored files of the whole walk. */
  ghost function KeptPositions(cfg: Config, walk: seq<WalkEntry>): set<(int, int)>
  {
    set k, m | 0 <= k < |walk| && 0 <= m < |walk[k].files| && !IsIgnored(cfg, walk[k].files[m]) :: (k, m)
  }

  /** Dropping the last listed name drops at most its own position. */
  lemma KeptPositionsInSnoc(cfg: Config, names: seq<string>, k: int)
    requires names != []
    ensures var n := |names| - 1;
      KeptPositionsIn(cfg, names, k)
        == KeptPositionsIn(cfg, names[..n], k) + if IsIgnored(cfg, names[n]) then {} else {(k, n)}
  {
    var n := |names| - 1;
    var init := names[..n];
    var last: set<(int, int)> := if IsIgnored(cfg, names[n]) then {} else {(k, n)};
    forall x | x in KeptPositionsIn(cfg, names, k)
      ensures x in KeptPositionsIn(cfg, init, k) + last
    {
      var m :| 0 <= m < |names| && !IsIgnored(cfg, names[m]) && x == (k, m);
      if m < n {
        assert init[m] == names[m];
      }
    }
    forall m | 0 <= m < |init| && !IsIgnored(cfg, init[m])
      ensures (k, m) in KeptPositionsIn(cfg, names, k)
    {
      assert init[m] == names[m];
    }
  }

  /** Dropping the last walk entry drops exactly that entry's positions. */
  lemma KeptPositionsSnoc(cfg: Config, walk: seq<WalkEntry>)
    requires walk != []
    ensures var n := |walk| - 1;
      KeptPositions(cfg, walk) == KeptPositions(cfg, walk[..n]) + KeptPositionsIn(cfg, walk[n].files, n)
  {
    var n := |walk| - 1;
    var init := walk[..n];
    forall x | x in KeptPositions(cfg, walk)
      ensures x in KeptPositions(cfg, init) + KeptPositionsIn(cfg, walk[n].files, n)
    {
      var k, m :| 0 <= k < |walk| && 0 <= m < |walk[k].files| && !IsIgnored(cfg, walk[k].files[m]) && x == (k, m);
      if k < n {
        assert init[k] == walk[k];
      }
    }
    forall k, m | 0 <= k < |init| && 0 <= m < |init[k].files| && !IsIgnored(cfg, init[k].files[m])
      ensures (k, m) in KeptPositions(cfg, walk)
    {
      assert init[k] == walk[k];
    }
  }

  /** One walk entry contributes one path per non-ignored file. */
  lemma {:induction false} KeptInCount(cfg: Config, root: string, names: seq<string>, k: int)
    ensures |KeptIn(cfg, root, names)| == |KeptPositionsIn(cfg, names, k)|
    decreases |names|
  {
    if names == [] {
      assert KeptPositionsIn(cfg, names, k) == {};
    } else {
      var n := |names| - 1;
      KeptInCount(cfg, root, names[..n], k);
      KeptPositionsInSnoc(cfg, names, k);
      assert (k, n) !in KeptPositionsIn(cfg, names[..n], k);
    }
  }

  /**
   The visit order has exactly one path per non-ignored file of the walk, so
   the hash list has as many records as the tree has non-ignored files.
   */
  lemma {:induction false} VisitOrderCount(cfg: Config, walk: seq<WalkEntry>)
    ensures |VisitOrder(cfg, walk)| == |KeptPositions(cfg, walk)|
    decreases |walk|
  {
    if walk == [] {
      assert KeptPositions(cfg, walk) == {};
    } else {
      var n := |walk| - 1;
      VisitOrderCount(cfg, walk[..n]);
      KeptInCount(cfg, walk[n].root, walk[n].files, n);
      KeptPositionsSnoc(cfg, walk);
      var before, row := KeptPositions(cfg, walk[..n]), KeptPositionsIn(cfg, walk[n].files, n);
      assert before * row == {} by {
        forall x | x in row
          ensures x !in before
        {
          var m :| 0 <= m < |walk[n].files| && !IsIgnored(cfg, walk[n].files[m]) && x == (n, m);
        }
      }
    }
  }

  // ---------------------------------------------------------------------------
  // Duplicate detection

  /**
   The duplicate records handle_file appends for a new file (path, hash): one
   per earlier record with the same hash, in the order of `earlier`.
   */
  function MatchesOf(earlier: seq<FileRecord>, path: string, hash: string): seq<DuplicateRecord>
  {
    if earlier == [] then []
    else
      var last := earlier[|earlier| - 1];
      MatchesOf(earlier[..|earlier| - 1], path, hash)
        + if last.hash == hash then [DuplicateRecord(path, hash, last.path, last.hash)] else []
  }

  /** The duplicates list after every record of `records` went through handle_file, in order. */
  function DuplicatesOf(records: seq<FileRecord>): seq<DuplicateRecord>
  {
    if records == [] then []
    else
      var init := records[..|records| - 1];
      var last := records[|records| - 1];
      DuplicatesOf(init) + MatchesOf(init, last.path, last.hash)
  }

  lemma MatchesOfPrefixStep(earlier: seq<FileRecord>, i: nat, path: string, hash: string)
    requires i < |earlier|
    ensures MatchesOf(earlier[..i + 1], path, hash) == MatchesOf(earlier[..i], path, hash)
      + if earlier[i].hash == hash then [DuplicateRecord(path, hash, earlier[i].path, earlier[i].hash)] else []
  {
    assert earlier[..i + 1][..i] == earlier[..i];
  }

  lemma DuplicatesOfSnoc(records: seq<FileRecord>, r: FileRecord)
    ensures DuplicatesOf(records + [r]) == DuplicatesOf(records) + MatchesOf(records, r.path, r.hash)
  {
    assert (records + [r])[..|records|] == records;
  }

  /** One duplicate record per earlier record with an equal hash. */
  lemma {:induction false} MatchesOfCount(earlier: seq<FileRecord>, path: string, hash: string)
    ensures |MatchesOf(earlier, path, hash)| == multiset(Hashes(earlier))[hash]
    ensures MatchesOf(earlier, path, hash) == [] <==> hash !in Hashes(earlier)
    decreases |earlier|
  {
    if earlier != [] {
      var init := earlier[..|earlier| - 1];
      var last := earlier[|earlier| - 1];
      MatchesOfCount(init, path, hash);
      assert earlier == init + [last];
      HashesSnoc(init, last);
      assert multiset(Hashes(earlier)) == multiset(Hashes(init)) + multiset{last.hash};
    }
  }

  /**
   Every duplicate record pairs the new file with an earlier record of the
   same hash, and every such earlier record gets one.
   */
  lemma {:induction false} MatchesOfMember(earlier: seq<FileRecord>, path: string, hash: string, d: DuplicateRecord)
    ensures d in MatchesOf(earlier, path, hash) <==>
      d.path == path && d.hash == hash && d.originalHash == hash && FileRecord(d.originalPath, hash) in earlier
    decreases |earlier|
  {
    if earlier != [] {
      var init := earlier[..|earlier| - 1];
      MatchesOfMember(init, path, hash, d);
      assert earlier == init + [earlier[|earlier| - 1]];
    }
  }

  /** The matches over a concatenation are the matches of each part, in order. */
  lemma {:induction false} MatchesOfAppend(a: seq<FileRecord>, b: seq<FileRecord>, path: string, hash: string)
    ensures MatchesOf(a + b, path, hash) == MatchesOf(a, path, hash) + MatchesOf(b, path, hash)
    decreases |b|
  {
    if b == [] {
      assert a + b == a;
    } else {
      var binit := b[..|b| - 1];
      assert (a + b)[..|a + b| - 1] == a + binit;
      assert (a + b)[|a + b| - 1] == b[|b| - 1];
      MatchesOfAppend(a, binit, path, hash);
    }
  }

  /** `d` is the record for the pair (earlier file i, later file j) of equal hash. */
  ghost predicate PairAt(records: seq<FileRecord>, i: int, j: int, d: DuplicateRecord)
  {
    0 <= i < j < |records| && records[i].hash == records[j].hash
    && d == DuplicateRecord(records[j].path, records[j].hash, records[i].path, records[i].hash)
  }

  /**
   The duplicates list of a tree holds exactly one kind of record: a later
   file j paired with an earlier file i of the same hash.
   */
  lemma {:induction false} DuplicatesOfMember(records: seq<FileRecord>, d: DuplicateRecord)
    ensures d in DuplicatesOf(records) <==> exists i, j :: PairAt(records, i, j, d)
    decreases |records|
  {
    if records != [] {
      var n := |records| - 1;
      var init := records[..n];
      var last := records[n];
      DuplicatesOfMember(init, d);
      MatchesOfMember(init, last.path, last.hash, d);
      if d in DuplicatesOf(records) {
        if d in DuplicatesOf(init) {
          var i, j :| PairAt(init, i, j, d);
          assert PairAt(records, i, j, d);
        } else {
          var i :| 0 <= i < n && init[i] == FileRecord(d.originalPath, last.hash);
          assert PairAt(records, i, n, d);
        }
      } else {
        forall i, j | 0 <= i < j < |records|
          ensures !PairAt(records, i, j, d)
        {
          if j < n {
            assert !PairAt(init, i, j, d);
          }
        }
      }
    }
  }

  /**
   First seen is the original: a file whose hash does not occur before it is
   never the new path of a duplicate record (paths in a walk are distinct).
   */
  lemma {:induction false} FirstSeenIsOriginal(records: seq<FileRecord>, j: nat)
    requires forall a, b :: 0 <= a < b < |records| ==> records[a].path != records[b].path
    requires j < |records| && records[j].hash !in Hashes(records[..j])
    ensures forall d :: d in DuplicatesOf(records) ==> d.path != records[j].path
  {
    forall d | d in DuplicatesOf(records)
      ensures d.path != records[j].path
    {
      DuplicatesOfMember(records, d);
      var a, b :| PairAt(records, a, b, d);
      if b == j {
        assert false;
      }
    }
  }

  /**
   Files A, B, C visited in that order, A and C of equal content and B not:
   the one duplicate record names C as the file and A as the original.
   */
  lemma ThreeFileScenario(a: FileRecord, b: FileRecord, c: FileRecord)
    requires a.hash == c.hash && b.hash != a.hash
    ensures DuplicatesOf([a, b, c]) == [DuplicateRecord(c.path, c.hash, a.path, a.hash)]
  {
    assert [a, b, c][..2] == [a, b];
    assert [a, b][..1] == [a];
    assert [a][..0] == [];
    assert DuplicatesOf([a]) == [];
    assert MatchesOf([a], b.path, b.hash) == [];
    assert DuplicatesOf([a, b]) == [];
    assert MatchesOf([a], c.path, c.hash) == [DuplicateRecord(c.path, c.hash, a.path, a.hash)];
    assert MatchesOf([a, b], c.path, c.hash) == [DuplicateRecord(c.path, c.hash, a.path, a.hash)];
  }

  // ---------------------------------------------------------------------------
  // The caller-owned lists and handle_file

  /**
   The two lists handle_directory creates and handle_file appends to: the hash
   list and, only when -d was given, the duplicates list.
   */
  class TreeScan {
    var hashes: seq<FileRecord>
    var duplicates: Option<seq<DuplicateRecord>>

    /** The duplicates list, when it exists, is always the one the hash list determines. */
    ghost predicate Valid()
      reads this
    {
      duplicates.Some? ==> duplicates.value == DuplicatesOf(hashes)
    }

    constructor (detectDuplicates: bool)
      ensures Valid()
      ensures hashes == []
      ensures duplicates == if detectDuplicates then Some([]) else None
    {
      hashes := [];
      duplicates := if detectDuplicates then Some([]) else None;
    }

    /**
     handle_file(files_hashes, files_duplicates, filepath): with -d, one
     duplicate record per earlier record of the same hash, then the file's own
     record at the end of the hash list.
     */
    method HandleFile(cfg: Config, disk: Disk, path: string)
      requires Valid()
      modifies this
      ensures Valid()
      ensures hashes == old(hashes) + [FileRecord(path, FileHash(cfg, disk, path))]
      ensures duplicates.Some? == old(duplicates).Some?
      ensures duplicates.Some? ==>
        duplicates.value == old(duplicates).value + MatchesOf(old(hashes), path, FileHash(cfg, disk, path))
    {
      var h := Md5Sum(cfg.digest, disk, path, BlockSize);
      assert h == FileHash(cfg, disk, path);
      if duplicates.Some? {
        var found := duplicates.value;
        var earlier := hashes;
        if h in Hashes(earlier) {
          var i := 0;
          assert earlier[..0] == [];
          while i < |earlier|
            invariant 0 <= i <= |earlier|
            invariant found == old(duplicates).value + MatchesOf(earlier[..i], path, h)
            invariant hashes == earlier && duplicates == old(duplicates)
          {
            MatchesOfPrefixStep(earlier, i, path, h);
            if earlier[i].hash == h {
              found := found + [DuplicateRecord(path, h, earlier[i].path, earlier[i].hash)];
            }
            i := i + 1;
          }
          assert earlier[..i] == earlier;
        } else {
          assert found == found + MatchesOf(earlier, path, h) by {
            MatchesOfCount(earlier, path, h);
          }
        }
        duplicates := Some(found);
      }
      DuplicatesOfSnoc(hashes, FileRecord(path, h));
      hashes := hashes + [FileRecord(path, h)];
    }

    /**
     One pass of handle_directory's walk loop: every listed file of one
     directory whose name is not ignored goes through handle_file, with its
     path joined onto the directory's root.
     */
    method HandleEntry(cfg: Config, disk: Disk, entry: WalkEntry)
      requires Valid()
      modifies this
      ensures Valid() && duplicates.Some? == old(duplicates).Some?
      ensures hashes == old(hashes) + HashList(cfg, disk, KeptIn(cfg, entry.root, entry.files))
    {
      var m := 0;
      assert entry.files[..0] == [];
      while m < |entry.files|
        invariant 0 <= m <= |entry.files|
        invariant Valid() && duplicates.Some? == old(duplicates).Some?
        invariant hashes == old(hashes) + HashList(cfg, disk, KeptIn(cfg, entry.root, entry.files[..m]))
      {
        var name := entry.files[m];
        ghost var done := KeptIn(cfg, entry.root, entry.files[..m]);
        ghost var next := KeptIn(cfg, entry.root, entry.files[..m + 1]);
        var ignored := IsFileIgnored(cfg, name);
        if !ignored {
          var path := JoinPath(entry.root, name);
          assert HashList(cfg, disk, next) == HashList(cfg, disk, done) + [FileRecord(path, FileHash(cfg, disk, path))] by {
            KeptInPrefixStep(cfg, entry.root, entry.files, m);
            HashListSnoc(cfg, disk, done, path);
          }
          HandleFile(cfg, disk, path);
        } else {
          assert next == done by {
            KeptInPrefixStep(cfg, entry.root, entry.files, m);
          }
        }
        m := m + 1;
      }
      assert entry.files[..m] == entry.files;
    }
  }

  // ---------------------------------------------------------------------------
  // handle_directory

  /** What handle_directory returns: the hash list and the duplicates list (None without -d). */
  datatype Scan = Scan(hashes: seq<FileRecord>, duplicates: Option<seq<DuplicateRecord>>)

  /** The hash list of the tree rooted at `directory`. */
  function ScanOf(cfg: Config, disk: Disk, directory: string): seq<FileRecord>
    requires directory in disk.trees
  {
    HashList(cfg, disk, VisitOrder(cfg, disk.trees[directory]))
  }

  /** A tree's hash list has one record per non-ignored file position of its walk. */
  lemma ScanOfCount(cfg: Config, disk: Disk, directory: string)
    requires directory in disk.trees
    ensures |ScanOf(cfg, disk, directory)| == |KeptPositions(cfg, disk.trees[directory])|
  {
    VisitOrderCount(cfg, disk.trees[directory]);
  }

  lemma HashListAppend(cfg: Config, disk: Disk, a: seq<string>, b: seq<string>)
    ensures HashList(cfg, disk, a + b) == HashList(cfg, disk, a) + HashList(cfg, disk, b)
  {
  }

  lemma HashListSnoc(cfg: Config, disk: Disk, paths: seq<string>, p: string)
    ensures HashList(cfg, disk, paths + [p]) == HashList(cfg, disk, paths) + [FileRecord(p, FileHash(cfg, disk, p))]
  {
  }

  /**
   handle_directory: fails when the root is not a directory; otherwise the hash
   list is the walk's kept files in visit order with their hashes, and the
   duplicates list exists exactly when -d was given and holds the duplicates
   of that hash list.
   */
  method HandleDirectory(cfg: Config, disk: Disk, directory: string) returns (r: Result<Scan>)
    ensures r.Err? <==> directory !in disk.trees
    ensures r.Err? ==> r.error == NotADirectory(directory)
    ensures r.Ok? ==> r.value.hashes == ScanOf(cfg, disk, directory)
    ensures r.Ok? ==> r.value.duplicates == if cfg.duplicates then Some(DuplicatesOf(r.value.hashes)) else None
  {
    var scan := new TreeScan(cfg.duplicates);
    if directory in disk.trees {
      var walk := disk.trees[directory];
      var k := 0;
      while k < |walk|
        invariant 0 <= k <= |walk|
        invariant scan.Valid() && scan.duplicates.Some? == cfg.duplicates
        invariant scan.hashes == HashList(cfg, disk, VisitOrder(cfg, walk[..k]))
      {
        scan.HandleEntry(cfg, disk, walk[k]);
        assert scan.hashes == HashList(cfg, disk, VisitOrder(cfg, walk[..k + 1])) by {
          VisitOrderPrefixStep(cfg, walk, k);
          HashListAppend(cfg, disk, VisitOrder(cfg, walk[..k]), KeptIn(cfg, walk[k].root, walk[k].files));
        }
        k := k + 1;
      }
      assert walk[..k] == walk;
      r := Ok(Scan(scan.hashes, scan.duplicates));
    } else {
      r := Err(NotADirectory(directory));
    }
  }

  /**
   Two walk entries whose joined paths coincide. On POSIX a backslash is an
   ordinary name character, yet the join treats a root ending in one as
   already separated: the file `d\f` listed in `t` and the file `f` listed in
   the subdirectory `d\` both become `t/d\f`. The same path is then hashed
   twice and reported as a duplicate of itself.
   */
  lemma {:induction false} CollidingJoinScenario(cfg: Config, disk: Disk)
    requires cfg.ignore.None?
    requires "t" in disk.trees && disk.trees["t"] == [WalkEntry("t", ["d\\"], ["d\\f"]), WalkEntry("t/d\\", [], ["f"])]
    ensures var p := "t/d\\f"; var h := FileHash(cfg, disk, p);
      && ScanOf(cfg, disk, "t") == [FileRecord(p, h), FileRecord(p, h)]
      && DuplicatesOf(ScanOf(cfg, disk, "t")) == [DuplicateRecord(p, h, p, h)]
  {
    var p := "t/d\\f";
    var h := FileHash(cfg, disk, p);
    var walk := disk.trees["t"];
    var first := WalkEntry("t", ["d\\"], ["d\\f"]);
    var second := WalkEntry("t/d\\", [], ["f"]);
    assert JoinPath("t", "d\\f") == p;
    assert JoinPath("t/d\\", "f") == p;
    assert ["d\\f"][..0] == [] && ["f"][..0] == [];
    assert KeptIn(cfg, "t", ["d\\f"]) == [p];
    assert KeptIn(cfg, "t/d\\", ["f"]) == [p];
    assert walk[..1] == [first] && [first][..0] == [];
    assert VisitOrder(cfg, [first]) == [p];
    assert VisitOrder(cfg, walk) == [p, p];
    var r := FileRecord(p, h);
    assert [r, r][..1] == [r] && [r][..0] == [];
    assert MatchesOf([r], p, h) == [DuplicateRecord(p, h, p, h)];
    assert DuplicatesOf([r]) == [];
  }
}
