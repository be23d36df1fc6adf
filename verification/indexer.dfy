/** ScanOnce: bring the index in step with the Markdown files under the watched roots. */
module Indexer {
  import opened Text
  import opened Tokenizer
  import opened IndexTable

  /** One callback of filepath.WalkDir. */
  datatype Visit = WalkError | Entry(path: string, name: string, isDir: bool)

  /** The watched part of the file system, holding still: what walking a root reports, and what files hold. */
  datatype Disk = Disk(walk: string -> seq<Visit>, files: map<string, string>)

  datatype Outcome = Scanned | WalkFailed | RemovalFailed

  predicate IsMarkdown(v: Visit) {
    v.Entry? && !v.isDir && |v.name| >= 3 && ToLower(v.name)[|v.name| - 3..] == ".md"
  }

  ghost function MarkdownPaths(visits: seq<Visit>): set<string> {
    set v | v in visits && IsMarkdown(v) :: v.path
  }

  /** The Markdown files under the given roots. Roots may overlap, repeat or be blank. */
  ghost function Watched(disk: Disk, roots: seq<string>): set<string> {
    if roots == [] then {}
    else
      var root := TrimSpace(roots[|roots| - 1]);
      Watched(disk, roots[..|roots| - 1]) + if root == "" then {} else MarkdownPaths(disk.walk(root))
  }

  /** A callback that does not stop the walk: no error, and a Markdown file that is reported can be read. */
  ghost predicate Walkable(v: Visit, files: map<string, string>) {
    !v.WalkError? && (IsMarkdown(v) ==> v.path in files && !Blank(v.path))
  }

  ghost predicate WalksCleanly(disk: Disk, roots: seq<string>) {
    forall i | 0 <= i < |roots| && TrimSpace(roots[i]) != "" ::
      forall v | v in disk.walk(TrimSpace(roots[i])) :: Walkable(v, disk.files)
  }

  /** Full rebuild: a fresh document for every watched file. */
  function Rebuild(docs: set<string>, files: map<string, string>): map<string, Doc>
    requires docs <= files.Keys
  {
    map p | p in docs :: Indexed(files[p])
  }

  function Docs(rows: map<string, Row>): map<string, Doc> {
    map p | p in rows :: rows[p].doc
  }

  ghost predicate SoundRows(rows: map<string, Row>) {
    forall p | p in rows :: SoundDoc(rows[p].doc)
  }

  /** No row of a watched file collides with what the file holds now. */
  ghost predicate NoCollision(rows: map<string, Doc>, docs: set<string>, files: map<string, string>)
    requires docs <= files.Keys
  {
    forall p | p in docs && p in rows :: !Collides(rows[p], files[p])
  }

  /** The row of p after it has been brought up to date: untouched if its hash was current, else rewritten. */
  ghost predicate Refreshed(before: map<string, Row>, after: map<string, Row>, p: string, content: string) {
    && p in after
    && if p in before && before[p].doc.hash == hashContent(content) then after[p] == before[p]
       else after[p].doc == Indexed(content)
  }

  /** before and after agree about p. */
  ghost predicate Untouched(before: map<string, Row>, after: map<string, Row>, p: string) {
    (p in before <==> p in after) && (p in before ==> before[p] == after[p])
  }

  /** The whole effect of a successful scan. */
  ghost predicate ScanEffect(docs: set<string>, files: map<string, string>, before: map<string, Row>, after: map<string, Row>) {
    && docs <= files.Keys
    && after.Keys == docs
    && forall p | p in docs :: Refreshed(before, after, p, files[p])
  }

  /** The table part-way through a walk: the files seen so far are refreshed, nothing else has changed. */
  ghost predicate MidWalk(before: map<string, Row>, after: map<string, Row>, seen: set<string>, files: map<string, string>) {
    && seen <= files.Keys
    && (forall p | p in seen :: Refreshed(before, after, p, files[p]))
    && (forall p {:trigger Untouched(before, after, p)} | p !in seen :: Untouched(before, after, p))
  }

  lemma KeepsRows(before: map<string, Row>, after: map<string, Row>, seen: set<string>, files: map<string, string>)
    requires MidWalk(before, after, seen, files)
    ensures before.Keys <= after.Keys
    ensures forall p :: Untouched(before, after, p) || (p in files && Refreshed(before, after, p, files[p]))
  {
    forall p | p in before ensures p in after {
      if p !in seen { assert Untouched(before, after, p); }
    }
  }

  lemma NothingSeen(rows: map<string, Row>, files: map<string, string>)
    ensures MidWalk(rows, rows, {}, files)
  {
  }

  lemma UnseenRowsAreOld(before: map<string, Row>, after: map<string, Row>, seen: set<string>, files: map<string, string>)
    requires MidWalk(before, after, seen, files)
    ensures forall p | p in after && p !in seen :: p in before
  {
    forall p | p in after && p !in seen ensures p in before {
      assert Untouched(before, after, p);
    }
  }

  lemma RefreshedUnlessGone(before: map<string, Row>, walked: map<string, Row>, after: map<string, Row>,
                            seen: set<string>, gone: set<string>, files: map<string, string>)
    requires MidWalk(before, walked, seen, files) && gone !! seen && after == walked - gone
    ensures forall p | p in seen :: p in files && Refreshed(before, after, p, files[p])
    ensures gone == walked.Keys - seen ==> ScanEffect(seen, files, before, after)
  {
    forall p | p in seen ensures Refreshed(before, after, p, files[p]) {
      assert Refreshed(before, walked, p, files[p]);
    }
  }

  lemma RefreshOneMore(before: map<string, Row>, was: map<string, Row>, now: map<string, Row>,
                       seen: set<string>, path: string, files: map<string, string>)
    requires MidWalk(before, was, seen, files)
    requires path in files && Refreshed(was, now, path, files[path])
    requires forall p | p != path :: Untouched(was, now, p)
    ensures MidWalk(before, now, seen + {path}, files)
  {
    forall p | p in seen + {path} ensures Refreshed(before, now, p, files[p]) {
      if p != path { assert Untouched(was, now, p); }
      if p !in seen { assert Untouched(before, was, p); }
    }
    forall p | p !in seen + {path} ensures Untouched(before, now, p) {
      assert Untouched(before, was, p) && Untouched(was, now, p);
    }
  }

  lemma RemoveOneMore(rows: map<string, Row>, gone: set<string>, path: string)
    ensures rows - gone - {path} == rows - (gone + {path})
  {
  }

  /** The table can delete each of these paths. */
  ghost predicate NoBlankPath(paths: set<string>) {
    forall p | p in paths :: !Blank(p)
  }

  /** The files that a clean walk reports have paths. */
  lemma {:induction false} WatchedPathsAreNotBlank(disk: Disk, roots: seq<string>)
    requires WalksCleanly(disk, roots)
    ensures NoBlankPath(Watched(disk, roots))
  {
    hide Blank, TrimSpace;
    if roots != [] {
      var n := |roots| - 1;
      WatchedPathsAreNotBlank(disk, roots[..n]);
      assert roots[n] == roots[|roots| - 1];
    }
  }

  /** Refreshing files brings in no blank path. */
  lemma BlankPathsAreOld(before: map<string, Row>, walked: map<string, Row>, seen: set<string>, files: map<string, string>)
    requires MidWalk(before, walked, seen, files) && NoBlankPath(seen)
    ensures NoBlankPath(walked.Keys - seen) <==> NoBlankPath(before.Keys)
  {
    hide Blank;
    KeepsRows(before, walked, seen, files);
    UnseenRowsAreOld(before, walked, seen, files);
  }

  class Indexer {
    const paths: seq<string>
    const db: Table

    constructor (paths: seq<string>, db: Table)
      ensures this.paths == paths && this.db == db
    {
      this.paths := paths;
      this.db := db;
    }

    method IndexFile(path: string, disk: Disk) returns (ok: bool)
      modifies db
      ensures db.faults >= old(db.faults) && (ok <==> path in disk.files && !Blank(path) && db.faults == old(db.faults))
      ensures ok ==> Refreshed(old(db.rows), db.rows, path, disk.files[path])
      ensures !ok ==> db.rows == old(db.rows)
      ensures forall p | p != path :: Untouched(old(db.rows), db.rows, p)
    {
      if path !in disk.files { return false; }
      var content := disk.files[path];
      var hash := hashContent(content);
      var found, prevHash := db.GetIndexHash(path);
      if !found { return false; }
      if prevHash == hash { return true; }
      var tokens := Tokenize(content);
      ghost var now;
      ok, now := db.UpsertIndexEntry(path, content, Join(tokens, " "), hash);
    }

    method RemoveMissing(seen: set<string>) returns (ok: bool, ghost gone: set<string>)
      modifies db
      ensures db.faults >= old(db.faults)
      ensures gone !! seen && db.rows == old(db.rows) - gone
      ensures ok ==> gone == old(db.rows).Keys - seen
      ensures ok <==> db.faults == old(db.faults) && NoBlankPath(old(db.rows).Keys - seen)
    {
      gone := {};
      var listed, paths := db.ListIndexPaths();
      assert db.rows == old(db.rows) - gone;
      if !listed { return false, gone; }
      var todo := paths;
      while todo != {}
        invariant todo <= paths && gone == (paths - todo) - seen
        invariant db.rows == old(db.rows) - gone && db.faults == old(db.faults) && NoBlankPath(gone)
        decreases todo
      {
        var path :| path in todo;
        todo := todo - {path};
        if path !in seen {
          var removed := db.DeleteIndexEntry(path);
          if !removed { return false, gone; }
          RemoveOneMore(old(db.rows), gone, path);
          gone := gone + {path};
        }
      }
      return true, gone;
    }

    /** One root's walk. */
    method Walk(root: string, disk: Disk, seen: set<string>, ghost before: map<string, Row>) returns (ok: bool, seen': set<string>)
      requires MidWalk(before, db.rows, seen, disk.files)
      modifies db
      ensures db.faults >= old(db.faults) && MidWalk(before, db.rows, seen', disk.files)
      ensures ok <==> db.faults == old(db.faults) && forall v | v in disk.walk(root) :: Walkable(v, disk.files)
      ensures ok ==> seen' == seen + MarkdownPaths(disk.walk(root))
    {
      hide Blank, Refreshed, Untouched;
      var visits := disk.walk(root);
      seen' := seen;
      for i := 0 to |visits|
        invariant seen' == seen + MarkdownPaths(visits[..i])
        invariant MidWalk(before, db.rows, seen', disk.files)
        invariant db.faults == old(db.faults) && forall k | 0 <= k < i :: Walkable(visits[k], disk.files)
      {
        assert visits[..i + 1] == visits[..i] + [visits[i]] && visits[i] in disk.walk(root);
        if visits[i].WalkError? { return false, seen'; }
        if visits[i].isDir || !IsMarkdown(visits[i]) { continue; }
        ghost var was := db.rows;
        var indexed := IndexFile(visits[i].path, disk);
        if !indexed { return false, seen'; }
        RefreshOneMore(before, was, db.rows, seen', visits[i].path, disk.files);
        seen' := seen' + {visits[i].path};
      }
      assert visits[..|visits|] == visits;
      return true, seen';
    }

    /**
     Scanned exactly when nothing failed and no row has a blank path, which no statement deletes; a failed walk deletes nothing, and what it has rewritten is as a full scan
     would have left it; a failed removal leaves every watched file's row up to date.
     */
    method ScanOnce(disk: Disk) returns (outcome: Outcome)
      modifies db
      ensures paths == [] ==> outcome == Scanned && db.rows == old(db.rows)
      ensures paths != [] && outcome == Scanned ==> ScanEffect(Watched(disk, paths), disk.files, old(db.rows), db.rows)
      ensures outcome == Scanned <==>
                paths == []
                || (db.faults == old(db.faults) && WalksCleanly(disk, paths) && NoBlankPath(old(db.rows).Keys))
      ensures outcome == WalkFailed ==> old(db.rows).Keys <= db.rows.Keys
      ensures outcome == WalkFailed ==>
                forall p :: Untouched(old(db.rows), db.rows, p)
                            || (p in disk.files && Refreshed(old(db.rows), db.rows, p, disk.files[p]))
      ensures outcome == RemovalFailed ==>
                forall p | p in Watched(disk, paths) :: p in disk.files && Refreshed(old(db.rows), db.rows, p, disk.files[p])
    {
      hide Blank, Refreshed, Untouched, TrimSpace, Walkable, NoBlankPath;
      if |paths| == 0 { return Scanned; }
      var seen: set<string> := {};
      NothingSeen(db.rows, disk.files);
      for i := 0 to |paths|
        invariant seen == Watched(disk, paths[..i])
        invariant MidWalk(old(db.rows), db.rows, seen, disk.files)
        invariant db.faults == old(db.faults) && WalksCleanly(disk, paths[..i])
      {
        assert paths[..i + 1][..i] == paths[..i];
        var root := TrimSpace(paths[i]);
        if root == "" { continue; }
        var ok;
        ok, seen := Walk(root, disk, seen, old(db.rows));
        if !ok {
          KeepsRows(old(db.rows), db.rows, seen, disk.files);
          return WalkFailed;
        }
      }
      assert paths[..|paths|] == paths;
      label walked:
      var removed, gone := RemoveMissing(seen);
      RefreshedUnlessGone(old(db.rows), old@walked(db.rows), db.rows, seen, gone, disk.files);
      WatchedPathsAreNotBlank(disk, paths);
      BlankPathsAreOld(old(db.rows), old@walked(db.rows), seen, disk.files);
      if !removed { return RemovalFailed; }
      return Scanned;
    }
  }

  /* ---------- What a scan is for ---------- */

  /** A scan leaves what a full rebuild would, exactly when no stored content collides with a changed file. */
  lemma ScanRefinesRebuild(docs: set<string>, files: map<string, string>, before: map<string, Row>, after: map<string, Row>)
    requires ScanEffect(docs, files, before, after) && SoundRows(before)
    ensures Docs(after) == Rebuild(docs, files) <==> NoCollision(Docs(before), docs, files)
    ensures SoundRows(after)
  {
    hide TokenColumn, ToLower;
    forall p | p in docs
      ensures SoundDoc(after[p].doc)
      ensures after[p].doc == Indexed(files[p]) <==>
              (p in before ==> !Collides(before[p].doc, files[p]))
    {
      assert Refreshed(before, after, p, files[p]);
      assert p in before ==> SoundDoc(before[p].doc);
    }
    assert NoCollision(Docs(before), docs, files) <==> forall p | p in docs && p in before :: !Collides(before[p].doc, files[p]);
    if Docs(after) == Rebuild(docs, files) {
      forall p | p in docs ensures after[p].doc == Indexed(files[p]) {
        assert Docs(after)[p] == Rebuild(docs, files)[p];
      }
    }
  }

  /** Scanning from an empty table is a full rebuild. */
  lemma ScanOfEmptyTableRebuilds(docs: set<string>, files: map<string, string>, after: map<string, Row>)
    requires ScanEffect(docs, files, map[], after)
    ensures Docs(after) == Rebuild(docs, files)
  {
    assert SoundRows(map[]);
    ScanRefinesRebuild(docs, files, map[], after);
  }

  /** A second scan of the same files changes nothing, not even a time stamp. */
  lemma SecondScanChangesNothing(docs: set<string>, files: map<string, string>,
                                 before: map<string, Row>, once: map<string, Row>, twice: map<string, Row>)
    requires ScanEffect(docs, files, before, once) && ScanEffect(docs, files, once, twice)
    ensures twice == once
  {
    forall p | p in docs ensures twice[p] == once[p] {
      assert Refreshed(before, once, p, files[p]) && Refreshed(once, twice, p, files[p]);
    }
  }

  /* ---------- Which files are watched ---------- */

  /** Walking one of the roots, blank ones aside, makes this callback. */
  ghost predicate Reports(disk: Disk, roots: seq<string>, v: Visit) {
    exists i :: 0 <= i < |roots| && TrimSpace(roots[i]) != "" && v in disk.walk(TrimSpace(roots[i]))
  }

  lemma {:induction false} WatchedIsReported(disk: Disk, roots: seq<string>, p: string)
    ensures p in Watched(disk, roots) <==> exists v :: Reports(disk, roots, v) && IsMarkdown(v) && v.path == p
  {
    hide ToLower, TrimSpace;
    if roots != [] {
      var n := |roots| - 1;
      var root := TrimSpace(roots[n]);
      WatchedIsReported(disk, roots[..n], p);
      forall v ensures Reports(disk, roots, v) <==> Reports(disk, roots[..n], v) || (root != "" && v in disk.walk(root)) {
        if Reports(disk, roots[..n], v) {
          var i :| 0 <= i < n && TrimSpace(roots[..n][i]) != "" && v in disk.walk(TrimSpace(roots[..n][i]));
          assert roots[i] == roots[..n][i];
        }
        if i :| 0 <= i < |roots| && TrimSpace(roots[i]) != "" && v in disk.walk(TrimSpace(roots[i])) {
          assert i < n ==> roots[..n][i] == roots[i];
        }
      }
      assert p in MarkdownPaths(disk.walk(root)) <==> exists v :: v in disk.walk(root) && IsMarkdown(v) && v.path == p;
    }
  }

  /** The name ends in ".md", in small letters, in capitals, or mixed. */
  predicate EndsInMd(name: string) {
    && |name| >= 3
    && name[|name| - 3] == '.'
    && name[|name| - 2] in {'m', 'M'}
    && name[|name| - 1] in {'d', 'D'}
  }

  lemma MarkdownByName(v: Visit)
    requires v.Entry? && IsAscii(v.name)
    ensures IsMarkdown(v) <==> !v.isDir && EndsInMd(v.name)
  {
    var n := |v.name|;
    if n >= 3 {
      assert ToLower(v.name)[n - 3..] == [LowerRune(v.name[n - 3]), LowerRune(v.name[n - 2]), LowerRune(v.name[n - 1])];
      assert ".md" == ['.', 'm', 'd'];
    }
  }

  /** The watched files are exactly the reported files, directories aside, whose names end in ".md". */
  lemma WatchedByName(disk: Disk, roots: seq<string>, p: string)
    requires forall v | Reports(disk, roots, v) && v.Entry? :: IsAscii(v.name)
    ensures p in Watched(disk, roots) <==> exists name :: Reports(disk, roots, Entry(p, name, false)) && EndsInMd(name)
  {
    hide ToLower, Reports, EndsInMd, IsAscii;
    WatchedIsReported(disk, roots, p);
    forall v | Reports(disk, roots, v) && v.Entry? ensures IsMarkdown(v) <==> !v.isDir && EndsInMd(v.name) {
      MarkdownByName(v);
    }
    if v :| Reports(disk, roots, v) && IsMarkdown(v) && v.path == p {
      assert v == Entry(p, v.name, false);
    }
    if name :| Reports(disk, roots, Entry(p, name, false)) && EndsInMd(name) {
      assert IsMarkdown(Entry(p, name, false));
    }
  }

  /** So after a successful scan a path has a row exactly when a reported file of that path has such a name. */
  lemma RowsAreMarkdownFiles(disk: Disk, roots: seq<string>, before: map<string, Row>, after: map<string, Row>, p: string)
    requires ScanEffect(Watched(disk, roots), disk.files, before, after)
    requires forall v | Reports(disk, roots, v) && v.Entry? :: IsAscii(v.name)
    ensures p in after <==> exists name :: Reports(disk, roots, Entry(p, name, false)) && EndsInMd(name)
  {
    hide Watched, Reports, EndsInMd, IsAscii;
    WatchedByName(disk, roots, p);
  }
}
