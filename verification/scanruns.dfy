/**
 Any number of ScanOnce calls running at once, with nothing to keep them apart, while files come and go.
 A run is a sequence of atomic steps: a change to one file, or one file read or SQL statement of one scan.
 */
module ScanRuns {
  import opened Tokenizer
  import opened IndexTable
  import opened Indexer

  /** What a scan knows of its walk: the files visited so far, those present ever since it began, those seen to exist. */
  datatype WalkState = WalkState(seen: set<string>, always: set<string>, ever: set<string>)

  datatype Scan =
    | Walking(w: WalkState)
    | Holding(w: WalkState, path: string, content: string, version: int)
    | Checking(w: WalkState, path: string, content: string, version: int, prevHash: string)
    | Removing(todo: set<string>)
    | Finished(ok: bool)
  {
    predicate InWalk() { Walking? || Holding? || Checking? }
  }

  /** A row, and which version of its file it was made from. */
  datatype Stored = Stored(doc: Doc, version: int)

  /** history lists everything each file has ever held; files are the watched Markdown files that exist now. */
  datatype State = State(
    files: map<string, string>,
    history: map<string, seq<string>>,
    rows: map<string, Stored>,
    scans: map<nat, Scan>)

  datatype Action =
    | Write(path: string, content: string)
    | Remove(path: string)
    | Start(id: nat)
    | Read(id: nat, path: string)
    | LookUp(id: nat)
    | Store(id: nat)
    | List(id: nat)
    | Delete(id: nat, path: string)
    | Finish(id: nat)
    | Abort(id: nat)

  function Past(s: State, p: string): seq<string> {
    if p in s.history then s.history[p] else []
  }

  predicate Enabled(s: State, a: Action) {
    match a
    case Write(p, _) => true
    case Remove(p) => p in s.files
    case Start(id) => id !in s.scans
    case Read(id, p) => id in s.scans && s.scans[id].Walking? && p in s.scans[id].w.ever
    case LookUp(id) => id in s.scans && s.scans[id].Holding?
    case Store(id) => id in s.scans && s.scans[id].Checking?
    case List(id) => id in s.scans && s.scans[id].Walking? && s.scans[id].w.always <= s.scans[id].w.seen
    case Delete(id, p) => id in s.scans && s.scans[id].Removing? && p in s.scans[id].todo
    case Finish(id) => id in s.scans && s.scans[id].Removing? && s.scans[id].todo == {}
    case Abort(id) => id in s.scans && !s.scans[id].Finished?
  }

  /** A walk under way may report a file that appears, and need not report one that disappears. */
  function Notice(c: Scan, appeared: set<string>, gone: set<string>): Scan {
    if c.InWalk() then c.(w := WalkState(c.w.seen, c.w.always - gone, c.w.ever + appeared)) else c
  }

  function NoticeAll(scans: map<nat, Scan>, appeared: set<string>, gone: set<string>): map<nat, Scan> {
    map id | id in scans :: Notice(scans[id], appeared, gone)
  }

  function Apply(s: State, a: Action): State
    requires Enabled(s, a)
  {
    match a
    case Write(p, c) =>
      s.(files := s.files[p := c], history := s.history[p := Past(s, p) + [c]], scans := NoticeAll(s.scans, {p}, {}))
    case Remove(p) =>
      s.(files := s.files - {p}, scans := NoticeAll(s.scans, {}, {p}))
    case Start(id) =>
      s.(scans := s.scans[id := Walking(WalkState({}, s.files.Keys, s.files.Keys))])
    case Read(id, p) =>
      var w := s.scans[id].w;
      if p !in s.files then s.(scans := s.scans[id := Finished(false)])
      else s.(scans := s.scans[id := Holding(w.(seen := w.seen + {p}), p, s.files[p], |Past(s, p)| - 1)])
    case LookUp(id) =>
      var c := s.scans[id];
      var prevHash := if c.path in s.rows then s.rows[c.path].doc.hash else "";
      s.(scans := s.scans[id := Checking(c.w, c.path, c.content, c.version, prevHash)])
    case Store(id) =>
      var c := s.scans[id];
      var t := s.(scans := s.scans[id := Walking(c.w)]);
      if c.prevHash == hashContent(c.content) then t
      else t.(rows := t.rows[c.path := Stored(Indexed(c.content), c.version)])
    case List(id) =>
      s.(scans := s.scans[id := Removing(s.rows.Keys - s.scans[id].w.seen)])
    case Delete(id, p) =>
      s.(rows := s.rows - {p}, scans := s.scans[id := Removing(s.scans[id].todo - {p})])
    case Finish(id) =>
      s.(scans := s.scans[id := Finished(true)])
    case Abort(id) =>
      s.(scans := s.scans[id := Finished(false)])
  }

  ghost predicate Next(s: State, t: State) {
    exists a :: Enabled(s, a) && t == Apply(s, a)
  }

  ghost predicate IsRun(run: seq<State>) {
    run != [] && forall i | 0 <= i < |run| - 1 :: Next(run[i], run[i + 1])
  }

  /** What a scan holds it held before the step, or the step read it. */
  lemma WhatAScanHolds(s: State, a: Action, id: nat)
    requires Enabled(s, a) && id in Apply(s, a).scans
    requires var c := Apply(s, a).scans[id]; c.Holding? || c.Checking?
    ensures var c := Apply(s, a).scans[id];
            || (id in s.scans && (s.scans[id].Holding? || s.scans[id].Checking?) && s.scans[id].path == c.path
                && s.scans[id].content == c.content && s.scans[id].version == c.version)
            || (c.path in s.files && c.content == s.files[c.path] && c.version == |Past(s, c.path)| - 1)
  {
    hide TokenColumn;
  }

  /** What a row says it said before the step, or the step stored what a scan held because its hash was new. */
  lemma WhatARowSays(s: State, a: Action, p: string)
    requires Enabled(s, a) && p in Apply(s, a).rows
    ensures var row := Apply(s, a).rows[p];
            || (p in s.rows && s.rows[p] == row)
            || (a.Store? && s.scans[a.id].path == p && s.scans[a.id].prevHash != hashContent(s.scans[a.id].content)
                && row == Stored(Indexed(s.scans[a.id].content), s.scans[a.id].version))
  {
    hide TokenColumn;
  }

  /**
   A walk under way may meet a file that appears, and then reads its new content; need not see one that is removed; and
   may fail at any time, leaving the rows as they are.
   */
  lemma WalksMeetChanges(s: State, id: nat, p: string, content: string)
    requires id in s.scans && s.scans[id].Walking?
    ensures var t := Apply(s, Write(p, content));
            Enabled(t, Read(id, p)) && Apply(t, Read(id, p)).scans[id].content == content
    ensures p in s.files && s.scans[id].w.always - {p} <= s.scans[id].w.seen ==> Enabled(Apply(s, Remove(p)), List(id))
    ensures Enabled(s, Abort(id)) && Apply(s, Abort(id)) == s.(scans := s.scans[id := Finished(false)])
  {
    hide TokenColumn;
  }

  /* ---------- Every row is one a file really had ---------- */

  ghost predicate WasHeld(s: State, p: string, content: string, version: int) {
    0 <= version < |Past(s, p)| && Past(s, p)[version] == content
  }

  ghost predicate FilesAreCurrent(s: State) {
    forall p | p in s.files :: Past(s, p) != [] && Past(s, p)[|Past(s, p)| - 1] == s.files[p]
  }

  ghost predicate RowsWereHeld(s: State) {
    forall p | p in s.rows :: SoundDoc(s.rows[p].doc) && WasHeld(s, p, s.rows[p].doc.content, s.rows[p].version)
  }

  ghost predicate ScansWereHeld(s: State) {
    forall id | id in s.scans && (s.scans[id].Holding? || s.scans[id].Checking?) ::
      WasHeld(s, s.scans[id].path, s.scans[id].content, s.scans[id].version)
  }

  ghost predicate Consistent(s: State) {
    FilesAreCurrent(s) && RowsWereHeld(s) && ScansWereHeld(s)
  }

  lemma HistoryGrows(s: State, a: Action)
    requires Enabled(s, a)
    ensures forall p :: Past(s, p) <= Past(Apply(s, a), p)
    ensures forall p, c, v | WasHeld(s, p, c, v) :: WasHeld(Apply(s, a), p, c, v)
  {
  }

  lemma StepKeepsScansHeld(s: State, a: Action)
    requires Consistent(s) && Enabled(s, a)
    ensures ScansWereHeld(Apply(s, a))
  {
    HistoryGrows(s, a);
    var t := Apply(s, a);
    forall id | id in t.scans && (t.scans[id].Holding? || t.scans[id].Checking?)
      ensures WasHeld(t, t.scans[id].path, t.scans[id].content, t.scans[id].version)
    {
      WhatAScanHolds(s, a, id);
      assert WasHeld(s, t.scans[id].path, t.scans[id].content, t.scans[id].version);
    }
  }

  lemma StepKeepsRowsHeld(s: State, a: Action)
    requires Consistent(s) && Enabled(s, a)
    ensures RowsWereHeld(Apply(s, a))
  {
    hide TokenColumn;
    HistoryGrows(s, a);
    var t := Apply(s, a);
    forall p | p in t.rows ensures SoundDoc(t.rows[p].doc) && WasHeld(t, p, t.rows[p].doc.content, t.rows[p].version) {
      WhatARowSays(s, a, p);
      assert WasHeld(s, p, t.rows[p].doc.content, t.rows[p].version);
    }
  }

  lemma StepKeepsFilesCurrent(s: State, a: Action)
    requires FilesAreCurrent(s) && Enabled(s, a)
    ensures FilesAreCurrent(Apply(s, a))
  {
  }

  lemma StepKeepsConsistent(s: State, t: State)
    requires Consistent(s) && Next(s, t)
    ensures Consistent(t)
  {
    var a :| Enabled(s, a) && t == Apply(s, a);
    StepKeepsFilesCurrent(s, a);
    StepKeepsScansHeld(s, a);
    StepKeepsRowsHeld(s, a);
  }

  lemma {:induction false} RunIsConsistent(run: seq<State>, n: nat)
    requires IsRun(run) && Consistent(run[0]) && n < |run|
    ensures Consistent(run[n])
  {
    hide Next, Consistent;
    if n > 0 {
      RunIsConsistent(run, n - 1);
      StepKeepsConsistent(run[n - 1], run[n]);
    }
  }

  /** In every state of every interleaving, each row is what indexing some past content of its file produces. */
  lemma RowsHoldPastContents(run: seq<State>, n: nat, p: string)
    requires IsRun(run) && Consistent(run[0]) && n < |run| && p in run[n].rows
    ensures exists v: nat :: v < |Past(run[n], p)| && run[n].rows[p].doc == Indexed(Past(run[n], p)[v])
  {
    RunIsConsistent(run, n);
    assert Past(run[n], p)[run[n].rows[p].version] == run[n].rows[p].doc.content;
  }

  /* ---------- When a row can move back in its file's history ---------- */

  /** The scan may still store a version of p before v. */
  predicate MayStoreOlder(c: Scan, p: string, v: int) {
    && (c.Holding? || (c.Checking? && c.prevHash != hashContent(c.content)))
    && c.path == p && c.version < v
  }

  ghost predicate CanOverwrite(s: State, p: string, v: int) {
    exists id :: id in s.scans && MayStoreOlder(s.scans[id], p, v)
  }

  /** p has a version v, its row is that version or later, and no scan may store an earlier one. */
  ghost predicate AtLeastVersion(s: State, p: string, v: int) {
    v < |Past(s, p)| && (p in s.rows ==> v <= s.rows[p].version) && !CanOverwrite(s, p, v)
  }

  /** A scan that may store an older version might have before, or the step read the current one. */
  lemma WhatAScanMayStore(s: State, a: Action, id: nat, p: string, v: int)
    requires Enabled(s, a) && id in Apply(s, a).scans && MayStoreOlder(Apply(s, a).scans[id], p, v)
    ensures (id in s.scans && MayStoreOlder(s.scans[id], p, v)) || |Past(s, p)| - 1 < v
  {
    hide TokenColumn;
  }

  lemma StepKeepsAtLeastVersion(s: State, t: State, p: string, v: int)
    requires AtLeastVersion(s, p, v) && Next(s, t)
    ensures AtLeastVersion(t, p, v)
  {
    var a :| Enabled(s, a) && t == Apply(s, a);
    HistoryGrows(s, a);
    if p in t.rows {
      WhatARowSays(s, a, p);
      assert a.Store? ==> a.id in s.scans && s.scans[a.id].Checking?;
    }
    hide Apply, Enabled;
    if id :| id in t.scans && MayStoreOlder(t.scans[id], p, v) {
      WhatAScanMayStore(s, a, id, p, v);
    }
  }

  lemma {:induction false} AtLeastVersionForEver(run: seq<State>, n: nat, p: string, v: int)
    requires IsRun(run) && n < |run| && AtLeastVersion(run[0], p, v)
    ensures AtLeastVersion(run[n], p, v)
  {
    hide Next, AtLeastVersion;
    if n > 0 {
      AtLeastVersionForEver(run, n - 1, p, v);
      StepKeepsAtLeastVersion(run[n - 1], run[n], p, v);
    }
  }

  /** A run goes on with a step whose outcome is t. */
  lemma Then(run: seq<State>, a: Action, t: State) returns (longer: seq<State>)
    requires IsRun(run) && Enabled(run[|run| - 1], a) && Apply(run[|run| - 1], a) == t
    ensures IsRun(longer) && longer == run + [t]
  {
    longer := run + [t];
    assert Next(run[|run| - 1], t);
    assert forall i | 0 <= i < |run| :: longer[i] == run[i];
  }

  lemma {:induction false} FreshId(ids: set<nat>) returns (id: nat)
    ensures forall other | other in ids :: other < id
  {
    if ids == {} {
      id := 0;
    } else {
      var other :| other in ids;
      var next := FreshId(ids - {other});
      id := if next > other then next else other + 1;
      forall x | x in ids ensures x < id {
        if x != other { assert x in ids - {other}; }
      }
    }
  }

  /** Scan id holds version v of p's content, whatever it may know of its walk. */
  ghost predicate Holds(s: State, id: nat, p: string, content: string, v: int) {
    id in s.scans && s.scans[id].Holding? && s.scans[id].path == p && s.scans[id].content == content && s.scans[id].version == v
  }

  /** All files may be removed while a scan holds what it read. */
  lemma {:induction false} RemoveAllFiles(run: seq<State>, id: nat, p: string, content: string, v: int)
    returns (longer: seq<State>)
    requires IsRun(run) && Holds(run[|run| - 1], id, p, content, v)
    ensures IsRun(longer) && longer[0] == run[0]
    ensures var s, t := run[|run| - 1], longer[|longer| - 1];
            t.files == map[] && t.rows == s.rows && t.scans.Keys == s.scans.Keys && Holds(t, id, p, content, v)
    decreases run[|run| - 1].files.Keys
  {
    var s := run[|run| - 1];
    if s.files.Keys == {} {
      longer := run;
    } else {
      var q :| q in s.files;
      var t := Apply(s, Remove(q));
      var more := Then(run, Remove(q), t);
      assert t.files.Keys == s.files.Keys - {q};
      longer := RemoveAllFiles(more, id, p, content, v);
    }
  }

  /** With no file left, another scan deletes p's row. */
  lemma DeleteOneRow(run: seq<State>, id: nat, p: string, content: string, v: int) returns (longer: seq<State>)
    requires IsRun(run) && Holds(run[|run| - 1], id, p, content, v)
    requires run[|run| - 1].files == map[] && p in run[|run| - 1].rows
    ensures IsRun(longer) && longer[0] == run[0]
    ensures Holds(longer[|longer| - 1], id, p, content, v) && p !in longer[|longer| - 1].rows
  {
    hide TokenColumn;
    var s := run[|run| - 1];
    var other := FreshId(s.scans.Keys);
    var w := WalkState({}, {}, {});
    var t := s.(scans := s.scans[other := Walking(w)]);
    assert s.files.Keys == {};
    longer := Then(run, Start(other), t);
    var listed := s.(scans := s.scans[other := Removing(s.rows.Keys)]);
    assert s.rows.Keys - {} == s.rows.Keys;
    assert t.scans[other := Removing(s.rows.Keys)] == listed.scans;
    longer := Then(longer, List(other), listed);
    longer := Then(longer, Delete(other, p), Apply(listed, Delete(other, p)));
  }

  /** A scan that holds a version stores it over nothing. */
  lemma StoreHeld(run: seq<State>, id: nat, p: string, content: string, v: int) returns (longer: seq<State>)
    requires IsRun(run) && Holds(run[|run| - 1], id, p, content, v) && p !in run[|run| - 1].rows
    ensures IsRun(longer) && longer[0] == run[0]
    ensures p in longer[|longer| - 1].rows && longer[|longer| - 1].rows[p].version == v
  {
    hide TokenColumn;
    var s := run[|run| - 1];
    var looked := Apply(s, LookUp(id));
    longer := Then(run, LookUp(id), looked);
    longer := Then(longer, Store(id), Apply(looked, Store(id)));
  }

  /** At the end of run, p's row is made from an earlier version than at its start. */
  ghost predicate MovesBack(run: seq<State>, p: string) {
    && IsRun(run) && p in run[0].rows && p in run[|run| - 1].rows
    && run[|run| - 1].rows[p].version < run[0].rows[p].version
  }

  lemma OverwriteMovesBack(s: State, p: string, id: nat) returns (run: seq<State>)
    requires p in s.rows && id in s.scans && MayStoreOlder(s.scans[id], p, s.rows[p].version)
    ensures MovesBack(run, p) && run[0] == s
  {
    hide TokenColumn;
    var c := s.scans[id];
    if c.Checking? {
      run := Then([s], Store(id), Apply(s, Store(id)));
    } else {
      run := RemoveAllFiles([s], id, p, c.content, c.version);
      run := DeleteOneRow(run, id, p, c.content, c.version);
      run := StoreHeld(run, id, p, c.content, c.version);
    }
  }

  /** A row can move back in its file's history if and only if some scan may still store an older version than it shows. */
  lemma RowsMoveBackOnlyByOverwriting(s: State, p: string)
    requires p in s.rows && s.rows[p].version < |Past(s, p)|
    ensures (exists run :: MovesBack(run, p) && run[0] == s) <==> CanOverwrite(s, p, s.rows[p].version)
  {
    var v := s.rows[p].version;
    if CanOverwrite(s, p, v) {
      var id :| id in s.scans && MayStoreOlder(s.scans[id], p, v);
      var run := OverwriteMovesBack(s, p, id);
    } else {
      forall run | MovesBack(run, p) ensures run[0] != s {
        if run[0] == s { AtLeastVersionForEver(run, |run| - 1, p, v); }
      }
    }
  }

  /* ---------- One scan at a time ---------- */

  ghost predicate Solo(s: State) {
    forall i, j | i in s.scans && j in s.scans && !s.scans[i].Finished? && !s.scans[j].Finished? :: i == j
  }

  /** No row is later than what a scan may replace it with. */
  ghost predicate NothingOlderHeld(s: State) {
    forall p | p in s.rows :: !CanOverwrite(s, p, s.rows[p].version)
  }

  /** While scans do not overlap, none comes to hold an older version than its row shows. */
  lemma SoloStepHoldsNothingOlder(s: State, t: State)
    requires Consistent(s) && Solo(s) && NothingOlderHeld(s) && Next(s, t)
    ensures NothingOlderHeld(t)
  {
    var a :| Enabled(s, a) && t == Apply(s, a);
    forall p, id | p in t.rows && id in t.scans ensures !MayStoreOlder(t.scans[id], p, t.rows[p].version) {
      SoloScanHoldsNothingOlder(s, a, p, id);
    }
  }

  lemma SoloScanHoldsNothingOlder(s: State, a: Action, p: string, id: nat)
    requires Consistent(s) && Solo(s) && NothingOlderHeld(s) && Enabled(s, a)
    requires p in Apply(s, a).rows && id in Apply(s, a).scans
    ensures !MayStoreOlder(Apply(s, a).scans[id], p, Apply(s, a).rows[p].version)
  {
    hide TokenColumn;
    var t := Apply(s, a);
    var v := t.rows[p].version;
    if MayStoreOlder(t.scans[id], p, v) {
      WhatARowSays(s, a, p);
      if a.Store? && s.scans[a.id].path == p && t.rows[p].version == s.scans[a.id].version {
        assert WasHeld(s, p, s.scans[a.id].content, s.scans[a.id].version);
      }
      if p in s.rows { assert WasHeld(s, p, s.rows[p].doc.content, s.rows[p].version); }
      WhatAScanMayStore(s, a, id, p, v);
    }
  }

  lemma {:induction false} SoloRunHoldsNothingOlder(run: seq<State>, n: nat)
    requires IsRun(run) && Consistent(run[0]) && NothingOlderHeld(run[0])
    requires n < |run| && forall k | 0 <= k < n :: Solo(run[k])
    ensures NothingOlderHeld(run[n])
  {
    hide Next, Consistent, NothingOlderHeld;
    if n > 0 {
      SoloRunHoldsNothingOlder(run, n - 1);
      RunIsConsistent(run, n - 1);
      SoloStepHoldsNothingOlder(run[n - 1], run[n]);
    }
  }

  lemma NotOverwrittenNeverMovesBack(run: seq<State>, p: string)
    requires IsRun(run) && p in run[0].rows && p in run[|run| - 1].rows
    requires run[0].rows[p].version < |Past(run[0], p)| && !CanOverwrite(run[0], p, run[0].rows[p].version)
    ensures run[0].rows[p].version <= run[|run| - 1].rows[p].version
  {
    hide Next, CanOverwrite, Past;
    RowsMoveBackOnlyByOverwriting(run[0], p);
    assert !MovesBack(run, p);
  }

  lemma PartOfRun(run: seq<State>, i: nat, j: nat)
    requires IsRun(run) && i <= j < |run|
    ensures IsRun(run[i..j + 1])
  {
    hide Next;
    var part := run[i..j + 1];
    forall k | 0 <= k < |part| - 1 ensures Next(part[k], part[k + 1]) {
      assert Next(run[i + k], run[i + k + 1]);
    }
  }

  lemma RowsHaveVersions(s: State, p: string)
    requires Consistent(s) && p in s.rows
    ensures s.rows[p].version < |Past(s, p)|
  {
    hide TokenColumn;
    assert WasHeld(s, p, s.rows[p].doc.content, s.rows[p].version);
  }

  /** So when no scans overlap before state i, no row that stands there ever moves back, even if scans overlap afterwards. */
  lemma SoloRowsNeverMoveBack(run: seq<State>, i: nat, j: nat, p: string)
    requires IsRun(run) && Consistent(run[0]) && NothingOlderHeld(run[0])
    requires i <= j < |run| && forall k | 0 <= k < i :: Solo(run[k])
    requires p in run[i].rows && p in run[j].rows
    ensures run[i].rows[p].version <= run[j].rows[p].version
  {
    hide Next, Consistent, CanOverwrite, Solo, IsRun, Past;
    SoloRunHoldsNothingOlder(run, i);
    RunIsConsistent(run, i);
    RowsHaveVersions(run[i], p);
    PartOfRun(run, i, j);
    var part := run[i..j + 1];
    assert part[0] == run[i] && part[|part| - 1] == run[j];
    NotOverwrittenNeverMovesBack(part, p);
  }

  /** A scan looks p up while it still holds the first content; then the file changes. */
  lemma SlowScanLooksUp(p: string, first: string, second: string) returns (run: seq<State>)
    ensures IsRun(run) && Consistent(run[0]) && NothingOlderHeld(run[0])
    ensures var w := WalkState({p}, {p}, {p});
            run[|run| - 1] == State(map[p := second], map[p := [first, second]], map[], map[0 := Checking(w, p, first, 0, "")])
  {
    var files, past := map[p := first], map[p := [first]];
    var w0, w := WalkState({}, {p}, {p}), WalkState({p}, {p}, {p});
    assert files.Keys == {p} && {} + {p} == {p};
    run := [State(files, past, map[], map[])];
    run := Then(run, Start(0), State(files, past, map[], map[0 := Walking(w0)]));
    run := Then(run, Read(0, p), State(files, past, map[], map[0 := Holding(w, p, first, 0)]));
    run := Then(run, LookUp(0), State(files, past, map[], map[0 := Checking(w, p, first, 0, "")]));
    assert {p} - {} == {p} && {p} + {p} == {p};
    assert NoticeAll(map[0 := Checking(w, p, first, 0, "")], {p}, {}) == map[0 := Checking(w, p, first, 0, "")];
    assert [first] + [second] == [first, second];
    run := Then(run, Write(p, second), State(map[p := second], map[p := [first, second]], map[], map[0 := Checking(w, p, first, 0, "")]));
  }

  /** Two overlapping scans can move any row back: the slower one stores what it read before the file changed. */
  lemma OverlappingScansMoveARowBack(p: string, first: string, second: string)
    returns (run: seq<State>, i: nat, j: nat)
    ensures IsRun(run) && Consistent(run[0]) && NothingOlderHeld(run[0])
    ensures i < j < |run| && p in run[i].rows && p in run[j].rows
    ensures run[i].rows[p].doc == Indexed(second) && run[j].rows[p].doc == Indexed(first)
    ensures run[j].rows[p].version < run[i].rows[p].version
  {
    hide TokenColumn;
    run := SlowScanLooksUp(p, first, second);
    var files, past := map[p := second], map[p := [first, second]];
    var w0, w := WalkState({}, {p}, {p}), WalkState({p}, {p}, {p});
    assert files.Keys == {p} && {} + {p} == {p};
    var slow := Checking(w, p, first, 0, "");
    run := Then(run, Start(1), State(files, past, map[], map[0 := slow, 1 := Walking(w0)]));
    run := Then(run, Read(1, p), State(files, past, map[], map[0 := slow, 1 := Holding(w, p, second, 1)]));
    run := Then(run, LookUp(1), State(files, past, map[], map[0 := slow, 1 := Checking(w, p, second, 1, "")]));
    i := |run|;
    run := Then(run, Store(1), State(files, past, map[p := Stored(Indexed(second), 1)], map[0 := slow, 1 := Walking(w)]));
    j := |run|;
    run := Then(run, Store(0), State(files, past, map[p := Stored(Indexed(first), 0)], map[0 := Walking(w), 1 := Walking(w)]));
  }

  /* ---------- Convergence ---------- */

  /** p's row carries the hash of the current content. */
  ghost predicate Clean(files: map<string, string>, rows: map<string, Stored>, p: string)
    requires p in files
  {
    p in rows && rows[p].doc.hash == hashContent(files[p])
  }

  ghost predicate AllClean(files: map<string, string>, rows: map<string, Stored>, paths: set<string>) {
    forall p | p in paths :: p in files && Clean(files, rows, p)
  }

  /** What a scan that began after the files came to rest has achieved, stage by stage. */
  ghost predicate OnTrack(files: map<string, string>, rows: map<string, Stored>, c: Scan) {
    && (c.InWalk() ==> c.w.always == files.Keys == c.w.ever && c.w.seen <= files.Keys)
    && (c.Holding? || c.Checking? ==> c.path in files && c.content == files[c.path])
    && (c.Walking? ==> AllClean(files, rows, c.w.seen))
    && (c.Holding? || c.Checking? ==> AllClean(files, rows, c.w.seen - {c.path}))
    && (c.Checking? && c.prevHash == hashContent(c.content) ==> Clean(files, rows, c.path))
    && (c.Removing? ==> AllClean(files, rows, files.Keys) && c.todo !! files.Keys && rows.Keys <= files.Keys + c.todo)
    && (c == Finished(true) ==> AllClean(files, rows, files.Keys) && rows.Keys == files.Keys)
  }

  /** The only ways rows change while the files hold still. */
  ghost predicate Settles(files: map<string, string>, rows: map<string, Stored>, rows': map<string, Stored>) {
    && rows'.Keys <= rows.Keys + files.Keys
    && forall p | p in files :: Clean(files, rows, p) ==> Clean(files, rows', p)
  }

  lemma OnTrackIsStable(files: map<string, string>, rows: map<string, Stored>, rows': map<string, Stored>, c: Scan)
    requires OnTrack(files, rows, c) && Settles(files, rows, rows')
    ensures OnTrack(files, rows', c)
  {
  }

  /** Every scan that began after q is on track, and every earlier one has finished. */
  ghost predicate ScansOnTrack(q: State, s: State) {
    && (forall id | id in q.scans :: id in s.scans && s.scans[id].Finished?)
    && (forall id | id in s.scans && id !in q.scans :: OnTrack(s.files, s.rows, s.scans[id]))
  }

  /** Rows clean in q still say the same. */
  ghost predicate CleanRowsKept(q: State, s: State) {
    forall p | p in s.files && Clean(s.files, q.rows, p) :: p in s.rows && s.rows[p].doc == q.rows[p].doc
  }

  /** No scan is about to replace a row clean in q. */
  ghost predicate CleanRowsSafe(q: State, s: State) {
    forall id | id in s.scans && id !in q.scans && s.scans[id].Checking? && s.scans[id].path in s.files ::
      Clean(s.files, q.rows, s.scans[id].path) ==> s.scans[id].prevHash == hashContent(s.files[s.scans[id].path])
  }

  /** Rows clean since then hold the current content. */
  ghost predicate NewlyCleanRowsCurrent(q: State, s: State) {
    forall p | p in s.files && Clean(s.files, s.rows, p) ::
      Clean(s.files, q.rows, p) || s.rows[p].doc.content == s.files[p]
  }

  ghost predicate RowsSince(q: State, s: State) {
    CleanRowsKept(q, s) && CleanRowsSafe(q, s) && NewlyCleanRowsCurrent(q, s)
  }

  /** s comes after q, and the files have not changed in between. */
  ghost predicate Quiet(q: State, s: State) {
    s.files == q.files && ScansOnTrack(q, s) && RowsSince(q, s)
  }

  lemma QuietRowsSettle(q: State, s: State, a: Action)
    requires Quiet(q, s) && Enabled(s, a) && Apply(s, a).files == q.files
    ensures Settles(s.files, s.rows, Apply(s, a).rows)
    ensures forall p | p in Apply(s, a).rows ::
              || (p in s.rows && s.rows[p] == Apply(s, a).rows[p])
              || (p in s.files && Apply(s, a).rows[p].doc == Indexed(s.files[p]) && !Clean(s.files, q.rows, p))
    ensures forall p | p in s.files :: p in s.rows ==> p in Apply(s, a).rows
  {
    hide TokenColumn;
    if a.Store? || a.Delete? {
      assert OnTrack(s.files, s.rows, s.scans[a.id]);
    }
  }

  /** A step leaves every other scan as it was: a write that keeps the files the same is noticed by none. */
  lemma OthersStay(files: map<string, string>, s: State, a: Action, id: nat)
    requires Enabled(s, a) && Apply(s, a).files == files == s.files && id in Apply(s, a).scans
    requires id in s.scans ==> OnTrack(files, s.rows, s.scans[id])
    requires a.Write? || a.Remove? || a.id != id
    ensures id in s.scans && Apply(s, a).scans[id] == s.scans[id]
  {
    hide TokenColumn, Clean;
    if a.Write? || a.Remove? {
      assert a.Write? && a.path in s.files;
    }
  }

  /** Every scan that began since q stays on track: the one that takes the step, and the others. */
  lemma QuietStepKeepsOnTrack(q: State, s: State, a: Action, id: nat)
    requires Quiet(q, s) && Enabled(s, a) && Apply(s, a).files == q.files
    requires id in Apply(s, a).scans && id !in q.scans
    ensures OnTrack(s.files, Apply(s, a).rows, Apply(s, a).scans[id])
  {
    hide TokenColumn, Apply, Enabled, OnTrack, RowsSince;
    QuietRowsSettle(q, s, a);
    var rows := Apply(s, a).rows;
    if id in s.scans {
      OnTrackIsStable(s.files, s.rows, rows, s.scans[id]);
    }
    if a.Write? || a.Remove? || a.id != id {
      OthersStay(q.files, s, a, id);
    } else {
      StartsAreFresh(s, a);
      ActorStaysOnTrack(s, a);
    }
  }

  lemma StartsAreFresh(s: State, a: Action)
    requires Enabled(s, a) && !a.Write? && !a.Remove?
    ensures a.Start? <==> a.id !in s.scans
  {
  }

  lemma ActorStaysOnTrack(s: State, a: Action)
    requires Enabled(s, a) && !a.Write? && !a.Remove?
    requires !a.Start? ==> OnTrack(s.files, s.rows, s.scans[a.id]) && OnTrack(s.files, Apply(s, a).rows, s.scans[a.id])
    ensures OnTrack(s.files, Apply(s, a).rows, Apply(s, a).scans[a.id])
  {
    hide TokenColumn;
  }

  lemma QuietStepKeepsRowsSafe(q: State, s: State, a: Action)
    requires Quiet(q, s) && Enabled(s, a) && Apply(s, a).files == q.files
    ensures CleanRowsSafe(q, Apply(s, a))
  {
    hide TokenColumn, OnTrack;
    var t := Apply(s, a);
    forall id | id in t.scans && id !in q.scans && t.scans[id].Checking? && t.scans[id].path in t.files
                && Clean(t.files, q.rows, t.scans[id].path)
      ensures t.scans[id].prevHash == hashContent(t.files[t.scans[id].path])
    {
      assert id in s.scans;
    }
  }

  lemma QuietStepKeepsRowsSince(q: State, s: State, a: Action)
    requires Quiet(q, s) && Enabled(s, a) && Apply(s, a).files == q.files
    ensures RowsSince(q, Apply(s, a))
  {
    QuietStepKeepsRowsSafe(q, s, a);
    QuietRowsSettle(q, s, a);
    hide TokenColumn, Apply, Enabled, ScansOnTrack, CleanRowsSafe;
  }

  lemma FinishedScansStay(s: State, a: Action)
    requires Enabled(s, a)
    ensures forall id | id in s.scans && s.scans[id].Finished? ::
              id in Apply(s, a).scans && Apply(s, a).scans[id] == s.scans[id]
  {
  }

  lemma StepKeepsQuiet(q: State, s: State, t: State)
    requires Quiet(q, s) && Next(s, t) && t.files == q.files
    ensures Quiet(q, t)
  {
    var a :| Enabled(s, a) && t == Apply(s, a);
    hide Apply, Enabled, OnTrack, RowsSince;
    forall id | id in t.scans && id !in q.scans ensures OnTrack(t.files, t.rows, t.scans[id]) {
      QuietStepKeepsOnTrack(q, s, a, id);
    }
    QuietStepKeepsRowsSince(q, s, a);
    FinishedScansStay(s, a);
  }

  /** From k on the files hold still, and the scans begun by then are over. */
  ghost predicate AtRestFrom(run: seq<State>, k: nat)
    requires k < |run|
  {
    && (forall j | k <= j < |run| :: run[j].files == run[k].files)
    && (forall id | id in run[k].scans :: run[k].scans[id].Finished?)
  }

  lemma QuietAtFirst(q: State)
    ensures (forall id | id in q.scans :: q.scans[id].Finished?) ==> Quiet(q, q)
  {
  }

  lemma {:induction false} RestingRunIsQuiet(run: seq<State>, k: nat, n: nat)
    requires IsRun(run) && k <= n < |run| && AtRestFrom(run, k)
    ensures Quiet(run[k], run[n])
  {
    QuietAtFirst(run[k]);
    hide Next, Quiet;
    if k < n {
      RestingRunIsQuiet(run, k, n - 1);
      StepKeepsQuiet(run[k], run[n - 1], run[n]);
    }
  }

  lemma {:induction false} OnceCleanAlwaysClean(run: seq<State>, k: nat, n: nat, m: nat)
    requires IsRun(run) && k <= n <= m < |run| && AtRestFrom(run, k)
    requires AllClean(run[k].files, run[n].rows, run[k].files.Keys) && run[n].rows.Keys == run[k].files.Keys
    ensures AllClean(run[k].files, run[m].rows, run[k].files.Keys) && run[m].rows.Keys == run[k].files.Keys
  {
    hide Next, Quiet, AllClean;
    if n < m {
      OnceCleanAlwaysClean(run, k, n, m - 1);
      RestingRunIsQuiet(run, k, m - 1);
      StepKeepsClean(run[k], run[m - 1], run[m]);
    }
  }

  lemma StepKeepsClean(q: State, s: State, t: State)
    requires Quiet(q, s) && Next(s, t) && t.files == q.files
    requires AllClean(q.files, s.rows, q.files.Keys) && s.rows.Keys == q.files.Keys
    ensures AllClean(q.files, t.rows, q.files.Keys) && t.rows.Keys == q.files.Keys
  {
    var a :| Enabled(s, a) && t == Apply(s, a);
    QuietRowsSettle(q, s, a);
    SettledStaysClean(q.files, s.rows, t.rows);
  }

  lemma SettledStaysClean(files: map<string, string>, rows: map<string, Stored>, rows': map<string, Stored>)
    requires Settles(files, rows, rows') && AllClean(files, rows, files.Keys) && rows.Keys == files.Keys
    ensures AllClean(files, rows', files.Keys) && rows'.Keys == files.Keys
  {
    assert forall p | p in files :: Clean(files, rows', p);
  }

  function DocsOf(rows: map<string, Stored>): map<string, Doc> {
    map p | p in rows :: rows[p].doc
  }

  lemma CleanRowIsCurrentUnlessCollision(q: State, s: State, p: string)
    requires Quiet(q, s) && RowsWereHeld(s) && p in s.files && Clean(s.files, s.rows, p)
    ensures s.rows[p].doc == Indexed(s.files[p]) <==>
            (p in q.rows ==> !Collides(q.rows[p].doc, q.files[p]))
  {
    hide TokenColumn;
    assert SoundDoc(s.rows[p].doc);
  }

  lemma CleanIsRebuiltUnlessCollision(q: State, s: State)
    requires Quiet(q, s) && RowsWereHeld(s)
    requires AllClean(s.files, s.rows, s.files.Keys) && s.rows.Keys == s.files.Keys
    ensures DocsOf(s.rows) == Rebuild(s.files.Keys, s.files) <==> NoCollision(DocsOf(q.rows), q.files.Keys, q.files)
  {
    hide TokenColumn;
    forall p | p in s.files
      ensures s.rows[p].doc == Indexed(s.files[p]) <==>
              (p in q.rows ==> !Collides(q.rows[p].doc, q.files[p]))
    {
      CleanRowIsCurrentUnlessCollision(q, s, p);
    }
    SameDocs(s.rows, s.files);
  }

  lemma SameDocs(rows: map<string, Stored>, files: map<string, string>)
    requires rows.Keys == files.Keys
    ensures DocsOf(rows) == Rebuild(files.Keys, files) <==> forall p | p in files :: rows[p].doc == Indexed(files[p])
  {
    hide TokenColumn;
    if DocsOf(rows) == Rebuild(files.Keys, files) {
      forall p | p in files ensures rows[p].doc == Indexed(files[p]) {
        assert DocsOf(rows)[p] == Rebuild(files.Keys, files)[p];
      }
    }
  }

  /**
   Whatever scans run beside it, a scan that succeeds while the files hold still has the effect of a scan alone: a row for
   each file and no other, left as it was if its hash was current, else made from the file.
   */
  lemma SuccessfulScanRefreshes(run: seq<State>, k: nat, id: nat, n: nat)
    requires IsRun(run) && Consistent(run[0]) && k <= n < |run| && AtRestFrom(run, k)
    requires id !in run[k].scans && id in run[n].scans && run[n].scans[id] == Finished(true)
    ensures var q, s := run[k], run[n];
            && s.rows.Keys == q.files.Keys
            && forall p | p in q.files ::
                 s.rows[p].doc == if p in q.rows && q.rows[p].doc.hash == hashContent(q.files[p]) then q.rows[p].doc
                                  else Indexed(q.files[p])
  {
    RestingRunIsQuiet(run, k, n);
    RunIsConsistent(run, n);
    RefreshedByNow(run[k], run[n], id);
  }

  lemma RefreshedByNow(q: State, s: State, id: nat)
    requires Quiet(q, s) && RowsWereHeld(s) && id !in q.scans && id in s.scans && s.scans[id] == Finished(true)
    ensures s.rows.Keys == q.files.Keys
    ensures forall p | p in q.files ::
              s.rows[p].doc == if p in q.rows && q.rows[p].doc.hash == hashContent(q.files[p]) then q.rows[p].doc
                               else Indexed(q.files[p])
  {
    hide TokenColumn;
    assert OnTrack(s.files, s.rows, s.scans[id]);
    forall p | p in q.files
      ensures s.rows[p].doc == if Clean(q.files, q.rows, p) then q.rows[p].doc else Indexed(q.files[p])
    {
      assert Clean(s.files, s.rows, p);
      assert SoundDoc(s.rows[p].doc);
    }
  }

  /**
   Once the files hold still and the scans begun earlier are over, any scan that then succeeds leaves the index equal to
   a full rebuild, and nothing any other scan does can undo it; provided that, and only if, the index held no hash
   collision when the files came to rest.
   */
  lemma ScansConverge(run: seq<State>, k: nat, id: nat, n: nat, m: nat)
    requires IsRun(run) && Consistent(run[0]) && k <= n <= m < |run| && AtRestFrom(run, k)
    requires id !in run[k].scans && id in run[n].scans && run[n].scans[id] == Finished(true)
    ensures DocsOf(run[m].rows) == Rebuild(run[k].files.Keys, run[k].files) <==> NoCollision(DocsOf(run[k].rows), run[k].files.Keys, run[k].files)
  {
    RestingRunIsQuiet(run, k, n);
    assert OnTrack(run[n].files, run[n].rows, run[n].scans[id]);
    OnceCleanAlwaysClean(run, k, n, m);
    RestingRunIsQuiet(run, k, m);
    RunIsConsistent(run, m);
    CleanIsRebuiltUnlessCollision(run[k], run[m]);
  }

  /* ---------- Such a scan is always possible ---------- */

  /** longer goes on from run with steps of one scan only; the files hold still. */
  ghost predicate Continues(run: seq<State>, longer: seq<State>, id: nat)
    requires run != []
  {
    && IsRun(longer) && |run| <= |longer| && longer[..|run|] == run
    && (forall j | |run| <= j < |longer| :: longer[j].files == run[|run| - 1].files)
    && (forall j | |run| <= j < |longer| :: longer[j].scans.Keys == run[|run| - 1].scans.Keys + {id})
  }

  /** One more step of that scan. */
  lemma ContinueBy(run: seq<State>, part: seq<State>, id: nat, a: Action) returns (longer: seq<State>)
    requires run != [] && Continues(run, part, id) && Enabled(part[|part| - 1], a)
    requires !a.Write? && !a.Remove? && a.id == id
    ensures Continues(run, longer, id) && longer == part + [Apply(part[|part| - 1], a)]
  {
    longer := Then(part, a, Apply(part[|part| - 1], a));
    var last, next := part[|part| - 1], Apply(part[|part| - 1], a);
    assert next.files == last.files && next.scans.Keys == last.scans.Keys + {id} by { hide TokenColumn; }
    assert longer[..|run|] == part[..|run|];
  }

  /** Removing what is left to remove, then finishing. */
  lemma {:induction false} RemovalCanFinish(run: seq<State>, part: seq<State>, id: nat, todo: set<string>)
    returns (longer: seq<State>)
    requires run != [] && Continues(run, part, id)
    requires id in part[|part| - 1].scans && part[|part| - 1].scans[id] == Removing(todo)
    ensures Continues(run, longer, id) && |longer| > |part|
    ensures id in longer[|longer| - 1].scans && longer[|longer| - 1].scans[id] == Finished(true)
    decreases todo
  {
    hide Continues;
    if todo == {} {
      longer := ContinueBy(run, part, id, Finish(id));
    } else {
      var p :| p in todo;
      var more := ContinueBy(run, part, id, Delete(id, p));
      longer := RemovalCanFinish(run, more, id, todo - {p});
    }
  }

  /** Visiting the files not yet seen, then removing. */
  lemma {:induction false} WalkCanFinish(run: seq<State>, part: seq<State>, id: nat, w: WalkState)
    returns (longer: seq<State>)
    requires run != [] && Continues(run, part, id)
    requires id in part[|part| - 1].scans && part[|part| - 1].scans[id] == Walking(w)
    requires w.always == w.ever == part[|part| - 1].files.Keys && w.seen <= w.ever
    ensures Continues(run, longer, id) && |longer| > |part|
    ensures id in longer[|longer| - 1].scans && longer[|longer| - 1].scans[id] == Finished(true)
    decreases w.ever - w.seen
  {
    hide Continues, TokenColumn;
    var rest := w.ever - w.seen;
    if rest == {} {
      assert forall p | p in w.ever :: p !in rest ==> p in w.seen;
      var more := ContinueBy(run, part, id, List(id));
      longer := RemovalCanFinish(run, more, id, more[|more| - 1].scans[id].todo);
    } else {
      var p :| p in rest;
      var w' := w.(seen := w.seen + {p});
      var more := ContinueBy(run, part, id, Read(id, p));
      more := ContinueBy(run, more, id, LookUp(id));
      more := ContinueBy(run, more, id, Store(id));
      assert w'.ever - w'.seen == rest - {p};
      longer := WalkCanFinish(run, more, id, w');
    }
  }

  lemma AtRestThroughout(run: seq<State>)
    requires run != [] && (forall j | 0 <= j < |run| :: run[j].files == run[0].files)
    requires forall i | i in run[0].scans :: run[0].scans[i].Finished?
    ensures AtRestFrom(run, 0)
  {
  }

  lemma OneScanFinishes(q: State, id: nat) returns (run: seq<State>)
    requires id !in q.scans
    ensures run != [] && IsRun(run) && run[0] == q && forall j | 0 <= j < |run| :: run[j].files == q.files
    ensures id in run[|run| - 1].scans && run[|run| - 1].scans[id] == Finished(true)
  {
    hide TokenColumn;
    var start := [q];
    var part := ContinueBy(start, start, id, Start(id));
    run := WalkCanFinish(start, part, id, WalkState({}, q.files.Keys, q.files.Keys));
    assert run[..1] == start && run[0] == start[0];
  }

  /**
   Whatever state the index is in, one scan left to itself can finish, and then the index is a full rebuild unless it
   held a hash collision.
   */
  lemma OneScanRestoresTheIndex(q: State, id: nat) returns (run: seq<State>)
    requires Consistent(q) && id !in q.scans && forall i | i in q.scans :: q.scans[i].Finished?
    ensures IsRun(run) && run[0] == q && forall j | 0 <= j < |run| :: run[j].files == q.files
    ensures DocsOf(run[|run| - 1].rows) == Rebuild(q.files.Keys, q.files) <==> NoCollision(DocsOf(q.rows), q.files.Keys, q.files)
  {
    hide *;
    run := OneScanFinishes(q, id);
    AtRestThroughout(run);
    ScansConverge(run, 0, id, |run| - 1, |run| - 1);
  }
}
