/** What the Markdown files and the SQLite mirror have in common, in every run. */
module Conservation {
  import opened Wrappers
  import opened Text
  import opened Decimal
  import opened Sessions
  import opened Allow
  import opened Pipeline

  /** A line of a session file, named by its file. */
  datatype Place = Place(key: string, line: Line)

  /** The mirrored messages that belong to one file, as the file would show them. */
  ghost function MirrorLines(db: seq<Message>, key: string): seq<Line> {
    if db == [] then []
    else
      var m := db[|db| - 1];
      MirrorLines(db[..|db| - 1], key) + if FileKey(m.session) == key then [Line(m.role, TrimSpace(m.content))] else []
  }

  ghost function CopiesFiled(st: Stores, at: Place): nat {
    multiset(Lines(st, at.key))[at.line]
  }

  /** Copies in SQLite, over all session ids that share the file. */
  ghost function CopiesMirrored(st: Stores, at: Place): nat {
    multiset(MirrorLines(st.db, at.key))[at.line]
  }

  /** Where a task's prompt is filed. */
  ghost function PromptPlace(t: Task): Place {
    Place(FileKey(t.session), Line(PromptRole(t), TrimSpace(t.prompt)))
  }

  /** Where its reply is. */
  ghost function ReplyPlace(t: Task, reply: string): Place {
    Place(FileKey(t.session), Line("assistant", TrimSpace(reply)))
  }

  /** What a task has filed and not mirrored: it is between the two, or the mirroring failed. */
  ghost function Owed(p: Progress): Option<Place> {
    match p.stage
    case PromptFiled => Some(PromptPlace(p.task))
    case Ended(PromptUnmirrored) => Some(PromptPlace(p.task))
    case ReplyFiled => Some(ReplyPlace(p.task, p.reply))
    case Ended(ReplyUnmirrored) => Some(ReplyPlace(p.task, p.reply))
    case _ => None
  }

  ghost function Owing(tasks: map<nat, Progress>, at: Place): nat {
    Count(tasks, p => Owed(p) == Some(at))
  }

  /** Copies filed, less copies mirrored, less copies owed. */
  ghost function Imbalance(s: State, at: Place): int {
    CopiesFiled(s.stores, at) - CopiesMirrored(s.stores, at) - Owing(s.tasks, at)
  }

  /* ---------- One step ---------- */

  /** The line a step appends to a file. */
  ghost function Files(s: State, a: Action): Option<Place>
    requires !a.Submit? ==> a.id in s.tasks
  {
    if a.FilePrompt? && a.ok then Some(PromptPlace(s.tasks[a.id].task))
    else if a.FileReply? && a.ok then Some(ReplyPlace(s.tasks[a.id].task, s.tasks[a.id].reply))
    else None
  }

  /** The message a step inserts into SQLite. */
  ghost function Inserts(s: State, a: Action): Option<Message>
    requires !a.Submit? ==> a.id in s.tasks
  {
    if a.MirrorPrompt? && a.ok then
      var t := s.tasks[a.id].task;
      Some(Message(t.session, PromptRole(t), t.prompt))
    else if a.MirrorReply? && a.ok then
      var p := s.tasks[a.id];
      Some(Message(p.task.session, "assistant", p.reply))
    else None
  }

  ghost function AsFiled(m: Message): Place {
    Place(FileKey(m.session), Line(m.role, TrimSpace(m.content)))
  }

  lemma StoresAfterStep(allow: seq<string>, s: State, a: Action)
    requires Enabled(allow, s, a)
    ensures var t := Apply(allow, s, a).stores;
            && (forall key :: Lines(t, key) == Lines(s.stores, key)
                              + if Files(s, a).Some? && Files(s, a).value.key == key then [Files(s, a).value.line] else [])
            && t.db == s.stores.db + if Inserts(s, a).Some? then [Inserts(s, a).value] else []
  {
  }

  lemma CopiesAfterStep(allow: seq<string>, s: State, a: Action, at: Place)
    requires Enabled(allow, s, a)
    ensures var t := Apply(allow, s, a).stores;
            && CopiesFiled(t, at) == CopiesFiled(s.stores, at) + (if Files(s, a) == Some(at) then 1 else 0)
            && CopiesMirrored(t, at) == CopiesMirrored(s.stores, at)
                                        + if Inserts(s, a).Some? && AsFiled(Inserts(s, a).value) == at then 1 else 0
  {
    StoresAfterStep(allow, s, a);
    if Inserts(s, a).Some? {
      assert (s.stores.db + [Inserts(s, a).value])[..|s.stores.db|] == s.stores.db;
    } else {
      assert s.stores.db + [] == s.stores.db;
    }
  }

  /** A step changes what its own task owes by what it files, less what it mirrors. */
  lemma DebtAfterStep(allow: seq<string>, s: State, a: Action)
    requires Enabled(allow, s, a)
    ensures a.id in Apply(allow, s, a).tasks
    ensures var was, now := if a.Submit? then None else Owed(s.tasks[a.id]), Owed(Apply(allow, s, a).tasks[a.id]);
            if Files(s, a).Some? then was == None && now == Files(s, a)
            else if Inserts(s, a).Some? then was == Some(AsFiled(Inserts(s, a).value)) && now == None
            else now == was
  {
    hide FileKey, TrimSpace, Blank, FormatInt;
  }

  lemma StepKeepsImbalance(allow: seq<string>, s: State, a: Action, at: Place)
    requires Enabled(allow, s, a)
    ensures Imbalance(Apply(allow, s, a), at) == Imbalance(s, at)
  {
    var t := Apply(allow, s, a);
    CopiesAfterStep(allow, s, a, at);
    DebtAfterStep(allow, s, a);
    StepChangesOneTask(allow, s, a);
    CountAfterChange(s.tasks, t.tasks, a.id, p => Owed(p) == Some(at));
  }

  /* ---------- Whole runs ---------- */

  /**
   The mirror law. In every state of every interleaving, whatever fails: copies of a line in its file are the copies in
   SQLite over all sessions filed there, plus one for each task that has filed it and not mirrored it.
   */
  lemma {:induction false} MirrorIsConserved(allow: seq<string>, run: seq<State>, n: nat, at: Place)
    requires IsRun(allow, run) && n < |run|
    ensures Imbalance(run[n], at) == CopiesFiled(run[0].stores, at) - CopiesMirrored(run[0].stores, at)
  {
    if n == 0 {
      assert Those(run[0].tasks, p => Owed(p) == Some(at)) == {};
    } else {
      MirrorIsConserved(allow, run, n - 1, at);
      hide Imbalance;
      assert Next(allow, run[n - 1], run[n]);
      var a :| Enabled(allow, run[n - 1], a) && run[n] == Apply(allow, run[n - 1], a);
      hide Enabled, Apply;
      StepKeepsImbalance(allow, run[n - 1], a, at);
    }
  }

  /** Some task has filed a line in this file and not mirrored it. */
  ghost predicate FileIsOwed(tasks: map<nat, Progress>, key: string) {
    exists id :: id in tasks && Owed(tasks[id]).Some? && Owed(tasks[id]).value.key == key
  }

  /** From stores that agree on a file, they agree on it again exactly when no task owes it a line. */
  lemma EqualUnlessOwed(allow: seq<string>, run: seq<State>, n: nat, key: string)
    requires IsRun(allow, run) && n < |run|
    requires multiset(Lines(run[0].stores, key)) == multiset(MirrorLines(run[0].stores.db, key))
    ensures multiset(Lines(run[n].stores, key)) == multiset(MirrorLines(run[n].stores.db, key))
            <==> !FileIsOwed(run[n].tasks, key)
  {
    var tasks := run[n].tasks;
    forall line: Line
      ensures var at := Place(key, line); CopiesFiled(run[n].stores, at) == CopiesMirrored(run[n].stores, at) + Owing(tasks, at)
    {
      MirrorIsConserved(allow, run, n, Place(key, line));
    }
    if !FileIsOwed(tasks, key) {
      forall line: Line
        ensures multiset(Lines(run[n].stores, key))[line] == multiset(MirrorLines(run[n].stores.db, key))[line]
      {
        assert Those(tasks, p => Owed(p) == Some(Place(key, line))) == {};
      }
    } else {
      var id :| id in tasks && Owed(tasks[id]).Some? && Owed(tasks[id]).value.key == key;
      var at := Owed(tasks[id]).value;
      assert id in Those(tasks, p => Owed(p) == Some(at));
      assert CopiesFiled(run[n].stores, at) > CopiesMirrored(run[n].stores, at);
    }
  }

  /** The first steps of a job with a blank session, from empty stores. */
  lemma BlankSessionIsFiled(allow: seq<string>, task: Task, begun: Progress) returns (run: seq<State>)
    requires task.origin.Cron? && Blank(task.session) && task.prompt != "" && TrimSpace(task.prompt) == task.prompt
    requires begun == Progress(task, Fresh, "", [])
    ensures IsRun(allow, run) && |run| == 3 && run[0] == State(Stores(map[], []), map[])
    ensures run[2] == State(Stores(map["unknown" := [Line("system", task.prompt)]], []), map[0 := begun.(stage := PromptFiled)])
  {
    BlankSessionsAreFiledUnderUnknown(task.session);
    hide FileKey, TrimSpace, Blank, FormatInt, IsAllowedUser;
    var empty, line := Stores(map[], []), Line("system", task.prompt);
    assert Lines(empty, "unknown") + [line] == [line];
    run := Then(allow, [State(empty, map[])], Submit(0, task), State(empty, map[0 := begun]));
    var filed := Stores(map["unknown" := [line]], []);
    run := Then(allow, run, FilePrompt(0, true), State(filed, map[0 := begun.(stage := PromptFiled)]));
  }

  /** A job with a blank session: its prompt is filed, and SQLite stays empty. */
  lemma BlankSessionIsOwed(allow: seq<string>, task: Task) returns (run: seq<State>)
    requires task.origin.Cron? && Blank(task.session) && task.prompt != "" && TrimSpace(task.prompt) == task.prompt
    ensures IsRun(allow, run) && run[0].stores == Stores(map[], [])
    ensures run[|run| - 1].stores == Stores(map["unknown" := [Line("system", task.prompt)]], [])
    ensures FileIsOwed(run[|run| - 1].tasks, "unknown")
  {
    BlankSessionsAreFiledUnderUnknown(task.session);
    hide FileKey, TrimSpace, Blank, FormatInt, IsAllowedUser;
    var begun := Progress(task, Fresh, "", []);
    run := BlankSessionIsFiled(allow, task, begun);
    var over := begun.(stage := Ended(PromptUnmirrored));
    run := Then(allow, run, MirrorPrompt(0, false), State(run[2].stores, map[0 := over]));
    var last := run[|run| - 1].tasks;
    assert 0 in last && Owed(last[0]) == Some(PromptPlace(task));
  }

  /** A blank session is filed under "unknown" and never mirrored: its task ends owing its prompt. */
  ghost predicate BlankTasksOwe(s: State) {
    forall id | id in s.tasks && Blank(s.tasks[id].task.session) ::
      s.tasks[id].stage in {Fresh, PromptFiled, Ended(PromptUnfiled), Ended(PromptUnmirrored)}
  }

  ghost predicate NoBlankAfter(db: seq<Message>, n: nat) {
    n <= |db| && forall i | n <= i < |db| :: !Blank(db[i].session)
  }

  lemma StepKeepsBlankUnmirrored(allow: seq<string>, s: State, t: State, n: nat)
    requires Next(allow, s, t) && BlankTasksOwe(s) && NoBlankAfter(s.stores.db, n)
    ensures BlankTasksOwe(t) && NoBlankAfter(t.stores.db, n)
  {
    hide FileKey, TrimSpace, Blank, FormatInt;
    var a :| Enabled(allow, s, a) && t == Apply(allow, s, a);
    StoresAfterStep(allow, s, a);
    StepChangesOneTask(allow, s, a);
  }

  lemma {:induction false} BlankSessionsAreNeverMirrored(allow: seq<string>, run: seq<State>, n: nat)
    requires IsRun(allow, run) && n < |run|
    ensures BlankTasksOwe(run[n]) && NoBlankAfter(run[n].stores.db, |run[0].stores.db|)
  {
    assert n == 0 ==> BlankTasksOwe(run[n]) && NoBlankAfter(run[n].stores.db, |run[0].stores.db|);
    hide Next, BlankTasksOwe, NoBlankAfter;
    if n > 0 {
      BlankSessionsAreNeverMirrored(allow, run, n - 1);
      StepKeepsBlankUnmirrored(allow, run[n - 1], run[n], |run[0].stores.db|);
    }
  }

  lemma BlankSessionsAreFiledUnderUnknown(session: string)
    requires Blank(session)
    ensures FileKey(session) == "unknown"
  {
    var u := "unknown";
    assert CleanRunes(u) == u;
    NothingToTrim(IsDash, u);
  }
}
