/** Prompts and replies in the Markdown files and in the SQLite session logs, in every run. */
module Balance {
  import opened Text
  import opened Decimal
  import opened Sessions
  import opened Pipeline
  import opened Conservation

  /** Prompts less replies. */
  ghost function Surplus(lines: seq<Line>): int {
    if lines == [] then 0
    else Surplus(lines[..|lines| - 1]) + if lines[|lines| - 1].role == "assistant" then -1 else 1
  }

  /** Read from the top, there are never more replies than prompts. */
  ghost predicate NeverAhead(lines: seq<Line>) {
    forall n | 0 <= n <= |lines| :: Surplus(lines[..n]) >= 0
  }

  ghost function SessionLog(db: seq<Message>, session: string): seq<Line> {
    if db == [] then []
    else
      var m := db[|db| - 1];
      SessionLog(db[..|db| - 1], session) + if m.session == session then [Line(m.role, m.content)] else []
  }

  /** Has filed its prompt and not its reply, in this file. */
  ghost predicate OpenInFile(p: Progress, key: string) {
    FileKey(p.task.session) == key
    && p.stage in {PromptFiled, PromptMirrored, Answered, Ended(PromptUnmirrored), Ended(Unanswered), Ended(ReplyUnfiled)}
  }

  /** Has mirrored its prompt and not its reply, in this session. */
  ghost predicate OpenInLog(p: Progress, session: string) {
    p.task.session == session
    && p.stage in {PromptMirrored, Answered, ReplyFiled, Ended(Unanswered), Ended(ReplyUnfiled), Ended(ReplyUnmirrored)}
  }

  lemma OneMoreLine(lines: seq<Line>, line: Line)
    ensures Surplus(lines + [line]) == Surplus(lines) + if line.role == "assistant" then -1 else 1
    ensures NeverAhead(lines) && Surplus(lines + [line]) >= 0 ==> NeverAhead(lines + [line])
  {
    var more := lines + [line];
    assert more[..|lines|] == lines;
    if NeverAhead(lines) && Surplus(more) >= 0 {
      forall n | 0 <= n <= |more| ensures Surplus(more[..n]) >= 0 {
        if n <= |lines| { assert more[..n] == lines[..n]; } else { assert more[..n] == more; }
      }
    }
  }

  lemma LogAfterStep(allow: seq<string>, s: State, a: Action, session: string)
    requires Enabled(allow, s, a)
    ensures SessionLog(Apply(allow, s, a).stores.db, session) == SessionLog(s.stores.db, session) +
            if Inserts(s, a).Some? && Inserts(s, a).value.session == session
            then [Line(Inserts(s, a).value.role, Inserts(s, a).value.content)] else []
  {
    StoresAfterStep(allow, s, a);
    if Inserts(s, a).Some? {
      assert (s.stores.db + [Inserts(s, a).value])[..|s.stores.db|] == s.stores.db;
    } else {
      assert s.stores.db + [] == s.stores.db;
    }
  }

  /** A prompt opens the task in its file, a reply closes it. */
  lemma OpenAfterStep(allow: seq<string>, s: State, a: Action, key: string)
    requires Enabled(allow, s, a)
    ensures a.id in Apply(allow, s, a).tasks
    ensures var was, now := !a.Submit? && OpenInFile(s.tasks[a.id], key), OpenInFile(Apply(allow, s, a).tasks[a.id], key);
            if Files(s, a).None? || Files(s, a).value.key != key then now == was
            else if Files(s, a).value.line.role == "assistant" then was && !now
            else !was && now
  {
    hide FileKey, TrimSpace, Blank, FormatInt;
    var reply := "assistant";
    assert "user"[0] != reply[0] && "system"[0] != reply[0];
  }

  lemma OpenLogAfterStep(allow: seq<string>, s: State, a: Action, session: string)
    requires Enabled(allow, s, a)
    ensures a.id in Apply(allow, s, a).tasks
    ensures var was, now := !a.Submit? && OpenInLog(s.tasks[a.id], session), OpenInLog(Apply(allow, s, a).tasks[a.id], session);
            if Inserts(s, a).None? || Inserts(s, a).value.session != session then now == was
            else if Inserts(s, a).value.role == "assistant" then was && !now
            else !was && now
  {
    hide FileKey, TrimSpace, Blank, FormatInt;
    var reply := "assistant";
    assert "user"[0] != reply[0] && "system"[0] != reply[0];
  }

  lemma StepKeepsFileBalance(allow: seq<string>, s: State, a: Action, key: string)
    requires Enabled(allow, s, a)
    ensures var t, f := Apply(allow, s, a), p => OpenInFile(p, key);
            && Surplus(Lines(t.stores, key)) - Count(t.tasks, f) == Surplus(Lines(s.stores, key)) - Count(s.tasks, f)
            && (NeverAhead(Lines(s.stores, key)) && Surplus(Lines(t.stores, key)) >= 0 ==> NeverAhead(Lines(t.stores, key)))
  {
    var t := Apply(allow, s, a);
    StoresAfterStep(allow, s, a);
    OpenAfterStep(allow, s, a, key);
    StepChangesOneTask(allow, s, a);
    CountAfterChange(s.tasks, t.tasks, a.id, p => OpenInFile(p, key));
    if Files(s, a).Some? && Files(s, a).value.key == key {
      OneMoreLine(Lines(s.stores, key), Files(s, a).value.line);
    } else {
      assert Lines(s.stores, key) + [] == Lines(s.stores, key);
    }
  }

  lemma StepKeepsLogBalance(allow: seq<string>, s: State, a: Action, session: string)
    requires Enabled(allow, s, a)
    ensures var t, f := Apply(allow, s, a), p => OpenInLog(p, session);
            var was, now := SessionLog(s.stores.db, session), SessionLog(t.stores.db, session);
            && Surplus(now) - Count(t.tasks, f) == Surplus(was) - Count(s.tasks, f)
            && (NeverAhead(was) && Surplus(now) >= 0 ==> NeverAhead(now))
  {
    var t := Apply(allow, s, a);
    var was := SessionLog(s.stores.db, session);
    LogAfterStep(allow, s, a, session);
    OpenLogAfterStep(allow, s, a, session);
    StepChangesOneTask(allow, s, a);
    CountAfterChange(s.tasks, t.tasks, a.id, p => OpenInLog(p, session));
    if Inserts(s, a).Some? && Inserts(s, a).value.session == session {
      OneMoreLine(was, Line(Inserts(s, a).value.role, Inserts(s, a).value.content));
    } else {
      assert was + [] == was;
    }
  }

  /**
   In every file of every run, prompts less replies are exactly the tasks that have filed a prompt there and not, or not
   yet, its reply; so replies never get ahead of prompts, wherever the file is cut.
   */
  lemma {:induction false} FilesBalance(allow: seq<string>, run: seq<State>, n: nat, key: string)
    requires IsRun(allow, run) && n < |run| && NeverAhead(Lines(run[0].stores, key))
    ensures Surplus(Lines(run[n].stores, key)) ==
            Surplus(Lines(run[0].stores, key)) + Count(run[n].tasks, p => OpenInFile(p, key))
    ensures NeverAhead(Lines(run[n].stores, key))
  {
    if n == 0 {
      assert Those(run[0].tasks, p => OpenInFile(p, key)) == {};
    } else {
      FilesBalance(allow, run[..n], n - 1, key);
      assert Next(allow, run[n - 1], run[n]);
      var a :| Enabled(allow, run[n - 1], a) && run[n] == Apply(allow, run[n - 1], a);
      StepKeepsFileBalance(allow, run[n - 1], a, key);
      var first := Lines(run[0].stores, key);
      assert first[..|first|] == first;
    }
  }

  /** The same for every SQLite session log. */
  lemma {:induction false} LogsBalance(allow: seq<string>, run: seq<State>, n: nat, session: string)
    requires IsRun(allow, run) && n < |run| && NeverAhead(SessionLog(run[0].stores.db, session))
    ensures Surplus(SessionLog(run[n].stores.db, session)) ==
            Surplus(SessionLog(run[0].stores.db, session)) + Count(run[n].tasks, p => OpenInLog(p, session))
    ensures NeverAhead(SessionLog(run[n].stores.db, session))
  {
    if n == 0 {
      assert Those(run[0].tasks, p => OpenInLog(p, session)) == {};
    } else {
      LogsBalance(allow, run[..n], n - 1, session);
      assert Next(allow, run[n - 1], run[n]);
      var a :| Enabled(allow, run[n - 1], a) && run[n] == Apply(allow, run[n - 1], a);
      StepKeepsLogBalance(allow, run[n - 1], a, session);
      var first := SessionLog(run[0].stores.db, session);
      assert first[..|first|] == first;
    }
  }
}
