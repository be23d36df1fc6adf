/** Tasks that run one after the other without failure: file and mirror agree line for line, in order. */
module Sequential {
  import opened Text
  import opened Sessions
  import opened Pipeline
  import opened Conservation
  import opened Balance
  import opened Orchestrator

  /** A task and the reply it got. */
  datatype Exchange = Exchange(task: Task, reply: string)

  function RunAll(st: Stores, xs: seq<Exchange>): Stores {
    if xs == [] then st
    else Written(RunAll(st, xs[..|xs| - 1]), xs[|xs| - 1].task, xs[|xs| - 1].reply, 4)
  }

  /** a can be had from b by leaving lines out. */
  ghost predicate IsSubsequence(a: seq<Line>, b: seq<Line>) {
    a == [] ||
    (b != [] && (IsSubsequence(a, b[..|b| - 1])
                 || (a[|a| - 1] == b[|b| - 1] && IsSubsequence(a[..|a| - 1], b[..|b| - 1]))))
  }

  /** A session's log with its contents trimmed, as its file would show them. */
  ghost function TrimmedLog(db: seq<Message>, session: string): seq<Line> {
    var log := SessionLog(db, session);
    seq(|log|, i requires 0 <= i < |log| => Line(log[i].role, TrimSpace(log[i].content)))
  }

  lemma OneMoreMessage(db: seq<Message>, m: Message, key: string, session: string)
    ensures MirrorLines(db + [m], key) ==
            MirrorLines(db, key) + if FileKey(m.session) == key then [Line(m.role, TrimSpace(m.content))] else []
    ensures TrimmedLog(db + [m], session) ==
            TrimmedLog(db, session) + if m.session == session then [Line(m.role, TrimSpace(m.content))] else []
  {
    hide FileKey, TrimSpace;
    assert (db + [m])[..|db|] == db;
  }

  lemma FileThenMirror(st: Stores, session: string, role: string, content: string, key: string)
    requires Lines(st, key) == MirrorLines(st.db, key)
    ensures var t := Mirror(File(st, session, role, content), session, role, content);
            Lines(t, key) == MirrorLines(t.db, key)
  {
    hide FileKey, TrimSpace;
    OneMoreMessage(st.db, Message(session, role, content), key, session);
  }

  lemma WrittenInPairs(st: Stores, t: Task, reply: string)
    ensures var prompted := Written(st, t, reply, 2);
            && prompted == Mirror(File(st, t.session, PromptRole(t), t.prompt), t.session, PromptRole(t), t.prompt)
            && Written(st, t, reply, 4) ==
               Mirror(File(prompted, t.session, "assistant", reply), t.session, "assistant", reply)
  {
    hide File, Mirror, PromptRole;
    assert Written(st, t, reply, 1) == File(st, t.session, PromptRole(t), t.prompt);
    assert Written(st, t, reply, 3) == File(Written(st, t, reply, 2), t.session, "assistant", reply);
  }

  /** After any sequence of undisturbed, successful tasks, each file is its mirror, line for line and in order. */
  lemma {:induction false} FilesEqualTheirMirror(xs: seq<Exchange>, key: string)
    ensures var st := RunAll(Stores(map[], []), xs); Lines(st, key) == MirrorLines(st.db, key)
  {
    hide FileKey, TrimSpace, PromptRole, File, Mirror;
    if xs != [] {
      var x := xs[|xs| - 1];
      FilesEqualTheirMirror(xs[..|xs| - 1], key);
      var st := RunAll(Stores(map[], []), xs[..|xs| - 1]);
      FileThenMirror(st, x.task.session, PromptRole(x.task), x.task.prompt, key);
      WrittenInPairs(st, x.task, x.reply);
      FileThenMirror(Written(st, x.task, x.reply, 2), x.task.session, "assistant", x.reply, key);
    } else {
      assert Lines(Stores(map[], []), key) == [];
    }
  }

  /** No message in the table belongs to another session with the same file. */
  ghost predicate HasFileToItself(db: seq<Message>, session: string) {
    forall i | 0 <= i < |db| && FileKey(db[i].session) == FileKey(session) :: db[i].session == session
  }

  /** A session's log is part of its file's mirror, in order; it is all of it exactly when no other session shares the file. */
  lemma {:induction false} LogWithinMirror(db: seq<Message>, session: string)
    ensures IsSubsequence(TrimmedLog(db, session), MirrorLines(db, FileKey(session)))
    ensures |TrimmedLog(db, session)| <= |MirrorLines(db, FileKey(session))|
    ensures if HasFileToItself(db, session) then TrimmedLog(db, session) == MirrorLines(db, FileKey(session))
            else |TrimmedLog(db, session)| < |MirrorLines(db, FileKey(session))|
  {
    hide FileKey, TrimSpace;
    if db != [] {
      var front, m := db[..|db| - 1], db[|db| - 1];
      assert db == front + [m] && forall i | 0 <= i < |front| :: db[i] == front[i];
      LogWithinMirror(front, session);
      OneMoreMessage(front, m, FileKey(session), session);
      var a, b := TrimmedLog(front, session), MirrorLines(front, FileKey(session));
      var line := Line(m.role, TrimSpace(m.content));
      assert (a + [line])[..|a|] == a && (b + [line])[..|b|] == b;
      assert a + [] == a && b + [] == b;
    }
  }

  /** So a session's log is an ordered part of its file, and equals it exactly when no other session shares the file. */
  lemma LogIsPartOfItsFile(xs: seq<Exchange>, session: string)
    ensures var st := RunAll(Stores(map[], []), xs);
            && IsSubsequence(TrimmedLog(st.db, session), Lines(st, FileKey(session)))
            && (HasFileToItself(st.db, session) <==> TrimmedLog(st.db, session) == Lines(st, FileKey(session)))
  {
    hide FileKey, TrimSpace, RunAll, IsSubsequence;
    FilesEqualTheirMirror(xs, FileKey(session));
    LogWithinMirror(RunAll(Stores(map[], []), xs).db, session);
  }
}
