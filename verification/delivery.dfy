/** What must have happened before a reply is sent, in every run. */
module Delivery {
  import opened Wrappers
  import opened Text
  import opened Decimal
  import opened Sessions
  import opened Allow
  import opened Pipeline
  import opened Conservation

  /** x stands before y. */
  ghost predicate InOrder<T>(s: seq<T>, x: T, y: T) {
    exists i, j :: 0 <= i < j < |s| && s[i] == x && s[j] == y
  }

  function PromptMessage(t: Task): Message {
    Message(t.session, PromptRole(t), t.prompt)
  }

  function ReplyMessage(t: Task, reply: string): Message {
    Message(t.session, "assistant", reply)
  }

  /** What has been added at the end since. */
  ghost function Added<T>(before: seq<T>, now: seq<T>): seq<T> {
    if |before| <= |now| then now[|before|..] else []
  }

  /** st is base with more lines and messages at the ends. */
  ghost predicate Grown(base: Stores, st: Stores) {
    base.db <= st.db && forall key :: Lines(base, key) <= Lines(st, key)
  }

  /** The lines of a task's file since base. */
  ghost function NewLines(base: Stores, st: Stores, t: Task): seq<Line> {
    Added(Lines(base, FileKey(t.session)), Lines(st, FileKey(t.session)))
  }

  ghost predicate PromptInFile(base: Stores, st: Stores, t: Task) {
    PromptPlace(t).line in NewLines(base, st, t)
  }

  ghost predicate BothInFile(base: Stores, st: Stores, t: Task, reply: string) {
    InOrder(NewLines(base, st, t), PromptPlace(t).line, ReplyPlace(t, reply).line)
  }

  ghost predicate PromptInLog(base: Stores, st: Stores, t: Task) {
    PromptMessage(t) in Added(base.db, st.db)
  }

  ghost predicate BothInLog(base: Stores, st: Stores, t: Task, reply: string) {
    InOrder(Added(base.db, st.db), PromptMessage(t), ReplyMessage(t, reply))
  }

  /** What a task's stage says has been added to the stores since base. */
  ghost predicate RecordedInOrder(base: Stores, st: Stores, p: Progress) {
    && (p.stage in {PromptFiled, PromptMirrored, Answered} ==> PromptInFile(base, st, p.task))
    && (p.stage in {PromptMirrored, Answered, ReplyFiled} ==> PromptInLog(base, st, p.task))
    && (p.stage in {ReplyFiled, ReplyMirrored, Ended(Refused), Ended(Unsent), Ended(Sent), Ended(Recorded)} ==>
          BothInFile(base, st, p.task, p.reply))
    && (p.stage in {ReplyMirrored, Ended(Refused), Ended(Unsent), Ended(Sent), Ended(Recorded)} ==>
          BothInLog(base, st, p.task, p.reply))
  }

  /** What a task's stage says about its reply and its HTTP requests. */
  ghost predicate PostsInOrder(allow: seq<string>, p: Progress) {
    && Admitted(allow, p.task)
    && (if p.stage in {Fresh, PromptFiled, PromptMirrored, Ended(PromptUnfiled), Ended(PromptUnmirrored), Ended(Unanswered)}
        then p.reply == "" else TrimSpace(p.reply) != "")
    && (p.stage == Ended(Recorded) ==> p.task.origin.Cron?)
    && (p.stage == ReplyMirrored ==> p.task.origin.Chat? && (p.posts == [] || p.posts == [false]))
    && (p.stage == Ended(Sent) ==> p.posts == [true] || p.posts == [false, true])
    && (p.stage == Ended(Unsent) ==> p.posts == [false, false])
    && (p.posts != [] ==> p.task.origin.Chat? && SenderAccepts(allow, p.task, p.reply)
                          && p.stage in {ReplyMirrored, Ended(Sent), Ended(Unsent)})
    && (p.stage == Ended(Refused) ==> p.task.origin.Chat? && p.task.origin.chat == 0)
  }

  lemma InOrderGrows<T>(s: seq<T>, more: seq<T>, x: T, y: T)
    ensures InOrder(s, x, y) ==> InOrder(s + more, x, y)
    ensures x in s && more == [y] ==> InOrder(s + more, x, y)
  {
    if InOrder(s, x, y) {
      var i, j :| 0 <= i < j < |s| && s[i] == x && s[j] == y;
      assert (s + more)[i] == x && (s + more)[j] == y;
    }
    if x in s && more == [y] {
      var i :| 0 <= i < |s| && s[i] == x;
      assert (s + more)[i] == x && (s + more)[|s|] == y;
    }
  }

  lemma AddedGrows<T>(before: seq<T>, now: seq<T>, more: seq<T>)
    requires before <= now
    ensures before <= now + more && Added(before, now + more) == Added(before, now) + more
  {
  }

  /** The lines and messages that one step adds. */
  lemma AddedByStep(allow: seq<string>, base: Stores, s: State, a: Action, t: Task)
    requires Enabled(allow, s, a) && Grown(base, s.stores)
    ensures var st := Apply(allow, s, a).stores;
            && Grown(base, st)
            && NewLines(base, st, t) == NewLines(base, s.stores, t) +
               (if Files(s, a).Some? && Files(s, a).value.key == FileKey(t.session) then [Files(s, a).value.line] else [])
            && Added(base.db, st.db) == Added(base.db, s.stores.db) +
               (if Inserts(s, a).Some? then [Inserts(s, a).value] else [])
  {
    hide FileKey, TrimSpace, Blank, FormatInt, Added;
    StoresAfterStep(allow, s, a);
    hide Apply, Files, Inserts, Enabled;
    var st, more := Apply(allow, s, a).stores, if Inserts(s, a).Some? then [Inserts(s, a).value] else [];
    AddedGrows(base.db, s.stores.db, more);
    forall key
      ensures Lines(base, key) <= Lines(st, key)
      ensures Added(Lines(base, key), Lines(st, key)) == Added(Lines(base, key), Lines(s.stores, key)) +
              if Files(s, a).Some? && Files(s, a).value.key == key then [Files(s, a).value.line] else []
    {
      AddedGrows(Lines(base, key), Lines(s.stores, key),
                 if Files(s, a).Some? && Files(s, a).value.key == key then [Files(s, a).value.line] else []);
    }
  }

  lemma RecordsAfterStep(allow: seq<string>, base: Stores, s: State, a: Action, t: Task, reply: string)
    requires Enabled(allow, s, a) && Grown(base, s.stores)
    ensures var st := Apply(allow, s, a).stores;
            && (PromptInFile(base, s.stores, t) || Files(s, a) == Some(PromptPlace(t)) ==> PromptInFile(base, st, t))
            && (PromptInLog(base, s.stores, t) || Inserts(s, a) == Some(PromptMessage(t)) ==> PromptInLog(base, st, t))
            && (BothInFile(base, s.stores, t, reply)
                || (PromptInFile(base, s.stores, t) && Files(s, a) == Some(ReplyPlace(t, reply)))
                ==> BothInFile(base, st, t, reply))
            && (BothInLog(base, s.stores, t, reply)
                || (PromptInLog(base, s.stores, t) && Inserts(s, a) == Some(ReplyMessage(t, reply)))
                ==> BothInLog(base, st, t, reply))
  {
    hide FileKey, TrimSpace, Blank, FormatInt, InOrder, Added, NewLines, Apply, Files, Inserts, Grown;
    AddedByStep(allow, base, s, a, t);
    var line := if Files(s, a).Some? && Files(s, a).value.key == FileKey(t.session) then [Files(s, a).value.line] else [];
    InOrderGrows(NewLines(base, s.stores, t), line, PromptPlace(t).line, ReplyPlace(t, reply).line);
    var message := if Inserts(s, a).Some? then [Inserts(s, a).value] else [];
    InOrderGrows(Added(base.db, s.stores.db), message, PromptMessage(t), ReplyMessage(t, reply));
  }

  lemma StepKeepsRecords(allow: seq<string>, base: Stores, s: State, a: Action, id: nat)
    requires Enabled(allow, s, a) && id in Apply(allow, s, a).tasks && Grown(base, s.stores)
    requires id in s.tasks ==> RecordedInOrder(base, s.stores, s.tasks[id])
    ensures RecordedInOrder(base, Apply(allow, s, a).stores, Apply(allow, s, a).tasks[id])
  {
    hide PromptInFile, BothInFile, PromptInLog, BothInLog, File, Mirror, FileKey, TrimSpace, Blank, FormatInt, PromptPlace,
         ReplyPlace, Grown;
    var p := Apply(allow, s, a).tasks[id];
    RecordsAfterStep(allow, base, s, a, p.task, p.reply);
    StepChangesOneTask(allow, s, a);
  }

  lemma StepKeepsPosts(allow: seq<string>, s: State, a: Action, id: nat)
    requires Enabled(allow, s, a) && id in Apply(allow, s, a).tasks
    requires id in s.tasks ==> PostsInOrder(allow, s.tasks[id])
    ensures PostsInOrder(allow, Apply(allow, s, a).tasks[id])
  {
    hide FileKey, TrimSpace, Blank, FormatInt, File, Mirror;
    StepChangesOneTask(allow, s, a);
    if a.Send? && a.id == id {
      SendKeepsPosts(allow, s, a);
    }
  }

  lemma SendKeepsPosts(allow: seq<string>, s: State, a: Action)
    requires Enabled(allow, s, a) && a.Send? && PostsInOrder(allow, s.tasks[a.id])
    ensures PostsInOrder(allow, Apply(allow, s, a).tasks[a.id])
  {
    hide FileKey, TrimSpace, Blank, FormatInt, File, Mirror, IsAllowedUser;
    assert Apply(allow, s, a).tasks[a.id].task == s.tasks[a.id].task;
    assert [] + [a.ok] == [a.ok] && [false] + [a.ok] == [false, a.ok];
  }

  lemma StepKeepsGrown(allow: seq<string>, base: Stores, s: State, t: State)
    requires Next(allow, s, t) && Grown(base, s.stores)
    ensures Grown(base, t.stores)
  {
    hide Grown;
    var a :| Enabled(allow, s, a) && t == Apply(allow, s, a);
    AddedByStep(allow, base, s, a, Task("", "", Cron));
  }

  lemma GrownFromItself(st: Stores)
    ensures Grown(st, st)
  {
  }

  /** Stores only ever grow. */
  lemma {:induction false} RunGrows(allow: seq<string>, run: seq<State>, k: nat, n: nat)
    requires IsRun(allow, run) && k <= n < |run|
    ensures Grown(run[k].stores, run[n].stores)
  {
    hide Next, Grown;
    GrownFromItself(run[k].stores);
    if k < n {
      RunGrows(allow, run, k, n - 1);
      StepKeepsGrown(allow, run[k].stores, run[n - 1], run[n]);
    }
  }

  lemma StepKeepsTaskInOrder(allow: seq<string>, base: Stores, s: State, t: State, id: nat)
    requires Next(allow, s, t) && id in t.tasks && Grown(base, s.stores)
    requires id in s.tasks ==> RecordedInOrder(base, s.stores, s.tasks[id]) && PostsInOrder(allow, s.tasks[id])
    ensures RecordedInOrder(base, t.stores, t.tasks[id]) && PostsInOrder(allow, t.tasks[id])
  {
    hide RecordedInOrder, PostsInOrder, Grown;
    var a :| Enabled(allow, s, a) && t == Apply(allow, s, a);
    StepKeepsRecords(allow, base, s, a, id);
    StepKeepsPosts(allow, s, a, id);
  }

  /** Whatever its stage says, a task submitted after state k has recorded since then. */
  lemma {:induction false} TasksAreInOrder(allow: seq<string>, run: seq<State>, k: nat, n: nat, id: nat)
    requires IsRun(allow, run) && k <= n < |run| && id !in run[k].tasks && id in run[n].tasks
    ensures RecordedInOrder(run[k].stores, run[n].stores, run[n].tasks[id])
    ensures PostsInOrder(allow, run[n].tasks[id])
  {
    hide Next, RecordedInOrder, PostsInOrder;
    if k < n {
      RunGrows(allow, run, k, n - 1);
      if id in run[n - 1].tasks { TasksAreInOrder(allow, run, k, n - 1, id); }
      StepKeepsTaskInOrder(allow, run[k].stores, run[n - 1], run[n], id);
    }
  }

  /**
   In every run, a request to Telegram is made only for an allowed user's message, with non-blank text, once prompt and
   reply have been added in that order to both stores since any state before the task was submitted; at most two are made,
   and a send succeeds exactly when its last one did.
   */
  lemma SendingFollowsRecording(allow: seq<string>, run: seq<State>, k: nat, n: nat, id: nat)
    requires IsRun(allow, run) && k <= n < |run| && id !in run[k].tasks
    requires id in run[n].tasks && run[n].tasks[id].posts != []
    ensures var p, base := run[n].tasks[id], run[k].stores;
            && p.task.origin.Chat? && IsAllowedUser(allow, p.task.origin.from) && TrimSpace(p.reply) != ""
            && BothInFile(base, run[n].stores, p.task, p.reply) && BothInLog(base, run[n].stores, p.task, p.reply)
            && |p.posts| <= 2
            && (p.stage == Ended(Sent) <==> p.posts[|p.posts| - 1])
  {
    TasksAreInOrder(allow, run, k, n, id);
  }

  /** The sender's own checks for a blank text and for a stranger never fail: only chat 0 is refused. */
  lemma SenderRefusesOnlyChatZero(allow: seq<string>, run: seq<State>, n: nat, id: nat)
    requires IsRun(allow, run) && n < |run| && id in run[n].tasks && run[n].tasks[id].stage == ReplyMirrored
    ensures var p := run[n].tasks[id];
            p.task.origin.Chat? && (SenderAccepts(allow, p.task, p.reply) <==> p.task.origin.chat != 0)
  {
    TasksAreInOrder(allow, run, 0, n, id);
  }
}
