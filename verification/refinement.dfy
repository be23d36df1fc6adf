/**
 The code of one task and the step system agree: whatever the code can do, a path of the step system does, and the other
 way round for a task that no other disturbs.
 */
module Refinement {
  import opened Wrappers
  import opened Text
  import opened Decimal
  import opened Sessions
  import opened Allow
  import opened Pipeline
  import opened Conservation
  import opened Delivery
  import opened Orchestrator

  /* ---------- What the code does, the step system can do ---------- */

  /** What Process and runJob hand on is admitted: the text trimmed, a message from an allowed user. */
  lemma HandledTasksAreAdmitted(allow: seq<string>, session: string, text: string, origin: Origin)
    requires TrimSpace(text) != ""
    requires origin.Chat? ==> session == FormatInt(origin.chat) && IsAllowedUser(allow, origin.from)
    ensures Admitted(allow, Task(session, TrimSpace(text), origin))
  {
    TrimSpaceIdempotent(text);
  }

  /** s with one more task, which has got as far as p and made the writes that go with it. */
  function At(s: State, id: nat, p: Progress): State {
    State(Written(s.stores, p.task, p.reply, Writes(p.stage)), s.tasks[id := p])
  }

  /** A path goes on with a step of that task. */
  lemma Continue(allow: seq<string>, path: seq<State>, s: State, id: nat, p: Progress, a: Action, next: Progress)
    returns (longer: seq<State>)
    requires IsPath(allow, path) && path[|path| - 1] == At(s, id, p)
    requires !a.Submit? && a.id == id && Enabled(allow, At(s, id, p), a)
    requires Apply(allow, At(s, id, p), a).tasks == s.tasks[id := next]
    ensures IsPath(allow, longer) && longer == path + [At(s, id, next)]
  {
    hide Written, Enabled, Apply, IsPath;
    UndisturbedTask(allow, s.stores, At(s, id, p), a);
    longer := Then(allow, path, a, At(s, id, next));
  }

  /** How far a conversation takes a task: a reply to a chat is still to be sent. */
  function Reached(t: Task, end: End): Stage {
    if end == Recorded && t.origin.Chat? then ReplyMirrored else Ended(end)
  }

  /** Recording the prompt. */
  lemma PromptPath(allow: seq<string>, s: State, id: nat, t: Task, end: End) returns (path: seq<State>)
    requires id !in s.tasks && Admitted(allow, t)
    requires Blank(t.session) ==> end in {PromptUnfiled, PromptUnmirrored}
    ensures IsPath(allow, path) && path[0] == s
    ensures path[|path| - 1] ==
            At(s, id, Progress(t, if end in {PromptUnfiled, PromptUnmirrored} then Ended(end) else PromptMirrored, "", []))
  {
    hide File, Mirror, FileKey, TrimSpace, Blank, FormatInt, IsAllowedUser, IsPath;
    var p := Progress(t, Fresh, "", []);
    path := Begin(allow, s, id, t);
    if end == PromptUnfiled {
      path := Continue(allow, path, s, id, p, FilePrompt(id, false), p.(stage := Ended(PromptUnfiled)));
    } else {
      var q := p.(stage := PromptFiled);
      path := Continue(allow, path, s, id, p, FilePrompt(id, true), q);
      var ok := end != PromptUnmirrored;
      path := Continue(allow, path, s, id, q, MirrorPrompt(id, ok),
                       q.(stage := if ok then PromptMirrored else Ended(PromptUnmirrored)));
    }
  }

  lemma Begin(allow: seq<string>, s: State, id: nat, t: Task) returns (path: seq<State>)
    requires id !in s.tasks && Admitted(allow, t)
    ensures IsPath(allow, path) && path == [s, At(s, id, Progress(t, Fresh, "", []))]
  {
    hide Admitted;
    path := Then(allow, [s], Submit(id, t), At(s, id, Progress(t, Fresh, "", [])));
  }

  /** Asking for the reply and recording it. */
  lemma ReplyPath(allow: seq<string>, path: seq<State>, s: State, id: nat, t: Task, end: End, reply: string)
    returns (longer: seq<State>)
    requires IsPath(allow, path) && path[|path| - 1] == At(s, id, Progress(t, PromptMirrored, "", []))
    requires end in {Unanswered, ReplyUnfiled, ReplyUnmirrored, Recorded} && !Blank(t.session)
    requires if end == Unanswered then reply == "" else TrimSpace(reply) != ""
    ensures IsPath(allow, longer) && path <= longer
    ensures longer[|longer| - 1] == At(s, id, Progress(t, Reached(t, end), reply, []))
  {
    hide File, Mirror, FileKey, TrimSpace, Blank, FormatInt, IsAllowedUser, IsPath, Written;
    var p := Progress(t, PromptMirrored, "", []);
    if end == Unanswered {
      longer := Continue(allow, path, s, id, p, Answer(id, None), p.(stage := Ended(Unanswered)));
    } else {
      var q := p.(stage := Answered, reply := reply);
      longer := Continue(allow, path, s, id, p, Answer(id, Some(reply)), q);
      if end == ReplyUnfiled {
        longer := Continue(allow, longer, s, id, q, FileReply(id, false), q.(stage := Ended(ReplyUnfiled)));
      } else {
        var r := q.(stage := ReplyFiled);
        longer := Continue(allow, longer, s, id, q, FileReply(id, true), r);
        longer := Continue(allow, longer, s, id, r, MirrorReply(id, end == Recorded), r.(stage := Reached(t, end)));
      }
    }
  }

  lemma ConversationIsAPath(allow: seq<string>, s: State, id: nat, t: Task, before: Moment, after: Moment, end: End, reply: string)
    returns (path: seq<State>)
    requires id !in s.tasks && Admitted(allow, t) && before.stores == s.stores
    requires Conversation(t, before, after, end, reply)
    ensures IsPath(allow, path) && path[0] == s
    ensures path[|path| - 1] == State(after.stores, s.tasks[id := Progress(t, Reached(t, end), reply, [])])
  {
    hide Written, Blank, TrimSpace, Admitted;
    var prompted := PromptPath(allow, s, id, t, end);
    path := prompted;
    if end !in {PromptUnfiled, PromptUnmirrored} {
      path := ReplyPath(allow, prompted, s, id, t, end, reply);
      assert path[0] == prompted[0];
    }
  }

  /** The outcomes of HTTP requests. */
  function Outcomes(made: seq<Sender.Request>): (posts: seq<bool>)
    ensures |posts| == |made|
  {
    seq(|made|, i requires 0 <= i < |made| => Sender.Delivered(made[i]))
  }

  /** Whatever handling a task can do, from any state it is a path of the step system, to that end and with those posts. */
  lemma HandlingIsAPath(allow: seq<string>, s: State, id: nat, t: Task, before: Moment, after: Moment, end: End, reply: string,
                        made: seq<Sender.Request>)
    returns (path: seq<State>)
    requires id !in s.tasks && Admitted(allow, t) && before.stores == s.stores
    requires Handled(allow, t, before, after, end, reply, made)
    ensures IsPath(allow, path) && path[0] == s
    ensures path[|path| - 1] == State(after.stores, s.tasks[id := Progress(t, Ended(end), reply, Outcomes(made))])
  {
    hide Written, Conversation, Admitted, TrimSpace;
    if end !in {Sent, Unsent, Refused} {
      path := ConversationIsAPath(allow, s, id, t, before, after, end, reply);
    } else {
      var recorded := ConversationIsAPath(allow, s, id, t, before, after, Recorded, reply);
      path := SendingPath(allow, recorded, id, t, end, reply, made);
      assert path[0] == recorded[0];
    }
  }

  lemma SendingPath(allow: seq<string>, path: seq<State>, id: nat, t: Task, end: End, reply: string, made: seq<Sender.Request>)
    returns (longer: seq<State>)
    requires IsPath(allow, path) && t.origin.Chat? && end in {Sent, Unsent, Refused}
    requires id in path[|path| - 1].tasks && path[|path| - 1].tasks[id] == Progress(t, ReplyMirrored, reply, [])
    requires (end == Refused <==> !SenderAccepts(allow, t, reply)) && (end == Refused <==> made == []) && |made| <= 2
    requires (|made| == 1 ==> Sender.Delivered(made[0])) && (|made| == 2 ==> !Sender.Delivered(made[0]))
    requires end == Sent <==> made != [] && Sender.Delivered(made[|made| - 1])
    ensures IsPath(allow, longer) && path <= longer
    ensures var last := path[|path| - 1];
            longer[|longer| - 1] == last.(tasks := last.tasks[id := Progress(t, Ended(end), reply, Outcomes(made))])
  {
    hide SenderAccepts, Sender.Delivered;
    var last, p := path[|path| - 1], Progress(t, ReplyMirrored, reply, []);
    if |made| < 2 {
      assert Outcomes(made) == [] + if made == [] then [] else [true];
      var over := last.(tasks := last.tasks[id := Progress(t, Ended(end), reply, Outcomes(made))]);
      longer := Then(allow, path, Send(id, true), over);
    } else {
      assert [] + [false] == [false];
      var once := last.(tasks := last.tasks[id := p.(posts := [false])]);
      longer := Then(allow, path, Send(id, false), once);
      var delivered := Sender.Delivered(made[1]);
      assert Outcomes(made) == [false, delivered] == [false] + [delivered];
      var over := last.(tasks := last.tasks[id := Progress(t, Ended(end), reply, Outcomes(made))]);
      longer := Then(allow, longer, Send(id, delivered), over);
    }
  }

  /* ---------- What the step system does with one task, the code can do ---------- */

  /** The task is submitted in state k, and from there to state n no other takes a step. */
  ghost predicate Alone(allow: seq<string>, run: seq<State>, k: nat, n: nat, id: nat) {
    && k <= n < |run| && id !in run[k].tasks
    && forall i | k <= i < n :: StepOf(allow, run[i], run[i + 1], id)
  }

  ghost predicate StepOf(allow: seq<string>, s: State, t: State, id: nat) {
    exists a: Action :: a.id == id && Enabled(allow, s, a) && t == Apply(allow, s, a)
  }

  lemma StepKeepsUndisturbed(allow: seq<string>, base: Stores, s: State, t: State, id: nat)
    requires StepOf(allow, s, t, id) && if id in s.tasks then Undisturbed(base, s, id) else s.stores == base
    ensures Undisturbed(base, t, id)
  {
    hide File, Mirror, FileKey, TrimSpace, Blank, FormatInt, IsAllowedUser;
    var a: Action :| a.id == id && Enabled(allow, s, a) && t == Apply(allow, s, a);
    if !a.Submit? { UndisturbedTask(allow, base, s, a); }
  }

  lemma {:induction false} LoneTaskIsUndisturbed(allow: seq<string>, run: seq<State>, k: nat, n: nat, id: nat)
    requires Alone(allow, run, k, n, id)
    ensures if n == k then run[n].stores == run[k].stores else Undisturbed(run[k].stores, run[n], id)
  {
    hide StepOf, Undisturbed;
    if k < n {
      LoneTaskIsUndisturbed(allow, run, k, n - 1, id);
      StillThere(run[k].stores, run[n - 1], id);
      StepKeepsUndisturbed(allow, run[k].stores, run[n - 1], run[n], id);
    }
  }

  lemma StillThere(base: Stores, s: State, id: nat)
    ensures Undisturbed(base, s, id) ==> id in s.tasks
  {
  }

  /** The requests that a task's posts stand for. */
  function RequestsFor(t: Task, reply: string, posts: seq<bool>): (made: seq<Sender.Request>)
    requires t.origin.Chat?
    ensures |made| == |posts|
  {
    seq(|posts|, i requires 0 <= i < |posts| =>
      Sender.Request(t.origin.chat, TrimSpace(reply), false, if posts[i] then 200 else 500))
  }

  /** A failure for each end that needs one. */
  function MomentAfter(st: Stores, t: Task, end: End): Moment {
    Moment(st, if end in {PromptUnfiled, PromptUnmirrored} then [] else [t.prompt],
           if end in {PromptUnfiled, ReplyUnfiled} then 1 else 0,
           if end in {PromptUnmirrored, ReplyUnmirrored} then 1 else 0,
           if end == Unanswered then 1 else 0)
  }

  /** However a task that runs alone ends in the step system, handling it in code can end, with the same stores and posts. */
  lemma LoneTaskIsHandled(allow: seq<string>, run: seq<State>, k: nat, n: nat, id: nat)
    returns (after: Moment, made: seq<Sender.Request>)
    requires IsRun(allow, run) && Alone(allow, run, k, n, id)
    requires id in run[n].tasks && run[n].tasks[id].stage.Ended?
    ensures after.stores == run[n].stores
    ensures var p := run[n].tasks[id];
            && Handled(allow, p.task, Moment(run[k].stores, [], 0, 0, 0), after, p.stage.end, p.reply, made)
            && p.posts == Outcomes(made)
  {
    LoneTaskIsUndisturbed(allow, run, k, n, id);
    TasksAreInOrder(allow, run, k, n, id);
    BlankSessionsAreNeverMirrored(allow, run, n);
    hide Written, IsRun, Alone, TrimSpace, FormatInt, IsAllowedUser, Blank;
    var p := run[n].tasks[id];
    after := MomentAfter(run[n].stores, p.task, p.stage.end);
    made := if p.task.origin.Chat? then RequestsFor(p.task, p.reply, p.posts) else [];
    EndIsHandled(allow, run[k].stores, run[n], id, after, made);
  }

  lemma EndIsHandled(allow: seq<string>, base: Stores, s: State, id: nat, after: Moment, made: seq<Sender.Request>)
    requires Undisturbed(base, s, id) && BlankTasksOwe(s) && PostsInOrder(allow, s.tasks[id]) && s.tasks[id].stage.Ended?
    requires after == MomentAfter(s.stores, s.tasks[id].task, s.tasks[id].stage.end)
    requires var p := s.tasks[id];
             made == if p.task.origin.Chat? then RequestsFor(p.task, p.reply, p.posts) else []
    ensures var p := s.tasks[id];
            && Handled(allow, p.task, Moment(base, [], 0, 0, 0), after, p.stage.end, p.reply, made)
            && p.posts == Outcomes(made)
  {
    hide Written, TrimSpace, FormatInt, IsAllowedUser, Blank;
  }
}
