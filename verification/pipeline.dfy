/**
 Webhook messages and cron jobs on their way into the Markdown files, the SQLite mirror and Telegram.
 Any number of tasks interleave; each file append, SQL statement, LLM call and HTTP request is one step that may fail.
 */
module Pipeline {
  import opened Wrappers
  import opened Text
  import opened Decimal
  import opened Sessions
  import opened Allow

  datatype Line = Line(role: string, content: string)

  datatype Message = Message(session: string, role: string, content: string)

  /** The Markdown files, by name, and the session_messages table in id order. */
  datatype Stores = Stores(md: map<string, seq<Line>>, db: seq<Message>)

  function Lines(st: Stores, key: string): seq<Line> {
    if key in st.md then st.md[key] else []
  }

  /** A Markdown append: the content is trimmed, and the session's name is sanitized. */
  function File(st: Stores, session: string, role: string, content: string): Stores {
    st.(md := st.md[FileKey(session) := Lines(st, FileKey(session)) + [Line(role, TrimSpace(content))]])
  }

  /** An SQLite insert: session and content are stored as they are. A blank session is refused. */
  function Mirror(st: Stores, session: string, role: string, content: string): Stores {
    st.(db := st.db + [Message(session, role, content)])
  }

  /** Where a message comes from: a Telegram chat and its sender, or the scheduler. */
  datatype Origin = Chat(chat: int, from: Option<User>) | Cron

  datatype Task = Task(session: string, prompt: string, origin: Origin)

  function PromptRole(t: Task): string {
    if t.origin.Cron? then "system" else "user"
  }

  datatype End =
    | PromptUnfiled
    | PromptUnmirrored
    | Unanswered
    | ReplyUnfiled
    | ReplyUnmirrored
    | Refused
    | Unsent
    | Sent
    | Recorded

  datatype Stage =
    | Fresh
    | PromptFiled
    | PromptMirrored
    | Answered
    | ReplyFiled
    | ReplyMirrored
    | Ended(end: End)

  /** A task under way; reply is what the LLM answered, posts the outcomes of its HTTP requests so far. */
  datatype Progress = Progress(task: Task, stage: Stage, reply: string, posts: seq<bool>)

  datatype State = State(stores: Stores, tasks: map<nat, Progress>)

  datatype Action =
    | Submit(id: nat, task: Task)
    | FilePrompt(id: nat, ok: bool)
    | MirrorPrompt(id: nat, ok: bool)
    | Answer(id: nat, reply: Option<string>)
    | FileReply(id: nat, ok: bool)
    | MirrorReply(id: nat, ok: bool)
    | Send(id: nat, ok: bool)

  /** The checks SendMessage makes before its first request. */
  predicate SenderAccepts(allow: seq<string>, t: Task, reply: string)
    requires t.origin.Chat?
  {
    IsAllowedUser(allow, t.origin.from) && TrimSpace(reply) != "" && t.origin.chat != 0
  }

  /** What the webhook handler and the scheduler let through. */
  predicate Admitted(allow: seq<string>, t: Task) {
    && t.prompt != "" && TrimSpace(t.prompt) == t.prompt
    && (t.origin.Chat? ==> t.session == FormatInt(t.origin.chat) && IsAllowedUser(allow, t.origin.from))
  }

  predicate Enabled(allow: seq<string>, s: State, a: Action) {
    if a.Submit? then a.id !in s.tasks && Admitted(allow, a.task)
    else
      a.id in s.tasks &&
      var p := s.tasks[a.id];
      match a
      case Submit(_, _) => true
      case FilePrompt(_, _) => p.stage == Fresh
      case MirrorPrompt(_, ok) => p.stage == PromptFiled && (ok ==> !Blank(p.task.session))
      case Answer(_, reply) => p.stage == PromptMirrored && (reply.Some? ==> TrimSpace(reply.value) != "")
      case FileReply(_, _) => p.stage == Answered
      case MirrorReply(_, ok) => p.stage == ReplyFiled && (ok ==> !Blank(p.task.session))
      case Send(_, _) => p.stage == ReplyMirrored
  }

  function Moved(s: State, id: nat, stage: Stage): State
    requires id in s.tasks
  {
    s.(tasks := s.tasks[id := s.tasks[id].(stage := stage)])
  }

  function Apply(allow: seq<string>, s: State, a: Action): State
    requires Enabled(allow, s, a)
  {
    match a
    case Submit(id, task) => s.(tasks := s.tasks[id := Progress(task, Fresh, "", [])])
    case FilePrompt(id, ok) =>
      var t := s.tasks[id].task;
      if !ok then Moved(s, id, Ended(PromptUnfiled))
      else Moved(s, id, PromptFiled).(stores := File(s.stores, t.session, PromptRole(t), t.prompt))
    case MirrorPrompt(id, ok) =>
      var t := s.tasks[id].task;
      if !ok then Moved(s, id, Ended(PromptUnmirrored))
      else Moved(s, id, PromptMirrored).(stores := Mirror(s.stores, t.session, PromptRole(t), t.prompt))
    case Answer(id, reply) =>
      if reply.None? then Moved(s, id, Ended(Unanswered))
      else s.(tasks := s.tasks[id := s.tasks[id].(stage := Answered, reply := reply.value)])
    case FileReply(id, ok) =>
      var p := s.tasks[id];
      if !ok then Moved(s, id, Ended(ReplyUnfiled))
      else Moved(s, id, ReplyFiled).(stores := File(s.stores, p.task.session, "assistant", p.reply))
    case MirrorReply(id, ok) =>
      var p := s.tasks[id];
      if !ok then Moved(s, id, Ended(ReplyUnmirrored))
      else
        Moved(s, id, if p.task.origin.Cron? then Ended(Recorded) else ReplyMirrored)
        .(stores := Mirror(s.stores, p.task.session, "assistant", p.reply))
    case Send(id, ok) =>
      var p := s.tasks[id];
      if p.task.origin.Cron? || !SenderAccepts(allow, p.task, p.reply) then Moved(s, id, Ended(Refused))
      else
        var stage := if ok then Ended(Sent) else if |p.posts| == 1 then Ended(Unsent) else ReplyMirrored;
        s.(tasks := s.tasks[id := p.(stage := stage, posts := p.posts + [ok])])
  }

  ghost predicate Next(allow: seq<string>, s: State, t: State) {
    exists a :: Enabled(allow, s, a) && t == Apply(allow, s, a)
  }

  ghost predicate IsPath(allow: seq<string>, path: seq<State>) {
    path != [] && forall i | 0 <= i < |path| - 1 :: Next(allow, path[i], path[i + 1])
  }

  /** A run begins with no task under way and any earlier stores. */
  ghost predicate IsRun(allow: seq<string>, run: seq<State>) {
    IsPath(allow, run) && run[0].tasks == map[]
  }

  /** A path goes on with a step whose outcome is t. */
  lemma Then(allow: seq<string>, path: seq<State>, a: Action, t: State) returns (longer: seq<State>)
    requires IsPath(allow, path) && Enabled(allow, path[|path| - 1], a) && Apply(allow, path[|path| - 1], a) == t
    ensures longer == path + [t] && IsPath(allow, longer)
  {
    hide Apply, Enabled;
    longer := path + [t];
    assert Next(allow, path[|path| - 1], t);
    assert forall i | 0 <= i < |path| :: longer[i] == path[i];
  }

  /* ---------- Counting tasks ---------- */

  ghost function Those<T>(tasks: map<nat, T>, f: T -> bool): set<nat> {
    set id | id in tasks && f(tasks[id])
  }

  ghost function Count<T>(tasks: map<nat, T>, f: T -> bool): nat {
    |Those(tasks, f)|
  }

  /** Only id's entry differs. */
  ghost predicate OnlyChanges<T>(tasks: map<nat, T>, tasks': map<nat, T>, id: nat) {
    tasks'.Keys == tasks.Keys + {id} && forall other | other in tasks && other != id :: tasks'[other] == tasks[other]
  }

  lemma CountAfterChange<T>(tasks: map<nat, T>, tasks': map<nat, T>, id: nat, f: T -> bool)
    requires OnlyChanges(tasks, tasks', id)
    ensures Count(tasks', f) - Count(tasks, f)
            == (if f(tasks'[id]) then 1 else 0) - (if id in tasks && f(tasks[id]) then 1 else 0)
  {
    var was, now := Those(tasks, f), Those(tasks', f);
    forall other | other != id ensures other in was <==> other in now {
      assert other in tasks <==> other in tasks';
    }
    SizesAround(was, now, id);
  }

  lemma SizesAround(a: set<nat>, b: set<nat>, x: nat)
    requires forall y | y != x :: y in a <==> y in b
    ensures |b| - |a| == (if x in b then 1 else 0) - (if x in a then 1 else 0)
  {
    assert a - {x} == b - {x};
    assert a == if x in a then (a - {x}) + {x} else a - {x};
    assert b == if x in b then (b - {x}) + {x} else b - {x};
  }

  lemma StepChangesOneTask(allow: seq<string>, s: State, a: Action)
    requires Enabled(allow, s, a)
    ensures OnlyChanges(s.tasks, Apply(allow, s, a).tasks, a.id)
  {
  }
}
