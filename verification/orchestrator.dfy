/** Process: one incoming message, recorded in both stores and answered. */
module Orchestrator {
  import opened Wrappers
  import opened Text
  import opened Decimal
  import opened Sessions
  import opened Allow
  import opened Pipeline
  import Sender

  datatype Incoming = Incoming(from: Option<User>, chat: Option<int>, text: string)

  datatype Update = Update(message: Option<Incoming>)

  /** How Process ends: an unusable update, or the end of the task it stands for. */
  datatype Outcome = MissingMessage | MissingChat | EmptyMessage | Done(end: End, reply: string)

  /** st after the first n of a task's four writes: file prompt, mirror prompt, file reply, mirror reply. */
  function Written(st: Stores, t: Task, reply: string, n: nat): Stores
    requires n <= 4
  {
    if n == 0 then st
    else if n == 1 then File(Written(st, t, reply, n - 1), t.session, PromptRole(t), t.prompt)
    else if n == 2 then Mirror(Written(st, t, reply, n - 1), t.session, PromptRole(t), t.prompt)
    else if n == 3 then File(Written(st, t, reply, n - 1), t.session, "assistant", reply)
    else Mirror(Written(st, t, reply, n - 1), t.session, "assistant", reply)
  }

  /** How many of them a task has made when it reaches a stage. */
  function Writes(stage: Stage): (n: nat)
    ensures n <= 4
  {
    match stage
    case Fresh => 0
    case PromptFiled => 1
    case PromptMirrored => 2
    case Answered => 2
    case ReplyFiled => 3
    case ReplyMirrored => 4
    case Ended(end) =>
      match end
      case PromptUnfiled => 0
      case PromptUnmirrored => 1
      case Unanswered => 2
      case ReplyUnfiled => 2
      case ReplyUnmirrored => 3
      case _ => 4
  }

  /** Nothing has happened to the stores since st but this task's writes. */
  ghost predicate Undisturbed(st: Stores, s: State, id: nat) {
    id in s.tasks && s.stores == Written(st, s.tasks[id].task, s.tasks[id].reply, Writes(s.tasks[id].stage))
  }

  /** The writes before the reply do not depend on it. */
  lemma {:induction false} ReplyComesLate(st: Stores, t: Task, reply: string, reply': string, n: nat)
    requires n <= 2
    ensures Written(st, t, reply, n) == Written(st, t, reply', n)
  {
    if n > 0 { ReplyComesLate(st, t, reply, reply', n - 1); }
  }

  /** A task that no other disturbs makes, in the interleaved model, exactly these writes. */
  lemma UndisturbedTask(allow: seq<string>, st: Stores, s: State, a: Action)
    requires Pipeline.Enabled(allow, s, a) && !a.Submit? && Undisturbed(st, s, a.id)
    ensures Undisturbed(st, Pipeline.Apply(allow, s, a), a.id)
  {
    hide File, Mirror, FileKey, TrimSpace, Blank, FormatInt, IsAllowedUser;
    var p := s.tasks[a.id];
    if a.Answer? && a.reply.Some? {
      ReplyComesLate(st, p.task, p.reply, a.reply.value, 2);
    }
  }

  function EntryLines(es: seq<Entry>): seq<Line> {
    seq(|es|, i requires 0 <= i < |es| => Line(es[i].role, es[i].content))
  }

  /** The session files that have entries, as lines. */
  function FiledLines(files: map<string, MarkdownFile>): map<string, seq<Line>> {
    map key | key in files && files[key].entries != [] :: EntryLines(files[key].entries)
  }

  lemma AppendIsFile(files: map<string, MarkdownFile>, db: seq<Message>, session: string, role: string, content: string, e: Entry)
    requires e.role == role && e.content == TrimSpace(content)
    ensures Stores(FiledLines(Appended(files, session, e)), db) == File(Stores(FiledLines(files), db), session, role, content)
  {
    hide FileKey, TrimSpace, Blank;
    var st, key := Stores(FiledLines(files), db), FileKey(session);
    var old' := if key in files then files[key].entries else [];
    assert Lines(st, key) == EntryLines(old');
    assert EntryLines(old' + [e]) == EntryLines(old') + [Line(role, e.content)];
    assert [] + [e] == [e];
  }

  lemma FailedAppendFilesNothing(before: map<string, MarkdownFile>, after: map<string, MarkdownFile>, key: string)
    requires FailedAppend(before, after, key)
    ensures FiledLines(after) == FiledLines(before)
  {
  }

  lemma RolesAreLowerCase()
    ensures ToLower("user") == "user" && ToLower("assistant") == "assistant" && ToLower("system") == "system"
    ensures !Blank("user") && !Blank("assistant") && !Blank("system")
  {
    assert 'u' in "user" && 'a' in "assistant" && 's' in "system";
  }

  /** The session_messages table. faults counts the statements that have failed. */
  class SessionTable {
    var messages: seq<Message>
    ghost var faults: nat

    constructor ()
      ensures messages == [] && faults == 0
    {
      messages := [];
      faults := 0;
    }

    method AppendSessionMessage(session: string, role: string, content: string) returns (ok: bool)
      modifies this
      ensures messages == if ok then old(messages) + [Message(session, ToLower(if Blank(role) then "user" else role), content)]
                          else old(messages)
      ensures faults >= old(faults) && (ok <==> !Blank(session) && faults == old(faults))
    {
      if Blank(session) { return false; }
      var kind := if Blank(role) then "user" else role;
      ok := *;
      if ok {
        messages := messages + [Message(session, ToLower(kind), content)];
      } else {
        faults := faults + 1;
      }
    }
  }

  /** The LLM client. It gives an answer that is not blank, or fails; asked are the prompts it got, faults its failures. */
  class Client {
    var asked: seq<string>
    ghost var faults: nat

    constructor ()
      ensures asked == [] && faults == 0
    {
      asked := [];
      faults := 0;
    }

    method Complete(prompt: string) returns (reply: Option<string>)
      modifies this
      ensures faults == old(faults) + if reply.Some? then 0 else 1
      ensures reply.Some? ==> TrimSpace(reply.value) != ""
      ensures asked == old(asked) + [prompt]
    {
      asked := asked + [prompt];
      var text: string := *;
      if TrimSpace(text) != "" { return Some(text); }
      faults := faults + 1;
      return None;
    }
  }

  /** The stores, the prompts the LLM has been asked, and how often each of the three has failed. */
  datatype Moment = Moment(stores: Stores, asked: seq<string>, fileFaults: nat, tableFaults: nat, llmFaults: nat)

  /**
   What the conversation that Process and runJob both hold can do: it makes its writes up to its first failure, and its
   end says which operation failed, or that SQLite refused a blank session. Recorded means that nothing failed.
   */
  ghost predicate Conversation(t: Task, before: Moment, after: Moment, end: End, reply: string) {
    && end in {PromptUnfiled, PromptUnmirrored, Unanswered, ReplyUnfiled, ReplyUnmirrored, Recorded}
    && after.stores == Written(before.stores, t, reply, Writes(Ended(end)))
    && after.asked == before.asked + (if end in {PromptUnfiled, PromptUnmirrored} then [] else [t.prompt])
    && (if end in {PromptUnfiled, PromptUnmirrored, Unanswered} then reply == "" else TrimSpace(reply) != "")
    && before.fileFaults <= after.fileFaults
    && before.tableFaults <= after.tableFaults
    && before.llmFaults <= after.llmFaults
    && (end in {PromptUnfiled, ReplyUnfiled} <==> before.fileFaults < after.fileFaults)
    && (end in {PromptUnmirrored, ReplyUnmirrored} <==>
        before.tableFaults < after.tableFaults || (Blank(t.session) && before.fileFaults == after.fileFaults))
    && (end == Unanswered <==> before.llmFaults < after.llmFaults)
    && (Blank(t.session) ==> end in {PromptUnfiled, PromptUnmirrored})
  }

  /** What handling a task can do: its conversation and, for a message from a chat, the requests that send the reply. */
  ghost predicate Handled(allow: seq<string>, t: Task, before: Moment, after: Moment, end: End, reply: string, made: seq<Sender.Request>) {
    if end !in {Sent, Unsent, Refused} then
      Conversation(t, before, after, end, reply) && made == [] && (end == Recorded ==> t.origin.Cron?)
    else
      && Conversation(t, before, after, Recorded, reply)
      && t.origin.Chat?
      && (end == Refused <==> !SenderAccepts(allow, t, reply))
      && (end == Refused <==> made == [])
      && (forall r | r in made :: r.chat == t.origin.chat && r.text == TrimSpace(reply))
      && |made| <= 2
      && (|made| == 1 ==> Sender.Delivered(made[0]))
      && (|made| == 2 ==> !Sender.Delivered(made[0]))
      && (end == Sent <==> made != [] && Sender.Delivered(made[|made| - 1]))
  }

  /** The two stores every message goes to, and the LLM that answers it. */
  class Recorder {
    const sessions: Store
    const db: SessionTable
    const llm: Client

    constructor (sessions: Store, db: SessionTable, llm: Client)
      ensures this.sessions == sessions && this.db == db && this.llm == llm
    {
      this.sessions := sessions;
      this.db := db;
      this.llm := llm;
    }

    ghost function View(): Stores
      reads sessions, db
    {
      Stores(FiledLines(sessions.files), db.messages)
    }

    ghost function Now(): Moment
      reads sessions, db, llm
    {
      Moment(View(), llm.asked, sessions.faults, db.faults, llm.faults)
    }

    method FileLine(session: string, role: string, content: string) returns (ok: bool)
      requires ToLower(role) == role && !Blank(role)
      modifies sessions
      ensures sessions.faults >= old(sessions.faults) && (ok <==> sessions.faults == old(sessions.faults))
      ensures View() == if ok then File(old(View()), session, role, content) else old(View())
    {
      ghost var before := sessions.files;
      ghost var e, now;
      ok, e, now := sessions.Append(session, role, content);
      if ok {
        AppendIsFile(before, db.messages, session, role, content, e);
      } else {
        FailedAppendFilesNothing(before, sessions.files, FileKey(session));
      }
    }

    method MirrorLine(session: string, role: string, content: string) returns (ok: bool)
      requires ToLower(role) == role && !Blank(role)
      modifies db
      ensures View() == if ok then Mirror(old(View()), session, role, content) else old(View())
      ensures db.faults >= old(db.faults) && (ok <==> !Blank(session) && db.faults == old(db.faults))
    {
      ok := db.AppendSessionMessage(session, role, content);
    }

    /** Record the prompt, ask for a reply, record the reply; stop at the first failure. */
    method Converse(task: Task) returns (end: End, reply: string)
      modifies sessions, db, llm
      ensures Conversation(task, old(Now()), Now(), end, reply)
    {
      hide File, Mirror, FiledLines, TrimSpace, Blank, ToLower;
      RolesAreLowerCase();
      reply := "";
      var ok := FileLine(task.session, PromptRole(task), task.prompt);
      if !ok { return PromptUnfiled, reply; }
      assert Written(old(View()), task, "", 1) == File(old(View()), task.session, PromptRole(task), task.prompt);
      ok := MirrorLine(task.session, PromptRole(task), task.prompt);
      if !ok { return PromptUnmirrored, reply; }
      var completion := llm.Complete(task.prompt);
      if completion.None? { return Unanswered, reply; }
      reply := completion.value;
      ReplyComesLate(old(View()), task, "", reply, 2);
      ok := FileLine(task.session, "assistant", reply);
      if !ok { return ReplyUnfiled, reply; }
      assert Written(old(View()), task, reply, 3) == View();
      ok := MirrorLine(task.session, "assistant", reply);
      return if ok then Recorded else ReplyUnmirrored, reply;
    }
  }

  class Orchestrator {
    const recorder: Recorder
    const sender: Sender.Sender

    constructor (recorder: Recorder, sender: Sender.Sender)
      ensures this.recorder == recorder && this.sender == sender
    {
      this.recorder := recorder;
      this.sender := sender;
    }

    method Process(update: Update) returns (session: string, outcome: Outcome)
      modifies recorder.sessions, recorder.db, recorder.llm, sender
      ensures outcome == MissingMessage <==> update.message.None?
      ensures outcome == MissingChat <==> update.message.Some? && update.message.value.chat.None?
      ensures outcome == EmptyMessage <==> update.message.Some? && update.message.value.chat.Some?
                                           && TrimSpace(update.message.value.text) == ""
      ensures old(sender.requests) <= sender.requests
      ensures !outcome.Done? ==> recorder.Now() == old(recorder.Now()) && sender.requests == old(sender.requests)
      ensures outcome.Done? ==>
                var m := update.message.value;
                var task := Task(FormatInt(m.chat.value), TrimSpace(m.text), Chat(m.chat.value, m.from));
                && session == task.session
                && Handled(sender.allowFrom, task, old(recorder.Now()), recorder.Now(), outcome.end, outcome.reply,
                           sender.requests[|old(sender.requests)|..])
    {
      hide Written, FiledLines, TrimSpace, FormatInt, IsAllowedUser, Blank;
      if update.message.None? { return "", MissingMessage; }
      var m := update.message.value;
      if m.chat.None? { return "", MissingChat; }
      session := FormatInt(m.chat.value);
      var text := TrimSpace(m.text);
      if text == "" { return session, EmptyMessage; }
      var end, reply := recorder.Converse(Task(session, text, Chat(m.chat.value, m.from)));
      if end != Recorded { return session, Done(end, reply); }
      var result, made := sender.SendMessage(m.chat.value, m.from, reply);
      assert sender.requests[|old(sender.requests)|..] == made;
      match result
      case Sent => return session, Done(Sent, reply);
      case Failed => return session, Done(Unsent, reply);
      case _ => return session, Done(Refused, reply);
    }
  }
}
