/** What a conversation leaves in the stores, word for word: which roles, which session, which file. */
module Records {
  import opened Wrappers
  import opened Text
  import opened Decimal
  import opened Sessions
  import opened Allow
  import opened Pipeline
  import opened Conservation
  import opened Orchestrator
  import opened Scheduler
  import Sender

  /** after is before with these lines at the end of one file and these messages at the end of the table. */
  ghost predicate Adds(before: Stores, after: Stores, key: string, lines: seq<Line>, messages: seq<Message>) {
    && after.db == before.db + messages
    && forall k :: Lines(after, k) == Lines(before, k) + if k == key then lines else []
  }

  lemma FileAdds(base: Stores, st: Stores, session: string, role: string, content: string, lines: seq<Line>, messages: seq<Message>)
    requires Adds(base, st, FileKey(session), lines, messages)
    ensures Adds(base, File(st, session, role, content), FileKey(session), lines + [Line(role, TrimSpace(content))], messages)
  {
    hide FileKey, TrimSpace;
  }

  lemma MirrorAdds(base: Stores, st: Stores, session: string, role: string, content: string, lines: seq<Line>, messages: seq<Message>)
    requires Adds(base, st, FileKey(session), lines, messages)
    ensures Adds(base, Mirror(st, session, role, content), FileKey(session), lines, messages + [Message(session, role, content)])
  {
    hide FileKey;
  }

  /** The four writes, one by one. */
  lemma WrittenInSteps(st: Stores, t: Task, reply: string, role: string)
    returns (filed: Stores, mirrored: Stores, answered: Stores, done: Stores)
    requires role == if t.origin.Chat? then "user" else "system"
    ensures filed == File(st, t.session, role, t.prompt) && mirrored == Mirror(filed, t.session, role, t.prompt)
    ensures answered == File(mirrored, t.session, "assistant", reply)
    ensures done == Mirror(answered, t.session, "assistant", reply)
    ensures Written(st, t, reply, 0) == st && Written(st, t, reply, 1) == filed && Written(st, t, reply, 2) == mirrored
    ensures Written(st, t, reply, 3) == answered && Written(st, t, reply, 4) == done
  {
    assert PromptRole(t) == role;
    hide File, Mirror, PromptRole;
    filed := File(st, t.session, role, t.prompt);
    assert Written(st, t, reply, 0) == st;
    assert Written(st, t, reply, 1) == filed;
    mirrored := Written(st, t, reply, 2);
    answered := Written(st, t, reply, 3);
    done := Written(st, t, reply, 4);
  }

  /** The role of a prompt is "user" when it comes from a chat, "system" when it comes from a job. */
  lemma WrittenAdds(st: Stores, t: Task, reply: string, role: string)
    requires role == if t.origin.Chat? then "user" else "system"
    ensures var key, asks, answers := FileKey(t.session), Line(role, TrimSpace(t.prompt)), Line("assistant", TrimSpace(reply));
            var prompt, answer := Message(t.session, role, t.prompt), Message(t.session, "assistant", reply);
            && Adds(st, Written(st, t, reply, 0), key, [], [])
            && Adds(st, Written(st, t, reply, 1), key, [asks], [])
            && Adds(st, Written(st, t, reply, 2), key, [asks], [prompt])
            && Adds(st, Written(st, t, reply, 3), key, [asks, answers], [prompt])
            && Adds(st, Written(st, t, reply, 4), key, [asks, answers], [prompt, answer])
  {
    hide FileKey, TrimSpace, File, Mirror, Written;
    var filed, mirrored, answered, done := WrittenInSteps(st, t, reply, role);
    var key, asks, answers := FileKey(t.session), Line(role, TrimSpace(t.prompt)), Line("assistant", TrimSpace(reply));
    var prompt, answer := Message(t.session, role, t.prompt), Message(t.session, "assistant", reply);
    assert Adds(st, st, key, [], []);
    hide Adds;
    assert [] + [asks] == [asks] && [] + [prompt] == [prompt];
    assert [asks] + [answers] == [asks, answers] && [prompt] + [answer] == [prompt, answer];
    FileAdds(st, st, t.session, role, t.prompt, [], []);
    MirrorAdds(st, filed, t.session, role, t.prompt, [asks], []);
    FileAdds(st, mirrored, t.session, "assistant", reply, [asks], [prompt]);
    MirrorAdds(st, answered, t.session, "assistant", reply, [asks, answers], [prompt]);
  }

  /** What stands in the stores, end by end, when a prompt in this role and its reply have been recorded as far as that. */
  ghost predicate RecordedUpTo(end: End, before: Stores, after: Stores, session: string, role: string, prompt: string, reply: string) {
    var asks, answers := Line(role, TrimSpace(prompt)), Line("assistant", TrimSpace(reply));
    var asked, answered := Message(session, role, prompt), Message(session, "assistant", reply);
    match end
    case PromptUnfiled => Adds(before, after, FileKey(session), [], [])
    case PromptUnmirrored => Adds(before, after, FileKey(session), [asks], [])
    case Unanswered => Adds(before, after, FileKey(session), [asks], [asked])
    case ReplyUnfiled => Adds(before, after, FileKey(session), [asks], [asked])
    case ReplyUnmirrored => Adds(before, after, FileKey(session), [asks, answers], [asked])
    case _ => Adds(before, after, FileKey(session), [asks, answers], [asked, answered])
  }

  lemma ConversationRecords(t: Task, before: Moment, after: Moment, end: End, reply: string, role: string)
    requires Conversation(t, before, after, end, reply)
    requires role == if t.origin.Chat? then "user" else "system"
    ensures RecordedUpTo(end, before.stores, after.stores, t.session, role, t.prompt, reply)
  {
    WrittenAdds(before.stores, t, reply, role);
    hide Adds, Written, TrimSpace, FileKey, Blank;
  }

  /**
   A message from a chat: its trimmed text is recorded under the chat's number in the role "user", then the reply in the
   role "assistant", as far as handling it got; no other file changes, and nothing else is added to the table.
   */
  lemma MessageRecords(allow: seq<string>, chat: int, from: Option<User>, text: string,
                       before: Moment, after: Moment, end: End, reply: string, made: seq<Sender.Request>)
    requires Handled(allow, Task(FormatInt(chat), TrimSpace(text), Chat(chat, from)), before, after, end, reply, made)
    ensures RecordedUpTo(end, before.stores, after.stores, FormatInt(chat), "user", TrimSpace(text), reply)
    ensures TrimSpace(TrimSpace(text)) == TrimSpace(text)
    ensures IsInt64(chat) ==> FileKey(FormatInt(chat)) == FormatNat(if chat < 0 then -chat else chat)
  {
    TrimSpaceIdempotent(text);
    if IsInt64(chat) { ChatKey(chat); }
    hide Adds, TrimSpace, FileKey, Conversation, FormatInt, IsAllowedUser, SenderAccepts, RecordedUpTo, Sender.Delivered;
    var t := Task(FormatInt(chat), TrimSpace(text), Chat(chat, from));
    var reached := if end in {Sent, Unsent, Refused} then Recorded else end;
    ConversationRecords(t, before, after, reached, reply, "user");
    if reached != end { CompleteEnds(end, before.stores, after.stores, t.session, "user", t.prompt, reply); }
  }

  lemma CompleteEnds(end: End, before: Stores, after: Stores, session: string, role: string, prompt: string, reply: string)
    requires end in {Sent, Unsent, Refused} && RecordedUpTo(Recorded, before, after, session, role, prompt, reply)
    ensures RecordedUpTo(end, before, after, session, role, prompt, reply)
  {
    hide Adds, TrimSpace, FileKey;
  }

  /** A job: its trimmed prompt is recorded in its session in the role "system", then the reply, as far as it got. */
  lemma JobRecords(job: Job, before: Moment, after: Moment) returns (end: End, reply: string)
    requires JobEffect(job, before, after) && TrimSpace(job.prompt) != ""
    ensures Conversation(Task(job.session, TrimSpace(job.prompt), Cron), before, after, end, reply)
    ensures RecordedUpTo(end, before.stores, after.stores, job.session, "system", TrimSpace(job.prompt), reply)
    ensures TrimSpace(TrimSpace(job.prompt)) == TrimSpace(job.prompt)
  {
    TrimSpaceIdempotent(job.prompt);
    hide Adds, TrimSpace, FileKey, Conversation;
    var t := Task(job.session, TrimSpace(job.prompt), Cron);
    assert JobTask(job) == t;
    var e, r :| Conversation(t, before, after, e, r);
    end, reply := e, r;
    ConversationRecords(t, before, after, end, reply, "system");
  }

  /** Nothing has failed between the two moments. */
  predicate NothingFailed(before: Moment, after: Moment) {
    && after.fileFaults == before.fileFaults
    && after.tableFaults == before.tableFaults
    && after.llmFaults == before.llmFaults
  }

  /** A job that nothing fails: the two lines and the two messages of its own session, and the LLM asked once. */
  lemma CompleteJobRecords(job: Job, before: Moment, after: Moment) returns (reply: string)
    requires JobEffect(job, before, after) && TrimSpace(job.prompt) != "" && !Blank(job.session) && NothingFailed(before, after)
    ensures TrimSpace(reply) != "" && after.asked == before.asked + [TrimSpace(job.prompt)]
    ensures Adds(before.stores, after.stores, FileKey(job.session),
                 [Line("system", TrimSpace(job.prompt)), Line("assistant", TrimSpace(reply))],
                 [Message(job.session, "system", TrimSpace(job.prompt)), Message(job.session, "assistant", reply)])
  {
    hide Adds, TrimSpace, FileKey, Blank, Written, JobEffect;
    var end;
    end, reply := JobRecords(job, before, after);
  }

  /** The same job with a blank session: the prompt goes to the file "unknown", and that is all. */
  lemma BlankJobRecords(job: Job, before: Moment, after: Moment)
    requires JobEffect(job, before, after) && TrimSpace(job.prompt) != "" && Blank(job.session) && NothingFailed(before, after)
    ensures after.asked == before.asked
    ensures Adds(before.stores, after.stores, "unknown", [Line("system", TrimSpace(job.prompt))], [])
  {
    BlankSessionsAreFiledUnderUnknown(job.session);
    hide Adds, TrimSpace, FileKey, Blank, Written, JobEffect;
    var end, reply := JobRecords(job, before, after);
  }
}
