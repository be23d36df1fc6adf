/** SendMessage: one or two attempts to deliver a text. */
module Sender {
  import opened Wrappers
  import opened Text
  import opened Allow

  /** An HTTP request and what came back. */
  datatype Request = Request(chat: int, text: string, failed: bool, status: int)

  datatype Result = Sent | NotAllowed | EmptyText | NoChat | Failed

  predicate Delivered(r: Request) {
    !r.failed && 200 <= r.status < 300
  }

  class Sender {
    const allowFrom: seq<string>
    var requests: seq<Request>

    constructor (allowFrom: seq<string>)
      ensures this.allowFrom == allowFrom && requests == []
    {
      this.allowFrom := allowFrom;
      requests := [];
    }

    method DoRequest(chat: int, text: string) returns (r: Request)
      modifies this
      ensures requests == old(requests) + [r] && r.chat == chat && r.text == text
    {
      var failed: bool, status: int := *, *;
      r := Request(chat, text, failed, status);
      requests := requests + [r];
    }

    /**
     The first check that fails is reported, and then no request is made. Otherwise a second request follows exactly when
     the first was not delivered, and the result is that of the last one.
     */
    method SendMessage(chat: int, user: Option<User>, text: string) returns (result: Result, ghost made: seq<Request>)
      modifies this
      ensures requests == old(requests) + made
      ensures result == NotAllowed <==> !IsAllowedUser(allowFrom, user)
      ensures result == EmptyText <==> IsAllowedUser(allowFrom, user) && TrimSpace(text) == ""
      ensures result == NoChat <==> IsAllowedUser(allowFrom, user) && TrimSpace(text) != "" && chat == 0
      ensures result in {NotAllowed, EmptyText, NoChat} <==> made == []
      ensures forall r | r in made :: r.chat == chat && r.text == TrimSpace(text)
      ensures |made| <= 2 && (|made| == 2 ==> !Delivered(made[0])) && (|made| == 1 ==> Delivered(made[0]))
      ensures result == Sent <==> made != [] && Delivered(made[|made| - 1])
      ensures forall r | r in made :: Delivered(r) <==> !r.failed && r.status / 100 == 2
    {
      made := [];
      if !IsAllowedUser(allowFrom, user) { return NotAllowed, made; }
      var trimmed := TrimSpace(text);
      if trimmed == "" { return EmptyText, made; }
      if chat == 0 { return NoChat, made; }
      var attempt := 1;
      while attempt <= 2
        invariant 1 <= attempt <= 3 && |made| == attempt - 1
        invariant requests == old(requests) + made
        invariant forall r | r in made :: r.chat == chat && r.text == trimmed && !Delivered(r)
      {
        var r := DoRequest(chat, trimmed);
        made := made + [r];
        if Delivered(r) { return Sent, made; }
        attempt := attempt + 1;
      }
      return Failed, made;
    }
  }
}
