/** The chat session of public/chat.js: the `chatHistory` sent with every
    request and the `isProcessing` flag, driven by `sendMessage`. The
    function is cut at its first `await` into `Submit` (the guard, the user
    turn and the request) and `Complete` (handling the reply), so that a
    second send while a reply is outstanding can be stated. */
module Session {
  import opened JsStrings
  import opened Sse
  import opened Render

  datatype Role = User | Assistant

  /** An entry of `chatHistory`. */
  datatype Message = Message(role: Role, content: string)

  /** A message element of the page: who speaks and the HTML it shows. */
  datatype Bubble = Bubble(role: Role, html: string)

  /** What `fetch("/api/chat", …)` delivers: `HttpError` for a `fetch`
      that rejects or a reply that is not OK or has no body, all of which
      reach the `catch` block before any chunk is read; otherwise a body
      read as a sequence of decoded chunks, where `aborted` says whether
      the read after the last chunk throws instead of reporting the end
      of the stream. */
  datatype Reply = HttpError | Stream(chunks: seq<string>, aborted: bool)

  const Greeting: string := "سلام پرهام 😎\nالان UI شبیه ChatGPT شد. بگو چی بسازیم؟"
  const ErrorNotice: string := "⚠️ متاسفم، مشکلی در پردازش پاسخ رخ داد."

  /** What a reply comes to: the `responseText` gathered, and whether the
      `try` block ran to its end without throwing. */
  datatype Outcome = Outcome(text: string, ok: bool)

  function ReplyOutcome(reply: Reply, parse: string -> Json): Outcome {
    match reply
    case HttpError => Outcome("", false)
    case Stream(chunks, aborted) =>
      var r := Run(chunks, parse);
      Outcome(r.text, r.done || !aborted)
  }

  /** A failed request gives no text. A stream gives the scan of the
      complete frames of the chunks read before the loop stopped, and
      fails exactly when it is aborted after every chunk was read with no
      `[DONE]` in any of their frames. */
  lemma ReplyOutcomeSpec(reply: Reply, parse: string -> Json)
    ensures reply.HttpError? ==> !ReplyOutcome(reply, parse).ok && ReplyOutcome(reply, parse).text == ""
    ensures reply.Stream? ==> Run(reply.chunks, parse).read <= |reply.chunks|
    ensures reply.Stream? ==>
      ReplyOutcome(reply, parse).text == Scanned(Concat(reply.chunks[..Run(reply.chunks, parse).read]), parse).text
    ensures reply.Stream? ==>
      (!ReplyOutcome(reply, parse).ok <==>
        reply.aborted && Run(reply.chunks, parse).read == |reply.chunks| && !Scanned(Concat(reply.chunks), parse).done)
  {
    if reply.Stream? {
      RunMatchesConcatenation(reply.chunks, parse);
      assert reply.chunks[..|reply.chunks|] == reply.chunks;
    }
  }

  /** A stream is read to its end unless `[DONE]` came first, so it
      throws only when it is aborted before any `[DONE]`. */
  lemma StreamReadToEnd(chunks: seq<string>, aborted: bool, parse: string -> Json)
    ensures var r := Run(chunks, parse);
      !r.done ==> r.read == |chunks| && r.text == Scanned(Concat(chunks), parse).text
    ensures !ReplyOutcome(Stream(chunks, aborted), parse).ok ==> aborted && !Run(chunks, parse).done
  {
    if !Run(chunks, parse).done {
      RunWhole(chunks, parse);
    }
  }

  /** The entries a session can hold: the greeting first, no empty entry,
      and every user entry trimmed. */
  predicate WellFormed(history: seq<Message>) {
    |history| >= 1 && history[0] == Message(Assistant, Greeting)
    && (forall i :: 0 <= i < |history| ==> history[i].content != "")
    && (forall i :: 0 <= i < |history| && history[i].role == User ==> Trimmed(history[i].content))
  }

  lemma AppendUser(history: seq<Message>, input: string)
    requires WellFormed(history) && Trim(input) != ""
    ensures WellFormed(history + [Message(User, Trim(input))])
  {
    var h := history + [Message(User, Trim(input))];
    TrimSpec(input);
    forall i | 0 <= i < |h|
      ensures h[i].content != ""
      ensures h[i].role == User ==> Trimmed(h[i].content)
    {
      if i < |history| {
        assert h[i] == history[i];
      }
    }
  }

  lemma AppendAssistant(history: seq<Message>, text: string)
    requires WellFormed(history) && text != ""
    ensures WellFormed(history + [Message(Assistant, text)])
  {
    var h := history + [Message(Assistant, text)];
    assert forall i :: 0 <= i < |history| ==> h[i] == history[i];
  }

  class ChatSession {
    /** `chatHistory` */
    var history: seq<Message>
    /** `isProcessing` */
    var busy: bool
    /** `userInput.value` */
    var input: string
    /** The message elements of `chatMessages`, in order. */
    var view: seq<Bubble>
    /** `JSON.parse`, as far as the reader looks at its result. */
    const parse: string -> Json
    /** The HTML `addMessage` gives the error notice: `renderMarkdown` of it. */
    const errorHtml: string

    predicate Valid()
      reads this
    {
      WellFormed(history) && (busy ==> |view| > 0 && view[|view| - 1] == Bubble(Assistant, ""))
    }

    /** The state the page starts in. */
    constructor (parse: string -> Json)
      ensures Valid()
      ensures history == [Message(Assistant, Greeting)] && !busy
      ensures input == "" && view == [] && this.parse == parse
      ensures errorHtml == RenderMarkdown(ErrorNotice)
    {
      history := [Message(Assistant, Greeting)];
      busy := false;
      input := "";
      view := [];
      this.parse := parse;
      errorHtml := RenderMarkdown(ErrorNotice);
    }

    /** Typing into the text area. */
    method Type(text: string)
      modifies this
      ensures input == text
      ensures history == old(history) && busy == old(busy) && view == old(view)
    {
      input := text;
    }

    /** `sendMessage` up to the request: an empty or blank input, or a
        reply still outstanding, changes nothing; otherwise the session
        becomes busy, the trimmed message is shown and added to the
        history, an empty assistant bubble is placed for the reply, and
        the whole history is what is sent. */
    method Submit() returns (accepted: bool, request: seq<Message>)
      requires Valid()
      modifies this
      ensures Valid()
      ensures accepted <==> Trim(old(input)) != "" && !old(busy)
      ensures !accepted ==>
        history == old(history) && busy == old(busy) && input == old(input) && view == old(view)
      ensures accepted ==>
        busy && input == ""
        && history == old(history) + [Message(User, Trim(old(input)))]
        && view == old(view) + [Bubble(User, RenderMarkdown(Trim(old(input)))), Bubble(Assistant, "")]
        && request == history
    {
      var message := Trim(input);
      if message == "" || busy {
        return false, [];
      }
      AppendUser(history, input);
      busy, input := true, "";
      view := view + [Bubble(User, RenderMarkdown(message)), Bubble(Assistant, "")];
      history := history + [Message(User, message)];
      accepted, request := true, history;
    }

    /** `sendMessage` from the reply on: the stream is read into the last
        bubble; only a cycle that ran to its end adds the reply, and only
        when it is not empty; a failed one adds the error bubble instead;
        the session is never left busy. */
    method Complete(reply: Reply) returns (ok: bool)
      requires Valid() && busy
      modifies this
      ensures Valid()
      ensures ok == ReplyOutcome(reply, parse).ok
      ensures !busy && input == old(input)
      ensures var text := ReplyOutcome(reply, parse).text;
        history == if ok && text != "" then old(history) + [Message(Assistant, text)] else old(history)
      ensures var text := ReplyOutcome(reply, parse).text;
        view == old(view)[..|old(view)| - 1] + [Bubble(Assistant, Shown(text))]
          + (if ok then [] else [Bubble(Assistant, errorHtml)])
    {
      var responseText, html := "", "";
      ok := false;
      if reply.Stream? {
        var doneReading;
        responseText, doneReading, html := ReadStream(reply.chunks, parse);
        ok := doneReading || !reply.aborted;
      }
      assert ReplyOutcome(reply, parse) == Outcome(responseText, ok);
      var bubbles := view[..|view| - 1] + [Bubble(Assistant, html)];
      if ok && responseText != "" {
        AppendAssistant(history, responseText);
        history := history + [Message(Assistant, responseText)];
      }
      view := bubbles + (if ok then [] else [Bubble(Assistant, errorHtml)]);
      busy := false;
    }

    /** `sendMessage` run to completion with no other send in between: the
        page gains the user bubble, the reply bubble as the stream left it,
        and the error bubble when the cycle failed. */
    method SendMessage(reply: Reply) returns (accepted: bool, ok: bool)
      requires Valid()
      modifies this
      ensures Valid()
      ensures busy == (old(busy) && !accepted)
      ensures accepted <==> Trim(old(input)) != "" && !old(busy)
      ensures !accepted ==> history == old(history) && input == old(input) && view == old(view)
      ensures accepted ==> ok == ReplyOutcome(reply, parse).ok && input == ""
      ensures accepted ==> var text := ReplyOutcome(reply, parse).text;
        history == old(history) + [Message(User, Trim(old(input)))]
          + (if ok && text != "" then [Message(Assistant, text)] else [])
      ensures accepted ==> var text := ReplyOutcome(reply, parse).text;
        view == old(view) + [Bubble(User, RenderMarkdown(Trim(old(input))))] + [Bubble(Assistant, Shown(text))]
          + (if ok then [] else [Bubble(Assistant, errorHtml)])
    {
      var request;
      accepted, request := Submit();
      ok := false;
      if accepted {
        PlaceholderDropped(old(view), Bubble(User, RenderMarkdown(Trim(old(input)))));
        ok := Complete(reply);
      }
    }
  }

  /** Filling the reply placeholder replaces the last bubble only. */
  lemma PlaceholderDropped(v: seq<Bubble>, user: Bubble)
    ensures (v + [user, Bubble(Assistant, "")])[..|v| + 1] == v + [user]
  {
  }

  /** A second send while the first reply is outstanding is ignored,
      whatever was typed for it: the history grows by the first message
      and its reply only, the page by the bubbles of the first send only,
      and the session is idle again. */
  method SecondSendWhileBusy(s: ChatSession, message: string, again: string, reply: Reply)
    returns (first: bool, second: bool)
    requires s.Valid() && !s.busy && Trim(message) != ""
    modifies s
    ensures s.Valid() && !s.busy
    ensures first && !second
    ensures var o := ReplyOutcome(reply, s.parse);
      s.history == old(s.history) + [Message(User, Trim(message))]
        + (if o.ok && o.text != "" then [Message(Assistant, o.text)] else [])
    ensures var o := ReplyOutcome(reply, s.parse);
      s.view == old(s.view) + [Bubble(User, RenderMarkdown(Trim(message)))] + [Bubble(Assistant, Shown(o.text))]
        + (if o.ok then [] else [Bubble(Assistant, s.errorHtml)])
  {
    s.Type(message);
    var request;
    first, request := s.Submit();
    PlaceholderDropped(old(s.view), Bubble(User, RenderMarkdown(Trim(message))));
    ghost var submitted, history := s.view, s.history;
    s.Type(again);
    second, request := s.Submit();
    assert s.view == submitted && s.history == history;
    var ok := s.Complete(reply);
  }
}
