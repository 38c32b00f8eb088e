/** The POST /chat handler: the blank-message gate, the upstream reply
    extraction with its fallbacks, newline normalisation and the language
    guard, composed in the order the handler runs them. The upstream call
    itself is not modelled; its outcome is an input. */
module Chat {
  import opened Text
  import opened Newlines
  import opened LanguageGuard

  /** A value read out of parsed JSON through optional chaining: nothing
      there (undefined), a string, or some other value, which is falsy
      (null, false, 0) or truthy (a non-zero number, true, an object, an
      array). */
  datatype Value = Absent | Str(text: string) | NonString(truthy: bool)

  /** JavaScript truthiness of such a value. */
  predicate Truthy(v: Value) {
    match v
    case Absent => false
    case Str(t) => t != []
    case NonString(b) => b
  }

  /** What the upstream exchange gave back: either the fetch or the JSON
      parse of its body failed, or the body parsed and
      choices[0].message.content read as the given value. */
  datatype Upstream = Failed | Parsed(content: Value)

  /** The handler's answer: a JSON body { reply }, or nothing because a
      TypeError escaped before the try block (the message was a truthy
      non-string, which has no trim method). What the caller then sees
      depends on the Express version, which index.js does not pin: Express 5
      hands the rejected promise to its error handler, which answers with
      status 500; Express 4 leaves the rejection unhandled, which by default
      ends a Node 15 or later process. */
  datatype Response = Reply(reply: string) | Uncaught

  /** One request: the user messages for which an upstream request is
      attempted (none or one; the attempt may fail before it reaches the
      service) and the answer given to the caller. */
  datatype Exchange = Exchange(sent: seq<string>, response: Response)

  const EmptyMessageReply: string := "**Erro:** mensagem vazia."
  const NoContentReply: string := "**Erro:** não foi possível gerar resposta."
  const ConnectionFailureReply: string := "**Erro:** falha na conexão com a IA."

  /** content || fallback: the content when it is truthy, else the fixed
      no-content text. */
  function ExtractReply(content: Value): (v: Value)
    ensures Truthy(content) ==> v == content
    ensures !Truthy(content) ==> v == Str(NoContentReply)
    ensures Truthy(v)
  {
    if Truthy(content) then content else Str(NoContentReply)
  }

  /** Post-processing inside the try block. A string is normalised and
      guarded; anything else has no replace method, so the TypeError lands
      in the catch and yields the connection-failure text. */
  function PostProcess(v: Value): (r: string)
    ensures !v.Str? ==> r == ConnectionFailureReply
    ensures v.Str? ==> var n := Normalise(v.text);
                       (r == n || r == WarningPrefix + n) && NoTripleBreak(n) && IsTrimmed(n)
  {
    match v
    case Str(t) => Guard(Normalise(t))
    case _ => ConnectionFailureReply
  }

  /** The body of the try block and its catch, given the upstream outcome.
      A failure gives the connection-failure text, falsy content the
      no-content text, and string content its normalisation, with or
      without the warning in front. */
  function Respond(upstream: Upstream): (r: string)
    ensures upstream.Failed? ==> r == ConnectionFailureReply
    ensures upstream.Parsed? && !Truthy(upstream.content) ==> r == NoContentReply
    ensures upstream.Parsed? && upstream.content.Str? && upstream.content.text != [] ==>
              var n := Normalise(upstream.content.text); r == n || r == WarningPrefix + n
  {
    match upstream
    case Failed => ConnectionFailureReply
    case Parsed(content) =>
      var v := ExtractReply(content);
      assert !Truthy(content) ==> PostProcess(v) == NoContentReply by {
        if !Truthy(content) { NoContentReplyPassesThrough(); }
      }
      PostProcess(v)
  }

  /** The whole handler for one request body message and one upstream
      outcome. The upstream outcome is only consulted when a request is
      actually sent. */
  function HandleChat(message: Value, upstream: Upstream): (e: Exchange)
    ensures e.sent == [] || (message.Str? && e.sent == [message.text])
  {
    if !Truthy(message) then
      Exchange([], Reply(EmptyMessageReply))
    else if message.NonString? then
      Exchange([], Uncaught)
    else if Trim(message.text) == [] then
      Exchange([], Reply(EmptyMessageReply))
    else
      Exchange([message.text], Reply(Respond(upstream)))
  }

  /** A missing or falsy message (undefined, null, false, 0, ""), or one
      that is empty after trimming, is answered with the fixed empty-message
      text and nothing is sent upstream, whatever the upstream would have
      done. */
  lemma BlankMessageShortCircuits(message: Value, upstream: Upstream)
    requires !Truthy(message) || (message.Str? && AllWhitespace(message.text))
    ensures HandleChat(message, upstream) == Exchange([], Reply(EmptyMessageReply))
  {
    if message.Str? { TrimEmptyIff(message.text); }
  }

  /** An upstream request is attempted exactly when the message is a string
      that is not all whitespace, and then it carries the message as it was given,
      untrimmed. */
  lemma SentIff(message: Value, upstream: Upstream)
    ensures HandleChat(message, upstream).sent != []
        <==> message.Str? && !AllWhitespace(message.text)
    ensures HandleChat(message, upstream).sent != [] ==> HandleChat(message, upstream).sent == [message.text]
  {
    if message.Str? { TrimEmptyIff(message.text); }
  }

  /** For a message with something other than whitespace in it, an
      upstream request carrying it as it is is attempted, and the reply is
      what the try block makes of the upstream outcome. */
  lemma SentMessageReply(message: Value, upstream: Upstream)
    requires message.Str? && !AllWhitespace(message.text)
    ensures HandleChat(message, upstream) == Exchange([message.text], Reply(Respond(upstream)))
  {
    TrimEmptyIff(message.text);
  }

  /** The fixed no-content text comes out of normalisation and the guard
      unchanged. */
  lemma NoContentReplyPassesThrough()
    ensures Guard(Normalise(NoContentReply)) == NoContentReply
  {
    NoContentReplyFacts();
    NormaliseWithoutBreaks(NoContentReply);
    TrimOfTrimmed(NoContentReply);
    NotDetectedWithoutMarkers(NoContentReply);
  }

  lemma NoContentReplyFacts()
    ensures '\n' !in NoContentReply
    ensures 'u' !in NoContentReply && 'U' !in NoContentReply
    ensures 'h' !in NoContentReply && 'H' !in NoContentReply
    ensures 'j' !in NoContentReply && 'J' !in NoContentReply
    ensures IsTrimmed(NoContentReply)
  {
    NoNewlineInNoContentReply();
    NoLowerU(); NoUpperU(); NoLowerH(); NoUpperH(); NoLowerJ(); NoUpperJ();
  }

  // Each character fact about the no-content text is proved on its own:
  // together in one lemma the proof grows too large for the solver.
  lemma NoNewlineInNoContentReply() ensures '\n' !in NoContentReply {}
  lemma NoLowerU() ensures 'u' !in NoContentReply {}
  lemma NoUpperU() ensures 'U' !in NoContentReply {}
  lemma NoLowerH() ensures 'h' !in NoContentReply {}
  lemma NoUpperH() ensures 'H' !in NoContentReply {}
  lemma NoLowerJ() ensures 'j' !in NoContentReply {}
  lemma NoUpperJ() ensures 'J' !in NoContentReply {}

  /** When the upstream content is absent or falsy (the empty string
      included), the reply is exactly the no-content text. */
  lemma FalsyContentGivesNoContentReply(message: Value, content: Value)
    requires message.Str? && !AllWhitespace(message.text)
    requires !Truthy(content)
    ensures HandleChat(message, Parsed(content)).response == Reply(NoContentReply)
  {
    SentMessageReply(message, Parsed(content));
    RespondToFalsyContent(content);
  }

  lemma RespondToFalsyContent(content: Value)
    requires !Truthy(content)
    ensures Respond(Parsed(content)) == NoContentReply
  {
    assert ExtractReply(content) == Str(NoContentReply);
    NoContentReplyPassesThrough();
  }

  /** A failed fetch or body parse, and content that is a truthy non-string,
      both end in the catch: the reply is exactly the connection-failure
      text. */
  lemma FailureGivesConnectionFailureReply(message: Value, upstream: Upstream)
    requires message.Str? && !AllWhitespace(message.text)
    requires upstream.Failed? || (upstream.content.NonString? && upstream.content.truthy)
    ensures HandleChat(message, upstream).response == Reply(ConnectionFailureReply)
  {
    SentMessageReply(message, upstream);
  }

  /** Truthy string content is normalised and guarded inside the try
      block. */
  lemma RespondToStringContent(content: string)
    requires content != []
    ensures Respond(Parsed(Str(content))) == Guard(Normalise(content))
  {
    assert ExtractReply(Str(content)) == Str(content);
  }

  /** Non-empty string content is normalised and guarded: the reply is the
      normalised content, with the warning in front exactly when it reads as
      Spanish. The normalised part never has three line feeds in a row nor
      whitespace at its ends. */
  lemma StringContentReply(message: Value, content: string)
    requires message.Str? && !AllWhitespace(message.text)
    requires content != []
    ensures var n := Normalise(content);
            HandleChat(message, Parsed(Str(content))).response
              == Reply(if Detected(n) then WarningPrefix + n else n)
    ensures NoTripleBreak(Normalise(content)) && IsTrimmed(Normalise(content))
  {
    SentMessageReply(message, Parsed(Str(content)));
    RespondToStringContent(content);
  }

  /** Content that is non-empty but all whitespace is truthy, so it skips the
      fallback, and normalises to nothing: the caller gets an empty reply. */
  lemma WhitespaceContentGivesEmptyReply(message: Value, content: string)
    requires message.Str? && !AllWhitespace(message.text)
    requires content != [] && AllWhitespace(content)
    ensures HandleChat(message, Parsed(Str(content))).response == Reply([])
  {
    SentMessageReply(message, Parsed(Str(content)));
    RespondToStringContent(content);
    NormaliseWhitespace(content);
    GuardEmpty();
  }

  /** A message that is a truthy non-string makes trim throw outside the try
      block: no reply, and nothing sent upstream. */
  lemma NonStringMessageIsUncaught(upstream: Upstream)
    ensures HandleChat(NonString(true), upstream) == Exchange([], Uncaught)
  {
  }

  /** Every reply the caller can receive is one of the three fixed texts or
      the guarded normalisation of the upstream content. */
  lemma ReplyCases(message: Value, upstream: Upstream)
    requires HandleChat(message, upstream).response.Reply?
    ensures var r := HandleChat(message, upstream).response.reply;
            r == EmptyMessageReply || r == NoContentReply || r == ConnectionFailureReply
            || (upstream.Parsed? && upstream.content.Str? && r == Guard(Normalise(upstream.content.text)))
  {
    if upstream.Parsed? && !Truthy(upstream.content) {
      NoContentReplyPassesThrough();
    }
  }
}
