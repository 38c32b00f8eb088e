# JokerAI chat handler — a Dafny model

JokerAI is a small Express backend whose `POST /chat` route forwards a user
message to an upstream chat-completion service and sends back a cleaned-up
reply. This project models the pure text pipeline inside that route:

1. **Input gate** — a missing, falsy or blank message is answered with
   `**Erro:** mensagem vazia.` and nothing is sent upstream.
2. **Reply extraction** — `choices[0].message.content` is used when it is
   truthy; otherwise `**Erro:** não foi possível gerar resposta.` takes its
   place. A failed request or body parse (and any exception inside the `try`
   block) gives `**Erro:** falha na conexão com a IA.`
3. **Newline normalisation** — every run of three or more line feeds becomes
   exactly two, then the reply is trimmed.
4. **Language guard** — when the lower-cased normalised reply contains one of
   `usted`, `respuesta`, `mensaje`, `puede`, `hola`, the warning
   `**Aviso:** resposta corrigida automaticamente.\n\n` is put in front of it.

The upstream call is not modelled: its outcome is an input of type
`Upstream` (`Failed`, or `Parsed(content)` where `content` is what the
optional chain read). A request's result is an `Exchange`: the messages for
which an upstream request is attempted (none or one; `Failed` covers an
attempt that never reached the service) and the reply given to the caller.

Modules:

- `Text` (`text.dfy`) — `trim`, ASCII `toLowerCase` and `includes`, each with
  a characterisation: `Trim` returns the unique trimmed infix between two
  whitespace-only ends; `Contains` holds exactly when an occurrence exists.
- `Newlines` (`newlines.dfy`) — the `/\n{3,}/g` replacement (`Collapse`) and
  the full normalisation (`Normalise`).
- `LanguageGuard` (`guard.dfy`) — the Spanish-term detection and the warning.
- `Chat` (`chat.dfy`) — the handler, with JavaScript truthiness of the values
  it reads.

Behaviour worth knowing, proved in the model: content that is non-empty but
all whitespace is truthy, so it skips the fallback and then normalises to the
empty string — the caller receives an empty reply
(`Chat.WhitespaceContentGivesEmptyReply`). A truthy non-string message (a
number, an object) has no `trim` method; the exception escapes before the
`try` block, so the handler itself sends no reply
(`Chat.NonStringMessageIsUncaught`). What the caller then sees depends on the
Express version, which index.js does not pin: Express 5 passes the rejected
promise to its error handler, which answers with status 500; Express 4 leaves
the rejection unhandled, which by default ends a Node 15 or later process.
Content that is a truthy non-string has no `replace` method; that exception is
caught and becomes the connection-failure text.

## Model

| member | source | states |
|---|---|---|
| `Text.Trim` | index.js:75 | the result has no whitespace at either end and is the infix of the input left after removing a whitespace-only prefix and a whitespace-only suffix |
| `Text.TrimUnique` | index.js:75 | trimming whitespace + trimmed text + whitespace gives exactly that text, so `Trim` is determined by its contract |
| `Text.TrimIdempotent` | index.js:75 | trimming twice equals trimming once |
| `Text.TrimEmptyIff` | index.js:18 | `trim()` yields the empty string exactly when the input is all whitespace |
| `Text.Lower` | index.js:80 | lower-casing keeps the length, turns each `A`..`Z` into the matching `a`..`z` (32 code points on), leaves no upper-case ASCII letter, and keeps every other character in its place |
| `Text.LowerIdempotent` | index.js:80 | lower-casing an already lower-cased string changes nothing |
| `Text.Contains` | index.js:80 | `includes` holds exactly when the term occurs at some index of the string |
| `Text.ContainsAfterPrefix` | index.js:80 | an occurrence survives anything being put in front of the string |
| `Newlines.Collapse` | index.js:75 | the replacement never lengthens the string, empties only the empty string, and keeps whether it starts with a line feed |
| `Newlines.CollapseNoTripleBreak` | index.js:75 | the replacement leaves no three consecutive line feeds anywhere |
| `Newlines.CollapseRun` | index.js:75 | each maximal run of line feeds is replaced on its own: by exactly two when it has three or more, by itself when it has one or two |
| `Newlines.CollapseKeepsOtherChars` | index.js:75 | every character other than a line feed survives the replacement, in order |
| `Newlines.CollapseUnchangedIff` | index.js:75 | the replacement changes a string exactly when it holds three line feeds in a row |
| `Newlines.CollapseIdempotent` | index.js:75 | replacing twice equals replacing once |
| `Newlines.Normalise` | index.js:75 | the normalised reply has no triple line feed, no whitespace at its ends, and is the collapsed reply with only end whitespace removed |
| `Newlines.NormaliseIdempotent` | index.js:75 | normalising twice equals normalising once |
| `Newlines.NormaliseWhitespace` | index.js:75 | a reply of whitespace only normalises to the empty string |
| `Newlines.NormaliseUnchangedIff` | index.js:75 | normalisation leaves a reply unchanged exactly when it has no triple line feed and is already trimmed |
| `LanguageGuard.AnyTermIn` | index.js:78-81 | `some(p => s.includes(p))` holds exactly when some term of the list occurs in the string |
| `LanguageGuard.Detected` | index.js:78-81 | a reply reads as Spanish exactly when one of the five terms occurs in its lower-cased text |
| `LanguageGuard.Guard` | index.js:83-87 | the warning is put in front of the reply exactly when a term occurs in the lower-cased reply, and the reply is returned as it is exactly when none does |
| `LanguageGuard.GuardIgnoresCase` | index.js:78-87 | the check is case-insensitive: a reply is detected, and warned about, exactly when its lower-cased text is |
| `LanguageGuard.ShoutedTermDetected` | index.js:78-87 | a term written in capitals is still found: any reply containing `HOLA` gets the warning |
| `LanguageGuard.GuardNotIdempotent` | index.js:83-87 | the guard flags rather than repairs: a warned reply guarded again gets a second warning |
| `LanguageGuard.GuardEmpty` | index.js:78-87 | an empty reply passes the guard unchanged |
| `LanguageGuard.NotDetectedWithoutMarkers` | index.js:78-81 | a reply with no `u`, `h` or `j` in either case is never flagged |
| `Chat.ExtractReply` | index.js:66-68 | truthy content is kept, anything falsy is replaced by the no-content text, and the result is always truthy |
| `Chat.PostProcess` | index.js:75-95 | content that is not a string ends in the catch with the connection-failure text; a string becomes its normalisation, with or without the warning in front, and the normalised part has no triple line feed and no end whitespace |
| `Chat.Respond` | index.js:24-95 | a failed request or parse gives the connection-failure text, falsy content the no-content text, and non-empty string content its normalisation with or without the warning |
| `Chat.HandleChat` | index.js:15-96 | an upstream request is attempted for at most one message, and it is the caller's message as given |
| `Chat.BlankMessageShortCircuits` | index.js:18-22 | a missing or falsy message, or a whitespace-only one, gets exactly the empty-message text and nothing is sent, whatever the upstream would do |
| `Chat.SentIff` | index.js:18-59 | an upstream request is attempted exactly when the message is a string that is not all whitespace, and it carries the untrimmed message |
| `Chat.SentMessageReply` | index.js:18-95 | for a message that is not all whitespace an upstream request carrying it unchanged is attempted, and the message is answered with what the `try` block makes of the upstream outcome |
| `Chat.FalsyContentGivesNoContentReply` | index.js:66-68 | absent or falsy content (the empty string included) yields exactly the no-content text |
| `Chat.NoContentReplyPassesThrough` | index.js:66-87 | the no-content text comes out of normalisation and the guard unchanged |
| `Chat.FailureGivesConnectionFailureReply` | index.js:91-95 | a failed request or body parse, and content that is a truthy non-string, yield exactly the connection-failure text |
| `Chat.StringContentReply` | index.js:66-89 | non-empty string content is answered with its normalisation, prefixed by the warning exactly when that reads as Spanish; the normalised part has no triple line feed and no end whitespace |
| `Chat.WhitespaceContentGivesEmptyReply` | index.js:66-75 | non-empty all-whitespace content skips the fallback and produces an empty reply |
| `Chat.NonStringMessageIsUncaught` | index.js:16-18 | a truthy non-string message makes `trim` throw outside the `try`: no reply and nothing sent |
| `Chat.ReplyCases` | index.js:15-96 | every reply is one of the three fixed texts or the guarded normalisation of the string content |

## Left out

- Express setup, CORS, the JSON body middleware, the status route and `app.listen` (index.js:1-8, 98-112): HTTP plumbing.
- The `fetch` call, its headers, the bearer token read from the environment, the model parameters and the system prompt (index.js:10, 24-62): network I/O. The upstream outcome is the `Upstream` input instead.
- `response.json()` and the optional chain into `choices[0].message.content` (index.js:64-67): the value the chain reads is the `Value` input; the JSON parser itself is not modelled.
- Text.Lower: only ASCII letters are lower-cased; JavaScript's `toLowerCase` folds all of Unicode. The five terms are plain ASCII without `i` or `k`, and the only non-ASCII characters whose lower case contains an ASCII letter lower-case to `i` or `k`, so detection is not expected to differ; this is not proved.
- Text.Trim: the whitespace set is the fixed list of WhiteSpace and LineTerminator characters of ECMA-262 (sections 12.2 and 12.3), written out; it is not derived from the Unicode database.
- Strings are sequences of Unicode scalar values; JavaScript strings with unpaired surrogates are not modelled.
- Concurrency and the asynchronous execution of the handler: each request is modelled as one call of `Chat.HandleChat`.
