# emailclaude webhook: a Dafny model of its string handling and outcome flow

The server receives inbound mail from SendGrid's inbound-parse webhook
(`POST /sendgrid/webhook`). It pulls the plain-text part out of the raw MIME
message and asks the Anthropic Messages API for a reply, greeting the sender by
name. It then sends the reply through SendGrid to the sender's bare address,
with the subject threaded as "Re: ...". This project models the logic of
`server.js` that decides what gets sent and how the request is answered:

- `ReplySubject` (`reply_subject.dfy`): the "Re: " prefixing of the subject
  (server.js:124-126). `ReplySubject.ReplySubject` is its definition,
  specified by the ReplySubject lemmas in the table below.
- `BareAddress` (`bare_address.dfy`): `cleanEmail`, the text of the leftmost
  match of `/<([^>]+)>/`, or the whole field (server.js:121-122).
  `BareAddress.CleanEmail` is its definition, specified by
  `CleanEmailMatched`, `CleanEmailUnmatched`, `CleanEmailOfNamedAddress` and
  `CleanEmailIdempotent`.
- `SenderName` (`sender_name.dfy`): `senderName`, from
  `/^([^<]+)<[^>]+>$/`, `includes('<')` and `split('@')[0]`
  (server.js:57-64). `SenderName.GreetingName` is its definition, specified
  by `GreetingNameFullForm`, `GreetingNameBare`, `GreetingNamePlaceholder`
  and `GreetingNameExamples`.
- `PlainTextBody` (`plain_text_body.dfy`): `emailText`, from the lazy MIME
  regex with its lookahead, then `trim()`, or "No text content found"
  (server.js:30-31). `PlainTextBody.PlainTextCapture` (group 1 of the match)
  and `PlainTextBody.EmailText` are its definitions, specified by
  `EmailTextMatched`, `EmailTextUnmatched`, `EmailTextWithoutHeader` and
  `CaptureHasNoBoundary`.
- `ToolResult` (`tool_result.dfy`): the `response_text` of the first
  `tool_use` content item, or the apology text (server.js:107-108).
  `ToolResult.ToolText` is the optional-chaining read of
  `toolUse?.input?.response_text`; `ResponseText` and its lemmas specify it.
- `Webhook` (`webhook.dfy`): the handler's 400/500/200 outcome and the
  ordered outbound calls. Both network calls are inputs: what the completion
  call returned, and whether the send call succeeded.
  `Webhook.HandleWebhook` is the handler's definition, specified by the
  `Handler...` lemmas. `Webhook.ServiceSender` is the definition of
  `process.env.FROM_EMAIL || 'claude@example.com'` (server.js:132);
  `HandlerSendContents` states which address it gives.
- `JsText` (`js_text.dfy`) and `Optional` (`optional.dfy`): `trim`,
  `startsWith` and `split(c)[0]` over `seq<char>`, the first-occurrence
  search `IndexFrom` behind the matchers and `split`, and an option type.
  `JsText.StartsWith` is the definition of `startsWith` (server.js:124); the
  ReplySubject lemmas specify its use.

Two of the regexes are modelled twice. A declarative predicate states what a
match is and which match JavaScript reports (the leftmost, in the engine's
backtracking order). A recursive scanner follows the engine's search; its
contract, proved by induction over the recursion, says it finds exactly that
match. The anchored name regex `/^([^<]+)<[^>]+>$/` needs no search:
`NameGroup` takes the first `<` and checks that the first `>` after it is
the last character, and `FullForm` with `NameGroupComplete` shows that this
accepts exactly the strings the regex matches.

The MIME regex is
`Content-Type: text\/plain[^]*?\r?\n\r?\n([^]*?)(?=\r?\n--|\r?\n$)`.
It is tried at start positions from the left. For each start, the lazy gap
is tried shortest first and then the lazy capture shortest first. The
reported match is therefore the least in the order (start, blank-line
position, capture end). `BlankLineUnique` shows that at most one of the four
`\r?\n\r?\n` alternatives fits at a position, so their order does not matter.
There is no multiline flag, so `$` is the end of the input, and so are the
`^` and `$` of the name regex.

`trim()` removes ECMAScript's WhiteSpace and LineTerminator characters.
These are U+0009, U+000A, U+000B, U+000C, U+000D, U+0020, U+00A0, U+1680,
U+2000 to U+200A, U+2028, U+2029, U+202F, U+205F, U+3000 and U+FEFF (the
space separators of Unicode 15 plus the others). A JavaScript string is a
sequence of UTF-16 code units, but a Dafny `char` is a Unicode scalar value:
a lone surrogate cannot occur in the model, and a character outside the
Basic Multilingual Plane is one `char` where JavaScript has two code units.
None of the modelled patterns or white-space characters lies outside that
plane, so matches and trimming are the same; only positions would differ.

The model covers what the code does, and nothing more:
- The code verifies no webhook signature and never answers 401.
- It does not compute reply-all recipients. It sends to exactly one cleaned
  address; it uses `to` only in a log line (server.js:34) and has no `cc`
  field at all.
- The bare-address fallback does not trim the field.

An absent `subject` (JavaScript `undefined`) makes `startsWith` throw at
server.js:124. That happens after the completion call and before the send,
so the model answers 500 with only the completion call made.

## Model

| member | source | states |
|---|---|---|
| JsText.TrimStart | server.js:31 | the result is the suffix of the input after its leading white space and does not start with white space |
| JsText.TrimEnd | server.js:31 | the result is the prefix of the input before its trailing white space and does not end with white space |
| JsText.Trim | server.js:60 | `trim()` is a slice of the input with only white space outside it, and starts and ends with non-space characters |
| JsText.TrimStartUnique | server.js:31 | any suffix after only white space that starts with a non-space character is the result of trimming the start |
| JsText.TrimEndUnique | server.js:31 | any prefix before only white space that ends with a non-space character is the result of trimming the end |
| JsText.TrimUnique | server.js:60 | the slice described by Trim's contract is unique, so it is an independent definition of `trim()` |
| JsText.TrimIdempotent | server.js:31 | trimming twice equals trimming once |
| JsText.TrimEmptyIffAllSpace | server.js:60 | `trim()` is empty exactly when the input is all white space |
| JsText.IndexFrom | server.js:58-63 | the first position at or after `k` holding `c`, or none when no such position exists; the name matcher (server.js:58), `split('@')` (server.js:63) and the address matcher (server.js:121) search with it |
| JsText.SplitHead | server.js:63 | `split(sep)[0]` is a prefix of the input with no `sep`, and is followed by `sep` or is the whole input |
| ReplySubject.ReplySubjectShape | server.js:124-126 | the reply subject starts with "Re: " and ends with the original; it equals the original exactly when that starts with "Re: ", and is otherwise "Re: " + original |
| ReplySubject.ReplySubjectIdempotent | server.js:124-126 | threading a subject twice gives the same result as threading it once |
| ReplySubject.ReplySubjectMismatch | server.js:124-126 | a subject that differs from "Re: " in any of its first four characters is prefixed with "Re: " |
| ReplySubject.ReplySubjectCaseSensitive | server.js:124-126 | the prefix test is exact and case-sensitive: "RE: x", "re: x" and "Re:x" get a new "Re: " |
| BareAddress.FindAngle | server.js:121 | the scanner returns a match of `/<([^>]+)>/` with no match at an earlier start, or none when no match exists |
| BareAddress.LeftmostAngleMatchUnique | server.js:121 | there is only one leftmost match of `/<([^>]+)>/` |
| BareAddress.FindAngleLeftmost | server.js:121 | the scanner's result is the leftmost match, and it finds none exactly when no match exists |
| BareAddress.CleanEmailMatched | server.js:121-122 | on a match, `cleanEmail` is the text strictly between the leftmost qualifying `<` and the next `>`; it is non-empty and has no `>` |
| BareAddress.CleanEmailUnmatched | server.js:121-122 | with no match, `cleanEmail` is the field unchanged, with no trimming |
| BareAddress.CleanEmailOfNamedAddress | server.js:121-122 | for `name<address>rest`, where name has no `<` and address is non-empty without `>`, `cleanEmail` is the address |
| BareAddress.CleanEmailIdempotent | server.js:121-122 | cleaning an already cleaned address changes nothing |
| SenderName.FullFormUnique | server.js:58 | a string splits into `P<I>` (P non-empty without `<`, I non-empty without `>`) in at most one way, so group 1 is determined |
| SenderName.NameGroup | server.js:58 | when the matcher for `/^([^<]+)<[^>]+>$/` accepts, the whole string is `P<I>` with P as group 1 |
| SenderName.NameGroupComplete | server.js:58 | the matcher accepts every whole-string `P<I>` of that form and returns P, so it accepts exactly that language |
| SenderName.GreetingNameFullForm | server.js:57-60 | for a full-form field the greeting is `trim(P)`, which is empty exactly when P is all white space |
| SenderName.GreetingNameBare | server.js:61-63 | a field without `<` greets by the text before its first `@`, or by the whole field when there is no `@` |
| SenderName.GreetingNamePlaceholder | server.js:57-64 | a field with `<` that is not of the full form gets "Esteemed Correspondent" |
| SenderName.GreetingNameExamples | server.js:57-64 | "a@b.com" greets "a", "<a@b.com>" gets the placeholder, and " <a@b.com>" greets by the empty string |
| PlainTextBody.BlankLineEnd | server.js:30 | `\r?\n\r?\n` matched at a position: its end when it fits, and none when no alternative fits |
| PlainTextBody.NextBoundary | server.js:30 | the lazy capture ends at the first position from the given one where the lookahead holds: a boundary line or a final line break follows |
| PlainTextBody.FirstGap | server.js:30 | the lazy gap picks the first blank line after which a boundary follows; no earlier blank line leads to a match |
| PlainTextBody.FirstMatch | server.js:30 | the search returns a match with nothing earlier in backtracking order, or none when no match exists |
| PlainTextBody.BlankLineUnique | server.js:30 | at most one blank line starts at a given position |
| PlainTextBody.LeftmostMatchUnique | server.js:30 | the match that the engine reports is unique |
| PlainTextBody.FirstMatchLeftmost | server.js:30 | the search result is the least match in the order (start, blank line, capture end) |
| PlainTextBody.EmailTextMatched | server.js:30-31 | on a match, `emailText` is the trimmed text from just after the first blank line following the header to the first boundary after it |
| PlainTextBody.EmailTextUnmatched | server.js:30-31 | there is no capture exactly when the regex matches nowhere, and then `emailText` is "No text content found" |
| PlainTextBody.EmailTextWithoutHeader | server.js:30-31 | without the case-sensitive `Content-Type: text/plain`, `emailText` is "No text content found" |
| PlainTextBody.BoundaryAtLineBreak | server.js:30 | the lookahead holds only at a carriage return or a line feed |
| PlainTextBody.DelimiterIsBoundary | server.js:30 | a "\n--" inside a stretch of the message is a place where the lookahead holds |
| PlainTextBody.CaptureHasNoBoundary | server.js:30 | the untrimmed capture never contains "\n--" |
| PlainTextBody.ExampleMatch | server.js:30 | a one-part sample message matches with the capture "Hi there" and no boundary inside it |
| PlainTextBody.ExampleLeftmost | server.js:30 | for that message the match at the header, the first blank line and the first boundary is the leftmost one |
| PlainTextBody.EmailTextExample | server.js:30-31 | for that message, `emailText` is "Hi there" |
| ToolResult.FindToolUse | server.js:107 | `find` returns the first item whose `type` is "tool_use", or none when no item is |
| ToolResult.ResponseText | server.js:107-108 | the reply text is never empty; it is the apology or the `response_text` of a tool-use item |
| ToolResult.ResponseTextFirstToolUse | server.js:107-108 | a non-empty `response_text` on the first tool-use item is the reply text |
| ToolResult.ResponseTextFallback | server.js:107-108 | with no tool-use item, or with a missing, null or empty text on the first one, the reply text is the apology; later items are ignored |
| Webhook.HandlerRejectsMissingFields | server.js:24-27 | the status is 400 exactly when `from` or `email` is missing or empty, and then no outbound call is made |
| Webhook.HandlerStatus | server.js:16-50 | the status is 200, 400 or 500; it is 200 exactly when both calls succeed, and 500 exactly when a validated request has a failed call or no subject |
| Webhook.HandlerCallOrder | server.js:39-46 | at most two calls are made, the completion call first; a send is always second and only follows a completed completion call |
| Webhook.HandlerCompletionRequest | server.js:30-39 | the completion request carries the greeting name, the raw `from`, the subject and the extracted plain text |
| Webhook.HandlerSendContents | server.js:118-137 | the one mail comes from FROM_EMAIL when it is set and non-empty, from claude@example.com otherwise; it goes to `cleanEmail(from)`; its subject is the threaded original, unchanged when it already starts with "Re: " and "Re: " + original otherwise; its body is the non-empty completion text |
| Webhook.NamedSender | server.js:57-60 | a field "Name <address>" is delivered to the address and greeted by `trim("Name ")` |
| Webhook.HandlerRepliesToNamedSender | server.js:16-50 | a successful request from "Name <address>" with an unprefixed subject yields 200 and exactly the completion request followed by one mail to the address with "Re: " + subject |
| Webhook.AliceHelloReply | server.js:16-50 | from "Alice <a@x.com>" with subject "Hello" and plain text "Hi there": 200, and one mail to "a@x.com" with subject "Re: Hello" |
| Webhook.ExampleNameAndSubject | server.js:57-60 | "Alice <a@x.com>" is a named address, "Alice " trims to "Alice", and "Hello" does not start with "Re: " |
| Webhook.HandlerExample | server.js:16-50 | the same request with a concrete one-part MIME message gives the completion request for "Hi there" from "Alice" and the one mail |

## Left out

- HTTP bootstrap is not modelled: Express, multer, dotenv, the health-check route and `app.listen` (server.js:1-13, 161-169).
- The two axios POSTs, their URLs, headers and API keys are not modelled. The handler is instead given what the completion call returned, or that it failed, and whether the send succeeded.
- The prompt text, the model name, `max_tokens` and the tool schema are constant data. The completion request records only the values interpolated into the prompt: sender name, raw `from`, subject and plain text.
- All `console.log`/`console.error` output is left out. So is the `to` field, which is only logged.
- A completion answer without a `content` array makes `find` throw, and so does one whose `content` holds a null or undefined item before the first tool-use item (reading `item.type` of it, server.js:107). Both are folded into `CompletionFailed`, which ends in 500 like any other completion failure (server.js:111-113, 47-49); `ContentItem` has no value for such an item.
- Non-string form fields are not modelled (multer gives an array for a repeated field), and neither are non-string `response_text` values. Fields and texts are strings, absent or null.
- No general regex engine is modelled: only the three patterns the server uses, each with its own matcher.
- UTF-16: JavaScript strings are sequences of UTF-16 code units, while a Dafny `char` is a Unicode scalar value. Lone surrogates cannot be represented, and the positions of characters outside the Basic Multilingual Plane (two code units in JavaScript, one `char` here) are not modelled.
