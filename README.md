# wwwwbot booking relay — a Dafny model

wwwwbot is a small WhatsApp relay for a booking service with two halves:

- **The Node service (`index.js`).**
  - It answers inbound chat messages from a fixed FAQ table of keywords.
  - It exposes `POST /send-whatsapp`, which greets the customer whose country code and phone number it receives.
- **A Google Apps Script (`google-apps-script.js`).**
  - It scans unread booking e-mails and extracts a country code and a phone number from each body with two regular expressions.
  - It forwards every complete pair to the endpoint above, then marks the e-mail read and labels its thread.

The model has six modules, one file each:

| file | module | what it holds |
|---|---|---|
| `wrappers.dfy` | `Wrappers` | `Option`, standing for a JavaScript value that may be `null`/`undefined` |
| `js_text.dfy` | `JsText` | The JavaScript string operations the core relies on: `toLowerCase` (ASCII), `trim` and `\s` (the ECMAScript whitespace and line-terminator set), and `includes` |
| `faq.dfy` | `Faq` | The FAQ table, the first-match function, and `HandleMessage`, the handler's `for…of` loop with its early `break`. The handler's actions are a sequence of effects: a reply, then a chat-log insert |
| `webhook.dfy` | `Webhook` | `/send-whatsapp` as a pure function from the two request fields and the outcomes of the send and the log insert to a status, a body and the effects issued |
| `extraction.dfy` | `Extraction` | `extractPhoneData`. Each regular expression is a scanner tried at every position from the left, as the regular-expression engine runs it. The file also proves facts about the sample e-mail of `testExtraction` |
| `forwarding.dfy` | `Forwarding` | `processGmailEmails`, described below |

In `forwarding.dfy`, the `Mailbox` class holds the threads matching the search query, in search order. Its `MarkRead` and `AddLabel` methods update those threads in place. Its `ProcessGmailEmails` method runs the two nested loops, and each loop is proved against a specification function:

- `AfterThreads` gives the mailbox state afterwards;
- `Forwarded` gives the data sent, in order.

The message bodies are read through a function-typed field, `extract`. The constructor sets it to `Extraction.ExtractPhoneData`. The loop lemmas hold for any extractor. `ForwardedIsWellFormed` and `SampleMailbox` then apply them to the script's own extractor.

External calls are not modelled as calls. Each becomes a recorded effect or a boolean parameter saying whether the call succeeded: the WhatsApp reply and send (`replyOk`, `sendOk`) and the booking insert of `/send-whatsapp` (`logOk`). The chat-log insert of the FAQ handler needs no outcome: it is the handler's last action, and its failure is swallowed. The initial `threads` field holds the threads matching the Gmail query, in search order; the search returns the first ten of them.

## Model

| member | source | states |
|---|---|---|
| Faq.Normalize | index.js:63 | `body.toLowerCase().trim()`. Its meaning is stated by `NormalizedShape` and `ResponseIgnoresCaseAndPadding` |
| Faq.NormalizedShape | index.js:63 | The normalised text holds no upper-case letter and neither begins nor ends with whitespace. It is empty exactly when the body is all whitespace |
| Faq.ChosenResponse | index.js:66-68 | The response paired with the first included keyword. Its meaning is stated by `ChosenResponseIsFirstOccurring` |
| Faq.FirstMatch | index.js:66-67 | The index returned is the first table entry whose keyword is a substring of the text. None is returned exactly when no keyword occurs |
| Faq.HandleMessage | index.js:62-88 | The loop with early `break` issues exactly the effects of `MessageEffects`: nothing, or one reply followed, when the reply succeeded, by one chat-log insert |
| Faq.ResponseIgnoresCaseAndPadding | index.js:63 | Upper-casing the body and surrounding it with whitespace never changes the chosen response |
| Faq.ChosenResponseIsFirstOccurring | index.js:66-67 | The response belongs to the first keyword, in declaration order, that occurs at some position of the lower-cased, trimmed text. Later matching keywords are ignored. There is no response iff no keyword occurs anywhere |
| Faq.AtMostOneReplyAndLog | index.js:68-85 | At most two effects per message. The first is a reply and the second a chat-log insert |
| Faq.NoMatchNoEffects | index.js:66-87 | No reply and no log exactly when no keyword occurs in the normalised text |
| Faq.LogRecordsRawBodyAndReply | index.js:71-81 | The log holds the sender, the raw body and exactly the replied response. It is written iff a keyword matched and the reply succeeded |
| Faq.PnrQuestionExample | index.js:44-46 | "What is my PNR?" misses "what is pnr" but contains "pnr", so it gets the PNR answer |
| Faq.TableOrderExample | index.js:44-50 | "Booking Status PNR" contains two keywords. The earlier-declared "pnr" wins, and the reply is logged with the raw body |
| Faq.NoKeywordExample | index.js:62-88 | "Hello there" gets no reply and no log |
| JsText.Lower | index.js:63 | `toLowerCase` on ASCII letters. Its meaning is stated by `LowerIsLower`, `LowerOfUpper` and `LowerConcat` |
| JsText.LowerIsLower | index.js:63 | Lower-casing keeps the length, leaves no ASCII upper-case letter, keeps every other character, keeps each letter the same letter, and is idempotent |
| JsText.LowerOfUpper | index.js:63 | Lower-casing forgets the case of every letter: it gives the same result on the upper-cased string |
| JsText.LowerConcat | index.js:63 | Lower-casing distributes over concatenation |
| JsText.Trim | index.js:63 | `trim`. Its meaning is stated by `TrimSplits` and `TrimCharacterised` |
| JsText.TrimCharacterised | index.js:63 | When a string that is empty, or neither begins nor ends with whitespace, is surrounded by whitespace, `trim` returns exactly that string |
| JsText.TrimSplits | index.js:63 | Every string is a whitespace prefix, its trimmed form and a whitespace suffix. The trimmed form is empty or neither begins nor ends with whitespace |
| JsText.TrimIgnoresPadding | index.js:63 | Whitespace added around a string does not change its trimmed form |
| JsText.Includes | index.js:67 | `includes`. Its meaning is stated by `IncludesIffOccurs` |
| JsText.IncludesIffOccurs | index.js:67 | `includes` holds iff the keyword occurs at some position |
| Webhook.HandleSendWhatsapp | index.js:91-130 | Every response is a 200, 400 or 500. It is a 200 exactly when both fields are truthy and the send succeeded. The other rules are stated by `MissingFieldRejected`, `SendTargetsDerivedRecipient`, `SendFailureIsServerError`, `SendSuccessIsOk` and `LogOutcomeIrrelevant` |
| Webhook.ChatId | index.js:100-101 | The chat id is the full number followed by `@c.us` |
| Webhook.ChatIdRoundTrip | index.js:101 | The full number can be recovered from its chat id |
| Webhook.MissingFieldRejected | index.js:95-97 | Status 400 iff either field is missing or empty. A 400 carries the missing-fields error and issues no effect |
| Webhook.SendTargetsDerivedRecipient | index.js:99-118 | Every effect comes from a request with two non-empty fields. The first effect is the greeting sent to `countryCode ++ phoneNumber ++ "@c.us"`. The logged phone number is `countryCode ++ phoneNumber` and the logged country code is `countryCode` |
| Webhook.SendFailureIsServerError | index.js:103-129 | A failed send answers 500 with the failure body after one send attempt and no booking log |
| Webhook.SendSuccessIsOk | index.js:107-124 | A delivered send answers 200 with the success body after one booking-log attempt |
| Webhook.LogOutcomeIrrelevant | index.js:108-121 | The outcome of the booking log never changes the response. This holds by construction: the handler never reads `logOk`, since a failed insert only reaches the console |
| Webhook.SampleRecipient | index.js:99-118 | `+91` and `8475043504` are sent to `+918475043504@c.us` and logged as `+918475043504` |
| Extraction.SkipDigits | google-apps-script.js:63-69 | Greedy `\d*`: every character skipped is a digit, and the one after the run is not a digit (or the text ends). The at-least-one-digit check is in `MatchAt` |
| Extraction.MatchAt | google-apps-script.js:63-69 | A successful scan captures `+` and digits (country code) or digits only (phone) |
| Extraction.MatchAtSound | google-apps-script.js:63-69 | A successful scan is a match of label (ignoring case), whitespace run and digit run, with a maximal digit run |
| Extraction.MatchAtComplete | google-apps-script.js:63-69 | Every way the pattern matches at a position makes the scan succeed there. With a maximal digit run, the scan returns exactly that capture |
| Extraction.MatchAtCorrect | google-apps-script.js:63-69 | The scan succeeds at a position iff the pattern matches there, and it returns the capture of the match with a maximal digit run |
| Extraction.Search | google-apps-script.js:63-69 | The position found is the leftmost one at which the scan succeeds. None means no position succeeds |
| Extraction.Extract | google-apps-script.js:63-72 | `match(re)[1]` is, when present, in the capture's shape |
| Extraction.ExtractIsLeftmostMatch | google-apps-script.js:63-72 | Null iff no position matches the whole pattern. Otherwise the capture comes from the leftmost matching position, with a maximal digit run |
| Extraction.LeftmostMatchExtracted | google-apps-script.js:63-72 | A match with a maximal digit run, before which no position matches, is what is extracted |
| Extraction.ExtractPhoneData | google-apps-script.js:55-81 | A non-null country code is `+` and one or more digits. A non-null phone number is one or more digits |
| Extraction.ShortBodyYieldsNothing | google-apps-script.js:63-72 | A body shorter than `Phone:` yields neither field |
| Extraction.LabelAgreesIff | google-apps-script.js:63-69 | The label matches iff each of its characters equals the text's character after case folding |
| Extraction.TestExtraction | google-apps-script.js:117-130 | The e-mail of `testExtraction` yields `+91` and `8475043504` |
| Extraction.LaterLabelExample | google-apps-script.js:69 | In `Phone: x, Phone: 12` the first label is skipped because no digits follow it, and `12` is extracted |
| Extraction.UnanchoredExample | google-apps-script.js:69 | The pattern is not anchored: `Telephone: 5` yields `5` |
| Extraction.PlusRequiredExample | google-apps-script.js:63-72 | `CountryCode: 91` (no `+`) yields neither field |
| Extraction.IndependentFieldsExample | google-apps-script.js:61-72 | `Phone: 12` yields a phone number and a null country code: the two searches are independent |
| Forwarding.AfterMessage | google-apps-script.js:25-40 | A message keeps its body, and stays unread exactly when it was unread and its body lacked a field |
| Forwarding.Searched | google-apps-script.js:19 | At most ten threads are taken: all of them, or the first ten |
| Forwarding.Mailbox.constructor | google-apps-script.js:19-33 | The mailbox holds the search results and reads bodies with `extractPhoneData` |
| Forwarding.Mailbox.MarkRead | google-apps-script.js:40 | Only the one message becomes read; nothing else changes |
| Forwarding.Mailbox.AddLabel | google-apps-script.js:43-45 | Only the one thread gains the label; nothing else changes |
| Forwarding.Mailbox.ProcessMessage | google-apps-script.js:24-47 | One turn of the inner callback. An unread message with both fields is sent, marked read and its thread labelled. Any other message sends nothing and changes nothing |
| Forwarding.Mailbox.ProcessThread | google-apps-script.js:21-48 | The inner loop leaves thread `i` as `AfterThread` and every other thread unchanged. It returns the sends of `ForwardedFrom`, in message order |
| Forwarding.Mailbox.ProcessGmailEmails | google-apps-script.js:16-49 | The outer loop leaves the mailbox as `AfterThreads` and returns exactly `Forwarded`, in thread and message order |
| Forwarding.AfterThreadsAt | google-apps-script.js:19-21 | Of the threads matching the query, the first ten (the ones the search returns) are processed. The rest are untouched |
| Forwarding.AnyForwardedIff | google-apps-script.js:35-45 | A thread is labelled iff one of its messages is forwarded |
| Forwarding.ForwardedFromSound | google-apps-script.js:24-37 | Everything sent for a thread is the extraction of one of its unread, complete messages |
| Forwarding.ForwardedFromComplete | google-apps-script.js:24-37 | The extraction of every unread, complete message is sent |
| Forwarding.ForwardedFromAllSound | google-apps-script.js:21-37 | Everything sent is the extraction of an unread, complete message of some thread |
| Forwarding.ForwardedFromAllComplete | google-apps-script.js:21-37 | The extraction of every unread, complete message of every thread is sent |
| Forwarding.ForwardedIff | google-apps-script.js:19-37 | A value is sent iff it is the extraction of an unread message, with both fields, in one of the first ten threads |
| Forwarding.MessageFate | google-apps-script.js:19-40 | Each message keeps its body. It ends unread iff it was unread and was not forwarded, because its thread was past the limit or its body lacked a field |
| Forwarding.LabelFate | google-apps-script.js:35-45 | A thread's labels gain `WhatsApp-Processed` iff it is within the limit and one of its messages is forwarded. No other label changes |
| Forwarding.ForwardedPassesValidation | google-apps-script.js:35-37 | Everything sent has two truthy fields, so `/send-whatsapp` never answers it with a 400 |
| Forwarding.ForwardedIsWellFormed | google-apps-script.js:33-37 | With `extractPhoneData`, every sent country code is `+` and digits, and every sent phone number is digits |
| Forwarding.UnreadConservedIn | google-apps-script.js:24-40 | Within a thread, the unread count drops by exactly the number of messages sent |
| Forwarding.UnreadConservedAll | google-apps-script.js:21-40 | Across the searched threads, the unread count drops by exactly the number of sends |
| Forwarding.UnreadConserved | google-apps-script.js:16-49 | After `processGmailEmails` the unread count has dropped by exactly the number of messages sent |
| Forwarding.AfterMessageSettled | google-apps-script.js:25-40 | A message that had its turn is not forwarded again, and a second turn leaves it unchanged |
| Forwarding.NothingLeftIn | google-apps-script.js:24-47 | After the inner loop, no message of the thread is forwardable |
| Forwarding.AfterThreadSettled | google-apps-script.js:21-48 | A second inner loop over a processed thread changes nothing |
| Forwarding.NothingLeftAll | google-apps-script.js:21-48 | After the outer loop, no searched message is forwardable |
| Forwarding.ProcessingIsIdempotent | google-apps-script.js:16-49 | When every Gmail call succeeds, a second run over the same search results sends nothing and changes nothing, so each message is forwarded at most once |
| Forwarding.FirstOfTwoForwarded | google-apps-script.js:21-49 | A thread whose first message is forwardable and second is not: only the first is sent and marked read, and the thread is labelled |
| Forwarding.SampleBookingForwardable | google-apps-script.js:118-127 | The sample booking e-mail, unread, is forwarded with `+91` and `8475043504` |
| Forwarding.ShortReplyKept | google-apps-script.js:25-37 | An unread one-word reply is not forwarded |
| Forwarding.SampleMailbox | google-apps-script.js:16-49 | A thread of the sample booking and a short reply: exactly `(+91, 8475043504)` is sent, only the booking is marked read, and the thread is labelled |

## Left out

- The Express server, its middleware, `app.listen` and the `/` health endpoint (index.js:9-15, 132-154) are HTTP plumbing.
- The whatsapp-web.js client is a foreign library. This covers its authentication and puppeteer options, the `qr` and `ready` events, `initialize`, and the SIGINT shutdown.
  - Delivery of a reply or a send is a boolean outcome (`replyOk`, `sendOk`).
  - The chat id format is the only thing modelled about the recipient.
- The Supabase client is an external service. Each insert is a recorded effect whose failure is swallowed. The booking insert's outcome is the `logOk` input of `Webhook.HandleSendWhatsapp`. The chat-log insert has no outcome input, because nothing follows it.
- The inserts' `new Date().toISOString()` timestamps are left out because they come from the clock.
- The Gmail, ScriptApp and UrlFetchApp services are external APIs. The `threads` field holds the threads matching the search query, in the order the search returns them. The search itself returns the first ten of them (`SearchLimit`), which is why threads past the limit are left untouched. The meaning of the query (`is:unread subject:(booking OR reservation)`) is not modelled; the matching threads are taken as given.
- Label lookup and creation (google-apps-script.js:43-44): `AddLabel` adds the label by name.
- `setupGmailTrigger` and the five-minute trigger are scheduling and not modelled.
- `sendToWhatsAppBot` (google-apps-script.js:83-109) is an HTTP call whose every failure is caught and logged.
  - It is modelled only as the data appended to the list of sends.
  - Because its failure is swallowed, the message is marked read and labelled whether or not the relay accepted it.
- Console logging is left out, as is the `try/catch` of `extractPhoneData`, which catches nothing the modelled code can raise.
- Every Gmail call is assumed to succeed: `getMessages`, `isUnread`, `getPlainBody`, `markRead`, `getUserLabelByName`/`createLabel` and `addLabel` (google-apps-script.js:22-45). In the source any of them can throw. A throw leaves both `forEach` loops through the outer `catch` (google-apps-script.js:50-52), so the remaining messages and threads of that run are skipped. `Mailbox.MarkRead` and `Mailbox.AddLabel` cannot fail.
- Forwarding.ProcessingIsIdempotent: holds only when every Gmail call succeeds. If `markRead` throws after `sendToWhatsAppBot` has been called (google-apps-script.js:37-40), the message stays unread and the next five-minute run forwards it again.
- Full Unicode `toLowerCase` is not modelled: `JsText.Lower` maps only ASCII letters.
  - `trim` and `\s` use the ECMAScript whitespace and line-terminator set.
  - Strings are sequences of characters, not UTF-16 code units.
  - Case-insensitive label matching is exact for the ASCII labels involved, since no non-ASCII character folds to an ASCII one under non-Unicode `/i`.
- A JSON field that is not a string, such as a number or a boolean, is not modelled. Each request field is an optional string.
- The WhatsApp session state machine, reconnection and QR endpoints do not appear in the code and are not modelled.
- Functions stand in for the rebuilt message sequence: `ProcessThread` and `ProcessGmailEmails` read each message from the mailbox rather than from a copy fetched with `getMessages()`. The two agree, because a turn changes only its own message.
