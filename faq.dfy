/**
 * The inbound chat handler of the relay service (index.js): every received
 * chat message is normalised, matched against an ordered keyword table, and
 * answered at most once, with one attempt to log the interaction.
 */
module Faq {
  import opened Wrappers
  import JsText

  /** An ordered table of (keyword, response) pairs; order is declaration order. */
  type FaqTable = seq<(string, string)>

  const PnrAnswer: string :=
    "PNR stands for Passenger Name Record. It's a unique identifier for your booking that contains all your travel details."
  const BookingStatusAnswer: string := "To check your booking status, please provide your PNR number."
  const CancelBookingAnswer: string := "To cancel your booking, please contact our support team with your PNR number."
  const HelpAnswer: string := "Available commands:\n- What is PNR?\n- Booking status\n- Cancel booking\n- Help"

  /** The service's FAQ table, in the order its entries are declared. */
  const FaqResponses: FaqTable := [
    ("what is pnr", PnrAnswer),
    ("pnr", PnrAnswer),
    ("booking status", BookingStatusAnswer),
    ("cancel booking", CancelBookingAnswer),
    ("help", HelpAnswer)
  ]

  /** The record written to the chat-log table (its timestamp is left out). */
  datatype ChatLog = ChatLog(phoneNumber: string, message: string, response: string)

  /** The externally visible actions of the handler, in the order they are issued. */
  datatype Effect =
    | Reply(response: string)
    | InsertChatLog(record: ChatLog)

  /** `body.toLowerCase().trim()`; its meaning is `NormalizedShape`. */
  function Normalize(body: string): string {
    JsText.Trim(JsText.Lower(body))
  }

  /** Entry `i` is the first entry of the table whose keyword occurs in `text`. */
  ghost predicate IsFirstMatch(table: FaqTable, text: string, i: nat) {
    && i < |table|
    && JsText.Includes(text, table[i].0)
    && forall j :: 0 <= j < i ==> !JsText.Includes(text, table[j].0)
  }

  /** The index of the first entry, from `i` on, whose keyword occurs in `text`. */
  function FirstMatchFrom(table: FaqTable, text: string, i: nat): (r: Option<nat>)
    requires i <= |table|
    ensures r.Some? ==> i <= r.value < |table| && JsText.Includes(text, table[r.value].0)
    ensures r.Some? ==> forall j :: i <= j < r.value ==> !JsText.Includes(text, table[j].0)
    ensures r.None? ==> forall j :: i <= j < |table| ==> !JsText.Includes(text, table[j].0)
    decreases |table| - i
  {
    if i == |table| then None
    else if JsText.Includes(text, table[i].0) then Some(i)
    else FirstMatchFrom(table, text, i + 1)
  }

  /** The index of the first table entry, in declaration order, whose keyword occurs in `text`. */
  function FirstMatch(table: FaqTable, text: string): (r: Option<nat>)
    ensures r.Some? ==> IsFirstMatch(table, text, r.value)
    ensures r.None? <==> forall j :: 0 <= j < |table| ==> !JsText.Includes(text, table[j].0)
  {
    FirstMatchFrom(table, text, 0)
  }

  /** The response the handler chooses for a message body; its meaning is `ChosenResponseIsFirstOccurring`. */
  function ChosenResponse(table: FaqTable, body: string): Option<string> {
    match FirstMatch(table, Normalize(body))
    case None => None
    case Some(i) => Some(table[i].1)
  }

  /**
   * What the handler does for one message from `from` with text `body`:
   * nothing if no keyword matches; otherwise it replies, and, when the reply
   * was delivered (`replyOk`), attempts one chat-log insert. A rejected reply
   * ends the handler before the insert; a failed insert is swallowed.
   */
  function MessageEffects(table: FaqTable, from: string, body: string, replyOk: bool): seq<Effect> {
    match ChosenResponse(table, body)
    case None => []
    case Some(response) =>
      [Reply(response)] + (if replyOk then [InsertChatLog(ChatLog(from, body, response))] else [])
  }

  /** The `message` event handler: a loop over the table that stops at the first matching keyword. */
  method HandleMessage(table: FaqTable, from: string, body: string, replyOk: bool)
    returns (effects: seq<Effect>)
    ensures effects == MessageEffects(table, from, body, replyOk)
  {
    var text := Normalize(body);
    effects := [];
    for i := 0 to |table|
      invariant effects == []
      invariant forall j :: 0 <= j < i ==> !JsText.Includes(text, table[j].0)
    {
      var (keyword, response) := table[i];
      if JsText.Includes(text, keyword) {
        assert FirstMatch(table, text) == Some(i);
        effects := effects + [Reply(response)];
        if !replyOk {
          return;
        }
        effects := effects + [InsertChatLog(ChatLog(from, body, response))];
        break;
      }
    }
  }

  /**
   * The normalised text holds no upper-case letter, neither begins nor ends
   * with whitespace, and is empty exactly when the body is all whitespace.
   */
  lemma NormalizedShape(body: string)
    ensures forall i :: 0 <= i < |Normalize(body)| ==> !JsText.IsAsciiUpper(Normalize(body)[i])
    ensures Normalize(body) == [] || (!JsText.IsWhitespace(Normalize(body)[0]) && !JsText.IsWhitespace(Normalize(body)[|Normalize(body)| - 1]))
    ensures Normalize(body) == [] <==> JsText.AllWhitespace(body)
  {
    var l := JsText.Lower(body);
    var a, b := JsText.TrimSplits(l);
    SliceHasNoUpper(a, Normalize(body), b);
    LowerKeepsWhitespace(body);
    if Normalize(body) == [] {
      JsText.AllWhitespaceConcat(a, b);
      assert l == a + b;
    } else {
      assert l[|a|] == Normalize(body)[0];
    }
  }

  lemma SliceHasNoUpper(a: string, r: string, b: string)
    requires forall i :: 0 <= i < |a + r + b| ==> !JsText.IsAsciiUpper((a + r + b)[i])
    ensures forall i :: 0 <= i < |r| ==> !JsText.IsAsciiUpper(r[i])
  {
    forall i | 0 <= i < |r|
      ensures !JsText.IsAsciiUpper(r[i])
    {
      assert r[i] == (a + r + b)[|a| + i];
    }
  }

  lemma LowerKeepsWhitespace(s: string)
    ensures forall i :: 0 <= i < |s| ==> |JsText.Lower(s)| == |s| && (JsText.IsWhitespace(JsText.Lower(s)[i]) <==> JsText.IsWhitespace(s[i]))
    ensures JsText.AllWhitespace(JsText.Lower(s)) <==> JsText.AllWhitespace(s)
  {
  }

  /**
   * Matching is case-insensitive and ignores surrounding whitespace:
   * upper-casing the body and padding it with whitespace never changes the response.
   */
  lemma ResponseIgnoresCaseAndPadding(table: FaqTable, body: string, w1: string, w2: string)
    requires JsText.AllWhitespace(w1) && JsText.AllWhitespace(w2)
    ensures ChosenResponse(table, w1 + JsText.Upper(body) + w2) == ChosenResponse(table, body)
  {
    var u := JsText.Upper(body);
    JsText.LowerConcat(w1 + u, w2);
    JsText.LowerConcat(w1, u);
    JsText.LowerOfUpper(body);
    JsText.LowerWhitespace(w1);
    JsText.LowerWhitespace(w2);
    JsText.TrimIgnoresPadding(w1, JsText.Lower(body), w2);
    assert Normalize(w1 + u + w2) == Normalize(body);
  }

  /**
   * The chosen response belongs to the first keyword, in table order, that
   * occurs in the normalised text; later matching keywords are ignored; and
   * there is no response exactly when no keyword occurs.
   */
  lemma ChosenResponseIsFirstOccurring(table: FaqTable, body: string)
    ensures ChosenResponse(table, body).None? <==>
      forall j, m: nat :: 0 <= j < |table| ==> !JsText.OccursAt(Normalize(body), table[j].0, m)
    ensures ChosenResponse(table, body).Some? ==>
      exists i :: 0 <= i < |table| && ChosenResponse(table, body) == Some(table[i].1)
        && (exists m: nat :: JsText.OccursAt(Normalize(body), table[i].0, m))
        && forall j, m: nat :: 0 <= j < i ==> !JsText.OccursAt(Normalize(body), table[j].0, m)
  {  var text := Normalize(body);
    forall j | 0 <= j < |table| {
      JsText.IncludesIffOccurs(text, table[j].0);
    }
  }

  /** At most one reply and at most one chat-log insert per message, the reply first. */
  lemma AtMostOneReplyAndLog(table: FaqTable, from: string, body: string, replyOk: bool)
    ensures |MessageEffects(table, from, body, replyOk)| <= 2
    ensures |MessageEffects(table, from, body, replyOk)| >= 1 ==> MessageEffects(table, from, body, replyOk)[0].Reply?
    ensures |MessageEffects(table, from, body, replyOk)| == 2 ==> MessageEffects(table, from, body, replyOk)[1].InsertChatLog?
  {
  }

  /** Without a matching keyword the handler neither replies nor logs; with one it always replies. */
  lemma NoMatchNoEffects(table: FaqTable, from: string, body: string, replyOk: bool)
    ensures MessageEffects(table, from, body, replyOk) == [] <==>
      forall j :: 0 <= j < |table| ==> !JsText.Includes(Normalize(body), table[j].0)
  {
  }

  /** The chat log records the raw body, the sender, and exactly the response that was replied. */
  lemma LogRecordsRawBodyAndReply(table: FaqTable, from: string, body: string, replyOk: bool)
    ensures var e := MessageEffects(table, from, body, replyOk);
      |e| == 2 ==> e[1].record == ChatLog(from, body, e[0].response)
    ensures var e := MessageEffects(table, from, body, replyOk);
      |e| == 2 <==> replyOk && ChosenResponse(table, body).Some?
  {
  }

  /** "What is my PNR?" does not contain "what is pnr", but contains "pnr": the PNR explanation. */
  lemma PnrQuestionExample()
    ensures Normalize("What is my PNR?") == "what is my pnr?"
    ensures ChosenResponse(FaqResponses, "What is my PNR?") == Some(PnrAnswer)
  {
    var text := "what is my pnr?";
    NormalizePnrQuestion();
    JsText.OccursIncluded(text, "pnr", 11);
    PnrQuestionLacksFirstKeyword();
    assert FaqResponses[0].0 == "what is pnr" && FaqResponses[1].0 == "pnr";
    assert FirstMatchFrom(FaqResponses, text, 1) == Some(1);
    assert FirstMatch(FaqResponses, text) == Some(1);
  }

  /** Table order is the tie-break: "pnr" is declared before "booking status", though both occur. */
  lemma TableOrderExample()
    ensures MessageEffects(FaqResponses, "911@c.us", "Booking Status PNR", true) ==
      [Reply(PnrAnswer), InsertChatLog(ChatLog("911@c.us", "Booking Status PNR", PnrAnswer))]
  {
    NormalizeBookingStatusQuestion();
    BookingStatusQuestionMatchesPnr();
    assert ChosenResponse(FaqResponses, "Booking Status PNR") == Some(PnrAnswer);
  }

  /** A message with no table keyword gets no reply and no log. */
  lemma NoKeywordExample()
    ensures MessageEffects(FaqResponses, "911@c.us", "Hello there", true) == []
  {
    NormalizeGreeting();
    GreetingLacksKeywords();
    assert FirstMatch(FaqResponses, "hello there") == None;
  }

  lemma NormalizePnrQuestion()
    ensures Normalize("What is my PNR?") == "what is my pnr?"
  {
    assert JsText.Lower("What is my PNR?") == "what is my pnr?";
  }

  lemma PnrQuestionLacksFirstKeyword()
    ensures !JsText.Includes("what is my pnr?", "what is pnr")
  {
  }

  lemma BookingStatusQuestionMatchesPnr()
    ensures FirstMatch(FaqResponses, "booking status pnr") == Some(1)
  {
    var text := "booking status pnr";
    JsText.OccursIncluded(text, "pnr", 15);
    JsText.AbsentCharExcludes(text, "what is pnr", 'w');
    assert FaqResponses[0].0 == "what is pnr" && FaqResponses[1].0 == "pnr";
    assert FirstMatchFrom(FaqResponses, text, 1) == Some(1);
  }

  lemma NormalizeBookingStatusQuestion()
    ensures Normalize("Booking Status PNR") == "booking status pnr"
  {
    LowerBookingStatusQuestion();
  }

  lemma LowerBookingStatusQuestion()
    ensures JsText.Lower("Booking Status PNR") == "booking status pnr"
  {
  }

  lemma GreetingLacksKeywords()
    ensures forall j :: 0 <= j < |FaqResponses| ==> !JsText.Includes("hello there", FaqResponses[j].0)
  {
    var text := "hello there";
    JsText.AbsentCharExcludes(text, "what is pnr", 'p');
    JsText.AbsentCharExcludes(text, "pnr", 'p');
    JsText.AbsentCharExcludes(text, "booking status", 'b');
    JsText.AbsentCharExcludes(text, "cancel booking", 'b');
    JsText.AbsentCharExcludes(text, "help", 'p');
  }

  lemma NormalizeGreeting()
    ensures Normalize("Hello there") == "hello there"
  {
    assert JsText.Lower("Hello there") == "hello there";
  }
}
