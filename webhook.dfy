/**
 * The `POST /send-whatsapp` endpoint of the relay service (index.js): it
 * validates the two fields, derives the recipient, sends one greeting,
 * attempts one booking log and answers with an HTTP status and a JSON body.
 * The outcomes of the send and of the log insert are inputs, since they
 * come from services outside the model.
 */
module Webhook {
  import opened Wrappers

  /** The greeting sent to every valid recipient ("Thanks for the booking." and a party-popper emoji). */
  const Greeting: string := "Thanks for the booking. \U{1F389}"
  /** The suffix that turns a full phone number into a chat identifier. */
  const ChatIdSuffix: string := "@c.us"
  const MissingFieldsError: string := "Missing country code or phone number"
  const SendFailedError: string := "Failed to send WhatsApp message"
  const SentMessage: string := "WhatsApp message sent successfully"

  /** The JSON bodies the endpoint answers with. */
  datatype Body =
    | ErrorBody(error: string)
    | SuccessBody(success: bool, message: string)

  /** The row inserted into the booking table (its timestamp is left out). */
  datatype BookingLog = BookingLog(phoneNumber: string, countryCode: string, messageSent: string)

  /** The calls the endpoint makes to other services, in order. */
  datatype Effect =
    | SendMessage(chatId: string, text: string)
    | InsertBooking(record: BookingLog)

  datatype Response = Response(status: int, body: Body, effects: seq<Effect>)

  /** JavaScript truthiness of a string field: absent (`undefined`/`null`) and `''` are falsy. */
  predicate Truthy(field: Option<string>) {
    field.Some? && field.value != ""
  }

  /** `${countryCode}${phoneNumber}`. */
  function FullPhoneNumber(countryCode: string, phoneNumber: string): string {
    countryCode + phoneNumber
  }

  /** `${fullPhoneNumber}@c.us`: the chat identifier (RecipientId) of a phone number. */
  function ChatId(fullPhoneNumber: string): (r: string)
    ensures |r| == |fullPhoneNumber| + |ChatIdSuffix|
    ensures r[..|fullPhoneNumber|] == fullPhoneNumber && r[|fullPhoneNumber|..] == ChatIdSuffix
  {
    fullPhoneNumber + ChatIdSuffix
  }

  /** The phone number a chat identifier was derived from: the inverse of `ChatId`. */
  function PhoneOfChatId(chatId: string): Option<string> {
    if |chatId| >= |ChatIdSuffix| && chatId[|chatId| - |ChatIdSuffix|..] == ChatIdSuffix
    then Some(chatId[..|chatId| - |ChatIdSuffix|])
    else None
  }

  /**
   * The handler: reject a request missing either field with 400; otherwise
   * send the greeting to the derived chat; a failed send answers 500 and logs
   * nothing; a delivered one attempts the booking log and answers 200 whatever
   * became of the log. `logOk`, the outcome of the booking insert, is never
   * read: a failed insert only reaches the console, so it cannot change the
   * response (`LogOutcomeIrrelevant`).
   */
  function HandleSendWhatsapp(countryCode: Option<string>, phoneNumber: Option<string>, sendOk: bool, logOk: bool)
    : (r: Response)
    ensures r.status == 200 || r.status == 400 || r.status == 500
    ensures r.status == 200 <==> Truthy(countryCode) && Truthy(phoneNumber) && sendOk
  {
    if !Truthy(countryCode) || !Truthy(phoneNumber) then
      Response(400, ErrorBody(MissingFieldsError), [])
    else
      var full := FullPhoneNumber(countryCode.value, phoneNumber.value);
      var send := SendMessage(ChatId(full), Greeting);
      if !sendOk then
        Response(500, ErrorBody(SendFailedError), [send])
      else
        Response(200, SuccessBody(true, SentMessage), [send, InsertBooking(BookingLog(full, countryCode.value, Greeting))])
  }

  /** `PhoneOfChatId` recovers the phone number from its chat identifier. */
  lemma ChatIdRoundTrip(fullPhoneNumber: string)
    ensures PhoneOfChatId(ChatId(fullPhoneNumber)) == Some(fullPhoneNumber)
  {
  }

  /** A request missing either field, or with either empty, is answered 400 and sends nothing; only those are. */
  lemma MissingFieldRejected(countryCode: Option<string>, phoneNumber: Option<string>, sendOk: bool, logOk: bool)
    ensures var r := HandleSendWhatsapp(countryCode, phoneNumber, sendOk, logOk);
      r.status == 400 <==> !Truthy(countryCode) || !Truthy(phoneNumber)
    ensures var r := HandleSendWhatsapp(countryCode, phoneNumber, sendOk, logOk);
      r.status == 400 ==> r.body == ErrorBody(MissingFieldsError) && r.effects == []
  {
  }

  /**
   * Every send goes to `countryCode ++ phoneNumber ++ "@c.us"` of two non-empty fields,
   * it is the first call made, and every logged phone number is `countryCode ++ phoneNumber`.
   */
  lemma SendTargetsDerivedRecipient(countryCode: Option<string>, phoneNumber: Option<string>, sendOk: bool, logOk: bool)
    ensures var r := HandleSendWhatsapp(countryCode, phoneNumber, sendOk, logOk);
      forall e :: e in r.effects ==>
        && Truthy(countryCode) && Truthy(phoneNumber)
        && r.effects[0] == SendMessage(countryCode.value + phoneNumber.value + "@c.us", Greeting)
        && (e.InsertBooking? ==> e.record.phoneNumber == countryCode.value + phoneNumber.value
                                 && e.record.countryCode == countryCode.value)
  {
  }

  /** A failed send answers 500 with the failure body, after exactly the one send attempt and no booking log. */
  lemma SendFailureIsServerError(countryCode: Option<string>, phoneNumber: Option<string>, logOk: bool)
    requires Truthy(countryCode) && Truthy(phoneNumber)
    ensures var r := HandleSendWhatsapp(countryCode, phoneNumber, false, logOk);
      && r.status == 500 && r.body == ErrorBody(SendFailedError)
      && |r.effects| == 1 && r.effects[0].SendMessage?
  {
  }

  /** A delivered send answers 200 with the success body after one booking-log attempt, whether or not the log failed. */
  lemma SendSuccessIsOk(countryCode: Option<string>, phoneNumber: Option<string>, logOk: bool)
    requires Truthy(countryCode) && Truthy(phoneNumber)
    ensures var r := HandleSendWhatsapp(countryCode, phoneNumber, true, logOk);
      && r.status == 200 && r.body == SuccessBody(true, SentMessage)
      && |r.effects| == 2 && r.effects[1].InsertBooking?
  {
  }

  /** The outcome of the booking log never changes the response. */
  lemma LogOutcomeIrrelevant(countryCode: Option<string>, phoneNumber: Option<string>, sendOk: bool)
    ensures HandleSendWhatsapp(countryCode, phoneNumber, sendOk, true) == HandleSendWhatsapp(countryCode, phoneNumber, sendOk, false)
  {
  }

  /** The booking e-mail's fields `+91` and `8475043504`. */
  lemma SampleRecipient()
    ensures var r := HandleSendWhatsapp(Some("+91"), Some("8475043504"), true, false);
      && r.effects[0] == SendMessage("+918475043504@c.us", Greeting)
      && r.effects[1] == InsertBooking(BookingLog("+918475043504", "+91", Greeting))
      && r.status == 200
  {
  }
}
