/** The `/sendgrid/webhook` handler (server.js): validate the two required
    form fields, ask the completion provider for a reply, send it, and answer
    200, 400 or 500. Both outbound calls are abstracted: the handler is given
    what the completion call returns and whether the send call succeeds, and
    reports the calls it made, in order. */
module Webhook {

  import opened Optional
  import opened JsText
  import opened ToolResult
  import BareAddress
  import SenderName
  import ReplySubject
  import PlainTextBody

  /** A form field of the inbound request: absent, or its text. */
  datatype Field = Missing | Given(text: string)

  /** JavaScript truthiness of a field: present and non-empty. */
  predicate Truthy(f: Field) {
    f.Given? && f.text != []
  }

  /** What the completion call produced: a rejected request (transport error,
      non-success status, an answer without a `content` array, or one whose
      `content` holds a null or undefined item before the first tool use, on
      which `find` throws), or the answer's content items. */
  datatype CompletionOutcome = CompletionFailed | CompletionReturned(content: seq<ContentItem>)

  /** An outbound call, with what it carries. */
  datatype Call =
    | CompletionRequest(senderName: string, fromAddress: string, subject: Field, emailText: string)
    | MailSend(sender: string, recipient: string, replySubject: string, body: string)

  /** The HTTP answer to the webhook and the outbound calls made, in order. */
  datatype Outcome = Outcome(status: int, message: string, calls: seq<Call>)

  const DefaultSender: string := "claude@example.com"

  /** The reply's `from` address, `FROM_EMAIL || 'claude@example.com'`:
      the configured setting when it is set and non-empty, otherwise the
      built-in default. */
  function ServiceSender(fromSetting: Field): (r: string)
  {
    if Truthy(fromSetting) then fromSetting.text else DefaultSender
  }

  const MissingFieldsMessage: string := "Missing required fields"
  const ServerErrorMessage: string := "Internal Server Error"
  const OkMessage: string := "OK"

  /** The handler. An absent subject is an `undefined` that makes
      `originalSubject.startsWith` throw once the reply is about to be sent,
      so it ends in a 500 after the completion call and before the send. */
  function HandleWebhook(fromSetting: Field, from: Field, subject: Field, email: Field,
                         completion: CompletionOutcome, sendSucceeds: bool): (r: Outcome)
  {
    if !Truthy(from) || !Truthy(email) then
      Outcome(400, MissingFieldsMessage, [])
    else
      var emailText := PlainTextBody.EmailText(email.text);
      var request := CompletionRequest(SenderName.GreetingName(from.text), from.text, subject, emailText);
      match completion
      case CompletionFailed => Outcome(500, ServerErrorMessage, [request])
      case CompletionReturned(content) =>
        var body := ResponseText(content);
        match subject
        case Missing => Outcome(500, ServerErrorMessage, [request])
        case Given(original) =>
          var send := MailSend(ServiceSender(fromSetting), BareAddress.CleanEmail(from.text),
                               ReplySubject.ReplySubject(original), body);
          if sendSucceeds then Outcome(200, OkMessage, [request, send])
          else Outcome(500, ServerErrorMessage, [request, send])
  }

  /** A missing or empty `from` or `email` is answered with 400 before any
      outbound call, and 400 means exactly that. */
  lemma HandlerRejectsMissingFields(fromSetting: Field, from: Field, subject: Field, email: Field,
                                    completion: CompletionOutcome, sendSucceeds: bool)
    ensures var o := HandleWebhook(fromSetting, from, subject, email, completion, sendSucceeds);
            (o.status == 400 <==> !Truthy(from) || !Truthy(email))
            && (o.status == 400 ==> o.calls == [] && o.message == MissingFieldsMessage)
  {
  }

  /** 200 is answered exactly when both calls succeed (and the subject is
      present); every other validated request is answered with 500. */
  lemma HandlerStatus(fromSetting: Field, from: Field, subject: Field, email: Field,
                      completion: CompletionOutcome, sendSucceeds: bool)
    ensures var o := HandleWebhook(fromSetting, from, subject, email, completion, sendSucceeds);
            && o.status in {200, 400, 500}
            && (o.status == 200 <==> Truthy(from) && Truthy(email) && completion.CompletionReturned?
                                     && subject.Given? && sendSucceeds)
            && (o.status == 500 <==> Truthy(from) && Truthy(email)
                                     && (completion.CompletionFailed? || subject.Missing? || !sendSucceeds))
  {
  }

  /** The calls are the completion request and then, only if it succeeded, at
      most one send; a validated request always makes the completion call. */
  lemma HandlerCallOrder(fromSetting: Field, from: Field, subject: Field, email: Field,
                         completion: CompletionOutcome, sendSucceeds: bool)
    ensures var o := HandleWebhook(fromSetting, from, subject, email, completion, sendSucceeds);
            && |o.calls| <= 2
            && (Truthy(from) && Truthy(email) ==> |o.calls| >= 1 && o.calls[0].CompletionRequest?)
            && (forall k :: 0 <= k < |o.calls| && o.calls[k].MailSend? ==> k == 1 && o.calls[0].CompletionRequest?)
            && (|o.calls| == 2 <==> Truthy(from) && Truthy(email) && completion.CompletionReturned? && subject.Given?)
            && (o.status == 200 ==> |o.calls| == 2)
  {
  }

  /** What the completion request carries: the greeting name and the text
      body derived from the inbound fields. */
  lemma HandlerCompletionRequest(fromSetting: Field, from: Field, subject: Field, email: Field,
                                 completion: CompletionOutcome, sendSucceeds: bool)
    requires Truthy(from) && Truthy(email)
    ensures var o := HandleWebhook(fromSetting, from, subject, email, completion, sendSucceeds);
            o.calls[0] == CompletionRequest(SenderName.GreetingName(from.text), from.text, subject,
                                            PlainTextBody.EmailText(email.text))
  {
  }

  /** The one mail sent comes from FROM_EMAIL (or the default when that is
      unset or empty) and goes to the cleaned sender address. Its subject is
      the threaded original: unchanged when it already starts with "Re: ",
      otherwise "Re: " in front, so it always starts with "Re: " and ends
      with the original. Its body is the non-empty completion text. */
  lemma HandlerSendContents(fromSetting: Field, from: Field, subject: Field, email: Field,
                            completion: CompletionOutcome, sendSucceeds: bool)
    requires |HandleWebhook(fromSetting, from, subject, email, completion, sendSucceeds).calls| == 2
    ensures var send := HandleWebhook(fromSetting, from, subject, email, completion, sendSucceeds).calls[1];
            && send.MailSend?
            && (Truthy(fromSetting) ==> send.sender == fromSetting.text)
            && (!Truthy(fromSetting) ==> send.sender == DefaultSender)
            && send.sender != []
            && send.recipient == BareAddress.CleanEmail(from.text)
            && send.replySubject == ReplySubject.ReplySubject(subject.text)
            && (StartsWith(subject.text, ReplySubject.ReplyPrefix) ==> send.replySubject == subject.text)
            && (!StartsWith(subject.text, ReplySubject.ReplyPrefix) ==>
                  send.replySubject == ReplySubject.ReplyPrefix + subject.text)
            && StartsWith(send.replySubject, ReplySubject.ReplyPrefix)
            && send.replySubject[|send.replySubject| - |subject.text|..] == subject.text
            && send.body == ResponseText(completion.content)
            && send.body != []
  {
    ReplySubject.ReplySubjectShape(subject.text);
  }

  /** A sender field "Name <address>" is delivered to the bare address and
      greeted by the trimmed name. */
  lemma NamedSender(name: string, address: string)
    requires '<' !in name && address != [] && '>' !in address
    ensures BareAddress.CleanEmail(name + " <" + address + ">") == address
    ensures SenderName.GreetingName(name + " <" + address + ">") == Trim(name + " ")
  {
    var from := name + " <" + address + ">";
    var prefix := name + " ";
    assert from == prefix + "<" + address + ">" + [];
    BareAddress.CleanEmailOfNamedAddress(prefix, address, []);
    assert from == prefix + "<" + address + ">";
    SenderName.GreetingNameFullForm(from, prefix, address);
  }

  /** A request from "Name <address>" whose calls succeed: one mail goes to
      the bare address, with "Re: " put in front of an unprefixed subject,
      and the greeting uses the trimmed name. */
  lemma HandlerRepliesToNamedSender(fromSetting: Field, name: string, address: string,
                                    subject: string, email: string, content: seq<ContentItem>)
    requires '<' !in name && address != [] && '>' !in address
    requires !StartsWith(subject, ReplySubject.ReplyPrefix) && email != []
    ensures var o := HandleWebhook(fromSetting, Given(name + " <" + address + ">"), Given(subject), Given(email),
                                   CompletionReturned(content), true);
            && o.status == 200
            && o.calls == [CompletionRequest(Trim(name + " "), name + " <" + address + ">", Given(subject),
                                             PlainTextBody.EmailText(email)),
                           MailSend(ServiceSender(fromSetting), address, ReplySubject.ReplyPrefix + subject,
                                    ResponseText(content))]
  {
    NamedSender(name, address);
    ReplySubject.ReplySubjectShape(subject);
  }

  /** A concrete request: "Alice <a@x.com>" writes "Hello" with a one-part
      plain-text body. The completion is asked about "Hi there" from
      "Alice", and one mail goes to "a@x.com" with subject "Re: Hello". */
  lemma HandlerExample(fromSetting: Field, name: string, address: string, subject: string,
                       email: string, content: seq<ContentItem>)
    requires name == "Alice" && address == "a@x.com" && subject == "Hello"
    requires email == "Content-Type: text/plain\r\n\r\nHi there\r\n--b\r\n"
    ensures var from := name + " <" + address + ">";
            var o := HandleWebhook(fromSetting, Given(from), Given(subject), Given(email), CompletionReturned(content), true);
            && o.status == 200
            && o.calls == [CompletionRequest(name, from, Given(subject), "Hi there"),
                           MailSend(ServiceSender(fromSetting), address, ReplySubject.ReplyPrefix + subject,
                                    ResponseText(content))]
  {
    PlainTextBody.EmailTextExample(email);
    AliceHelloReply(fromSetting, name, address, subject, email, content);
  }

  /** HandlerExample for any message whose plain text is "Hi there". */
  lemma AliceHelloReply(fromSetting: Field, name: string, address: string, subject: string,
                        email: string, content: seq<ContentItem>)
    requires name == "Alice" && address == "a@x.com" && subject == "Hello"
    requires PlainTextBody.EmailText(email) == "Hi there"
    ensures var from := name + " <" + address + ">";
            var o := HandleWebhook(fromSetting, Given(from), Given(subject), Given(email), CompletionReturned(content), true);
            && o.status == 200
            && o.calls == [CompletionRequest(name, from, Given(subject), "Hi there"),
                           MailSend(ServiceSender(fromSetting), address, ReplySubject.ReplyPrefix + subject,
                                    ResponseText(content))]
  {
    ExampleNameAndSubject(name, address, subject);
    HandlerRepliesToNamedSender(fromSetting, name, address, subject, email, content);
  }

  /** The fields of HandlerExample: "Alice <a@x.com>" is a named address,
      "Alice " trims to "Alice", and "Hello" has no reply prefix. The strings
      come in as parameters equal to the literals, rather than as literals,
      because the verifier unrolls recursive functions applied to literals,
      which makes these proofs far costlier. */
  lemma ExampleNameAndSubject(name: string, address: string, subject: string)
    requires name == "Alice" && address == "a@x.com" && subject == "Hello"
    ensures '<' !in name && address != [] && '>' !in address
    ensures Trim(name + " ") == name
    ensures !StartsWith(subject, ReplySubject.ReplyPrefix)
  {
    var prefix := name + " ";
    assert prefix[..5] == name && prefix[5..] == " ";
    TrimUnique(prefix, 0, 5);
    assert subject[..4][0] == 'H';
  }

}
