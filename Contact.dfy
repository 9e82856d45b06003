/**
 * The contact endpoint: a single request handler that accepts only POST, checks
 * the required fields and the e-mail address, and relays the submission as one
 * HTML e-mail, answering with a JSON object and an HTTP status.
 *
 * The PHP library filters (`FILTER_SANITIZE_STRING`, `FILTER_SANITIZE_EMAIL`,
 * `FILTER_VALIDATE_EMAIL`) are parameters of the model, and so is the boolean that
 * `mail()` returns.
 */
module Contact {
  import opened Text

  /** The request: its method and its form-encoded POST fields. */
  datatype Request = Request(httpMethod: string, post: map<string, string>)

  /** The library filters the handler relies on. */
  datatype Library = Library(
    sanitizeString: string -> string,
    sanitizeEmail: string -> string,
    validEmail: string -> bool)

  /** One call of `mail($to, $subject, $message, $headers)`. */
  datatype Mail = Mail(to: string, subject: string, body: string, headers: string)

  /** The answer: HTTP status, the JSON object's one key and its message, and the mail calls made. */
  datatype Response = Response(status: nat, key: string, message: string, mails: seq<Mail>)

  /** The submission after trimming and sanitising. */
  datatype Submission = Submission(name: string, email: string, phone: string, service: string, message: string)

  const Recipient: string := "jonathan.moreno.17.20@gmail.com"
  const SubjectPrefix: string := "New Quote Request from JDD PAINTING Website - "
  const MethodError: string := "Method not allowed."
  const MissingFieldsError: string := "Please fill in all required fields."
  const InvalidEmailError: string := "Please enter a valid email address."
  const SuccessMessage: string :=
    "Thank you! Your message has been sent successfully. We'll get back to you within 24 hours."
  const SendError: string :=
    "Sorry, there was an error sending your message. Please try again or contact us directly."

  /** `$_POST[$key]`; a missing field reads as null, which `trim` turns into the empty string. */
  function Posted(req: Request, key: string): string {
    if key in req.post then req.post[key] else ""
  }

  /** PHP's `empty()` on a string: the empty string and `"0"`. */
  predicate PhpEmpty(s: string) {
    s == "" || s == "0"
  }

  /** Each field is trimmed and then passed through its sanitising filter. */
  function Sanitize(req: Request, lib: Library): Submission {
    Submission(
      lib.sanitizeString(PhpTrim(Posted(req, "name"))),
      lib.sanitizeEmail(PhpTrim(Posted(req, "email"))),
      lib.sanitizeString(PhpTrim(Posted(req, "phone"))),
      lib.sanitizeString(PhpTrim(Posted(req, "service"))),
      lib.sanitizeString(PhpTrim(Posted(req, "message"))))
  }

  /** Name, e-mail, phone and service are required; the message is not. */
  predicate MissingRequired(sub: Submission) {
    PhpEmpty(sub.name) || PhpEmpty(sub.email) || PhpEmpty(sub.phone) || PhpEmpty(sub.service)
  }

  /** The HTML notification, with the submitted fields filled in. */
  const BodyHead: string :=
    "\n    <html>\n    <head>\n        <title>New Quote Request - JDD PAINTING</title>\n    </head>\n"
    + "    <body>\n        <h2>New Quote Request from JDD PAINTING Website</h2>\n"
    + "        <p><strong>Name:</strong> "
  const BodyAfterName: string := "</p>\n        <p><strong>Email:</strong> "
  const BodyAfterEmail: string := "</p>\n        <p><strong>Phone:</strong> "
  const BodyAfterPhone: string := "</p>\n        <p><strong>Service Type:</strong> "
  const BodyAfterService: string := "</p>\n        <p><strong>Project Description:</strong></p>\n        <p>"
  const BodyTail: string :=
    "</p>\n        <hr>\n        <p><em>This email was sent from the JDD PAINTING contact form.</em></p>\n"
    + "    </body>\n    </html>\n    "

  function MailBody(sub: Submission): string {
    BodyHead + sub.name + BodyAfterName + sub.email + BodyAfterEmail + sub.phone
    + BodyAfterPhone + sub.service + BodyAfterService + sub.message + BodyTail
  }

  /** The four header lines, the last two naming the submitter's address. */
  function MailHeaders(email: string): string {
    "MIME-Version: 1.0" + "\r\n"
    + "Content-type:text/html;charset=UTF-8" + "\r\n"
    + "From: " + email + "\r\n"
    + "Reply-To: " + email + "\r\n"
  }

  /** The notification sent for an accepted submission. */
  function Notification(sub: Submission): Mail {
    Mail(Recipient, SubjectPrefix + sub.service, MailBody(sub), MailHeaders(sub.email))
  }

  /** The request handler. `mailSucceeds` is what `mail()` returns when it is called. */
  function HandleSubmission(req: Request, lib: Library, mailSucceeds: bool): (r: Response)
    ensures r.status in {200, 400, 405, 500}
    ensures r.key == if r.status == 200 then "success" else "error"
    ensures |r.mails| <= 1
    ensures |r.mails| == 1 <==> r.status == 200 || r.status == 500
  {
    if req.httpMethod != "POST" then
      Response(405, "error", MethodError, [])
    else
      var sub := Sanitize(req, lib);
      if MissingRequired(sub) then
        Response(400, "error", MissingFieldsError, [])
      else if !lib.validEmail(sub.email) then
        Response(400, "error", InvalidEmailError, [])
      else if mailSucceeds then
        Response(200, "success", SuccessMessage, [Notification(sub)])
      else
        Response(500, "error", SendError, [Notification(sub)])
  }

  /** The JSON text `json_encode([$key => $message])` writes (none of the messages needs escaping). */
  function JsonBody(r: Response): string {
    "{\"" + r.key + "\":\"" + r.message + "\"}"
  }

  /** A submission the handler accepts: a POST with every required field and a valid address. */
  predicate Accepted(req: Request, lib: Library) {
    && req.httpMethod == "POST"
    && !MissingRequired(Sanitize(req, lib))
    && lib.validEmail(Sanitize(req, lib).email)
  }

  /** Any method other than POST gets 405 and the method error, and no mail is sent. */
  lemma NonPostRejected(req: Request, lib: Library, mailSucceeds: bool)
    requires req.httpMethod != "POST"
    ensures HandleSubmission(req, lib, mailSucceeds) == Response(405, "error", MethodError, [])
    ensures JsonBody(HandleSubmission(req, lib, mailSucceeds)) == "{\"error\":\"Method not allowed.\"}"
  {
  }

  /**
   * A POST with an empty required field gets 400 and the missing-fields error, whatever
   * the address: the required fields are checked first. No mail is sent.
   */
  lemma MissingFieldRejected(req: Request, lib: Library, mailSucceeds: bool)
    requires req.httpMethod == "POST" && MissingRequired(Sanitize(req, lib))
    ensures HandleSubmission(req, lib, mailSucceeds) == Response(400, "error", MissingFieldsError, [])
  {
  }

  /** A POST that lacks the `phone` field altogether is answered like an empty one. */
  lemma AbsentPhoneRejected(req: Request, lib: Library, mailSucceeds: bool)
    requires req.httpMethod == "POST" && "phone" !in req.post && lib.sanitizeString("") == ""
    ensures HandleSubmission(req, lib, mailSucceeds) == Response(400, "error", MissingFieldsError, [])
  {
    assert PhpTrim("") == "";
  }

  /** With the required fields present, an address the filter rejects gets 400 and no mail. */
  lemma InvalidEmailRejected(req: Request, lib: Library, mailSucceeds: bool)
    requires req.httpMethod == "POST" && !MissingRequired(Sanitize(req, lib))
    requires !lib.validEmail(Sanitize(req, lib).email)
    ensures HandleSubmission(req, lib, mailSucceeds) == Response(400, "error", InvalidEmailError, [])
  {
  }

  /**
   * A mail is sent exactly for accepted submissions, and then exactly one: to the fixed
   * recipient, with the service in the subject and the sanitised address in the
   * `From` and `Reply-To` headers.
   */
  lemma OneMailForAccepted(req: Request, lib: Library, mailSucceeds: bool)
    ensures var r := HandleSubmission(req, lib, mailSucceeds);
      |r.mails| == 1 <==> Accepted(req, lib)
    ensures Accepted(req, lib) ==>
      var r := HandleSubmission(req, lib, mailSucceeds);
      var sub := Sanitize(req, lib);
      && r.mails[0].to == Recipient
      && r.mails[0].subject == SubjectPrefix + sub.service
      && r.mails[0].body == MailBody(sub)
      && IsInfix("From: " + sub.email + "\r\n", r.mails[0].headers)
      && IsInfix("Reply-To: " + sub.email + "\r\n", r.mails[0].headers)
  {
    if Accepted(req, lib) {
      var email := Sanitize(req, lib).email;
      HeadersNameSender(email);
    }
  }

  /** `part` occurs in `s` as a contiguous piece. */
  ghost predicate IsInfix(part: string, s: string) {
    exists before, after :: s == before + part + after
  }

  /** The `From` and `Reply-To` lines of the headers carry the given address. */
  lemma HeadersNameSender(email: string)
    ensures IsInfix("From: " + email + "\r\n", MailHeaders(email))
    ensures IsInfix("Reply-To: " + email + "\r\n", MailHeaders(email))
  {
    var pre := "MIME-Version: 1.0" + "\r\n" + "Content-type:text/html;charset=UTF-8" + "\r\n";
    var from := "From: " + email + "\r\n";
    var reply := "Reply-To: " + email + "\r\n";
    assert MailHeaders(email) == pre + from + reply + "";
    assert MailHeaders(email) == (pre + from) + reply + "";
  }

  /** For an accepted submission, `mail()`'s result decides between 200 with the thanks and 500 with the retry-later error. */
  lemma MailResultDecides(req: Request, lib: Library, mailSucceeds: bool)
    requires Accepted(req, lib)
    ensures var r := HandleSubmission(req, lib, mailSucceeds);
      if mailSucceeds then r.status == 200 && r.key == "success" && r.message == SuccessMessage
      else r.status == 500 && r.key == "error" && r.message == SendError
  {
  }

  /**
   * The message is not required: two requests that agree on the method and on the
   * four required fields get the same status and reply, and a mail is sent for both
   * or for neither, whatever their messages.
   */
  lemma MessageNotRequired(req: Request, req': Request, lib: Library, mailSucceeds: bool)
    requires req'.httpMethod == req.httpMethod
    requires Posted(req', "name") == Posted(req, "name")
    requires Posted(req', "email") == Posted(req, "email")
    requires Posted(req', "phone") == Posted(req, "phone")
    requires Posted(req', "service") == Posted(req, "service")
    ensures var r := HandleSubmission(req, lib, mailSucceeds);
      var r' := HandleSubmission(req', lib, mailSucceeds);
      r'.status == r.status && r'.key == r.key && r'.message == r.message && |r'.mails| == |r.mails|
  {
    var sub, sub' := Sanitize(req, lib), Sanitize(req', lib);
    assert sub'.(message := sub.message) == sub;
    assert MissingRequired(sub') == MissingRequired(sub);
  }

  /** In particular, replacing the message, even by nothing, leaves the answer unchanged. */
  lemma ReplacedMessageSameAnswer(req: Request, lib: Library, mailSucceeds: bool, m: string)
    ensures var r := HandleSubmission(req, lib, mailSucceeds);
      var r' := HandleSubmission(req.(post := req.post["message" := m]), lib, mailSucceeds);
      r'.status == r.status && r'.key == r.key && r'.message == r.message && |r'.mails| == |r.mails|
  {
    var req' := req.(post := req.post["message" := m]);
    assert "name" != "message" && "email" != "message" && "phone" != "message" && "service" != "message";
    MessageNotRequired(req, req', lib, mailSucceeds);
  }
}
