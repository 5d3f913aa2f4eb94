/** The contact form module of private/modules/ContactForm.php: it reads a
    submitted form, records what is wrong with it as error flags, sends the
    message when nothing is, and reports the outcome. PHP's input filters
    and `mail()` are outside the model: the filters are parameters and the
    outcome of `mail()` is given to `TryToSend`. */
module ContactForm {
  import opened Wrappers
  import opened PhpString
  import opened PhpArray
  import Captcha

  const EMAIL_MAX_LENGTH: nat := 255
  const MESSAGE_MAX_LENGTH: nat := 4096
  const CAPTCHA_MAX_LENGTH: nat := 10

  /** The error flags `ERR_EMAIL` (1), `ERR_MESSAGE` (2), `ERR_CAPTCHA`
      (4) and `ERR_SEND_MAIL` (8). Each is one bit of a PHP integer and
      the form only sets, tests and clears whole bits, so the integer is
      the set of flags whose bits are set; `ERR_NONE` is the empty set. */
  datatype Flag = ErrEmail | ErrMessage | ErrCaptcha | ErrSendMail
  type Flags = set<Flag>

  const ERR_NONE: Flags := {}

  /** The name under which the form's captcha is kept in the session. */
  const CAPTCHA_NAME: string := "contact-form"

  const ERROR_CLASS: string := "cf-error"
  const ROW_OPEN: string := "<div class=\"cf-row\">\n"
  const ROW_CLOSE: string := "</div>\n"
  const SENT_TEXT: string := "<p><strong>Your message was sent.</strong></p>\n"
  const FAILED_TEXT: string := "<p class=\"cf-error\"><strong>Sorry, could not send your message. Please try again later.</strong></p>\n"

  /** PHP's input filters: `FILTER_SANITIZE_EMAIL`, `FILTER_VALIDATE_EMAIL`
      (nothing for FALSE) and `FILTER_SANITIZE_STRING` with
      `FILTER_FLAG_NO_ENCODE_QUOTES`. */
  datatype Filters = Filters(
    sanitizeEmail: string -> string,
    validateEmail: string -> Option<string>,
    sanitizeString: string -> string)

  /** `filter_input(INPUT_POST, $key, ...)` cut to `max` characters: a
      field the form did not send reads as NULL, which `substr` makes "". */
  function Field(post: Assoc<string>, key: string, sanitize: string -> string, max: nat): (v: string)
    ensures |v| <= max
    ensures Lookup(post, key).None? ==> v == ""
    ensures Lookup(post, key).Some? ==> v == Head(sanitize(Lookup(post, key).value), max)
  {
    match Lookup(post, key)
    case None => ""
    case Some(raw) => Head(sanitize(raw), max)
  }

  /** The first `max` characters of `s`, or all of it when it is shorter. */
  function Head(s: string, max: nat): (r: string)
    ensures |r| == (if |s| <= max then |s| else max) && r == s[..|r|]
  {
    if |s| <= max then s else s[..max]
  }

  /** `Head` is `substr($s, 0, $max)`. */
  lemma HeadIsSubstr(s: string, max: nat)
    ensures Head(s, max) == Substr(s, 0, max)
  {
  }

  /** The flag `f` when the condition holds, no flag otherwise. */
  function FlagIf(b: bool, f: Flag): Flags {
    if b then {f} else ERR_NONE
  }

  /** The flags a submitted form adds: a bad address, an empty message and
      a wrong captcha answer, each on its own. */
  function InputFlags(badEmail: bool, noMessage: bool, badCaptcha: bool): (f: Flags)
    ensures (ErrEmail in f) <==> badEmail
    ensures (ErrMessage in f) <==> noMessage
    ensures (ErrCaptcha in f) <==> badCaptcha
    ensures ErrSendMail !in f
    ensures f == ERR_NONE <==> !badEmail && !noMessage && !badCaptcha
  {
    FlagIf(badEmail, ErrEmail) + FlagIf(noMessage, ErrMessage) + FlagIf(badCaptcha, ErrCaptcha)
  }

  /** `makeFormRow($row)`: the row inside its `div`. */
  function MakeFormRow(row: string): (r: string)
    ensures |r| == |ROW_OPEN| + |row| + |ROW_CLOSE|
    ensures r[..|ROW_OPEN|] == ROW_OPEN && r[|r| - |ROW_CLOSE|..] == ROW_CLOSE
    ensures r[|ROW_OPEN|..|r| - |ROW_CLOSE|] == row
  {
    ROW_OPEN + row + ROW_CLOSE
  }

  /** Different rows give different markup. */
  lemma FormRowInjective(a: string, b: string)
    requires MakeFormRow(a) == MakeFormRow(b)
    ensures a == b
  {
  }

  /** The headers of the mail: plain text, from the address the visitor
      gave. */
  function MailHeaders(from: Option<string>): string {
    "Content-Type: text/plain; charset=UTF-8\r\n" + "From: " + from.GetOr("") + "\r\n"
  }

  /** The arguments of one call of `mail()`. */
  datatype Mail = Mail(to: string, subject: string, message: string, headers: string)

  /** The recipient and the subject from the module's parameter string
      `email; subject`; a missing subject reads as NULL, i.e. "". */
  function Recipient(params: string): (r: (string, string))
    ensures ';' !in params ==> r.0 == params && r.1 == ""
  {
    var parts := RegexSplit(params, ';');
    if ';' !in params then
      assert Explode(params, ';') == [params];
      (params, "")
    else (parts[0], if |parts| > 1 then parts[1] else "")
  }

  /** The parameter string `email; subject` gives that recipient and that
      subject back, whatever spaces surround the separator. */
  lemma {:induction false} RecipientOfParams(email: string, space: string, subject: string)
    requires ';' !in email && ';' !in subject && IsBlank(space) && ';' !in space
    requires email == [] || email[|email| - 1] !in RegexSpaces
    requires subject == [] || subject[0] !in RegexSpaces
    ensures Recipient(email + [';'] + space + subject) == (email, subject)
  {
    var tail := space + subject;
    assert ';' !in tail by {
      forall i | 0 <= i < |tail| ensures tail[i] != ';' {
        if i < |space| { assert tail[i] == space[i]; } else { assert tail[i] == subject[i - |space|]; }
      }
    }
    var params := email + [';'] + tail;
    assert email + [';'] + space + subject == params;
    assert params == Join([email, tail], ';');
    ExplodeJoin([email, tail], ';');
    assert params[|email|] == ';';
    var parts := RegexSplit(params, ';');
    assert parts[0] == StripAround(email, false, true) == TrimRight(email, RegexSpaces);
    assert TrimRight(email, RegexSpaces) == email;
    assert parts[1] == StripAround(tail, true, false) == TrimLeft(tail, RegexSpaces);
    TrimLeftBlank(space, subject);
    assert Recipient(params) == (parts[0], parts[1]);
  }

  class ContactFormModule {
    var error: Flags
    const email: string
    const subject: string
    const captcha: Captcha.Captcha
    var wasSent: bool
    var submitted: bool
    /** The visitor's address: NULL before the form is read, FALSE when it
        did not validate; both are `None`. */
    var fromEmail: Option<string>
    var message: Option<string>

    /** `__construct($params)`: recipient and subject from the parameters,
        the captcha as the session holds it, the form data reset, and the
        submitted form, if any, read. */
    constructor (params: string, session: Captcha.Session, post: Assoc<string>, filters: Filters)
      ensures (email, subject) == Recipient(params)
      ensures captcha.name == CAPTCHA_NAME && fresh(captcha)
      ensures !wasSent
      ensures submitted == ("cf_send" in Keys(post))
      ensures !submitted ==> error == ERR_NONE && fromEmail.None? && message.None?
      ensures submitted ==> (error == SubmittedFlags(post, filters, captcha) &&
        fromEmail == filters.validateEmail(Field(post, "cf_email", filters.sanitizeEmail, EMAIL_MAX_LENGTH)) &&
        message == Some(Field(post, "cf_message", filters.sanitizeString, MESSAGE_MAX_LENGTH)))
    {
      var parts := RegexSplit(params, ';');
      if ';' !in params {
        assert Explode(params, ';') == [params];
      }
      email := parts[0];
      subject := if |parts| > 1 then parts[1] else "";
      captcha := new Captcha.Captcha(CAPTCHA_NAME, session);
      wasSent := false;
      error := ERR_NONE;
      fromEmail := None;
      message := None;
      submitted := false;
      new;
      GetInputs(post, filters);
    }

    /** `initFormData()`: no errors, no form data, not submitted. */
    method InitFormData()
      modifies this
      ensures error == ERR_NONE && fromEmail.None? && message.None? && !submitted
      ensures wasSent == old(wasSent)
    {
      error := ERR_NONE;
      fromEmail := None;
      message := None;
      submitted := false;
    }

    /** The flags `getInputs()` adds for a submitted form. */
    static function SubmittedFlags(post: Assoc<string>, filters: Filters, captcha: Captcha.Captcha): (f: Flags)
      reads captcha
      ensures (ErrEmail in f) <==>
        filters.validateEmail(Field(post, "cf_email", filters.sanitizeEmail, EMAIL_MAX_LENGTH)).None?
      ensures (ErrMessage in f) <==> Field(post, "cf_message", filters.sanitizeString, MESSAGE_MAX_LENGTH) == []
      ensures (ErrCaptcha in f) <==>
        !captcha.CheckAnswer(Field(post, "cf_antispam", filters.sanitizeString, CAPTCHA_MAX_LENGTH))
      ensures ErrSendMail !in f
    {
      var from := filters.validateEmail(Field(post, "cf_email", filters.sanitizeEmail, EMAIL_MAX_LENGTH));
      var text := Field(post, "cf_message", filters.sanitizeString, MESSAGE_MAX_LENGTH);
      var answer := Field(post, "cf_antispam", filters.sanitizeString, CAPTCHA_MAX_LENGTH);
      InputFlags(from.None?, |text| == 0, !captcha.CheckAnswer(answer))
    }

    /** `getInputs()`: the form counts as submitted when it has the
        `cf_send` field; then its address, message and captcha answer are
        read and each problem adds its flag to those already set. */
    method GetInputs(post: Assoc<string>, filters: Filters)
      modifies this
      ensures submitted == ("cf_send" in Keys(post)) && wasSent == old(wasSent)
      ensures !submitted ==> error == old(error) && fromEmail == old(fromEmail) && message == old(message)
      ensures submitted ==> (error == old(error) + SubmittedFlags(post, filters, captcha) &&
        fromEmail == filters.validateEmail(Field(post, "cf_email", filters.sanitizeEmail, EMAIL_MAX_LENGTH)) &&
        message == Some(Field(post, "cf_message", filters.sanitizeString, MESSAGE_MAX_LENGTH)))
    {
      submitted := Lookup(post, "cf_send").Some?;
      if submitted {
        var from := filters.validateEmail(Field(post, "cf_email", filters.sanitizeEmail, EMAIL_MAX_LENGTH));
        var flags := error;
        if from.None? {
          flags := flags + {ErrEmail};
        }
        assert flags == error + FlagIf(from.None?, ErrEmail);
        var text := Field(post, "cf_message", filters.sanitizeString, MESSAGE_MAX_LENGTH);
        if |text| == 0 {
          flags := flags + {ErrMessage};
        }
        assert flags == error + FlagIf(from.None?, ErrEmail) + FlagIf(|text| == 0, ErrMessage);
        var answer := Field(post, "cf_antispam", filters.sanitizeString, CAPTCHA_MAX_LENGTH);
        var accepted := captcha.CheckAnswer(answer);
        if !accepted {
          flags := flags + {ErrCaptcha};
        }
        assert flags == error + InputFlags(from.None?, |text| == 0, !accepted);
        fromEmail, message, error := from, Some(text), flags;
      }
    }

    /** `tryToSend()`: only a submitted form without errors is mailed,
        and `mail` is the outcome of that `mail()` call. A sent message
        resets the form and is reported as sent; a failed one only adds
        the mail flag. `sent` is the call made, if any. */
    method TryToSend(mailSucceeds: bool) returns (sent: Option<Mail>)
      modifies this
      ensures sent.Some? <==> old(error) == ERR_NONE && old(submitted)
      ensures sent.Some? ==> sent.value == Mail(email, subject, old(message).GetOr(""), MailHeaders(old(fromEmail)))
      ensures sent.None? ==>
        error == old(error) && wasSent == old(wasSent) && submitted == old(submitted) &&
        fromEmail == old(fromEmail) && message == old(message)
      ensures sent.Some? && mailSucceeds ==>
        error == ERR_NONE && wasSent && !submitted && fromEmail.None? && message.None?
      ensures sent.Some? && !mailSucceeds ==>
        error == old(error) + {ErrSendMail} && wasSent == old(wasSent) && submitted == old(submitted) &&
        fromEmail == old(fromEmail) && message == old(message)
    {
      sent := None;
      if error == ERR_NONE && submitted {
        var headers := "Content-Type: text/plain; charset=UTF-8\r\n";
        headers := headers + "From: " + fromEmail.GetOr("") + "\r\n";
        sent := Some(Mail(email, subject, message.GetOr(""), headers));
        if mailSucceeds {
          InitFormData();
          wasSent := true;
        } else {
          error := error + {ErrSendMail};
        }
      }
    }

    /** `errorCssClass($error_flag)`: the error class when the flag is
        set. */
    function ErrorCssClass(flag: Flag): (r: string)
      reads this
      ensures r == ERROR_CLASS <==> flag in error
      ensures r != ERROR_CLASS ==> r == ""
    {
      if flag in error then ERROR_CLASS else ""
    }

    /** `getResultMessage()`: the message that the mail was sent, else the
        one that it could not be, else nothing. */
    function GetResultMessage(): (r: string)
      reads this
      ensures wasSent ==> r == MakeFormRow(SENT_TEXT)
      ensures !wasSent && ErrSendMail in error ==> r == MakeFormRow(FAILED_TEXT)
      ensures !wasSent && ErrSendMail !in error ==> r == ""
    {
      if wasSent then MakeFormRow(SENT_TEXT)
      else if ErrSendMail in error then MakeFormRow(FAILED_TEXT)
      else ""
    }
  }

  /** What a page with the form shows after trying to send: after a sent
      mail the success row and no field marked, after a failed one the
      failure row, and for a form with errors no mail at all. */
  method SendOutcome(form: ContactFormModule, mailSucceeds: bool) returns (sent: Option<Mail>, result: string)
    modifies form
    ensures sent.Some? && mailSucceeds ==>
      result == MakeFormRow(SENT_TEXT) && form.ErrorCssClass(ErrEmail) == "" &&
      form.ErrorCssClass(ErrMessage) == "" && form.ErrorCssClass(ErrCaptcha) == ""
    ensures sent.Some? && !mailSucceeds && !old(form.wasSent) ==> result == MakeFormRow(FAILED_TEXT)
    ensures old(form.error) != ERR_NONE ==> sent.None?
  {
    sent := form.TryToSend(mailSucceeds);
    result := form.GetResultMessage();
  }
}
