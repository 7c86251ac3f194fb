/** The waitlist form's status record (`formStatus`) and the events that
    change it: the submit handler (`handleWaitlistSubmit`), split at its
    first `await` (line 341) into the submission and the settlement of the
    request, the auto-clear timer it schedules, and the toast's close button.
    The settlement is the rest of the handler, including the `await
    res.json()` at line 350, since the status does not change between the
    two. */
module Waitlist {
  import opened Wrappers
  import opened JsString
  import opened Email
  import opened Errors

  const InvalidEmailMessage: string := "Por favor, insira um e-mail válido."
  const SuccessMessage: string :=
    "\U{1F389} Sucesso! Você está na lista de acesso VIP. Verifique seu e-mail."
  /** The error text thrown when the service answers without success and without a message. */
  const FallbackRejectionText: string := "Erro ao processar inscrição"

  /** The deadline the handler passes to `fetchWithTimeout`. */
  const RequestTimeoutMs: nat := 10000

  /** The parsed JSON body, through what the handler reads of it: whether
      `data.success` is truthy, and `data.message` when it is truthy (as the
      string `new Error` makes of it). */
  datatype Body = Body(success: bool, message: Option<string>)

  /** A response: its HTTP status, and what `res.json()` yields. */
  datatype HttpResponse = HttpResponse(status: int, json: Result<Body, JsError>)

  /** `new Error(data.message || 'Erro ao processar inscrição')`. */
  function Rejection(data: Body): (e: JsError)
    ensures e.name == "Error" && e.message.Some? && e.message.value != ""
    ensures data.message.Some? && data.message.value != "" ==> e.message == data.message
    ensures !(data.message.Some? && data.message.value != "") ==> e.message == Some(FallbackRejectionText)
  {
    var text := if data.message.Some? && data.message.value != "" then data.message.value
                else FallbackRejectionText;
    JsError("Error", Some(text))
  }

  /** What the handler's `try` block ends with: the body of a response that
      arrived before the deadline, or the error that rejected the request or
      the parsing of its body. */
  function Attempt(s: Settlement<HttpResponse>): (r: Result<Body, JsError>)
    ensures r.Success? ==>
      s.SettlesAfter? && s.ms < RequestTimeoutMs && s.outcome.Success? && s.outcome.value.json == r
    ensures (s.NeverSettles? || s.ms >= RequestTimeoutMs) ==> r == Failure(TimeoutError)
    ensures s.SettlesAfter? && s.ms < RequestTimeoutMs && s.outcome.Success? ==>
      r == s.outcome.value.json
    ensures s.SettlesAfter? && s.ms < RequestTimeoutMs && s.outcome.Failure? ==>
      r == Failure(TranslateRejection(s.outcome.error))
  {
    match FetchWithTimeout(s, RequestTimeoutMs)
    case Failure(e) => Failure(e)
    case Success(response) => response.json
  }

  /** The attempt succeeded: the body arrived and its `success` is truthy. */
  predicate Succeeded(r: Result<Body, JsError>)
  {
    r.Success? && r.value.success
  }

  /** The error the `catch` block receives when the attempt did not succeed. */
  function Thrown(r: Result<Body, JsError>): JsError
    requires !Succeeded(r)
  {
    if r.Failure? then r.error else Rejection(r.value)
  }

  /** A fixed text that `getUserFriendlyError` can return. */
  predicate IsFriendlyText(m: string)
  {
    m == ErrorMessage(Timeout) || m == ErrorMessage(Network) || m == ErrorMessage(Default)
  }

  /** Every text the classifier picks is one of its three fixed texts. */
  lemma ClassifiedTextIsFriendly(e: JsError)
    ensures IsFriendlyText(ErrorMessage(GetUserFriendlyError(e)))
  {
  }

  /** What the toast shows it as: `formStatus.success ? 'success' : 'error'`. */
  datatype ToastType = SuccessToast | ErrorToast

  class WaitlistForm {
    var loading: bool
    var success: bool
    var error: bool
    var message: string
    /** A submission passed validation and its request has not settled yet. */
    var inFlight: bool
    /** Auto-clear timers scheduled and not yet fired. */
    var pendingClears: nat
    /** `waitlist_submit` events sent to `gtag`. */
    var analyticsEvents: nat

    /** At most one flag is set, `loading` exactly while a request is in
        flight, and the message is one of the fixed texts that belongs to the
        flag that is set, or empty. */
    ghost predicate Valid()
      reads this
    {
      (loading <==> inFlight)
      && !(loading && success) && !(loading && error) && !(success && error)
      && (loading ==> message == "")
      && (success ==> message == "" || message == SuccessMessage)
      && (error ==> message == "" || message == InvalidEmailMessage || IsFriendlyText(message))
      && (!success && !error ==> message == "")
    }

    /** `useState({ loading: false, success: false, error: false, message: '' })`. */
    constructor ()
      ensures Valid()
      ensures !loading && !success && !error && message == ""
      ensures !inFlight && pendingClears == 0 && analyticsEvents == 0
    {
      loading, success, error, message := false, false, false, "";
      inFlight, pendingClears, analyticsEvents := false, 0, 0;
    }

    /** The toast is shown while the message is non-empty. */
    function ToastVisible(): bool
      reads this
    {
      message != ""
    }

    function ToastKind(): ToastType
      reads this
    {
      if success then SuccessToast else ErrorToast
    }

    /** The submit handler up to its `await`. The input and the button are
        disabled while `loading`, so the browser delivers no submit then.
        An invalid address sets the error status and returns before the
        `try`, so no request is made and no timer is scheduled; a valid one
        sets the pending status and sends the request. */
    method Submit(value: string) returns (requested: bool)
      requires Valid()
      requires !loading
      modifies this
      ensures Valid()
      ensures requested == IsValidEmail(Trim(value))
      ensures !requested ==>
        !loading && !success && error && message == InvalidEmailMessage && !inFlight
      ensures requested ==> loading && !success && !error && message == "" && inFlight
      ensures pendingClears == old(pendingClears) && analyticsEvents == old(analyticsEvents)
    {
      requested := IsValidEmail(Trim(value));
      if !requested {
        RejectAddress();
      } else {
        SendRequest();
      }
    }

    /** The invalid-address branch: the error status with its fixed text. */
    method RejectAddress()
      requires Valid() && !loading
      modifies this
      ensures Valid()
      ensures !loading && !success && error && message == InvalidEmailMessage && !inFlight
      ensures pendingClears == old(pendingClears) && analyticsEvents == old(analyticsEvents)
    {
      loading, success, error, message := false, false, true, InvalidEmailMessage;
    }

    /** The valid-address branch: the pending status, and the request sent. */
    method SendRequest()
      requires Valid() && !loading
      modifies this
      ensures Valid()
      ensures loading && !success && !error && message == "" && inFlight
      ensures pendingClears == old(pendingClears) && analyticsEvents == old(analyticsEvents)
    {
      loading, success, error, message := true, false, false, "";
      inFlight := true;
    }

    /** The `finally` block: one auto-clear timer per settled request. */
    method ScheduleClear()
      modifies this`pendingClears
      ensures pendingClears == old(pendingClears) + 1
    {
      pendingClears := pendingClears + 1;
    }

    /** `res.json()` resolved with `data`. A truthy `success` sets the
        success status and fires the analytics event if `gtag` is present;
        otherwise the handler throws and its `catch` sets the error status. */
    method Respond(data: Body, gtagPresent: bool)
      requires Valid() && inFlight
      modifies this
      ensures Valid() && !inFlight && !loading
      ensures success == data.success && error == !data.success
      ensures message == if data.success then SuccessMessage
                         else ErrorMessage(GetUserFriendlyError(Rejection(data)))
      ensures analyticsEvents == old(analyticsEvents) + (if data.success && gtagPresent then 1 else 0)
      ensures pendingClears == old(pendingClears) + 1
    {
      if data.success {
        loading, success, error, message := false, true, false, SuccessMessage;
        if gtagPresent {
          analyticsEvents := analyticsEvents + 1;
        }
        inFlight := false;
        ScheduleClear();
      } else {
        Fail(Rejection(data));
      }
    }

    /** The request or the parsing of its body rejected with `err`: the
        `catch` block sets the error status with the classified text. */
    method Fail(err: JsError)
      requires Valid() && inFlight
      modifies this
      ensures Valid() && !inFlight && !loading
      ensures !success && error && message == ErrorMessage(GetUserFriendlyError(err))
      ensures analyticsEvents == old(analyticsEvents)
      ensures pendingClears == old(pendingClears) + 1
    {
      ClassifiedTextIsFriendly(err);
      ShowFailure(ErrorMessage(GetUserFriendlyError(err)));
      ScheduleClear();
    }

    /** The status the `catch` block sets, with a classifier text. */
    method ShowFailure(text: string)
      requires Valid() && inFlight && IsFriendlyText(text)
      modifies this
      ensures Valid() && !inFlight && !loading
      ensures !success && error && message == text
      ensures pendingClears == old(pendingClears) && analyticsEvents == old(analyticsEvents)
    {
      loading, success, error, message := false, false, true, text;
      inFlight := false;
    }

    /** The handler after its first `await`, for a request that settles as `s`:
        it ends with `loading` off and exactly one of `success` and `error`
        set, `success` exactly when a timely response carried a truthy
        `success`; the analytics event fires at most once and only then. */
    method Settle(s: Settlement<HttpResponse>, gtagPresent: bool)
      requires Valid() && inFlight
      modifies this
      ensures Valid() && !inFlight && !loading
      ensures success == Succeeded(Attempt(s)) && error == !success
      ensures success ==> message == SuccessMessage
      ensures !success ==> message == ErrorMessage(GetUserFriendlyError(Thrown(Attempt(s))))
      ensures analyticsEvents == old(analyticsEvents) + (if success && gtagPresent then 1 else 0)
      ensures pendingClears == old(pendingClears) + 1
    {
      match Attempt(s)
      case Success(data) => Respond(data, gtagPresent);
      case Failure(e) => Fail(e);
    }

    /** An auto-clear timer fires: `prev => ({ ...prev, message: '' })`. */
    method AutoClear()
      requires Valid() && pendingClears > 0
      modifies this
      ensures Valid()
      ensures message == "" && pendingClears == old(pendingClears) - 1
      ensures loading == old(loading) && success == old(success) && error == old(error)
      ensures inFlight == old(inFlight) && analyticsEvents == old(analyticsEvents)
    {
      message := "";
      pendingClears := pendingClears - 1;
    }

    /** The toast's close button: the same update as the timer, which stays
        scheduled. */
    method Dismiss()
      requires Valid()
      modifies this
      ensures Valid()
      ensures message == ""
      ensures loading == old(loading) && success == old(success) && error == old(error)
      ensures inFlight == old(inFlight) && pendingClears == old(pendingClears)
      ensures analyticsEvents == old(analyticsEvents)
    {
      message := "";
    }
  }

  /** A visible toast shows a fixed text of its own kind: the success text
      on a success toast, the invalid-address text or a classifier text on an
      error toast; never text from the network. */
  lemma ToastShowsFixedText(f: WaitlistForm)
    requires f.Valid() && f.ToastVisible()
    ensures !f.loading
    ensures f.ToastKind() == SuccessToast <==> f.message == SuccessMessage
    ensures f.ToastKind() == ErrorToast ==>
      f.message == InvalidEmailMessage || IsFriendlyText(f.message)
  {
    MessageTextsDistinct();
  }

  /** The three status texts other than the classifier's are distinct from
      the classifier's and from each other. */
  lemma MessageTextsDistinct()
    ensures SuccessMessage != InvalidEmailMessage
    ensures !IsFriendlyText(SuccessMessage) && !IsFriendlyText(InvalidEmailMessage)
  {
  }

  /** A request that does not settle before the 10000 ms deadline always ends
      with the timeout text. */
  lemma DeadlineShowsTimeout(s: Settlement<HttpResponse>)
    requires s.NeverSettles? || s.ms >= RequestTimeoutMs
    ensures !Succeeded(Attempt(s))
    ensures GetUserFriendlyError(Thrown(Attempt(s))) == Timeout
  {
  }

  /** Success needs a response before the deadline whose body parses with a
      truthy `success`; the HTTP status is never consulted. */
  lemma SuccessCondition(s: Settlement<HttpResponse>)
    ensures Succeeded(Attempt(s)) <==>
      s.SettlesAfter? && s.ms < RequestTimeoutMs && s.outcome.Success?
      && s.outcome.value.json.Success? && s.outcome.value.json.value.success
  {
  }

  /** The HTTP status plays no part: two responses that differ only in their
      status end the same way. */
  lemma StatusIgnored(ms: nat, status1: int, status2: int, json: Result<Body, JsError>)
    ensures Attempt(SettlesAfter(ms, Success(HttpResponse(status1, json))))
         == Attempt(SettlesAfter(ms, Success(HttpResponse(status2, json))))
  {
  }

  /** The service's own message is classified like any thrown error, so a
      refusal whose message is "timeout" is shown as a timeout. */
  lemma RefusalTextIsClassified()
    ensures GetUserFriendlyError(Rejection(Body(false, Some("timeout")))) == Timeout
    ensures GetUserFriendlyError(Rejection(Body(false, Some("Failed to fetch")))) == Network
  {
    assert OccursAt("Failed to fetch", FailedToFetch, 0);
  }

  /** The code points of the two character classes are not whitespace. */
  lemma AddressCharsNotWhitespace(c: char)
    requires IsLocalChar(c)
    ensures !IsWhitespace(c)
  {
    assert '!' <= c <= '~' by {
      if !IsAlnum(c) {
        var i :| 0 <= i < |".!#$%&'*+/=?^_`{|}~-"| && ".!#$%&'*+/=?^_`{|}~-"[i] == c;
      }
    }
  }

  /** Whitespace typed around a valid address is trimmed away before
      validation, so the padded value is accepted as well. */
  lemma SurroundingWhitespaceIgnored(pre: string, email: string, post: string)
    requires IsValidEmail(email)
    requires forall k :: 0 <= k < |pre| ==> IsWhitespace(pre[k])
    requires forall k :: 0 <= k < |post| ==> IsWhitespace(post[k])
    ensures Trim(pre + email + post) == email
    ensures IsValidEmail(Trim(pre + email + post))
  {
    ValidEmailShape(email);
    var parts := Split(email, '@');
    DomainShape(parts[1]);
    assert email[0] == parts[0][0];
    assert email[|email| - 1] == parts[1][|parts[1]| - 1];
    AddressCharsNotWhitespace(email[0]);
    AddressCharsNotWhitespace(email[|email| - 1]);
    TrimPadding(pre, email, post);
  }

  /** A run of events: a failed attempt, a dismissal, and a second attempt
      that succeeds. The first attempt's timer is still pending and its
      firing hides the second attempt's success text; the success flag
      stays. */
  method StaleTimerScenario(value: string, err: JsError)
    requires IsValidEmail(Trim(value))
  {
    var f := new WaitlistForm();
    FailedAttempt(f, value, err);
    var sent := f.Submit(value);
    f.Respond(Body(true, None), true);
    assert f.message == SuccessMessage && f.success && f.pendingClears == 2;
    f.AutoClear();
    assert f.message == "" && f.success && f.pendingClears == 1 && f.analyticsEvents == 1;
  }

  /** A valid address submitted, its request rejected with `err`, and the
      toast dismissed: the form is not loading, shows no text, and has one
      more timer pending. */
  method FailedAttempt(f: WaitlistForm, value: string, err: JsError)
    requires f.Valid() && !f.loading && IsValidEmail(Trim(value))
    modifies f
    ensures f.Valid() && !f.loading && !f.inFlight && f.message == ""
    ensures f.pendingClears == old(f.pendingClears) + 1
    ensures f.analyticsEvents == old(f.analyticsEvents)
  {
    var sent := f.Submit(value);
    f.Fail(err);
    f.Dismiss();
  }
}
