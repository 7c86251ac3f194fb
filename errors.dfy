/** Failure handling of the signup request: the `ERROR_MESSAGES` table,
    `getUserFriendlyError`, and the error translation of `fetchWithTimeout`. */
module Errors {
  import opened Wrappers
  import opened JsString

  /** The keys of `ERROR_MESSAGES`. */
  datatype Category = Network | Timeout | Validation | Server | Default

  /** `ERROR_MESSAGES[c]`: one fixed user-facing text per category. */
  function ErrorMessage(c: Category): string
  {
    match c
    case Network => "Problema de conexão. Verifique sua internet e tente novamente."
    case Timeout => "A requisição demorou demais. Tente novamente."
    case Validation => "Verifique as informações e tente novamente."
    case Server => "Nossos servidores estão ocupados. Aguarde um momento."
    case Default => "Algo deu errado. Tente novamente em instantes."
  }

  /** The length of each text. The source has no such table: it serves only
      the proof of `ErrorMessagesDistinct`, because five different lengths
      tell the five texts apart far more cheaply than comparing them
      character by character. */
  function MessageLength(c: Category): nat
  {
    match c
    case Network => 62
    case Timeout => 45
    case Validation => 43
    case Server => 53
    case Default => 46
  }

  lemma MessageLengthCorrect(c: Category)
    ensures |ErrorMessage(c)| == MessageLength(c)
  {
    match c {
      case Network =>
      case Timeout =>
      case Validation =>
      case Server =>
      case Default =>
    }
  }

  /** Each category has its own non-empty text. */
  lemma ErrorMessagesDistinct(c: Category, d: Category)
    ensures ErrorMessage(c) != ""
    ensures ErrorMessage(c) == ErrorMessage(d) ==> c == d
  {
    MessageLengthCorrect(c);
    MessageLengthCorrect(d);
  }

  /** A thrown JavaScript value, seen through the two properties the code
      reads: `name`, and `message`, which is `None` when it is undefined or
      null. */
  datatype JsError = JsError(name: string, message: Option<string>)

  /** `new Error('timeout')`, thrown by `fetchWithTimeout` on abort. */
  const TimeoutError: JsError := JsError("Error", Some("timeout"))

  /** The substring that marks a failed fetch. */
  const FailedToFetch: string := "Failed to fetch"

  /** `getUserFriendlyError(error)`, giving the key whose `ERROR_MESSAGES`
      text the code returns: `timeout` when the message is exactly
      "timeout", else `network` when the message holds "Failed to fetch",
      else `default`. */
  function GetUserFriendlyError(e: JsError): (c: Category)
    ensures c == Timeout || c == Network || c == Default
    ensures c == Timeout <==> e.message == Some("timeout")
    ensures c == Network <==>
      e.message != Some("timeout") && e.message.Some? && Includes(e.message.value, FailedToFetch)
  {
    if e.message == Some("timeout") then Timeout
    else if e.message.Some? && Includes(e.message.value, FailedToFetch) then Network
    else Default
  }

  /** The two tests cannot both pass, so their order does not change the
      result: "timeout" does not hold "Failed to fetch". */
  lemma ClassifierTestsExclusive(e: JsError)
    requires e.message == Some("timeout")
    ensures !Includes(e.message.value, FailedToFetch)
  {
  }

  /** The classifier reads nothing of the message beyond the two tests: two
      errors that agree on both are classified alike, whatever their names
      and texts. In particular no text of the error reaches the user. */
  lemma ClassifierIgnoresText(e1: JsError, e2: JsError)
    requires (e1.message == Some("timeout")) == (e2.message == Some("timeout"))
    requires (e1.message.Some? && Includes(e1.message.value, FailedToFetch))
          == (e2.message.Some? && Includes(e2.message.value, FailedToFetch))
    ensures GetUserFriendlyError(e1) == GetUserFriendlyError(e2)
    ensures ErrorMessage(GetUserFriendlyError(e1)) == ErrorMessage(GetUserFriendlyError(e2))
  {
  }

  /** How an in-flight `fetch` ends relative to its deadline: it settles
      after some milliseconds, resolving or rejecting, or never settles. */
  datatype Settlement<T> = SettlesAfter(ms: nat, outcome: Result<T, JsError>) | NeverSettles

  /** The rejection `fetch` sees when its `AbortController` fires: a
      `DOMException` named "AbortError" (its text varies between browsers
      and is never read). */
  const AbortRejection: JsError := JsError("AbortError", Some("signal is aborted without reason"))

  /** The `catch` of `fetchWithTimeout`: an "AbortError" becomes
      `new Error('timeout')`, anything else is rethrown as it is. */
  function TranslateRejection(e: JsError): (r: JsError)
    ensures r.name != "AbortError"
    ensures e.name != "AbortError" ==> r == e
    ensures e.name == "AbortError" ==> GetUserFriendlyError(r) == Timeout
  {
    if e.name == "AbortError" then TimeoutError else e
  }

  /** `fetchWithTimeout(url, options, timeoutMs)`. The timer aborts the
      request when it has not settled before the deadline; a settlement at
      the deadline or later loses the race. */
  function FetchWithTimeout<T>(s: Settlement<T>, timeoutMs: nat): (r: Result<T, JsError>)
    ensures r.Success? <==> s.SettlesAfter? && s.ms < timeoutMs && s.outcome.Success?
    ensures r.Success? ==> r == s.outcome
    ensures (s.NeverSettles? || s.ms >= timeoutMs) ==> r == Failure(TimeoutError)
    ensures s.SettlesAfter? && s.ms < timeoutMs && s.outcome.Failure? ==>
      r == if s.outcome.error.name == "AbortError" then Failure(TimeoutError) else s.outcome
  {
    var raw := if s.SettlesAfter? && s.ms < timeoutMs then s.outcome else Failure(AbortRejection);
    match raw
    case Success(response) => Success(response)
    case Failure(e) => Failure(TranslateRejection(e))
  }

  /** An abort, whether from the deadline or from a rejection named
      "AbortError", always reaches the user as the timeout message. */
  lemma AbortYieldsTimeoutMessage<T>(s: Settlement<T>, timeoutMs: nat)
    requires s.NeverSettles? || s.ms >= timeoutMs
             || (s.outcome.Failure? && s.outcome.error.name == "AbortError")
    ensures FetchWithTimeout(s, timeoutMs).Failure?
    ensures GetUserFriendlyError(FetchWithTimeout(s, timeoutMs).error) == Timeout
  {
  }

  /** Browsers word a failed fetch differently: Chromium's "Failed to fetch"
      is classified as a network problem, Safari's "Load failed" falls
      through to the default text. */
  lemma NetworkWordingMatters()
    ensures GetUserFriendlyError(JsError("TypeError", Some("Failed to fetch"))) == Network
    ensures GetUserFriendlyError(JsError("TypeError", Some("Load failed"))) == Default
  {
    assert OccursAt("Failed to fetch", FailedToFetch, 0);
  }
}
