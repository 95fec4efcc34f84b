/**
 * `PasswordFlowAuthenticationException`: the exception a client of the OAuth2 password flow
 * throws when the token endpoint refuses. It carries the HTTP status of the response (which
 * may be missing) and a message assembled from that status and the response body.
 */
module Exceptions {
  import opened Wrappers
  import opened JavaText

  /** `org.springframework.http.HttpStatus`: the numeric code and its reason phrase. */
  datatype HttpStatus = HttpStatus(value: nat, reasonPhrase: string)

  /** `HttpStatus.UNAUTHORIZED`. */
  const UNAUTHORIZED: HttpStatus := HttpStatus(401, "Unauthorized")

  /** The fixed beginning of a message that reports a status. */
  const STATUS_PREFIX: string := "Server returned status code "

  /** The exception: the status given to the constructor, and the message it was built with.
      `RestApiExceptionUtils.NO_MESSAGE_VALUE` is not part of this model; the text used for a
      missing message is a parameter wherever a message is built. */
  datatype PasswordFlowAuthenticationException =
    PasswordFlowAuthenticationException(httpStatus: Option<HttpStatus>, message: string)

  /** Neither the status's reason phrase nor the body has anything to say. */
  predicate NoMessageCase(httpStatus: Option<HttpStatus>, body: Option<string>) {
    (httpStatus.None? || !HasText(Some(httpStatus.value.reasonPhrase))) && !HasText(body)
  }

  /** `" (" + reasonPhrase + ")"` when the reason phrase has text. */
  function ReasonSegment(reasonPhrase: string): string {
    if HasText(Some(reasonPhrase)) then " (" + reasonPhrase + ")" else ""
  }

  /** `": " + body` when the body has text. */
  function BodySegment(body: Option<string>): string {
    if HasText(body) then ": " + body.value else ""
  }

  /** The message of a status with something to report: the code, then the reason phrase in
      parentheses exactly when it has text, then a colon and the body exactly when it has text. */
  function StatusReport(httpStatus: HttpStatus, body: Option<string>): (r: string)
    requires HasText(Some(httpStatus.reasonPhrase)) || HasText(body)
    ensures
      var code := STATUS_PREFIX + DecimalString(httpStatus.value);
      var reason := httpStatus.reasonPhrase;
      && (HasText(Some(reason)) && HasText(body) ==>
            r == code + (" (" + reason + ")") + (": " + body.value))
      && (HasText(Some(reason)) && !HasText(body) ==> r == code + (" (" + reason + ")"))
      && (!HasText(Some(reason)) ==> r == code + (": " + body.value))
  {
    STATUS_PREFIX + DecimalString(httpStatus.value) + ReasonSegment(httpStatus.reasonPhrase)
      + BodySegment(body)
  }

  /**
   * `buildMessage`: the sentinel when there is nothing to report; the body alone when there is
   * no status; otherwise the status code, then the reason phrase in parentheses if it has text,
   * then a colon and the body if it has text.
   */
  function BuildMessage(httpStatus: Option<HttpStatus>, body: Option<string>, noMessageValue: string)
    : (r: string)
    ensures NoMessageCase(httpStatus, body) ==> r == noMessageValue
    ensures !NoMessageCase(httpStatus, body) && httpStatus.None? ==> body == Some(r) && HasText(body)
    ensures !NoMessageCase(httpStatus, body) && httpStatus.Some? ==>
      var code := STATUS_PREFIX + DecimalString(httpStatus.value.value);
      var reason := httpStatus.value.reasonPhrase;
      // the code, then the reason phrase in parentheses exactly when it has text, then a colon
      // and the body exactly when the body has text
      && (HasText(Some(reason)) && HasText(body) ==>
            r == code + (" (" + reason + ")") + (": " + body.value))
      && (HasText(Some(reason)) && !HasText(body) ==> r == code + (" (" + reason + ")"))
      && (!HasText(Some(reason)) ==> HasText(body) && r == code + (": " + body.value))
  {
    if NoMessageCase(httpStatus, body) then noMessageValue
    else if httpStatus.None? then body.value
    else StatusReport(httpStatus.value, body)
  }

  /** The constructor: stores the status as given, and builds the message from it and the body. */
  function Create(httpStatus: Option<HttpStatus>, body: Option<string>, noMessageValue: string)
    : (e: PasswordFlowAuthenticationException)
    ensures e.httpStatus == httpStatus
    ensures e.message == BuildMessage(httpStatus, body, noMessageValue)
  {
    PasswordFlowAuthenticationException(httpStatus, BuildMessage(httpStatus, body, noMessageValue))
  }

  /** `status()`: the stored status's code, and 401 Unauthorized when there is none. */
  function Status(e: PasswordFlowAuthenticationException): (r: nat)
    ensures e.httpStatus.Some? ==> r == e.httpStatus.value.value
    ensures e.httpStatus.None? ==> r == UNAUTHORIZED.value
  {
    if e.httpStatus.Some? then e.httpStatus.value.value else UNAUTHORIZED.value
  }

  /** The status code read back from the front of a message, if it has the status form. */
  function StatusCodeOfMessage(m: string): Option<nat> {
    if StartsWith(m, STATUS_PREFIX) && LeadingDigits(m[|STATUS_PREFIX|..]) != [] then
      Some(ParseDecimal(LeadingDigits(m[|STATUS_PREFIX|..])))
    else None
  }

  /** The code written after the prefix is read back, whatever non-digit text follows it. */
  lemma StatusCodeOfReport(code: nat, tail: string)
    requires tail == [] || !IsDigit(tail[0])
    ensures StatusCodeOfMessage(STATUS_PREFIX + DecimalString(code) + tail) == Some(code)
  {
    var ds := DecimalString(code);
    var m := STATUS_PREFIX + ds + tail;
    assert m[..|STATUS_PREFIX|] == STATUS_PREFIX;
    assert m[|STATUS_PREFIX|..] == ds + tail;
    LeadingDigitsOf(ds, tail);
    ParseDecimalString(code);
  }

  /** A message that reports a status loses nothing of the code: reading the digits after the
      prefix gives back exactly the status the exception was built with. */
  lemma StatusCodeRecoverable(httpStatus: HttpStatus, body: Option<string>, noMessageValue: string)
    requires !NoMessageCase(Some(httpStatus), body)
    ensures StatusCodeOfMessage(BuildMessage(Some(httpStatus), body, noMessageValue)) == Some(httpStatus.value)
  {
    var tail := ReasonSegment(httpStatus.reasonPhrase) + BodySegment(body);
    assert BuildMessage(Some(httpStatus), body, noMessageValue)
      == STATUS_PREFIX + DecimalString(httpStatus.value) + tail;
    assert tail == [] || tail[0] == ' ' || tail[0] == ':';
    StatusCodeOfReport(httpStatus.value, tail);
  }

  /** The sentinel is returned exactly in the no-message case, provided the sentinel cannot be
      mistaken for a status report and the body is not the sentinel itself. */
  lemma NoMessageExactly(httpStatus: Option<HttpStatus>, body: Option<string>, noMessageValue: string)
    requires !StartsWith(noMessageValue, STATUS_PREFIX)
    requires body != Some(noMessageValue)
    ensures BuildMessage(httpStatus, body, noMessageValue) == noMessageValue <==> NoMessageCase(httpStatus, body)
  {
  }

  /** `status()` of a constructed exception: the given code, or 401 without a status; so it is
      401 exactly when no status or a 401 status was given. */
  lemma CreatedStatus(httpStatus: Option<HttpStatus>, body: Option<string>, noMessageValue: string)
    ensures Status(Create(httpStatus, body, noMessageValue)) == 401 <==>
      httpStatus.None? || httpStatus.value.value == 401
  {
  }
}
