/** Request-body validators of the link-management API
    (validateTargetUrl, validateCustomCode). */
module Validation {
  import opened Responses
  import opened Codes

  const URL_REQUIRED: string := "targetUrl is required"
  const URL_MALFORMED: string := "Invalid URL format"
  const URL_BAD_PROTOCOL: string := "URL must use http or https protocol"
  const CODE_MALFORMED: string := "customCode must be 6–8 characters: letters and numbers only"

  /** The `new URL(...)` constructor of the WHATWG URL Standard, reduced to
      what the validator reads: None when it throws, otherwise the parsed
      URL's `protocol` (scheme followed by ':'). */
  type ProtocolParser = string -> Option<string>

  /** A request-body string field as JavaScript truthiness sees it: absent
      (undefined or null) and the empty string are falsy. */
  predicate IsFalsy(field: Option<string>) {
    field.None? || field.value == ""
  }

  predicate IsWebProtocol(protocol: string) {
    protocol == "http:" || protocol == "https:"
  }

  /** validateTargetUrl. */
  function ValidateTargetUrl(targetUrl: Option<string>, parse: ProtocolParser): (r: Result<string>)
    ensures IsFalsy(targetUrl) ==> r == Err(BadRequest(URL_REQUIRED))
    ensures !IsFalsy(targetUrl) && parse(targetUrl.value).None? ==> r == Err(BadRequest(URL_MALFORMED))
    ensures !IsFalsy(targetUrl) && parse(targetUrl.value).Some? && !IsWebProtocol(parse(targetUrl.value).value)
            ==> r == Err(BadRequest(URL_BAD_PROTOCOL))
    ensures r.Ok? <==> !IsFalsy(targetUrl) && parse(targetUrl.value).Some? && IsWebProtocol(parse(targetUrl.value).value)
    ensures r.Ok? ==> r.value == targetUrl.value
    ensures r.Err? ==> r.error.Status() == 400
  {
    if IsFalsy(targetUrl) then Err(BadRequest(URL_REQUIRED))
    else
      match parse(targetUrl.value)
      case None => Err(BadRequest(URL_MALFORMED))
      case Some(protocol) =>
        if !IsWebProtocol(protocol) then Err(BadRequest(URL_BAD_PROTOCOL))
        else Ok(targetUrl.value)
  }

  /** validateCustomCode: None stands for the source's `null` ("no custom code
      given"). */
  function ValidateCustomCode(customCode: Option<string>): (r: Result<Option<string>>)
    ensures IsFalsy(customCode) ==> r == Ok(None)
    ensures !IsFalsy(customCode) && !IsCode(customCode.value) ==> r == Err(BadRequest(CODE_MALFORMED))
    ensures r.Ok? && r.value.Some? <==> !IsFalsy(customCode) && IsCode(customCode.value)
    ensures r.Ok? && r.value.Some? ==> r.value == customCode
  {
    if IsFalsy(customCode) then Ok(None)
    else if !IsCode(customCode.value) then Err(BadRequest(CODE_MALFORMED))
    else Ok(customCode)
  }

  /** A URL the validator accepted is accepted again, unchanged: the
      validator normalises nothing. */
  lemma TargetUrlIdempotent(targetUrl: Option<string>, parse: ProtocolParser)
    requires ValidateTargetUrl(targetUrl, parse).Ok?
    ensures ValidateTargetUrl(Some(ValidateTargetUrl(targetUrl, parse).value), parse) == ValidateTargetUrl(targetUrl, parse)
  {
  }

  /** A custom code the validator accepted passes CODE_REGEX and is accepted
      again as itself: there is no case folding or other normalisation. */
  lemma CustomCodeIdempotent(customCode: Option<string>)
    requires ValidateCustomCode(customCode).Ok? && ValidateCustomCode(customCode).value.Some?
    ensures IsCode(ValidateCustomCode(customCode).value.value)
    ensures ValidateCustomCode(ValidateCustomCode(customCode).value) == ValidateCustomCode(customCode)
  {
  }

  /** An ftp URL is refused with 400, whatever else it contains. */
  lemma FtpUrlRejected(url: string, parse: ProtocolParser)
    requires url != "" && parse(url) == Some("ftp:")
    ensures ValidateTargetUrl(Some(url), parse) == Err(BadRequest(URL_BAD_PROTOCOL))
  {
  }
}
