/** The message side of the relay: which fields a message must carry, how its
    `mode` becomes an integer, and the payload that is relayed. */
module Messages {
  import opened Protocol

  /** Python truthiness of an optional string field: present and non-empty. */
  predicate Truthy(f: Option<string>) {
    f.Some? && f.value != ""
  }

  /** Python truthiness of the `mode` field: present, and neither 0 nor "". */
  predicate ModeTruthy(f: Option<ModeField>) {
    f.Some? &&
    match f.value
    case ModeNumber(n) => n != 0
    case ModeText(s) => s != ""
  }

  /** The required fields `roomId`, `userId`, `name`, `result` and `mode` are all truthy. */
  predicate HasRequiredFields(msg: Message) {
    Truthy(msg.roomId) && Truthy(msg.userId) && Truthy(msg.name) &&
    Truthy(msg.result) && ModeTruthy(msg.mode)
  }

  predicate IsDigit(c: char) {
    '0' <= c <= '9'
  }

  predicate AllDigits(s: string) {
    forall i :: 0 <= i < |s| ==> IsDigit(s[i])
  }

  /** The value of a string of decimal digits, most significant first. */
  function DigitsValue(s: string): nat
    requires AllDigits(s)
  {
    if s == [] then 0
    else DigitsValue(s[..|s| - 1]) * 10 + (s[|s| - 1] as int - '0' as int)
  }

  /** `int(s)` on a string: an optional sign followed by decimal digits. */
  function ParseInt(s: string): Option<int> {
    if |s| > 1 && (s[0] == '-' || s[0] == '+') && AllDigits(s[1..]) then
      var magnitude: int := DigitsValue(s[1..]);
      Some(if s[0] == '-' then -magnitude else magnitude)
    else if |s| > 0 && AllDigits(s) then
      Some(DigitsValue(s))
    else
      None
  }

  /** The decimal digits of a natural number, without leading zeros. */
  function FormatNat(n: nat): string
  {
    if n < 10 then [('0' as int + n) as char]
    else FormatNat(n / 10) + [('0' as int + n % 10) as char]
  }

  /** The decimal form of an integer, with a `-` when it is negative. */
  function FormatInt(n: int): string {
    if n < 0 then "-" + FormatNat(-n) else FormatNat(n)
  }

  lemma {:induction false} FormatNatDigits(n: nat)
    ensures |FormatNat(n)| > 0 && AllDigits(FormatNat(n)) && DigitsValue(FormatNat(n)) == n
  {
    if n >= 10 {
      FormatNatDigits(n / 10);
      var s := FormatNat(n);
      assert s[..|s| - 1] == FormatNat(n / 10);
    }
  }

  /** Parsing the decimal form of any integer gives the integer back. */
  lemma ParseFormatRoundTrip(n: int)
    ensures ParseInt(FormatInt(n)) == Some(n)
  {
    if n < 0 {
      FormatNatDigits(-n);
      assert FormatInt(n)[1..] == FormatNat(-n);
    } else {
      FormatNatDigits(n);
    }
  }

  /** `int(mode)` on the decoded `mode` field; None where Python raises. */
  function ModeValue(f: ModeField): Option<int> {
    match f
    case ModeNumber(n) => Some(n)
    case ModeText(s) => ParseInt(s)
  }

  /** `int()` reads the decimal text of any integer back as that integer, so
      a mode sent as text has the same value as the number. */
  lemma ModeTextMatchesNumber(n: int)
    ensures ModeValue(ModeText(FormatInt(n))) == ModeValue(ModeNumber(n))
  {
    ParseFormatRoundTrip(n);
  }

  /** The JSON object relayed to every member of the room+mode. */
  datatype Payload = Payload(userId: string, name: string, operation: string, resultToken: string, result: string)

  /** The relayed payload: `resultToken` defaults to "" and `operation` to
      "register" when absent or empty; the other fields are copied. */
  function BuildPayload(msg: Message): Payload
    requires HasRequiredFields(msg)
  {
    Payload(
      msg.userId.value,
      msg.name.value,
      if Truthy(msg.operation) then msg.operation.value else "register",
      if Truthy(msg.resultToken) then msg.resultToken.value else "",
      msg.result.value)
  }

  /** The payload's defaults, for an absent field and for an empty one alike. */
  lemma PayloadDefaults(msg: Message)
    requires HasRequiredFields(msg)
    ensures msg.operation in {None, Some("")} ==> BuildPayload(msg).operation == "register"
    ensures msg.resultToken in {None, Some("")} ==> BuildPayload(msg).resultToken == ""
    ensures msg.operation.Some? && msg.operation.value != "" ==> BuildPayload(msg).operation == msg.operation.value
    ensures msg.resultToken.Some? ==> BuildPayload(msg).resultToken == msg.resultToken.value
    ensures BuildPayload(msg).userId == msg.userId.value && BuildPayload(msg).name == msg.name.value
    ensures BuildPayload(msg).result == msg.result.value
  {
  }
}
