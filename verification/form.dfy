/** The console's form-field validators and the `toNumber` normaliser.
    A validator gets the field's value and answers either "no error"
    (`false` in the console) or the key of an error message. The address
    and host patterns are regular expressions defined elsewhere in the
    console; the model takes them as predicates. */
module Form {
  import opened Js

  /** The verdict of a validator. */
  datatype Verdict = Ok | Error(token: string)

  /** The patterns `R_IPV4`, `R_IPV6`, `R_MAC` and `R_HOST`, as whether
      `RegExp.test` accepts a text. */
  datatype Patterns = Patterns(
    ipv4: string -> bool,
    ipv6: string -> bool,
    mac: string -> bool,
    host: string -> bool)

  /** `value || value === 0`: a value the user has entered; the number 0
      counts although it is falsy. */
  predicate Present(v: Value) {
    Truthy(v) || v == Num(0)
  }

  /** The port range the console allows. */
  const MinPort := 80
  const MaxPort := 65535

  /** `value < 80 || value > 65535`, with JavaScript's comparison: a value
      that converts to NaN is in no relation and so is not out of range. */
  predicate OutOfRange(v: Value) {
    Less(v, MinPort) || Greater(v, MaxPort)
  }

  function Required(v: Value): (r: Verdict)
    ensures r.Ok? <==> Present(v)
    ensures r.Error? ==> r.token == "form_error_required"
  {
    if Present(v) then Ok else Error("form_error_required")
  }

  /** A pattern check that lets an empty field through. */
  function Format(v: Value, accepts: bool, token: string): (r: Verdict)
    ensures r.Error? <==> Truthy(v) && !accepts
    ensures r.Error? ==> r.token == token
  {
    if Truthy(v) && !accepts then Error(token) else Ok
  }

  function Ipv4(p: Patterns, v: Value): (r: Verdict)
    ensures !Truthy(v) ==> r.Ok?
    ensures r.Error? <==> Truthy(v) && !p.ipv4(ToString(v))
  {
    Format(v, p.ipv4(ToString(v)), "form_error_ip4_format")
  }

  function Ipv6(p: Patterns, v: Value): (r: Verdict)
    ensures !Truthy(v) ==> r.Ok?
    ensures r.Error? <==> Truthy(v) && !p.ipv6(ToString(v))
  {
    Format(v, p.ipv6(ToString(v)), "form_error_ip6_format")
  }

  function Ip(p: Patterns, v: Value): (r: Verdict)
    ensures !Truthy(v) ==> r.Ok?
    ensures r.Error? <==> Truthy(v) && !p.ipv4(ToString(v)) && !p.ipv6(ToString(v))
    ensures r.Error? ==> r.token == "form_error_ip_format"
  {
    Format(v, p.ipv4(ToString(v)) || p.ipv6(ToString(v)), "form_error_ip_format")
  }

  function Mac(p: Patterns, v: Value): (r: Verdict)
    ensures !Truthy(v) ==> r.Ok?
    ensures r.Error? <==> Truthy(v) && !p.mac(ToString(v))
  {
    Format(v, p.mac(ToString(v)), "form_error_mac_format")
  }

  function Domain(p: Patterns, v: Value): (r: Verdict)
    ensures !Truthy(v) ==> r.Ok?
    ensures r.Error? <==> Truthy(v) && !p.host(ToString(v))
  {
    Format(v, p.host(ToString(v)), "form_error_domain_format")
  }

  /** The answer of a DNS rewrite: an IPv4 or IPv6 address or a host name. */
  function Answer(p: Patterns, v: Value): (r: Verdict)
    ensures !Truthy(v) ==> r.Ok?
    ensures r.Error? <==> Truthy(v) && !p.ipv4(ToString(v)) && !p.ipv6(ToString(v)) && !p.host(ToString(v))
    ensures r.Error? ==> r.token == "form_error_answer_format"
  {
    var t := ToString(v);
    Format(v, p.ipv4(t) || p.ipv6(t) || p.host(t), "form_error_answer_format")
  }

  /** Rejects an entered value that converts to a number that is not
      positive; a value that converts to NaN passes. */
  function IsPositive(v: Value): (r: Verdict)
    ensures r.Error? <==> Present(v) && ToNumber(v).Finite? && ToNumber(v).n <= 0
    ensures ToNumber(v).NotANumber? ==> r.Ok?
    ensures r.Error? ==> r.token == "form_error_positive"
  {
    if Present(v) && AtMost(v, 0) then Error("form_error_positive") else Ok
  }

  /** Rejects exactly the values that convert to a negative number; no
      presence test, since nothing absent converts below 0. */
  function BiggerOrEqualZero(v: Value): (r: Verdict)
    ensures r.Error? <==> ToNumber(v).Finite? && ToNumber(v).n < 0
    ensures r.Error? ==> r.token == "form_error_negative"
  {
    if Less(v, 0) then Error("form_error_negative") else Ok
  }

  /** Rejects an entered value that converts to a number outside
      80..65535. */
  function Port(v: Value): (r: Verdict)
    ensures r.Error? <==> Present(v) && ToNumber(v).Finite? && !(MinPort <= ToNumber(v).n <= MaxPort)
    ensures r.Error? ==> r.token == "form_error_port_range"
  {
    if Present(v) && OutOfRange(v) then Error("form_error_port_range") else Ok
  }

  /** The TLS ports may be 0, which turns the listener off. */
  function PortTLS(v: Value): (r: Verdict)
    ensures v == Num(0) ==> r.Ok?
    ensures r.Error? <==> v != Num(0) && Truthy(v) && ToNumber(v).Finite? && !(MinPort <= ToNumber(v).n <= MaxPort)
    ensures r.Error? ==> r.token == "form_error_port_range"
  {
    if v == Num(0) then Ok
    else if Truthy(v) && OutOfRange(v) then Error("form_error_port_range")
    else Ok
  }

  /** `UNSAFE_PORTS.includes(value)`: the list is numbers, and `includes`
      compares without conversion, so only a number can match. The list
      itself is a parameter. */
  function IsSafePort(unsafe: seq<int>, v: Value): (r: Verdict)
    ensures r.Error? <==> v.Num? && v.n in unsafe
    ensures r.Error? ==> r.token == "form_error_port_unsafe"
  {
    if exists i :: 0 <= i < |unsafe| && v == Num(unsafe[i]) then Error("form_error_port_unsafe") else Ok
  }

  /** `toNumber`: a falsy value unchanged, anything else through
      `parseInt(value, 10)`. */
  function ToNumberField(v: Value): (r: Value)
    ensures !Truthy(v) ==> r == v
    ensures Truthy(v) ==> r.Num? || r.NaN?
  {
    if Truthy(v) then ParseInt(ToString(v)) else v
  }

  // ---------------------------------------------------------------------------
  // The validators against each other

  /** `ip` accepts exactly what `ipv4` or `ipv6` accepts. */
  lemma IpIsEither(p: Patterns, v: Value)
    ensures Ip(p, v).Ok? <==> Ipv4(p, v).Ok? || Ipv6(p, v).Ok?
  {
  }

  /** `answer` accepts exactly what `ip` or `domain` accepts. */
  lemma AnswerIsEither(p: Patterns, v: Value)
    ensures Answer(p, v).Ok? <==> Ip(p, v).Ok? || Domain(p, v).Ok?
  {
  }

  /** `portTLS` accepts what `port` accepts, and 0 besides. */
  lemma PortTLSExtendsPort(v: Value)
    ensures PortTLS(v).Ok? <==> Port(v).Ok? || v == Num(0)
    ensures Port(Num(0)).Error?
  {
  }

  /** An accepted port is positive, and a positive value is not negative. */
  lemma PortIsPositive(v: Value)
    ensures Port(v).Ok? ==> IsPositive(v).Ok?
    ensures IsPositive(v).Ok? ==> BiggerOrEqualZero(v).Ok?
  {
  }

  /** On numbers the validators are the ranges they name. */
  lemma NumberRanges(n: int)
    ensures Required(Num(n)).Ok?
    ensures IsPositive(Num(n)).Ok? <==> n > 0
    ensures BiggerOrEqualZero(Num(n)).Ok? <==> n >= 0
    ensures Port(Num(n)).Ok? <==> MinPort <= n <= MaxPort
    ensures PortTLS(Num(n)).Ok? <==> n == 0 || MinPort <= n <= MaxPort
  {
  }

  /** A port typed as text is judged like the number the text converts
      to... */
  lemma TextLikeNumber(t: string, n: int)
    requires t != "" && ToNumber(Str(t)) == Finite(n)
    ensures Port(Str(t)) == Port(Num(n))
    ensures IsPositive(Str(t)) == IsPositive(Num(n))
    ensures BiggerOrEqualZero(Str(t)) == BiggerOrEqualZero(Num(n))
    ensures n != 0 ==> PortTLS(Str(t)) == PortTLS(Num(n))
  {
  }

  /** ...and the decimal text of every integer converts to it... */
  lemma DecimalTextLikeNumber(n: int)
    ensures Port(Str(IntToString(n))) == Port(Num(n))
    ensures IsPositive(Str(IntToString(n))) == IsPositive(Num(n))
    ensures n != 0 ==> PortTLS(Str(IntToString(n))) == PortTLS(Num(n))
  {
    StringToNumberRoundTrip(n);
    TextLikeNumber(IntToString(n), n);
  }

  /** ...except that `portTLS` rejects the text "0" while it accepts the
      number 0. */
  lemma ZeroTextIsNotZero()
    ensures PortTLS(Str("0")).Error? && PortTLS(Num(0)).Ok?
  {
    StringToNumberRoundTrip(0);
    assert IntToString(0) == "0";
  }

  /** Only a listed number is unsafe; its text is not. */
  lemma SafePortExact(unsafe: seq<int>, n: int)
    ensures IsSafePort(unsafe, Num(n)).Error? <==> n in unsafe
    ensures IsSafePort(unsafe, Str(IntToString(n))).Ok?
  {
    if n in unsafe {
      var i :| 0 <= i < |unsafe| && unsafe[i] == n;
    }
  }

  /** `toNumber` keeps every number and reads back the text of every
      integer. */
  lemma ToNumberKeeps(n: int)
    ensures ToNumberField(Num(n)) == Num(n)
    ensures ToNumberField(Str(IntToString(n))) == Num(n)
  {
    ParseIntRoundTrip(n);
  }

  /** Normalising twice is normalising once. */
  lemma ToNumberIdempotent(v: Value)
    ensures ToNumberField(ToNumberField(v)) == ToNumberField(v)
  {
    var r := ToNumberField(v);
    if Truthy(r) {
      ParseIntRoundTrip(r.n);
    }
  }
}
