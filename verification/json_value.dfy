/** JSON values as the ordering engine handles them, and the generic value
    encoder that OrdenarJSON calls for every key and every value
    (encoding/json's Marshal): compact text, strings escaped as section 7
    of RFC 8259 allows, objects as in section 4, arrays as in section 5. */
module JsonValue {

  datatype Option<+T> = None | Some(value: T)

  /** Characters that may occur in a number token. */
  predicate IsNumberChar(c: char) {
    '0' <= c <= '9' || c == '-' || c == '+' || c == '.' || c == 'e' || c == 'E'
  }

  /** A number is carried as the text the encoder writes for it; it starts
      like a JSON number and is made of number characters only. */
  predicate IsNumberToken(t: string) {
    && |t| > 0
    && ('0' <= t[0] <= '9' || t[0] == '-')
    && forall i :: 0 <= i < |t| ==> IsNumberChar(t[i])
  }

  type NumberToken = t: string | IsNumberToken(t) witness "0"

  /** A value that can sit in the engine's input mapping. `JUnsupported`
      stands for a Go value the encoder refuses (a function, a channel, a
      NaN or infinite float), named by its type. */
  datatype JValue =
    | JNull
    | JBool(b: bool)
    | JNumber(token: NumberToken)
    | JString(s: string)
    | JArray(items: seq<JValue>)
    | JObject(fields: seq<Field>)
    | JUnsupported(typeName: string)

  /** One member of an object: a key and its value. */
  datatype Field = Field(key: string, value: JValue)

  /** The keys of a member sequence, in order. */
  function Keys(fields: seq<Field>): (ks: seq<string>)
    ensures |ks| == |fields|
    ensures forall i :: 0 <= i < |fields| ==> ks[i] == fields[i].key
  {
    seq(|fields|, i requires 0 <= i < |fields| => fields[i].key)
  }

  /** Object semantics: no key occurs twice. */
  predicate DistinctKeys(fields: seq<Field>) {
    forall i, j :: 0 <= i < j < |fields| ==> fields[i].key != fields[j].key
  }

  /** True when the encoder accepts the value: nothing unsupported inside. */
  predicate Encodable(v: JValue)
    decreases v
  {
    match v
    case JUnsupported(_) => false
    case JArray(items) => forall i :: 0 <= i < |items| ==> Encodable(items[i])
    case JObject(fields) => forall i :: 0 <= i < |fields| ==> Encodable(fields[i].value)
    case _ => true
  }

  /** The type of the first value the encoder refuses, in the order it
      writes them; none exactly when the value is encodable. */
  function Unsupported(v: JValue): (r: Option<string>)
    ensures r.None? <==> Encodable(v)
    decreases v, 1
  {
    match v
    case JUnsupported(t) => Some(t)
    case JArray(items) => UnsupportedItems(items)
    case JObject(fields) => UnsupportedMembers(fields)
    case _ => None
  }

  function UnsupportedItems(items: seq<JValue>): (r: Option<string>)
    ensures r.None? <==> forall i :: 0 <= i < |items| ==> Encodable(items[i])
    decreases items, 0
  {
    if items == [] then None
    else
      match Unsupported(items[0])
      case Some(t) => Some(t)
      case None => UnsupportedItems(items[1..])
  }

  function UnsupportedMembers(fields: seq<Field>): (r: Option<string>)
    ensures r.None? <==> forall i :: 0 <= i < |fields| ==> Encodable(fields[i].value)
    decreases fields, 0
  {
    if fields == [] then None
    else
      match Unsupported(fields[0].value)
      case Some(t) => Some(t)
      case None => UnsupportedMembers(fields[1..])
  }

  /** The first refusal among the members of a sequence with one more
      member: the earlier one if there is one, else the new member's. */
  lemma {:induction false} UnsupportedMembersSnoc(fields: seq<Field>, f: Field)
    ensures UnsupportedMembers(fields + [f])
            == if UnsupportedMembers(fields).Some? then UnsupportedMembers(fields) else Unsupported(f.value)
    decreases |fields|
  {
    if fields == [] {
      assert [] + [f] == [f];
      assert [f][1..] == [];
    } else {
      assert (fields + [f])[1..] == fields[1..] + [f];
      UnsupportedMembersSnoc(fields[1..], f);
    }
  }

  /** A refusal among the first `n` members is the first refusal of all. */
  lemma {:induction false} UnsupportedMembersPrefix(fields: seq<Field>, n: nat)
    requires n <= |fields|
    requires UnsupportedMembers(fields[..n]).Some?
    ensures UnsupportedMembers(fields) == UnsupportedMembers(fields[..n])
    decreases n
  {
    assert fields[..n][1..] == fields[1..][..n - 1];
    if Unsupported(fields[0].value).None? {
      UnsupportedMembersPrefix(fields[1..], n - 1);
    }
  }

  /** The lower-case hexadecimal digit the encoder writes for `d`. */
  function HexDigit(d: int): (c: char)
    requires 0 <= d < 16
    ensures '0' <= c <= '9' || 'a' <= c <= 'f'
  {
    "0123456789abcdef"[d]
  }

  /** The four hexadecimal digits of a `\u` escape, most significant first. */
  function Hex4(n: int): (h: string)
    requires 0 <= n < 0x1_0000
    ensures |h| == 4
  {
    [HexDigit(n / 16 / 16 / 16), HexDigit(n / 16 / 16 % 16), HexDigit(n / 16 % 16), HexDigit(n % 16)]
  }

  /** Characters written as a `\u00XX`-style escape: the control characters
      without a short form, and the HTML-sensitive `<`, `>`, `&`, U+2028 and
      U+2029. */
  predicate NeedsUnicodeEscape(c: char) {
    c < ' ' || c == '<' || c == '>' || c == '&' || c == '\U{2028}' || c == '\U{2029}'
  }

  /** The text the encoder writes for one character of a string. */
  function EscapeChar(c: char): (e: string)
    ensures |e| > 0
    ensures e[0] == '\\' <==> (c == '"' || c == '\\' || NeedsUnicodeEscape(c))
  {
    if c == '"' then "\\\""
    else if c == '\\' then "\\\\"
    else if c == '\n' then "\\n"
    else if c == '\r' then "\\r"
    else if c == '\t' then "\\t"
    else if NeedsUnicodeEscape(c) then "\\u" + Hex4(c as int)
    else [c]
  }

  /** The body of an encoded string: every character escaped. */
  function Escape(s: string): string
  {
    if s == [] then [] else EscapeChar(s[0]) + Escape(s[1..])
  }

  /** A string as the encoder writes it, between double quotes. */
  function Quote(s: string): string
  {
    "\"" + Escape(s) + "\""
  }

  /** Compact encoding of an encodable value. */
  function Emit(v: JValue): string
    requires Encodable(v)
    decreases v
  {
    match v
    case JNull => "null"
    case JBool(b) => if b then "true" else "false"
    case JNumber(t) => t
    case JString(s) => Quote(s)
    case JArray(items) => "[" + EmitItems(items) + "]"
    case JObject(fields) => "{" + EmitMembers(fields) + "}"
  }

  /** Array elements separated by commas. */
  function EmitItems(items: seq<JValue>): string
    requires forall i :: 0 <= i < |items| ==> Encodable(items[i])
    decreases items
  {
    if items == [] then ""
    else if |items| == 1 then Emit(items[0])
    else Emit(items[0]) + "," + EmitItems(items[1..])
  }

  /** One object member: encoded key, colon, encoded value. */
  function EmitMember(f: Field): string
    requires Encodable(f.value)
  {
    Quote(f.key) + ":" + Emit(f.value)
  }

  /** Object members separated by commas, no trailing comma. */
  function EmitMembers(fields: seq<Field>): string
    requires forall i :: 0 <= i < |fields| ==> Encodable(fields[i].value)
    decreases fields
  {
    if fields == [] then ""
    else if |fields| == 1 then EmitMember(fields[0])
    else EmitMember(fields[0]) + "," + EmitMembers(fields[1..])
  }

  /** The outcome of encoding one value. */
  datatype Encoded = Encoded(text: string) | Unencodable(typeName: string)

  /** json.Marshal: the compact text of an encodable value, or the type of
      the first value it refuses. */
  function Marshal(v: JValue): (r: Encoded)
    ensures r.Encoded? <==> Encodable(v)
    ensures r.Encoded? ==> r.text == Emit(v)
    ensures r.Unencodable? ==> Unsupported(v) == Some(r.typeName)
  {
    match Unsupported(v)
    case Some(t) => Unencodable(t)
    case None => Encoded(Emit(v))
  }

  /** Appending one member to the text of the members before it: what the
      engine's buffer loop relies on. */
  lemma {:induction false} EmitMembersSnoc(fields: seq<Field>, f: Field)
    requires forall i :: 0 <= i < |fields| ==> Encodable(fields[i].value)
    requires Encodable(f.value)
    ensures EmitMembers(fields + [f])
            == EmitMembers(fields) + (if fields == [] then "" else ",") + EmitMember(f)
    decreases |fields|
  {
    if |fields| == 0 {
      assert fields + [f] == [f];
    } else if |fields| == 1 {
      assert (fields + [f])[1..] == [f];
    } else {
      assert (fields + [f])[1..] == fields[1..] + [f];
      EmitMembersSnoc(fields[1..], f);
      var first, comma, rest, last := EmitMember(fields[0]), ",", EmitMembers(fields[1..]), EmitMember(f);
      assert EmitMembers(fields + [f]) == first + comma + (rest + comma + last);
      assert EmitMembers(fields) == first + comma + rest;
      RegroupLastThree(first, comma, rest, comma, last);
    }
  }

  /** Regrouping a concatenation of five strings. */
  lemma RegroupLastThree(a: string, b: string, c: string, d: string, e: string)
    ensures a + b + (c + d + e) == a + b + c + d + e
  {
  }
}
