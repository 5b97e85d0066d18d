/** Decoding undoes encoding. For strings this is the promise of section 7
    of RFC 8259 that every escape the encoder writes names the character it
    replaced; for whole values it says that an encoded value keeps its kind
    (a number stays a number, `true` and `null` stay literals) and its
    contents. */
module JsonRoundTrip {
  import opened JsonValue
  import opened JsonDecode

  /** Text that may follow a complete value inside an array or object. */
  predicate Delimited(rest: string) {
    rest == [] || rest[0] == ',' || rest[0] == ']' || rest[0] == '}'
  }

  lemma HexDigitValue(d: int)
    requires 0 <= d < 16
    ensures HexValue(HexDigit(d)) == Some(d)
  {
  }

  /** The four digits of a `\u` escape read back as the code they encode. */
  lemma Hex4RoundTrip(n: int)
    requires 0 <= n < 0x1_0000
    ensures Hex4Value(Hex4(n)) == Some(n)
  {
    var h := Hex4(n);
    HexDigitValue(n / 16 / 16 / 16);
    HexDigitValue(n / 16 / 16 % 16);
    HexDigitValue(n / 16 % 16);
    HexDigitValue(n % 16);
    assert n / 16 / 16 == 16 * (n / 16 / 16 / 16) + n / 16 / 16 % 16;
    assert n / 16 == 16 * (n / 16 / 16) + n / 16 % 16;
    assert n == 16 * (n / 16) + n % 16;
  }

  /** The escape written for a character that needs one reads back as that
      character. */
  lemma EscapeRoundTrip(c: char, t: string)
    requires c == '"' || c == '\\' || NeedsUnicodeEscape(c)
    ensures DecodeEscape(EscapeChar(c)[1..] + t) == Some(Parsed(c, t))
  {
    if c == '"' || c == '\\' || c == '\n' || c == '\r' || c == '\t' {
      ShortEscapeRoundTrip(c, t);
    } else {
      UnicodeEscapeRoundTrip(c, t);
    }
  }

  /** The two-character escapes: quote, backslash, newline, return, tab. */
  lemma ShortEscapeRoundTrip(c: char, t: string)
    requires c == '"' || c == '\\' || c == '\n' || c == '\r' || c == '\t'
    ensures DecodeEscape(EscapeChar(c)[1..] + t) == Some(Parsed(c, t))
  {
    var e := EscapeChar(c);
    assert |e| == 2;
    DropHead(e[1..], t);
  }

  /** The `\u` escapes of the other characters the encoder escapes. */
  lemma UnicodeEscapeRoundTrip(c: char, t: string)
    requires NeedsUnicodeEscape(c)
    requires c != '\n' && c != '\r' && c != '\t'
    ensures DecodeEscape(EscapeChar(c)[1..] + t) == Some(Parsed(c, t))
  {
    var n := c as int;
    var u: string := "u";
    var h := Hex4(n);
    assert EscapeChar(c)[1..] == u + h by {
      assert EscapeChar(c) == "\\" + (u + h);
    }
    assert (u + h + t)[1..5] == h && (u + h + t)[5..] == t;
    Hex4RoundTrip(n);
    DecodeUnicodeAt(u + h + t, n);
  }

  /** How the decoder reads a `\u` escape outside the surrogate range. */
  lemma DecodeUnicodeAt(s: string, n: int)
    requires |s| >= 5 && s[0] == 'u'
    requires Hex4Value(s[1..5]) == Some(n)
    requires n < 0xD800
    ensures DecodeEscape(s) == Some(Parsed(n as char, s[5..]))
  {
  }

  /** Decoding one encoded character in front of text that itself decodes. */
  lemma EscapeCharStep(c: char, t: string)
    requires DecodeStringBody(t).Some?
    ensures DecodeStringBody(EscapeChar(c) + t)
            == Some(Parsed([c] + DecodeStringBody(t).value.value, DecodeStringBody(t).value.rest))
  {
    var e := EscapeChar(c);
    var s := e + t;
    if c == '"' || c == '\\' || NeedsUnicodeEscape(c) {
      DropHead(e, t);
      EscapeRoundTrip(c, t);
      EscapedStep(s, c, t);
    } else {
      assert e == [c];
      DropHead(e, t);
      PlainStep(s, t);
    }
  }

  /** Text with its first character removed. */
  lemma DropHead(e: string, t: string)
    requires e != []
    ensures (e + t)[0] == e[0] && (e + t)[1..] == e[1..] + t
  {
  }

  /** How the decoder reads a backslash escape inside a string. */
  lemma EscapedStep(s: string, c: char, t: string)
    requires s != [] && s[0] == '\\'
    requires DecodeEscape(s[1..]) == Some(Parsed(c, t))
    requires DecodeStringBody(t).Some?
    ensures DecodeStringBody(s)
            == Some(Parsed([c] + DecodeStringBody(t).value.value, DecodeStringBody(t).value.rest))
  {
  }

  /** How the decoder reads a character that stands for itself. */
  lemma PlainStep(s: string, t: string)
    requires s != [] && s[0] != '"' && s[0] != '\\' && s[0] >= ' '
    requires s[1..] == t
    requires DecodeStringBody(t).Some?
    ensures DecodeStringBody(s)
            == Some(Parsed([s[0]] + DecodeStringBody(t).value.value, DecodeStringBody(t).value.rest))
  {
  }

  /** An escaped string body followed by its closing quote reads back as
      the original string, whatever text comes after. */
  lemma {:induction false} StringBodyRoundTrip(s: string, rest: string)
    ensures DecodeStringBody(Escape(s) + "\"" + rest) == Some(Parsed(s, rest))
    decreases |s|
  {
    if s == [] {
      assert Escape(s) + "\"" + rest == "\"" + rest;
    } else {
      var t := Escape(s[1..]) + "\"" + rest;
      assert Escape(s) + "\"" + rest == EscapeChar(s[0]) + t;
      StringBodyRoundTrip(s[1..], rest);
      EscapeCharStep(s[0], t);
      assert [s[0]] + s[1..] == s;
    }
  }

  /** An encoded string, quotes included, reads back as the original. */
  lemma QuoteRoundTrip(s: string, rest: string)
    ensures DecodeValue(Quote(s) + rest) == Some(Parsed(JString(s), rest))
  {
    var text := Quote(s) + rest;
    assert text[0] == '"';
    assert text[1..] == Escape(s) + "\"" + rest;
    StringBodyRoundTrip(s, rest);
  }

  lemma {:induction false} NumberRunOf(t: string, rest: string)
    requires forall i :: 0 <= i < |t| ==> IsNumberChar(t[i])
    requires Delimited(rest)
    ensures NumberRun(t + rest) == |t|
    decreases |t|
  {
    if t == [] {
      assert t + rest == rest;
    } else {
      assert (t + rest)[1..] == t[1..] + rest;
      NumberRunOf(t[1..], rest);
    }
  }

  /** The first character of an encoded value is never a closing bracket or
      brace, so an empty array or object is told apart from a non-empty one. */
  lemma EmitStart(v: JValue)
    requires Encodable(v)
    ensures |Emit(v)| > 0 && Emit(v)[0] != ']' && Emit(v)[0] != '}'
  {
  }

  lemma LiteralRoundTrip(v: JValue, rest: string)
    requires v.JNull? || v.JBool?
    ensures DecodeValue(Emit(v) + rest) == Some(Parsed(v, rest))
  {
    var text := Emit(v) + rest;
    if v.JNull? {
      assert text[0] == 'n' && text[..4] == "null" && text[4..] == rest;
    } else if v.b {
      assert text[0] == 't' && text[..4] == "true" && text[4..] == rest;
    } else {
      assert text[0] == 'f' && text[..5] == "false" && text[5..] == rest;
    }
  }

  lemma NumberRoundTrip(t: NumberToken, rest: string)
    requires Delimited(rest)
    ensures DecodeValue(t + rest) == Some(Parsed(JNumber(t), rest))
  {
    var text := t + rest;
    assert text[0] == t[0];
    NumberRunOf(t, rest);
    assert text[..|t|] == t && text[|t|..] == rest;
  }

  /** Every encodable value reads back as itself, with the text after it
      left over. */
  lemma {:induction false} ValueRoundTrip(v: JValue, rest: string)
    requires Encodable(v)
    requires Delimited(rest)
    ensures DecodeValue(Emit(v) + rest) == Some(Parsed(v, rest))
    decreases v, 0
  {
    match v
    case JNull => LiteralRoundTrip(v, rest);
    case JBool(_) => LiteralRoundTrip(v, rest);
    case JNumber(t) => NumberRoundTrip(t, rest);
    case JString(s) => QuoteRoundTrip(s, rest);
    case JArray(items) =>
      ArrayBodyRoundTrip(items, rest);
      ArrayStep(items, rest);
    case JObject(fields) =>
      ObjectBodyRoundTrip(fields, rest);
      ObjectStep(fields, rest);
  }

  lemma ArrayStep(items: seq<JValue>, rest: string)
    requires forall i :: 0 <= i < |items| ==> Encodable(items[i])
    requires DecodeArrayBody(EmitItems(items) + "]" + rest) == Some(Parsed(items, rest))
    ensures DecodeValue(Emit(JArray(items)) + rest) == Some(Parsed(JArray(items), rest))
  {
    var open: string := "[";
    var body := EmitItems(items);
    var close: string := "]";
    assert Emit(JArray(items)) == open + body + close;
    Regroup4(open, body, close, rest);
    OpenedBy(open, body + close + rest);
    DecodeArrayAt(open + (body + close + rest), items, rest);
  }

  lemma ObjectStep(fields: seq<Field>, rest: string)
    requires forall i :: 0 <= i < |fields| ==> Encodable(fields[i].value)
    requires DecodeObjectBody(EmitMembers(fields) + "}" + rest) == Some(Parsed(fields, rest))
    ensures DecodeValue(Emit(JObject(fields)) + rest) == Some(Parsed(JObject(fields), rest))
  {
    var open: string := "{";
    var body := EmitMembers(fields);
    var close: string := "}";
    assert Emit(JObject(fields)) == open + body + close;
    Regroup4(open, body, close, rest);
    OpenedBy(open, body + close + rest);
    DecodeObjectAt(open + (body + close + rest), fields, rest);
  }

  lemma Regroup4(a: string, b: string, c: string, d: string)
    ensures a + b + c + d == a + (b + c + d)
  {
  }

  /** A one-character opener followed by text. */
  lemma OpenedBy(open: string, body: string)
    requires |open| == 1
    ensures (open + body)[0] == open[0] && (open + body)[1..] == body
  {
  }

  /** How the decoder reads an array value. */
  lemma DecodeArrayAt(s: string, items: seq<JValue>, rest: string)
    requires s != [] && s[0] == '['
    requires DecodeArrayBody(s[1..]) == Some(Parsed(items, rest))
    ensures DecodeValue(s) == Some(Parsed(JArray(items), rest))
  {
  }

  /** How the decoder reads an object value. */
  lemma DecodeObjectAt(s: string, fields: seq<Field>, rest: string)
    requires s != [] && s[0] == '{'
    requires DecodeObjectBody(s[1..]) == Some(Parsed(fields, rest))
    ensures DecodeValue(s) == Some(Parsed(JObject(fields), rest))
  {
  }

  lemma {:induction false} ArrayBodyRoundTrip(items: seq<JValue>, rest: string)
    requires forall i :: 0 <= i < |items| ==> Encodable(items[i])
    ensures DecodeArrayBody(EmitItems(items) + "]" + rest) == Some(Parsed(items, rest))
    decreases items, 2
  {
    if items == [] {
      assert EmitItems(items) + "]" + rest == "]" + rest;
    } else {
      EmitStart(items[0]);
      ElementsRoundTrip(items, rest);
    }
  }

  lemma {:induction false} ElementsRoundTrip(items: seq<JValue>, rest: string)
    requires |items| >= 1
    requires forall i :: 0 <= i < |items| ==> Encodable(items[i])
    ensures DecodeElements(EmitItems(items) + "]" + rest) == Some(Parsed(items, rest))
    decreases items, 1
  {
    if |items| == 1 {
      assert EmitItems(items) + "]" + rest == Emit(items[0]) + ("]" + rest);
      ValueRoundTrip(items[0], "]" + rest);
      assert ("]" + rest)[1..] == rest;
      assert items == [items[0]];
    } else {
      var tail := EmitItems(items[1..]) + "]" + rest;
      assert EmitItems(items) + "]" + rest == Emit(items[0]) + ("," + tail);
      ValueRoundTrip(items[0], "," + tail);
      assert ("," + tail)[1..] == tail;
      ElementsRoundTrip(items[1..], rest);
      assert [items[0]] + items[1..] == items;
    }
  }

  lemma {:induction false} ObjectBodyRoundTrip(fields: seq<Field>, rest: string)
    requires forall i :: 0 <= i < |fields| ==> Encodable(fields[i].value)
    ensures DecodeObjectBody(EmitMembers(fields) + "}" + rest) == Some(Parsed(fields, rest))
    decreases fields, 2
  {
    if fields == [] {
      assert EmitMembers(fields) + "}" + rest == "}" + rest;
    } else {
      MembersRoundTrip(fields, rest);
    }
  }

  /** One encoded member followed by `after` reads back as that member. */
  lemma {:induction false} MemberRoundTrip(f: Field, after: string)
    requires Encodable(f.value)
    requires Delimited(after)
    ensures DecodeStringBody((EmitMember(f) + after)[1..])
            == Some(Parsed(f.key, ":" + Emit(f.value) + after))
    ensures DecodeValue(Emit(f.value) + after) == Some(Parsed(f.value, after))
    decreases f, 0
  {
    var quote: string := "\"";
    var key := Escape(f.key);
    var colon: string := ":";
    var value := Emit(f.value);
    assert EmitMember(f) == quote + key + quote + colon + value;
    DropQuote(quote, key, colon, value, after);
    StringBodyRoundTrip(f.key, colon + value + after);
    ValueRoundTrip(f.value, after);
  }

  /** A member's text after its opening quote. */
  lemma DropQuote(quote: string, key: string, colon: string, value: string, after: string)
    requires |quote| == 1
    ensures (quote + key + quote + colon + value + after)[1..] == key + quote + (colon + value + after)
  {
    assert quote + key + quote + colon + value + after == quote + (key + quote + (colon + value + after));
  }

  /** How the decoder reads one member: key, colon, value, then either a
      comma and further members or the closing brace. */
  lemma DecodeMembersStep(s: string, k: Parsed<string>, p: Parsed<JValue>)
    requires s != [] && s[0] == '"'
    requires DecodeStringBody(s[1..]) == Some(k)
    requires k.rest != [] && k.rest[0] == ':'
    requires DecodeValue(k.rest[1..]) == Some(p)
    ensures p.rest != [] && p.rest[0] == '}' ==>
              DecodeMembers(s) == Some(Parsed([Field(k.value, p.value)], p.rest[1..]))
    ensures p.rest != [] && p.rest[0] == ',' && DecodeMembers(p.rest[1..]).Some? ==>
              var q := DecodeMembers(p.rest[1..]).value;
              DecodeMembers(s) == Some(Parsed([Field(k.value, p.value)] + q.value, q.rest))
  {
  }

  /** The text after the first member of an encoded member list. */
  function AfterFirst(fields: seq<Field>, rest: string): string
    requires |fields| >= 1
    requires forall i :: 0 <= i < |fields| ==> Encodable(fields[i].value)
  {
    if |fields| == 1 then "}" + rest else "," + (EmitMembers(fields[1..]) + "}" + rest)
  }

  /** An encoded member list is its first member followed by the rest. */
  lemma MembersSplit(fields: seq<Field>, rest: string)
    requires |fields| >= 1
    requires forall i :: 0 <= i < |fields| ==> Encodable(fields[i].value)
    ensures EmitMembers(fields) + "}" + rest == EmitMember(fields[0]) + AfterFirst(fields, rest)
    ensures Delimited(AfterFirst(fields, rest))
  {
    var m := EmitMember(fields[0]);
    var close: string := "}";
    if |fields| == 1 {
      assert EmitMembers(fields) == m;
      Regroup3(m, close, rest);
    } else {
      var comma: string := ",";
      var e := EmitMembers(fields[1..]);
      assert EmitMembers(fields) == m + comma + e;
      Regroup5(m, comma, e, close, rest);
    }
  }

  lemma Regroup3(a: string, b: string, c: string)
    ensures a + b + c == a + (b + c)
  {
  }

  lemma Regroup5(a: string, b: string, c: string, d: string, e: string)
    ensures a + b + c + d + e == a + (b + (c + d + e))
  {
  }

  /** Decoding a member list once its first member and the members after it
      are known to decode. */
  lemma MembersAssemble(fields: seq<Field>, rest: string)
    requires |fields| >= 1
    requires forall i :: 0 <= i < |fields| ==> Encodable(fields[i].value)
    requires DecodeStringBody((EmitMember(fields[0]) + AfterFirst(fields, rest))[1..])
             == Some(Parsed(fields[0].key, ":" + Emit(fields[0].value) + AfterFirst(fields, rest)))
    requires DecodeValue(Emit(fields[0].value) + AfterFirst(fields, rest))
             == Some(Parsed(fields[0].value, AfterFirst(fields, rest)))
    requires |fields| > 1 ==>
               DecodeMembers(EmitMembers(fields[1..]) + "}" + rest) == Some(Parsed(fields[1..], rest))
    ensures DecodeMembers(EmitMember(fields[0]) + AfterFirst(fields, rest)) == Some(Parsed(fields, rest))
  {
    var f := fields[0];
    var after := AfterFirst(fields, rest);
    var tail := if |fields| > 1 then fields[1..] else [];
    MemberStart(f);
    AfterFirstShape(fields, rest);
    AssembleAt(EmitMember(f), Emit(f.value), after, f, tail, rest);
    assert [f] + tail == fields;
  }

  /** The decoder reads a member list as its first member, whose text is
      `m` with value text `v`, followed by `after`: either a comma and the
      other members, or the closing brace. */
  lemma AssembleAt(m: string, v: string, after: string, f: Field, tail: seq<Field>, rest: string)
    requires m != [] && m[0] == '"'
    requires DecodeStringBody((m + after)[1..]) == Some(Parsed(f.key, ":" + v + after))
    requires DecodeValue(v + after) == Some(Parsed(f.value, after))
    requires after != [] && (after[0] == ',' || after[0] == '}')
    requires after[0] == ',' ==> DecodeMembers(after[1..]) == Some(Parsed(tail, rest))
    requires after[0] == '}' ==> after[1..] == rest && tail == []
    ensures DecodeMembers(m + after) == Some(Parsed([f] + tail, rest))
  {
    var colon: string := ":";
    DropHead(m, after);
    DropColon(colon, v, after);
    DecodeMembersStep(m + after, Parsed(f.key, colon + v + after), Parsed(f.value, after));
    if after[0] == '}' {
      assert [f] + tail == [f];
    }
  }

  /** An encoded member starts with the key's opening quote. */
  lemma MemberStart(f: Field)
    requires Encodable(f.value)
    ensures EmitMember(f) != [] && EmitMember(f)[0] == '"'
  {
    var quote: string := "\"";
    var key := Escape(f.key);
    var colon: string := ":";
    var value := Emit(f.value);
    assert EmitMember(f) == quote + (key + quote + colon + value);
  }

  /** The text after a member's colon. */
  lemma DropColon(colon: string, value: string, after: string)
    requires |colon| == 1
    ensures (colon + value + after)[1..] == value + after
  {
    assert colon + value + after == colon + (value + after);
  }

  /** What follows the first member: a comma and the other members, or the
      closing brace. */
  lemma AfterFirstShape(fields: seq<Field>, rest: string)
    requires |fields| >= 1
    requires forall i :: 0 <= i < |fields| ==> Encodable(fields[i].value)
    ensures AfterFirst(fields, rest) != []
    ensures |fields| > 1 ==>
              AfterFirst(fields, rest)[0] == ',' &&
              AfterFirst(fields, rest)[1..] == EmitMembers(fields[1..]) + "}" + rest
    ensures |fields| == 1 ==> AfterFirst(fields, rest)[0] == '}' && AfterFirst(fields, rest)[1..] == rest
  {
    if |fields| > 1 {
      DropHead(",", EmitMembers(fields[1..]) + "}" + rest);
    } else {
      DropHead("}", rest);
    }
  }

  lemma {:induction false} MembersRoundTrip(fields: seq<Field>, rest: string)
    requires |fields| >= 1
    requires forall i :: 0 <= i < |fields| ==> Encodable(fields[i].value)
    ensures DecodeMembers(EmitMembers(fields) + "}" + rest) == Some(Parsed(fields, rest))
    decreases fields, 1
  {
    MembersSplit(fields, rest);
    MemberRoundTrip(fields[0], AfterFirst(fields, rest));
    if |fields| > 1 {
      MembersRoundTrip(fields[1..], rest);
    }
    MembersAssemble(fields, rest);
  }

  /** A whole encoded value decodes to itself. */
  lemma DecodeEmit(v: JValue)
    requires Encodable(v)
    ensures Decode(Emit(v)) == Some(v)
  {
    assert Emit(v) + [] == Emit(v);
    ValueRoundTrip(v, []);
  }
}
