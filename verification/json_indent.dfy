/** The pretty-printing pass the engine applies last (encoding/json's Indent
    with an empty prefix and a two-space indent), character by character as
    the library scans its input, and its partner: removing the white space
    that sits outside string literals (what the library's Compact does).
    Indenting only adds or drops such white space, so stripping the indented
    text gives back the stripped input, and the compact text the encoder
    writes is unchanged by stripping. */
module JsonIndent {
  import opened JsonValue

  /** Where a scan of JSON text stands with respect to string literals. */
  datatype Lexical = Lexical(inString: bool, escaped: bool)

  const Outside: Lexical := Lexical(false, false)
  const InString: Lexical := Lexical(true, false)

  /** The white space JSON allows between tokens. */
  predicate IsSpace(c: char) {
    c == ' ' || c == '\t' || c == '\n' || c == '\r'
  }

  /** The lexical state after one more character. */
  function Next(c: char, l: Lexical): Lexical {
    if !l.inString then (if c == '"' then InString else l)
    else if l.escaped then InString
    else if c == '\\' then Lexical(true, true)
    else if c == '"' then Outside
    else l
  }

  /** The lexical state after a whole text. */
  function After(t: string, l: Lexical): Lexical
    decreases |t|
  {
    if t == [] then l else After(t[1..], Next(t[0], l))
  }

  /** The text from state `l` with every white-space character outside
      string literals removed. */
  function StripFrom(t: string, l: Lexical): (r: string)
    ensures |r| <= |t|
    decreases |t|
  {
    if t == [] then []
    else (if !l.inString && IsSpace(t[0]) then [] else [t[0]]) + StripFrom(t[1..], Next(t[0], l))
  }

  /** A whole text with the white space between its tokens removed. */
  function Strip(t: string): string {
    StripFrom(t, Outside)
  }

  /** A line break followed by two spaces per level of depth (none for a
      depth below one). */
  function Newline(depth: int): (r: string)
    ensures |r| > 0 && r[0] == '\n'
    ensures forall i :: 0 <= i < |r| ==> IsSpace(r[i])
    decreases if depth > 0 then depth else 0
  {
    if depth <= 0 then "\n" else Newline(depth - 1) + "  "
  }

  /** The indenter's state: the lexical state, the nesting depth, and
      whether an opening bracket still waits for its line break (delayed so
      that an empty object or array stays `{}` or `[]`). */
  datatype Layout = Layout(lex: Lexical, depth: int, needIndent: bool)

  const Start: Layout := Layout(Outside, 0, false)

  /** What the indenter writes for one input character, and its next state.
      Inside a string every character is copied; outside, white space is
      dropped, `,` is followed by a line break, `:` by a space, a closing
      bracket goes on a line of its own unless its container is empty. A
      pending line break is only ever set outside strings. */
  function IndentChar(c: char, s: Layout): (string, Layout) {
    var lex := Next(c, s.lex);
    if s.lex.inString then ([c], s.(lex := lex))
    else if IsSpace(c) then ([], s)
    else if c == '}' || c == ']' then
      if s.needIndent then ([c], Layout(lex, s.depth, false))
      else (Newline(s.depth - 1) + [c], Layout(lex, s.depth - 1, false))
    else
      var d := if s.needIndent then s.depth + 1 else s.depth;
      var pre := if s.needIndent then Newline(d) else [];
      if c == '{' || c == '[' then (pre + [c], Layout(lex, d, true))
      else if c == ',' then (pre + [c] + Newline(d), Layout(lex, d, false))
      else if c == ':' then (pre + [c, ' '], Layout(lex, d, false))
      else (pre + [c], Layout(lex, d, false))
  }

  function IndentFrom(t: string, s: Layout): string
    decreases |t|
  {
    if t == [] then []
    else
      var step := IndentChar(t[0], s);
      step.0 + IndentFrom(t[1..], step.1)
  }

  /** The indented form of a text. */
  function Indent(t: string): string {
    IndentFrom(t, Start)
  }

  /** White space outside strings is dropped and leaves the state alone. */
  lemma {:induction false} StripSpaces(w: string, l: Lexical)
    requires !l.inString
    requires forall i :: 0 <= i < |w| ==> IsSpace(w[i])
    ensures StripFrom(w, l) == []
    ensures After(w, l) == l
    decreases |w|
  {
    if w != [] {
      StripSpaces(w[1..], l);
    }
  }

  /** Stripping a concatenation: the second part is scanned from the state
      the first part leaves. */
  lemma {:induction false} StripConcat(a: string, b: string, l: Lexical)
    ensures StripFrom(a + b, l) == StripFrom(a, l) + StripFrom(b, After(a, l))
    ensures After(a + b, l) == After(b, After(a, l))
    decreases |a|
  {
    if a == [] {
      assert a + b == b;
    } else {
      assert (a + b)[1..] == a[1..] + b;
      StripConcat(a[1..], b, Next(a[0], l));
    }
  }

  /** One character: what the indenter writes for it strips to what the
      character itself strips to, and leaves the same lexical state. */
  lemma IndentCharStrip(c: char, s: Layout)
    ensures StripFrom(IndentChar(c, s).0, s.lex) == StripFrom([c], s.lex)
    ensures After(IndentChar(c, s).0, s.lex) == IndentChar(c, s).1.lex
    ensures IndentChar(c, s).1.lex == Next(c, s.lex)
  {
    var out := IndentChar(c, s).0;
    var l := s.lex;
    assert [c][1..] == [];
    if !l.inString && !IsSpace(c) {
      // out is: white space, then c, then white space.
      var d := if s.needIndent then s.depth + 1 else s.depth;
      var pre: string :=
        if c == '}' || c == ']' then (if s.needIndent then [] else Newline(s.depth - 1))
        else if s.needIndent then Newline(d) else [];
      var post: string :=
        if c == '}' || c == ']' || c == '{' || c == '[' then []
        else if c == ',' then Newline(d)
        else if c == ':' then " "
        else [];
      assert out == pre + ([c] + post);
      Framed(pre, c, post, l);
    }
  }

  /** A character outside strings with white space around it strips to
      itself, and the scan ends where the character leaves it. */
  lemma Framed(pre: string, c: char, post: string, l: Lexical)
    requires !l.inString && !IsSpace(c)
    requires forall i :: 0 <= i < |pre| ==> IsSpace(pre[i])
    requires forall i :: 0 <= i < |post| ==> IsSpace(post[i])
    requires c == '"' ==> post == []
    ensures StripFrom(pre + ([c] + post), l) == [c] == StripFrom([c], l)
    ensures After(pre + ([c] + post), l) == Next(c, l)
  {
    assert [c][1..] == [];
    StripSpaces(pre, l);
    StripConcat(pre, [c] + post, l);
    StripConcat([c], post, l);
    if c == '"' {
      assert [c] + post == [c];
    } else {
      StripSpaces(post, Next(c, l));
    }
  }

  /** Indenting changes nothing but white space outside strings. */
  lemma {:induction false} IndentFromStrip(t: string, s: Layout)
    ensures StripFrom(IndentFrom(t, s), s.lex) == StripFrom(t, s.lex)
    decreases |t|
  {
    if t != [] {
      var c, rest, l := t[0], t[1..], s.lex;
      var step := IndentChar(c, s);
      var tail := IndentFrom(rest, step.1);
      assert IndentFrom(t, s) == step.0 + tail;
      IndentCharStrip(c, s);
      IndentFromStrip(rest, step.1);
      StripConcat(step.0, tail, l);
      assert t == [c] + rest;
      StripConcat([c], rest, l);
      assert [c][1..] == [];
      assert After([c], l) == Next(c, l) == step.1.lex;
    }
  }

  /** Stripping the indented text gives the stripped input. */
  lemma IndentStrip(t: string)
    ensures Strip(Indent(t)) == Strip(t)
  {
    IndentFromStrip(t, Start);
  }

  /** The body of an encoded string scans as string content: nothing is
      stripped and the scan is still inside the string, not after a
      backslash. */
  lemma {:induction false} EscapeStrip(s: string)
    ensures StripFrom(Escape(s), InString) == Escape(s)
    ensures After(Escape(s), InString) == InString
    decreases |s|
  {
    if s != [] {
      var e := EscapeChar(s[0]);
      EscapeStrip(s[1..]);
      StripConcat(e, Escape(s[1..]), InString);
      EscapeCharStrip(s[0]);
    }
  }

  lemma EscapeCharStrip(c: char)
    ensures StripFrom(EscapeChar(c), InString) == EscapeChar(c)
    ensures After(EscapeChar(c), InString) == InString
  {
    if c == '"' || c == '\\' || c == '\n' || c == '\r' || c == '\t' {
      EscapedStrip(EscapeChar(c)[1], []);
      assert EscapeChar(c) == ['\\', EscapeChar(c)[1]] + [];
    } else if NeedsUnicodeEscape(c) {
      var h := Hex4(c as int);
      EscapedStrip('u', h);
      assert EscapeChar(c) == ['\\', 'u'] + h;
    }
  }

  /** A backslash, the character it escapes, and plain content after it. */
  lemma EscapedStrip(x: char, tail: string)
    requires forall i :: 0 <= i < |tail| ==> tail[i] != '"' && tail[i] != '\\'
    ensures StripFrom(['\\', x] + tail, InString) == ['\\', x] + tail
    ensures After(['\\', x] + tail, InString) == InString
  {
    var pair: string := ['\\', x];
    var escaping := Lexical(true, true);
    assert pair[1..] == [x] && [x][1..] == [];
    assert StripFrom([x], escaping) == [x];
    assert After([x], escaping) == InString;
    assert StripFrom(pair, InString) == pair;
    assert After(pair, InString) == InString;
    PlainStrip(tail);
    StripConcat(pair, tail, InString);
  }

  /** Characters that are neither a quote nor a backslash scan as plain
      string content. */
  lemma {:induction false} PlainStrip(t: string)
    requires forall i :: 0 <= i < |t| ==> t[i] != '"' && t[i] != '\\'
    ensures StripFrom(t, InString) == t
    ensures After(t, InString) == InString
    decreases |t|
  {
    if t != [] {
      PlainStrip(t[1..]);
    }
  }

  /** An encoded string is left as it is and scans back to outside. */
  lemma QuoteStrip(s: string)
    ensures StripFrom(Quote(s), Outside) == Quote(s)
    ensures After(Quote(s), Outside) == Outside
  {
    EscapeStrip(s);
    StripConcat("\"", Escape(s) + "\"", Outside);
    StripConcat(Escape(s), "\"", InString);
    assert Quote(s) == "\"" + (Escape(s) + "\"");
  }

  /** Text without quotes or white space is left as it is. */
  lemma {:induction false} TokenStrip(t: string)
    requires forall i :: 0 <= i < |t| ==> t[i] != '"' && !IsSpace(t[i])
    ensures StripFrom(t, Outside) == t
    ensures After(t, Outside) == Outside
    decreases |t|
  {
    if t != [] {
      TokenStrip(t[1..]);
    }
  }

  /** Stripping two consecutive compact pieces. */
  lemma CompactConcat(a: string, b: string)
    requires StripFrom(a, Outside) == a && After(a, Outside) == Outside
    requires StripFrom(b, Outside) == b && After(b, Outside) == Outside
    ensures StripFrom(a + b, Outside) == a + b
    ensures After(a + b, Outside) == Outside
  {
    StripConcat(a, b, Outside);
  }

  /** The compact text the encoder writes has no white space between its
      tokens and ends outside any string. */
  lemma {:induction false} EmitStrip(v: JValue)
    requires Encodable(v)
    ensures StripFrom(Emit(v), Outside) == Emit(v)
    ensures After(Emit(v), Outside) == Outside
    decreases v, 1
  {
    match v
    case JNull => TokenStrip("null");
    case JBool(b) => TokenStrip(if b then "true" else "false");
    case JNumber(t) => TokenStrip(t);
    case JString(s) => QuoteStrip(s);
    case JArray(items) =>
      TokenStrip("[");
      TokenStrip("]");
      ItemsStrip(items);
      CompactConcat("[", EmitItems(items));
      CompactConcat("[" + EmitItems(items), "]");
    case JObject(fields) =>
      TokenStrip("{");
      TokenStrip("}");
      MembersStrip(fields);
      CompactConcat("{", EmitMembers(fields));
      CompactConcat("{" + EmitMembers(fields), "}");
  }

  lemma {:induction false} ItemsStrip(items: seq<JValue>)
    requires forall i :: 0 <= i < |items| ==> Encodable(items[i])
    ensures StripFrom(EmitItems(items), Outside) == EmitItems(items)
    ensures After(EmitItems(items), Outside) == Outside
    decreases items, 0
  {
    if items == [] {
    } else if |items| == 1 {
      EmitStrip(items[0]);
    } else {
      EmitStrip(items[0]);
      ItemsStrip(items[1..]);
      TokenStrip(",");
      CompactConcat(Emit(items[0]), ",");
      CompactConcat(Emit(items[0]) + ",", EmitItems(items[1..]));
    }
  }

  lemma {:induction false} MemberStrip(f: Field)
    requires Encodable(f.value)
    ensures StripFrom(EmitMember(f), Outside) == EmitMember(f)
    ensures After(EmitMember(f), Outside) == Outside
    decreases f, 0
  {
    QuoteStrip(f.key);
    TokenStrip(":");
    EmitStrip(f.value);
    CompactConcat(Quote(f.key), ":");
    CompactConcat(Quote(f.key) + ":", Emit(f.value));
  }

  lemma {:induction false} MembersStrip(fields: seq<Field>)
    requires forall i :: 0 <= i < |fields| ==> Encodable(fields[i].value)
    ensures StripFrom(EmitMembers(fields), Outside) == EmitMembers(fields)
    ensures After(EmitMembers(fields), Outside) == Outside
    decreases fields, 0
  {
    if fields == [] {
    } else if |fields| == 1 {
      MemberStrip(fields[0]);
    } else {
      MemberStrip(fields[0]);
      MembersStrip(fields[1..]);
      TokenStrip(",");
      CompactConcat(EmitMember(fields[0]), ",");
      CompactConcat(EmitMember(fields[0]) + ",", EmitMembers(fields[1..]));
    }
  }

  /** Stripping the indented form of an encoded value gives back the compact
      encoding. */
  lemma IndentEmitStrip(v: JValue)
    requires Encodable(v)
    ensures Strip(Indent(Emit(v))) == Emit(v)
  {
    IndentStrip(Emit(v));
    EmitStrip(v);
  }
}
