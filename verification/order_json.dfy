/** OrdenarJSON: takes a document as JSON text or as a mapping, sorts its
    top-level keys by their rank in the priority table, writes the members
    in that order into a buffer, encoding each key and value, and returns
    the buffer pretty-printed. Other inputs, text that does not parse and
    values the encoder refuses end in an error and an empty text. */
module OrderJson {
  import opened JsonValue
  import opened JsonDecode
  import opened JsonRoundTrip
  import opened JsonIndent
  import opened FieldOrder
  import opened RankSort

  /** What the engine accepts: JSON text, a mapping from keys to values
      (its members in the order the mapping is iterated), or a value of any
      other type, named by its type. */
  datatype Input = Text(text: string) | Mapping(fields: seq<Field>) | Other(typeName: string)

  /** Why the engine fails: the text is not a JSON object, the input has
      a type it does not accept, or the encoder refuses a value. */
  datatype Error = ParseError | UnsupportedInput(typeName: string) | EncodingError(typeName: string)

  datatype Outcome = Ok(text: string) | Failed(error: Error)

  /** The value stored under `key`. */
  function ValueOf(fields: seq<Field>, key: string): (v: JValue)
    requires key in Keys(fields)
    ensures Field(key, v) in fields
    decreases |fields|
  {
    if fields[0].key == key then fields[0].value
    else
      assert key in Keys(fields[1..]) by {
        var i :| 0 <= i < |fields| && Keys(fields)[i] == key;
        assert Keys(fields[1..])[i - 1] == key;
      }
      ValueOf(fields[1..], key)
  }

  /** The members for `keys`, in that order, each with its stored value. */
  function Pick(keys: seq<string>, fields: seq<Field>): (r: seq<Field>)
    requires forall k :: k in keys ==> k in Keys(fields)
    ensures |r| == |keys|
    ensures forall i :: 0 <= i < |keys| ==> r[i].key == keys[i] && r[i] in fields
  {
    seq(|keys|, i requires 0 <= i < |keys| => Field(keys[i], ValueOf(fields, keys[i])))
  }

  /** Every sorted key is a key of the document. */
  lemma SortedKeysPresent(fields: seq<Field>)
    ensures forall k :: k in SortBy(Keys(fields), RankOf) ==> k in Keys(fields)
  {
    var keys := SortBy(Keys(fields), RankOf);
    SortByPermutes(Keys(fields), RankOf);
    forall k | k in keys
      ensures k in Keys(fields)
    {
      assert k in multiset(keys);
    }
  }

  /** The members of a document in output order: its keys sorted by rank,
      each with its value. */
  function OrderedFields(fields: seq<Field>): (r: seq<Field>)
    ensures |r| == |fields|
    ensures Keys(r) == SortBy(Keys(fields), RankOf)
    ensures forall f :: f in r ==> f in fields
  {
    var keys := SortBy(Keys(fields), RankOf);
    SortedKeysPresent(fields);
    Pick(keys, fields)
  }

  /** The document an input stands for: the parsed text, the mapping
      itself, or none for text that does not parse and for other types. */
  function Document(input: Input, parse: string -> Option<seq<Field>>): Option<seq<Field>>
  {
    match input
    case Text(t) => parse(t)
    case Mapping(fields) => Some(fields)
    case Other(_) => None
  }

  /** The output for a document whose members are already in order: the
      first value the encoder refuses ends in an error; otherwise the
      pretty-printed object. */
  function Render(ordered: seq<Field>): Outcome
  {
    match UnsupportedMembers(ordered)
    case Some(t) => Failed(EncodingError(t))
    case None => Ok(Indent(Emit(JObject(ordered))))
  }

  /** What OrdenarJSON returns for an input, as a reference for the method. */
  function OrderJsonSpec(input: Input, parse: string -> Option<seq<Field>>): Outcome
  {
    match input
    case Other(t) => Failed(UnsupportedInput(t))
    case Text(t) =>
      (match parse(t)
       case None => Failed(ParseError)
       case Some(fields) => Render(OrderedFields(fields)))
    case Mapping(fields) => Render(OrderedFields(fields))
  }

  /** The key slice: every key of the document, in iteration order. */
  method CollectKeys(fields: seq<Field>) returns (keys: array<string>)
    ensures fresh(keys)
    ensures keys[..] == Keys(fields)
  {
    keys := new string[|fields|];
    var i := 0;
    while i < |fields|
      invariant 0 <= i <= |fields|
      invariant forall k :: 0 <= k < i ==> keys[k] == fields[k].key
    {
      keys[i] := fields[i].key;
      i := i + 1;
    }
  }

  /** The buffer loop: an opening brace, then for each key a comma before
      every member but the first, the encoded key, a colon and the encoded
      value, then a closing brace. It stops at the first value the encoder
      refuses and reports that value's type. */
  method WriteMembers(keys: array<string>, fields: seq<Field>) returns (buf: string, refused: Option<string>)
    requires forall k :: k in keys[..] ==> k in Keys(fields)
    ensures refused == UnsupportedMembers(Pick(keys[..], fields))
    ensures refused.None? ==> buf == Emit(JObject(Pick(keys[..], fields)))
  {
    ghost var members := Pick(keys[..], fields);
    buf := "{";
    var i := 0;
    while i < keys.Length
      invariant 0 <= i <= keys.Length
      invariant UnsupportedMembers(members[..i]).None?
      invariant buf == "{" + EmitMembers(members[..i])
    {
      ghost var before := buf;
      ghost var sep: string := if i > 0 then "," else "";
      if i > 0 {
        buf := buf + ",";
      } else {
        assert buf == before + sep;
      }
      var key := keys[i];
      buf := buf + Quote(key) + ":";
      var value := ValueOf(fields, key);
      assert members[i] == Field(key, value);
      var encoded := Marshal(value);
      SliceSnoc(members, i);
      UnsupportedMembersSnoc(members[..i], members[i]);
      if encoded.Unencodable? {
        UnsupportedMembersPrefix(members, i + 1);
        return "", Some(encoded.typeName);
      }
      assert Unsupported(members[i].value).None?;
      assert UnsupportedMembers(members[..i + 1]).None?;
      AppendMember(members[..i], members[i], before, sep);
      buf := buf + encoded.text;
      assert buf == before + sep + Quote(members[i].key) + ":" + Emit(members[i].value);
      assert buf == "{" + EmitMembers(members[..i + 1]);
      i := i + 1;
    }
    assert members[..i] == members;
    buf := buf + "}";
    refused := None;
  }

  lemma SliceSnoc(s: seq<Field>, i: nat)
    requires i < |s|
    ensures s[..i + 1] == s[..i] + [s[i]]
  {
  }

  /** One turn of the buffer loop: the separator, the encoded key, a colon
      and the encoded value extend the text of the members before. */
  lemma AppendMember(prefix: seq<Field>, f: Field, buf: string, sep: string)
    requires forall i :: 0 <= i < |prefix| ==> Encodable(prefix[i].value)
    requires Encodable(f.value)
    requires buf == "{" + EmitMembers(prefix)
    requires sep == if prefix == [] then "" else ","
    ensures buf + sep + Quote(f.key) + ":" + Emit(f.value) == "{" + EmitMembers(prefix + [f])
  {
    EmitMembersSnoc(prefix, f);
    var open: string, colon: string := "{", ":";
    Regroup6(open, EmitMembers(prefix), sep, Quote(f.key), colon, Emit(f.value));
  }

  lemma Regroup6(a: string, b: string, c: string, d: string, e: string, f: string)
    ensures a + b + c + d + e + f == a + (b + c + (d + e + f))
  {
  }

  /** OrdenarJSON. `ranks` is the map `init` builds; `parse` stands for the
      library's JSON decoder into a mapping. A Go map never holds a key
      twice, so neither a mapping given directly nor one the decoder
      returns repeats a key. The text returned is the reference output,
      and "" whenever an error is returned. */
  method OrderJSON(ranks: map<string, nat>, input: Input, parse: string -> Option<seq<Field>>)
    returns (text: string, err: Option<Error>)
    requires IndexesLastOccurrence(ranks, PriorityFields)
    requires input.Mapping? ==> DistinctKeys(input.fields)
    requires forall t :: parse(t).Some? ==> DistinctKeys(parse(t).value)
    ensures err.Some? ==> text == ""
    ensures input.Other? ==> err == Some(UnsupportedInput(input.typeName))
    ensures input.Text? && parse(input.text).None? ==> err == Some(ParseError)
    ensures (if err.None? then Ok(text) else Failed(err.value)) == OrderJsonSpec(input, parse)
  {
    var fields: seq<Field>;
    match input {
      case Text(t) =>
        var parsed := parse(t);
        if parsed.None? {
          return "", Some(ParseError);
        }
        fields := parsed.value;
      case Mapping(m) =>
        fields := m;
      case Other(name) =>
        return "", Some(UnsupportedInput(name));
    }
    assert Document(input, parse) == Some(fields);
    var keys := CollectKeys(fields);
    LookupIsRank(ranks);
    SortKeysByRank(ranks, keys, RankOf);
    SortedKeysPresent(fields);
    assert Pick(keys[..], fields) == OrderedFields(fields);
    var buf, refused := WriteMembers(keys, fields);
    if refused.Some? {
      return "", Some(EncodingError(refused.value));
    }
    text := Indent(buf);
    err := None;
  }
}
