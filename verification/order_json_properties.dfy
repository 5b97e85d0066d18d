/** What OrdenarJSON guarantees about its output, stated on the reference
    definition the method is proved against: the output reads back as the
    input's members in rank order; keys of the table come first, in table
    order, other keys after them; the output fails exactly when a value
    cannot be encoded; and for documents whose keys are all in the table
    the output does not depend on the order the mapping is iterated in. */
module OrderJsonProperties {
  import opened JsonValue
  import opened JsonDecode
  import opened JsonRoundTrip
  import opened JsonIndent
  import opened FieldOrder
  import opened RankSort
  import opened OrderJson

  lemma DistinctKeysOf(fields: seq<Field>)
    ensures DistinctKeys(fields) <==> Distinct(Keys(fields))
  {
  }

  /** With distinct keys a key determines its member. */
  lemma SameKeySameMember(fields: seq<Field>, f: Field, g: Field)
    requires DistinctKeys(fields)
    requires f in fields && g in fields && f.key == g.key
    ensures f == g
  {
    var i :| 0 <= i < |fields| && fields[i] == f;
    var j :| 0 <= j < |fields| && fields[j] == g;
    assert fields[i].key == fields[j].key;
  }

  /** The keys of the output are the keys of the input, rearranged into the
      order of the priority table: table keys first in table order, then the
      other keys in the order the mapping yields them. */
  lemma OrderedKeyOrder(fields: seq<Field>)
    requires DistinctKeys(fields)
    ensures KeyOrder(Keys(fields), Keys(OrderedFields(fields)), RankOf, Unranked)
  {
    SortedKeyOrder(Keys(fields));
  }

  /** The output holds exactly the members of the input: every key with the
      value it had, nothing added, nothing lost. */
  lemma OrderedFieldsMembers(fields: seq<Field>)
    requires DistinctKeys(fields)
    ensures forall f :: f in OrderedFields(fields) <==> f in fields
  {
    var ordered := OrderedFields(fields);
    forall f | f in fields
      ensures f in ordered
    {
      var i :| 0 <= i < |fields| && fields[i] == f;
      assert Keys(fields)[i] == f.key;
      SortByPermutes(Keys(fields), RankOf);
      assert f.key in multiset(Keys(ordered));
      var j :| 0 <= j < |ordered| && Keys(ordered)[j] == f.key;
      SameKeySameMember(fields, ordered[j], f);
    }
  }

  /** A successful output, with the white space between its tokens removed,
      decodes to the object holding the input's members in output order. */
  lemma OutputDecodes(input: Input, parse: string -> Option<seq<Field>>, text: string)
    requires OrderJsonSpec(input, parse) == Ok(text)
    ensures Document(input, parse).Some?
    ensures Decode(Strip(text)) == Some(JObject(OrderedFields(Document(input, parse).value)))
  {
    var ordered := OrderedFields(Document(input, parse).value);
    assert UnsupportedMembers(ordered).None?;
    assert text == Indent(Emit(JObject(ordered)));
    IndentEmitStrip(JObject(ordered));
    DecodeEmit(JObject(ordered));
  }

  /** A document is written out exactly when the encoder accepts every one
      of its values; otherwise the error names the type of the first value
      refused in output order. */
  lemma SucceedsExactlyWhenEncodable(input: Input, parse: string -> Option<seq<Field>>)
    requires Document(input, parse).Some?
    requires DistinctKeys(Document(input, parse).value)
    ensures OrderJsonSpec(input, parse).Ok? <==>
              forall f :: f in Document(input, parse).value ==> Encodable(f.value)
    ensures OrderJsonSpec(input, parse).Failed? ==>
              OrderJsonSpec(input, parse).error
              == EncodingError(UnsupportedMembers(OrderedFields(Document(input, parse).value)).value)
  {
    SpecRenders(input, parse);
    RenderSucceedsExactly(Document(input, parse).value);
  }

  /** The rendering of a document's members in output order succeeds
      exactly when every value can be encoded. */
  lemma RenderSucceedsExactly(fields: seq<Field>)
    requires DistinctKeys(fields)
    ensures Render(OrderedFields(fields)).Ok? <==> forall f :: f in fields ==> Encodable(f.value)
    ensures Render(OrderedFields(fields)).Failed? ==>
              Render(OrderedFields(fields)).error == EncodingError(UnsupportedMembers(OrderedFields(fields)).value)
  {
    var ordered := OrderedFields(fields);
    OrderedFieldsMembers(fields);
    if forall f :: f in fields ==> Encodable(f.value) {
      forall i | 0 <= i < |ordered|
        ensures Encodable(ordered[i].value)
      {
        assert ordered[i] in fields;
      }
    } else {
      var f :| f in fields && !Encodable(f.value);
      var i :| 0 <= i < |ordered| && ordered[i] == f;
      assert !Encodable(ordered[i].value);
    }
  }

  /** For an input that stands for a document, the output is that
      document's members rendered in output order. */
  lemma SpecRenders(input: Input, parse: string -> Option<seq<Field>>)
    requires Document(input, parse).Some?
    ensures OrderJsonSpec(input, parse) == Render(OrderedFields(Document(input, parse).value))
  {
  }

  /** The sort has only one possible result whenever the keys can be put
      in strictly increasing rank, as they can when every key is in the
      table: that arrangement. */
  lemma SortedIsUnique(s: seq<string>, t: seq<string>)
    requires multiset(t) == multiset(s)
    requires StrictlyRanked(t, RankOf)
    ensures SortBy(s, RankOf) == t
  {
    SortedIsUniqueBy(s, t, RankOf);
  }

  /** Documents with the same members have the same keys. */
  lemma SameMembersSameKeys(f1: seq<Field>, f2: seq<Field>)
    requires forall f :: f in f1 <==> f in f2
    ensures forall x :: x in Keys(f1) <==> x in Keys(f2)
  {
    forall x
      ensures x in Keys(f1) <==> x in Keys(f2)
    {
      if x in Keys(f1) {
        var i :| 0 <= i < |f1| && Keys(f1)[i] == x;
        assert f1[i] in f2;
        var j :| 0 <= j < |f2| && f2[j] == f1[i];
        assert Keys(f2)[j] == x;
      }
      if x in Keys(f2) {
        var j :| 0 <= j < |f2| && Keys(f2)[j] == x;
        assert f2[j] in f1;
        var i :| 0 <= i < |f1| && f1[i] == f2[j];
        assert Keys(f1)[i] == x;
      }
    }
  }

  /** With all keys in the table, documents with the same members sort
      their keys alike. */
  lemma SameKeyOrder(f1: seq<Field>, f2: seq<Field>)
    requires DistinctKeys(f1) && DistinctKeys(f2)
    requires forall f :: f in f1 <==> f in f2
    requires forall i :: 0 <= i < |f1| ==> f1[i].key in PriorityFields
    ensures SortBy(Keys(f1), RankOf) == SortBy(Keys(f2), RankOf)
  {
    var k1, k2 := Keys(f1), Keys(f2);
    SameMembersSameKeys(f1, f2);
    DistinctKeysOf(f1);
    DistinctKeysOf(f2);
    TableStrictlyRanked();
    SameSortByTable(PriorityFields, k1, k2, RankOf);
  }

  /** When every key is in the table, the output does not depend on the
      order in which the mapping yields its members. */
  lemma OrderIndependent(f1: seq<Field>, f2: seq<Field>)
    requires DistinctKeys(f1) && DistinctKeys(f2)
    requires forall f :: f in f1 <==> f in f2
    requires forall i :: 0 <= i < |f1| ==> f1[i].key in PriorityFields
    ensures OrderedFields(f1) == OrderedFields(f2)
  {
    SameKeyOrder(f1, f2);
    var o1, o2 := OrderedFields(f1), OrderedFields(f2);
    forall i | 0 <= i < |o1|
      ensures o1[i] == o2[i]
    {
      assert Keys(o1)[i] == Keys(o2)[i];
      assert o1[i] in f1 && o2[i] in f2;
      SameKeySameMember(f1, o1[i], o2[i]);
    }
  }

  /** A document with no members, given as text or as a mapping, is
      written as `{}`. */
  lemma EmptyDocument(input: Input, parse: string -> Option<seq<Field>>)
    requires Document(input, parse) == Some([])
    ensures OrderJsonSpec(input, parse) == Ok("{}")
  {
    assert OrderedFields([]) == [];
    assert Emit(JObject([])) == "{}";
    var s1 := IndentChar('{', Start);
    assert [] + ['{'] == "{";
    assert s1 == ("{", Layout(Outside, 0, true));
    assert IndentChar('}', s1.1) == ("}", Layout(Outside, 0, false));
    assert "{}"[1..] == "}";
    assert Indent("{}") == "{}";
  }

  /** The table's names come in strictly increasing rank. */
  lemma TableStrictlyRanked()
    ensures StrictlyRanked(PriorityFields, RankOf)
  {
    forall i, j | 0 <= i < j < |PriorityFields|
      ensures RankOf(PriorityFields[i]) < RankOf(PriorityFields[j])
    {
      RankOfListed(i);
      RankOfListed(j);
    }
  }

  /** Distinct keys that are all in the table come out as the table itself
      with the absent names left out. */
  lemma TableKeysInTableOrder(s: seq<string>)
    requires Distinct(s)
    requires forall i :: 0 <= i < |s| ==> s[i] in PriorityFields
    ensures SortBy(s, RankOf) == Present(PriorityFields, s)
  {
    TableStrictlyRanked();
    PresentIsSorted(PriorityFields, s, RankOf);
  }
}
