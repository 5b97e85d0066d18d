/** The typed entry points of the engine. DocumentMetadata is the record of
    the seventeen metadata fields, each a string with a JSON tag; the
    engine lists its fields by reflection in declaration order, keeps those
    with a tag and a non-empty value as a mapping from tag to value, and
    orders that mapping. Because the tags are the priority table itself, in
    table order, the document comes out in declaration order with the empty
    fields left out, and it is always written. The map entry point hands a
    mapping straight to the engine. */
module Metadata {
  import opened JsonValue
  import opened JsonIndent
  import opened FieldOrder
  import opened RankSort
  import opened OrderJson
  import opened OrderJsonProperties

  datatype DocumentMetadata = DocumentMetadata(
    tipoDocumento: string,
    razonSocialCliente: string,
    rutCliente: string,
    estadoVisado: string,
    estadoVigencia: string,
    fechaCarga: string,
    nombreDoc: string,
    categorias: string,
    subCategorias: string,
    origen: string,
    relacion: string,
    fechaTerminoVigencia: string,
    cmTitle: string,
    cmVersionType: string,
    cmVersionLabel: string,
    cmDescription: string,
    observaciones: string)

  /** One field as reflection shows it: its JSON tag and its value. */
  datatype StructField = StructField(tag: string, value: string)

  /** The record's fields in declaration order, with their JSON tags. */
  function StructFields(md: DocumentMetadata): (r: seq<StructField>)
    ensures |r| == |PriorityFields|
  {
    [ StructField("tanner:tipo-documento", md.tipoDocumento),
      StructField("tanner:razon-social-cliente", md.razonSocialCliente),
      StructField("tanner:rut-cliente", md.rutCliente),
      StructField("tanner:estado-visado", md.estadoVisado),
      StructField("tanner:estado-vigencia", md.estadoVigencia),
      StructField("tanner:fecha-carga", md.fechaCarga),
      StructField("tanner:nombre-doc", md.nombreDoc),
      StructField("tanner:categorias", md.categorias),
      StructField("tanner:sub-categorias", md.subCategorias),
      StructField("tanner:origen", md.origen),
      StructField("tanner:relacion", md.relacion),
      StructField("tanner:fecha-termino-vigencia", md.fechaTerminoVigencia),
      StructField("cm:title", md.cmTitle),
      StructField("cm:versionType", md.cmVersionType),
      StructField("cm:versionLabel", md.cmVersionLabel),
      StructField("cm:description", md.cmDescription),
      StructField("tanner:observaciones", md.observaciones) ]
  }

  function Tags(fs: seq<StructField>): (r: seq<string>)
    ensures |r| == |fs|
    ensures forall i :: 0 <= i < |fs| ==> r[i] == fs[i].tag
  {
    seq(|fs|, i requires 0 <= i < |fs| => fs[i].tag)
  }

  /** The record's tags are the priority table, name for name. */
  lemma TagsAreTable(md: DocumentMetadata)
    ensures Tags(StructFields(md)) == PriorityFields
  {
  }

  /** True when the loop keeps the field: it has a tag and a value. */
  predicate Kept(f: StructField) {
    f.tag != "" && f.value != ""
  }

  /** The mapping the loop builds from `fs`: a string member per kept
      field, in the order the fields are visited. */
  function Filled(fs: seq<StructField>): (r: seq<Field>)
    ensures |r| <= |fs|
    ensures forall g :: g in r ==> g.value.JString? && g.value.s != "" && g.key != ""
  {
    if fs == [] then []
    else
      var last := fs[|fs| - 1];
      Filled(fs[..|fs| - 1]) + (if Kept(last) then [Field(last.tag, JString(last.value))] else [])
  }

  /** A member is in the mapping exactly when some kept field has its tag
      and, as a string, its value. */
  lemma {:induction false} FilledMembers(fs: seq<StructField>, g: Field)
    ensures g in Filled(fs) <==>
              exists i :: 0 <= i < |fs| && Kept(fs[i]) && g == Field(fs[i].tag, JString(fs[i].value))
  {
    if fs != [] {
      var n := |fs| - 1;
      var init := fs[..n];
      FilledMembers(init, g);
      if g in Filled(init) {
        var i :| 0 <= i < n && Kept(init[i]) && g == Field(init[i].tag, JString(init[i].value));
        assert fs[i] == init[i];
      }
      if exists i :: 0 <= i < |fs| && Kept(fs[i]) && g == Field(fs[i].tag, JString(fs[i].value)) {
        var i :| 0 <= i < |fs| && Kept(fs[i]) && g == Field(fs[i].tag, JString(fs[i].value));
        if i < n {
          assert init[i] == fs[i];
        }
      }
    }
  }

  /** The kept keys come in strictly increasing rank when the tags do. */
  lemma {:induction false} FilledStrictlyRanked(fs: seq<StructField>, rank: string -> nat)
    requires StrictlyRanked(Tags(fs), rank)
    ensures StrictlyRanked(Keys(Filled(fs)), rank)
  {
    if fs != [] {
      var n := |fs| - 1;
      var last := fs[n];
      assert StrictlyRanked(Tags(fs[..n]), rank) by {
        forall i, j | 0 <= i < j < n
          ensures rank(Tags(fs[..n])[i]) < rank(Tags(fs[..n])[j])
        {
          assert Tags(fs[..n])[i] == Tags(fs)[i] && Tags(fs[..n])[j] == Tags(fs)[j];
        }
      }
      FilledStrictlyRanked(fs[..n], rank);
      var before := Filled(fs[..n]);
      if Kept(last) {
        var ks := Keys(Filled(fs));
        forall i, j | 0 <= i < j < |ks|
          ensures rank(ks[i]) < rank(ks[j])
        {
          if j == |before| {
            FilledMembers(fs[..n], before[i]);
            var k :| 0 <= k < n && before[i] == Field(fs[..n][k].tag, JString(fs[..n][k].value));
            assert ks[i] == Tags(fs)[k] && ks[j] == Tags(fs)[n];
          } else {
            assert ks[i] == Keys(before)[i] && ks[j] == Keys(before)[j];
          }
        }
      } else {
        assert Filled(fs) == before;
      }
    }
  }

  /** The document of a record: its non-empty fields, keyed by tag. */
  function NonEmptyFields(md: DocumentMetadata): (r: seq<Field>)
    ensures |r| <= |PriorityFields|
  {
    Filled(StructFields(md))
  }

  /** The reflection loop of OrdenarDocumentoMetadata: visits the fields in
      declaration order, skips a field without a tag, and stores the value
      under the tag when it is not empty. The tags being distinct, storing
      into the mapping adds a member at its end. */
  method CollectNonEmpty(md: DocumentMetadata) returns (datos: seq<Field>)
    ensures datos == NonEmptyFields(md)
  {
    var fs := StructFields(md);
    datos := [];
    var i := 0;
    while i < |fs|
      invariant 0 <= i <= |fs|
      invariant datos == Filled(fs[..i])
    {
      var field := fs[i];
      assert fs[..i + 1][..i] == fs[..i];
      if field.tag != "" && field.value != "" {
        datos := datos + [Field(field.tag, JString(field.value))];
      }
      i := i + 1;
    }
    assert fs[..i] == fs;
  }

  /** A record's document has its keys in strictly increasing table rank,
      each key once. */
  lemma MetadataKeysRanked(md: DocumentMetadata)
    ensures StrictlyRanked(Keys(NonEmptyFields(md)), RankOf)
    ensures DistinctKeys(NonEmptyFields(md))
  {
    TagsAreTable(md);
    TableStrictlyRanked();
    FilledStrictlyRanked(StructFields(md), RankOf);
    StrictlyRankedDistinct(Keys(NonEmptyFields(md)), RankOf);
  }

  /** A record's document is already in output order: the engine keeps
      declaration order, without the empty fields. */
  lemma MetadataAlreadyOrdered(md: DocumentMetadata)
    ensures OrderedFields(NonEmptyFields(md)) == NonEmptyFields(md)
  {
    var fields := NonEmptyFields(md);
    var keys := Keys(fields);
    MetadataKeysRanked(md);
    SortedIsUnique(keys, keys);
    var ordered := OrderedFields(fields);
    forall i | 0 <= i < |fields|
      ensures ordered[i] == fields[i]
    {
      assert ordered[i].key == keys[i] == fields[i].key;
      assert ordered[i] in fields;
      SameKeySameMember(fields, ordered[i], fields[i]);
    }
  }

  /** The output for a record: never an error, always the record's
      non-empty fields in declaration order. */
  lemma MetadataAlwaysWritten(md: DocumentMetadata, parse: string -> Option<seq<Field>>)
    ensures OrderJsonSpec(Mapping(NonEmptyFields(md)), parse)
            == Ok(Indent(Emit(JObject(NonEmptyFields(md)))))
  {
    MetadataAlreadyOrdered(md);
    var fields := NonEmptyFields(md);
    assert forall i :: 0 <= i < |fields| ==> Encodable(fields[i].value) by {
      forall i | 0 <= i < |fields|
        ensures Encodable(fields[i].value)
      {
        assert fields[i] in fields;
      }
    }
  }

  /** Every key of a record's mapping is a name of the priority table. */
  lemma NonEmptyKeysListed(md: DocumentMetadata)
    ensures forall g :: g in NonEmptyFields(md) ==> g.key in PriorityFields
  {
    var fs := StructFields(md);
    TagsAreTable(md);
    forall g | g in NonEmptyFields(md)
      ensures g.key in PriorityFields
    {
      FilledMembers(fs, g);
      var i :| 0 <= i < |fs| && Kept(fs[i]) && g == Field(fs[i].tag, JString(fs[i].value));
      assert Tags(fs)[i] == fs[i].tag;
    }
  }

  /** The engine ranges over the record's mapping in whatever order the Go
      map yields it; every such order gives the record's non-empty fields
      in declaration order. */
  lemma MetadataAnyOrder(md: DocumentMetadata, p: seq<Field>)
    requires DistinctKeys(p)
    requires forall f :: f in p <==> f in NonEmptyFields(md)
    ensures OrderedFields(p) == NonEmptyFields(md)
  {
    var fields := NonEmptyFields(md);
    MetadataKeysRanked(md);
    NonEmptyKeysListed(md);
    forall i | 0 <= i < |p|
      ensures p[i].key in PriorityFields
    {
      assert p[i] in fields;
    }
    OrderIndependent(p, fields);
    MetadataAlreadyOrdered(md);
  }

  /** A decoder the mapping entry points never consult. */
  function NoText(t: string): Option<seq<Field>> {
    None
  }

  /** OrdenarDocumentoMetadata: the record's non-empty fields, ordered and
      pretty-printed; it cannot fail. */
  method OrderDocumentMetadata(ranks: map<string, nat>, md: DocumentMetadata)
    returns (text: string, err: Option<Error>)
    requires IndexesLastOccurrence(ranks, PriorityFields)
    ensures err == None
    ensures text == Indent(Emit(JObject(NonEmptyFields(md))))
  {
    var datos := CollectNonEmpty(md);
    MetadataKeysRanked(md);
    text, err := OrderJSON(ranks, Mapping(datos), NoText);
    MetadataAlwaysWritten(md, NoText);
  }

  /** OrdenarMapaComoDocumentoMetadata: hands the mapping to the engine. */
  method OrderMapAsDocumentMetadata(ranks: map<string, nat>, fields: seq<Field>)
    returns (text: string, err: Option<Error>)
    requires IndexesLastOccurrence(ranks, PriorityFields)
    requires DistinctKeys(fields)
    ensures err.Some? ==> text == ""
    ensures (if err.None? then Ok(text) else Failed(err.value)) == Render(OrderedFields(fields))
  {
    text, err := OrderJSON(ranks, Mapping(fields), NoText);
  }
}
