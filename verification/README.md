# Priority ordering of JSON document keys

A model of the `ordenJson` package. The package re-writes a JSON object so
that its top-level keys follow a fixed priority table of seventeen document
metadata fields (`OrdenCampos`). It then pretty-prints the result.

- A key in the table ranks by its position in the table.
- A key outside the table ranks at the sentinel 17 and goes after every
  table key.

There are three ways in:

- `OrdenarJSON` takes JSON text or a key/value mapping.
- `OrdenarMapaComoDocumentoMetadata` is a thin wrapper around `OrdenarJSON`
  for mappings.
- `OrdenarDocumentoMetadata` takes the typed `DocumentMetadata` record. It
  keeps the non-empty fields under their JSON tags and orders them.

The model is split into modules, one per file:

- `FieldOrder` (`field_order.dfy`) holds the priority table and the
  reference rank, a linear search of the table. It also holds `init`, the
  loop that fills the name-to-rank map, and `obtenerOrdenCampo`, the map
  lookup with its sentinel. The lookup is proved equal to the reference
  rank.
- `RankSort` (`rank_sort.dfy`) holds the key sort.
  - The reference is a stable insertion sort, `SortBy`, over a generic rank.
    Lemmas prove that it permutes its input, that it is sorted and that it
    is stable.
  - They also prove the key order the engine promises: table keys first in
    table order, then unknown keys in arrival order.
  - They prove uniqueness: when the keys can be strictly ranked, that
    arrangement is the only possible result.
  - The in-place sort of the key array, `SortKeysByRank`, is proved equal
    to `SortBy`.
- `JsonValue` (`json_value.dfy`) holds JSON values and the encoder's
  behaviour (`json.Marshal`).
  - The encoder writes compact text and escapes strings with lower-case
    `\u00XX` escapes, as section 7 of RFC 8259 allows.
  - The encoder refuses values it cannot represent and names the type of the
    first one.
- `JsonDecode` and `JsonRoundTrip` (`json_decode.dfy`, `json_roundtrip.dfy`)
  hold an independent decoder for compact JSON text. They prove that
  decoding the encoder's output gives back the value, so values are never
  corrupted.
- `JsonIndent` (`json_indent.dfy`) models the pretty-printer (`json.Indent`
  with an empty prefix and a two-space indent) character by character. Its
  partner is `Strip`, which removes the white space outside string literals.
  Indenting only adds or removes such white space, so the indented output
  strips back to the compact encoding.
- `OrderJson` (`order_json.dfy`) holds `OrdenarJSON` as an imperative
  method:
  - it dispatches on the input;
  - it collects the keys into an array;
  - it sorts the array in place with the rank map;
  - it fills a buffer member by member;
  - it indents the buffer.

  The method is proved equal to the reference function `OrderJsonSpec`.
- `OrderJsonProperties` (`order_json_properties.dfy`) proves what the
  engine promises on top of `OrderJsonSpec`:
  - the output decodes to the input's members in key order;
  - it fails exactly when a value cannot be encoded;
  - when every key is in the table, the result does not depend on the order
    in which the mapping is iterated;
  - an empty document gives `{}`.
- `Metadata` (`metadata.dfy`) holds the metadata record, the reflection loop
  that keeps the non-empty fields, and the two wrappers. Because the
  record's tags are the priority table in table order, a record always comes
  out in declaration order, empty fields left out, and never fails.

Inputs the model takes as parameters rather than computing:

- the JSON decoder the engine calls on text input (`json.Unmarshal`) is the
  function parameter `parse`;
- the rank map is the `ranks` parameter of the entry points, required to be
  what `init` builds (`BuildRankMap` establishes exactly that).

Points where the model takes a position the code alone does not fix:

- `sort.Slice` (ordenJson/json-ordering-function.go:133) is not stable, and
  the keys come from ranging over a Go map (:128), whose iteration order is
  random. The tests expect keys outside the table to keep their input order
  (test/ordenamiento_test.go:767-771). The model therefore takes the mapping
  as a sequence in one iteration order and sorts it stably. That result is
  one of the outputs the code can give. `OrderIndependent` and
  `MetadataAnyOrder` show that the iteration order does not matter when
  every key is in the table.
- `json.Indent` delays the newline after an opening brace or bracket until
  it sees the first element, so an empty object stays `{}`. `IndentChar`
  models the delay.
- The code converts the metadata record itself, by reflection
  (ordenJson/json-ordering-function.go:84-101), and the model includes that
  loop.

## Model

| member | source | states |
|---|---|---|
| FieldOrder.SearchFromFinds | ordenJson/json-ordering-function.go:33-53 | the table search returns the first position at or after its start holding the name, or the table length when no later position holds it |
| FieldOrder.RankOfBounds | ordenJson/json-ordering-function.go:68-75 | a rank is at most 17; it is below 17 exactly for names in the table, and then the table holds the name at that position and at no earlier one |
| FieldOrder.RankOfListed | ordenJson/json-ordering-function.go:33-53 | the i-th name of the table has rank i (lower index, higher priority) |
| FieldOrder.PriorityFieldsDistinct | ordenJson/json-ordering-function.go:35-53 | no name occurs twice in the table |
| FieldOrder.RankedKeysDiffer | ordenJson/json-ordering-function.go:35-53 | two keys with the same rank below the sentinel are the same key |
| FieldOrder.BuildRankMap | ordenJson/json-ordering-function.go:61-66 | the map holds exactly the table's names, each mapped to a position holding it with no later position holding it (later entries overwrite earlier ones) |
| FieldOrder.RankMapAgreesWithSearch | ordenJson/json-ordering-function.go:61-75 | for the map `init` builds, the lookup of any name, with the sentinel for absent names, equals the position found by searching the table |
| FieldOrder.LookupIsRank | ordenJson/json-ordering-function.go:70-75 | `obtenerOrdenCampo` over the map `init` builds equals the table rank for every name |
| RankSort.SortByPermutes | ordenJson/json-ordering-function.go:133-135 | the sort is a permutation of the keys (same multiset) |
| RankSort.SortBySorted | ordenJson/json-ordering-function.go:133-135 | the sorted keys have non-decreasing rank |
| RankSort.InsertWithRank | ordenJson/json-ordering-function.go:133-135 | inserting a key adds it to the keys of its rank, after those already there, and leaves the keys of every other rank as they were |
| RankSort.SortByStable | ordenJson/json-ordering-function.go:133-135 | keys of equal rank keep their input order |
| RankSort.PermutationDistinct | ordenJson/json-ordering-function.go:127-135 | a permutation of distinct keys is distinct |
| RankSort.SortedKeyOrderBy | ordenJson/json-ordering-function.go:127-135 | the sort of distinct keys has the key order for any rank that tells apart keys below the sentinel: same keys, ranks non-decreasing, keys below the sentinel strictly increasing, keys at the sentinel after all others and in input order |
| RankSort.SortedKeyOrder | ordenJson/json-ordering-function.go:127-135 | the same key order for the table's rank and the sentinel 17 |
| RankSort.StrictlyRankedUnique | ordenJson/json-ordering-function.go:133-135 | two strictly ranked arrangements of the same keys are equal |
| RankSort.StrictlyRankedDistinct | ordenJson/json-ordering-function.go:133-135 | a strictly ranked sequence holds no key twice |
| RankSort.SortedIsUniqueBy | ordenJson/json-ordering-function.go:133-135 | if the keys have a strictly ranked arrangement, the sort yields exactly it |
| RankSort.KeyOrderStrict | ordenJson/json-ordering-function.go:133-135 | in the key order, keys all below the sentinel are strictly ranked |
| RankSort.SameSortBy | ordenJson/json-ordering-function.go:127-135 | two arrangements of the same keys sort to the same result when the sort is strictly ranked |
| RankSort.PresentMembers | ordenJson/json-ordering-function.go:35-53 | a name is in the table restricted to some keys exactly when it is in the table and among the keys |
| RankSort.PresentStrictlyRanked | ordenJson/json-ordering-function.go:35-53 | leaving names out of a strictly ranked table keeps it strictly ranked |
| RankSort.InsertSplit | ordenJson/json-ordering-function.go:133-135 | inserting a key into a sorted sequence puts it right after the last element of rank at most its own, with every later element ranked above it |
| RankSort.ShiftLarger | ordenJson/json-ordering-function.go:133-135 | the shifting loop moves every key of the sorted prefix that ranks above the new key one slot right, stops at the first one that does not, and leaves the rest of the array as it was |
| RankSort.InsertAt | ordenJson/json-ordering-function.go:133-135 | one insertion step on the key array, comparing ranks read through the rank map: the first i+1 slots become the stable insertion of the next key into the sorted prefix; the rest is untouched |
| RankSort.SortKeysByRank | ordenJson/json-ordering-function.go:133-135 | the in-place key sort, comparing map-looked-up ranks, leaves the array equal to the reference sort of its old contents by the rank the map stands for |
| JsonValue.Unsupported | ordenJson/json-ordering-function.go:152-155 | the encoder finds an unsupported value exactly when the value is not encodable |
| JsonValue.UnsupportedMembers | ordenJson/json-ordering-function.go:140-157 | the buffer loop finds a refused value exactly when some member's value is not encodable |
| JsonValue.UnsupportedMembersSnoc | ordenJson/json-ordering-function.go:140-157 | the first refused value of members plus one more is the first one before, else the new member's |
| JsonValue.UnsupportedMembersPrefix | ordenJson/json-ordering-function.go:152-155 | once a prefix has a refused value, the whole sequence reports the same one (the loop stops there) |
| JsonValue.Marshal | ordenJson/json-ordering-function.go:145-156 | `json.Marshal` succeeds exactly on encodable values, then with their compact encoding, and otherwise names the first refused type |
| JsonValue.EmitMembersSnoc | ordenJson/json-ordering-function.go:139-158 | the text of members plus one more is the text before, a comma unless it was empty, and the new member |
| JsonValue.EscapeChar | ordenJson/json-ordering-function.go:145-156 | an escape starts with a backslash exactly for the quote, the backslash and the characters needing a `\u` escape |
| JsonRoundTrip.Hex4RoundTrip | ordenJson/json-ordering-function.go:145-156 | the four hex digits of a `\u` escape read back as the character code |
| JsonRoundTrip.EscapeRoundTrip | ordenJson/json-ordering-function.go:145-156 | every escape the encoder writes decodes to the character it replaced |
| JsonRoundTrip.EscapeCharStep | ordenJson/json-ordering-function.go:145-156 | one encoded character in front of a decodable string body decodes to that character followed by the rest |
| JsonRoundTrip.StringBodyRoundTrip | ordenJson/json-ordering-function.go:145-156 | an escaped string followed by its closing quote decodes to the string, leaving what follows |
| JsonRoundTrip.QuoteRoundTrip | ordenJson/json-ordering-function.go:145-149 | an encoded key or string decodes to the same string, whatever follows it |
| JsonRoundTrip.ValueRoundTrip | ordenJson/json-ordering-function.go:152-156 | any encoded value decodes to itself, leaving the text after it |
| JsonRoundTrip.MembersRoundTrip | ordenJson/json-ordering-function.go:139-158 | encoded object members decode to the same members, in order |
| JsonRoundTrip.DecodeEmit | test/ordenamiento_test.go:622-680 | an encoded value decodes to itself, so values with quotes, backslashes, newlines and non-ASCII characters are not corrupted |
| JsonIndent.StripConcat | ordenJson/json-ordering-function.go:160-165 | stripping a concatenation strips the first part, then the second from the state the first leaves |
| JsonIndent.IndentCharStrip | ordenJson/json-ordering-function.go:160-165 | what the indenter writes for one character strips to what stripping keeps of that character, and leaves the same lexical state |
| JsonIndent.IndentFromStrip | ordenJson/json-ordering-function.go:160-165 | indenting a text from any state strips to the stripped text |
| JsonIndent.IndentStrip | ordenJson/json-ordering-function.go:160-165 | indenting only adds or removes white space outside strings: the indented text strips to the stripped input |
| JsonIndent.EmitStrip | ordenJson/json-ordering-function.go:138-158 | the encoder's compact output has no white space to strip |
| JsonIndent.IndentEmitStrip | ordenJson/json-ordering-function.go:160-165 | the indented encoding strips back to the compact encoding, so indentation never alters a value |
| OrderJson.ValueOf | ordenJson/json-ordering-function.go:152 | `datos[clave]`: the value returned is stored under the key |
| OrderJson.Pick | ordenJson/json-ordering-function.go:140-156 | the members for a key list: one per key, same key, each a member of the document |
| OrderJson.SortedKeysPresent | ordenJson/json-ordering-function.go:127-135 | every sorted key is a key of the document |
| OrderJson.OrderedFields | ordenJson/json-ordering-function.go:126-158 | the output members are as many as the input's, their keys are the rank-sorted keys, and each is a member of the input |
| OrderJson.CollectKeys | ordenJson/json-ordering-function.go:126-130 | the key slice is a fresh array holding the mapping's keys in iteration order |
| OrderJson.WriteMembers | ordenJson/json-ordering-function.go:137-158 | the buffer loop reports the first refused value in key order, and otherwise yields the compact object of the members in key order |
| OrderJson.AppendMember | ordenJson/json-ordering-function.go:140-156 | one turn of the buffer loop extends the text of the members before by the next member |
| OrderJson.OrderJSON | ordenJson/json-ordering-function.go:108-166 | for a document given as a Go map, or decoded into one, so that no key repeats: other input types fail with their type name; unparsable text fails with a parse error; every error comes with empty text; otherwise the result equals the reference `OrderJsonSpec`, to which the properties below apply |
| OrderJsonProperties.DistinctKeysOf | ordenJson/json-ordering-function.go:127-130 | a mapping has distinct keys exactly when its key slice is distinct |
| OrderJsonProperties.SameKeySameMember | ordenJson/json-ordering-function.go:152 | in a mapping, a key determines its member |
| OrderJsonProperties.OrderedKeyOrder | ordenJson/json-ordering-function.go:126-135 | the output keys follow the key order: table keys first in table order, then the others in iteration order |
| OrderJsonProperties.OrderedFieldsMembers | ordenJson/json-ordering-function.go:126-158 | the output holds exactly the input's members, each key with its value |
| OrderJsonProperties.OutputDecodes | ordenJson/json-ordering-function.go:108-166 | a successful output, stripped of white space, decodes to the object of the input's members in key order |
| OrderJsonProperties.SucceedsExactlyWhenEncodable | ordenJson/json-ordering-function.go:150-155 | the result is text exactly when every value is encodable; otherwise the error names the first refused value in key order |
| OrderJsonProperties.RenderSucceedsExactly | ordenJson/json-ordering-function.go:137-158 | writing the members in output order succeeds exactly when every value of the document is encodable, and otherwise fails with the first refused type in output order |
| RankSort.SameElementsPermutation | ordenJson/json-ordering-function.go:127-130 | distinct key lists with the same elements are permutations |
| OrderJsonProperties.SortedIsUnique | ordenJson/json-ordering-function.go:133-135 | whenever the keys have a strictly ranked arrangement, the sort yields exactly it |
| RankSort.SortStrictlyRanked | ordenJson/json-ordering-function.go:133-135 | distinct keys that all rank below the sentinel, under a rank telling them apart, sort into strictly increasing rank |
| RankSort.PresentIsSorted | ordenJson/json-ordering-function.go:133-135 | distinct keys drawn from a strictly ranked table sort into that table with the absent names left out |
| RankSort.RankOfSeparates | ordenJson/json-ordering-function.go:35-75 | two names with the same rank below the sentinel are the same name |
| OrderJsonProperties.SameMembersSameKeys | ordenJson/json-ordering-function.go:127-130 | mappings with the same members have the same keys |
| RankSort.PresentSameElements | ordenJson/json-ordering-function.go:127-135 | the names of the table present among some keys depend only on the set of keys |
| RankSort.SameSortByTable | ordenJson/json-ordering-function.go:127-135 | two arrangements of the same distinct keys, all drawn from a strictly ranked table, sort to the same sequence |
| OrderJsonProperties.SameKeyOrder | ordenJson/json-ordering-function.go:127-135 | with all keys in the table, any two iteration orders of the same mapping sort their keys alike |
| OrderJsonProperties.OrderIndependent | ordenJson/json-ordering-function.go:126-158 | with all keys in the table, the output members do not depend on the map's iteration order |
| OrderJsonProperties.EmptyDocument | test/ordenamiento_test.go:373-410 | an empty document, given as text or mapping, is written as `{}` |
| OrderJsonProperties.TableStrictlyRanked | ordenJson/json-ordering-function.go:33-53 | the table's names have strictly increasing rank |
| OrderJsonProperties.TableKeysInTableOrder | test/ordenamiento_test.go:83-118 | distinct keys all in the table come out as the table with the absent names left out |
| Metadata.TagsAreTable | ordenJson/json-ordering-function.go:13-53 | the record's JSON tags, in declaration order, are the priority table |
| Metadata.FilledMembers | ordenJson/json-ordering-function.go:87-101 | a member is in the record's mapping exactly when some field has its tag, a non-empty tag and value, and the value as a string |
| Metadata.FilledStrictlyRanked | ordenJson/json-ordering-function.go:87-101 | when the tags are strictly ranked, so are the kept keys |
| Metadata.CollectNonEmpty | ordenJson/json-ordering-function.go:79-101 | the reflection loop yields the record's non-empty fields in declaration order |
| Metadata.MetadataKeysRanked | ordenJson/json-ordering-function.go:79-101 | a record's mapping has distinct keys in strictly increasing table rank |
| Metadata.MetadataAlreadyOrdered | test/ordenamiento_test.go:175-190 | ordering a record's mapping leaves it as it is: declaration order, empty fields left out |
| Metadata.NonEmptyKeysListed | ordenJson/json-ordering-function.go:13-53 | every key of a record's mapping is one of the seventeen names of the priority table |
| Metadata.MetadataAnyOrder | ordenJson/json-ordering-function.go:87-101 | whatever order the map `datos` is iterated in, ordering it gives the record's non-empty fields in declaration order |
| Metadata.MetadataAlwaysWritten | ordenJson/json-ordering-function.go:79-105 | a record's mapping never fails to be written, and its output is the indented object of its non-empty fields in declaration order |
| Metadata.OrderDocumentMetadata | ordenJson/json-ordering-function.go:79-105 | `OrdenarDocumentoMetadata` returns no error and the indented object of the record's non-empty fields in declaration order |
| Metadata.OrderMapAsDocumentMetadata | ordenJson/json-ordering-function.go:170-172 | the map wrapper returns what the engine returns for the mapping (a Go map, so no key repeats), empty text on error |

## Left out

- `json.Unmarshal` is not modelled. Text input is decoded by the `parse` parameter, which returns the mapping or fails. Its error text, and Go's choice of the last value for a repeated key, belong to the decoder.
- Numbers are opaque tokens that the encoder copies. Go's float64 conversion of decoded numbers, and its exponent formatting, are not modelled.
- Nested objects are encoded in their sequence order. Go's encoder sorts the keys of nested maps. The engine itself reorders only the top level.
- JsonValue.EscapeChar writes `\b` and `\f` as `\u0008` and `\u000c`, the form of Go releases before 1.22; newer releases write the short forms. Invalid UTF-8, which Go replaces with U+FFFD, cannot occur in `seq<char>`.
- `sort.Slice` is not stable and Go map iteration is random. The model sorts stably over the mapping in one given iteration order, which is one of the results the code allows. The order of unknown keys in the code's actual output is therefore not captured.
- `json.Indent` is applied only to the encoder's output, which is valid JSON, so its syntax-error path is not modelled. White space after the top-level value, which `json.Indent` keeps, cannot occur in that output.
- The `json.Marshal` error on a key cannot happen, since a string always encodes. The model never refuses a key.
- Reflection is modelled as the explicit list of the seventeen fields with their tags (`Metadata.StructFields`), not computed from the type. The map write `datos[tag] = value` is modelled as appending a member. That is exact because the tags are distinct, which `TagsAreTable` and `PriorityFieldsDistinct` establish.
- The error values carry only their kind and, where the code names one, a type name. Go's error messages are not modelled.
- A number is carried as an opaque token: any non-empty text of number characters (digits, sign, point, exponent letter) that starts with a digit or a minus sign. The token type does not enforce the number grammar of section 6 of RFC 8259, so it also admits text such as `1-` or `0e`, which Go's encoder never writes and `json.Indent` would reject.
- Logging, the test harness and the demonstration program are not part of this model.
