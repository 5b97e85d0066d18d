/** The priority table of the ordering engine: the seventeen field names in
    the order a document's keys must follow (OrdenCampos), the name-to-rank
    map that the package's `init` builds from it (ordenCampoMap), and the
    rank lookup with its sentinel for unknown names (obtenerOrdenCampo). */
module FieldOrder {

  /** OrdenCampos: index 0 is the highest priority. */
  const PriorityFields: seq<string> := [
    "tanner:tipo-documento",
    "tanner:razon-social-cliente",
    "tanner:rut-cliente",
    "tanner:estado-visado",
    "tanner:estado-vigencia",
    "tanner:fecha-carga",
    "tanner:nombre-doc",
    "tanner:categorias",
    "tanner:sub-categorias",
    "tanner:origen",
    "tanner:relacion",
    "tanner:fecha-termino-vigencia",
    "cm:title",
    "cm:versionType",
    "cm:versionLabel",
    "cm:description",
    "tanner:observaciones"
  ]

  /** The sentinel rank of a name outside the table: after every known name. */
  const Unranked: nat := 17

  predicate Distinct(names: seq<string>) {
    forall i, j :: 0 <= i < j < |names| ==> names[i] != names[j]
  }

  /** Linear search of `table` from position `from`: the first position at
      or after `from` holding `name`, or the table's length when there is
      none. */
  function SearchFrom(table: seq<string>, name: string, from: nat): (r: nat)
    requires from <= |table|
    ensures from <= r <= |table|
    decreases |table| - from
  {
    if from == |table| then from
    else if table[from] == name then from
    else SearchFrom(table, name, from + 1)
  }

  /** The search finds the first occurrence at or after `from`. */
  lemma {:induction false} SearchFromFinds(table: seq<string>, name: string, from: nat)
    requires from <= |table|
    ensures from <= SearchFrom(table, name, from) <= |table|
    ensures SearchFrom(table, name, from) < |table| ==> table[SearchFrom(table, name, from)] == name
    ensures forall i :: from <= i < SearchFrom(table, name, from) ==> table[i] != name
    decreases |table| - from
  {
    if from < |table| && table[from] != name {
      SearchFromFinds(table, name, from + 1);
    }
  }

  /** The rank of a field name as the table defines it: the position of
      the name's first occurrence in the table, or the sentinel when it is
      absent. The map lookup is proved equal to it (`LookupIsRank`). */
  function RankOf(name: string): (r: nat)
    ensures r <= Unranked
  {
    SearchFrom(PriorityFields, name, 0)
  }

  /** The table has no repeated name. */
  lemma PriorityFieldsDistinct()
    ensures Distinct(PriorityFields)
  {
  }

  /** A rank is in 0..17; it is below the sentinel exactly for the names in
      the table, and then it is that name's position, with no earlier
      position holding the name. */
  lemma RankOfBounds(name: string)
    ensures RankOf(name) <= Unranked
    ensures RankOf(name) < Unranked <==> name in PriorityFields
    ensures RankOf(name) < Unranked ==> PriorityFields[RankOf(name)] == name
    ensures forall i :: 0 <= i < RankOf(name) ==> PriorityFields[i] != name
  {
    SearchFromFinds(PriorityFields, name, 0);
  }

  /** Each name of the table has its own index as rank. */
  lemma RankOfListed(i: nat)
    requires i < |PriorityFields|
    ensures RankOf(PriorityFields[i]) == i
  {
    PriorityFieldsDistinct();
    RankOfBounds(PriorityFields[i]);
  }

  /** Two keys with the same rank below the sentinel are the same key, so
      known keys never tie. */
  lemma RankedKeysDiffer(a: string, b: string)
    requires RankOf(a) == RankOf(b) < Unranked
    ensures a == b
  {
    RankOfBounds(a);
    RankOfBounds(b);
  }

  /** What `init` leaves in the map for `names`: exactly the listed names,
      each mapped to the position of its last occurrence (a later entry
      overwrites an earlier one). */
  ghost predicate IndexesLastOccurrence(m: map<string, nat>, names: seq<string>) {
    && (forall n :: n in m <==> n in names)
    && (forall n :: n in m ==> m[n] < |names| && names[m[n]] == n)
    && (forall n, j :: n in m && m[n] < j < |names| ==> names[j] != n)
  }

  /** `init`: fills the rank map from the table, one name per step. */
  method BuildRankMap(names: seq<string>) returns (m: map<string, nat>)
    ensures IndexesLastOccurrence(m, names)
  {
    m := map[];
    var i := 0;
    while i < |names|
      invariant 0 <= i <= |names|
      invariant forall n :: n in m <==> n in names[..i]
      invariant forall n :: n in m ==> m[n] < i && names[m[n]] == n
      invariant forall n, j :: n in m && m[n] < j < i ==> names[j] != n
    {
      m := m[names[i] := i];
      i := i + 1;
    }
    assert names[..i] == names;
  }

  /** The map built by `init` from the table agrees with linear search of
      the table, including the sentinel for absent names. */
  lemma {:induction false} RankMapAgreesWithSearch(m: map<string, nat>, name: string)
    requires IndexesLastOccurrence(m, PriorityFields)
    ensures (if name in m then m[name] else Unranked) == RankOf(name)
  {
    PriorityFieldsDistinct();
    RankOfBounds(name);
    if name !in m {
      assert name !in PriorityFields;
    }
  }

  /** obtenerOrdenCampo: the rank of `name` read from a rank map, or the
      sentinel when the name is not in it. */
  function Lookup(m: map<string, nat>, name: string): nat
  {
    if name in m then m[name] else Unranked
  }

  /** With the map built by `init`, the lookup is the table's rank. */
  lemma LookupIsRank(m: map<string, nat>)
    requires IndexesLastOccurrence(m, PriorityFields)
    ensures forall name :: Lookup(m, name) == RankOf(name)
  {
    forall name
      ensures Lookup(m, name) == RankOf(name)
    {
      RankMapAgreesWithSearch(m, name);
    }
  }
}
