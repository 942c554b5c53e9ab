/** Maps with text keys from a fixed list of names, as records are encoded and looked up. */
module CborFields {
  import opened Bytes
  import opened Cbor
  import opened CborBijection
  import opened CborOrder

  type Name = seq<byte>
  type Field = Option<Value>

  /** The names are different texts. */
  predicate Names(names: seq<Name>) {
    && (forall i :: 0 <= i < |names| ==> Utf8(names[i]) && |names[i]| < U64_RANGE)
    && forall i, j :: 0 <= i < j < |names| ==> names[i] != names[j]
  }

  function FieldEntry(name: Name, field: Field): seq<Entry> {
    if field.Some? then [Entry(Text(name), field.value)] else []
  }

  /** The fields that are present, in the order of their names. */
  function FieldEntries(names: seq<Name>, fields: seq<Field>): seq<Entry>
    requires |names| == |fields|
  {
    if names == [] then []
    else FieldEntry(names[0], fields[0]) + FieldEntries(names[1..], fields[1..])
  }

  /** `Value::get`, on a map's entries: the first with this text for its key. */
  function Get(es: seq<Entry>, name: Name): Field {
    if es == [] then None
    else if es[0].key == Text(name) then Some(es[0].val)
    else Get(es[1..], name)
  }

  // ----- keys -----

  lemma TextKeys(a: Name, b: Name)
    requires Utf8(a) && Utf8(b) && |a| < U64_RANGE && |b| < U64_RANGE && Enc(Text(a)) == Enc(Text(b))
    ensures a == b
  {
    PrefixFree(Text(a), Text(b));
  }

  lemma TailNames(names: seq<Name>)
    requires Names(names) && names != []
    ensures Names(names[1..]) && names[0] !in names[1..]
  {
  }

  /** The entries are exactly the present fields under their names. */
  lemma {:induction false} EntryIsField(names: seq<Name>, fields: seq<Field>, e: Entry)
    requires |names| == |fields|
    ensures e in FieldEntries(names, fields)
      <==> exists k :: 0 <= k < |names| && e.key == Text(names[k]) && fields[k] == Some(e.val)
  {
    if names != [] {
      var (names', fields') := (names[1..], fields[1..]);
      EntryIsField(names', fields', e);
      if e in FieldEntry(names[0], fields[0]) {
        assert e.key == Text(names[0]) && fields[0] == Some(e.val);
      }
      if e in FieldEntries(names', fields') {
        var k :| 0 <= k < |names'| && e.key == Text(names'[k]) && fields'[k] == Some(e.val);
        assert e.key == Text(names[k + 1]) && fields[k + 1] == Some(e.val);
      }
      if k :| 0 <= k < |names| && e.key == Text(names[k]) && fields[k] == Some(e.val) {
        if k > 0 {
          assert e.key == Text(names'[k - 1]) && fields'[k - 1] == Some(e.val);
        }
      }
    }
  }

  /** Entries that share an encoded key share its position. */
  lemma {:induction false} FieldKeysDistinct(names: seq<Name>, fields: seq<Field>)
    requires |names| == |fields| && Names(names)
    ensures DistinctKeys(FieldEntries(names, fields))
  {
    if names != [] {
      var (names', fields') := (names[1..], fields[1..]);
      TailNames(names);
      FieldKeysDistinct(names', fields');
      var rest := FieldEntries(names', fields');
      forall i | 0 <= i < |rest|
        ensures Enc(rest[i].key) != Enc(Text(names[0]))
      {
        assert rest[i] in rest;
        EntryIsField(names', fields', rest[i]);
        var k :| 0 <= k < |names'| && rest[i].key == Text(names'[k]) && fields'[k] == Some(rest[i].val);
        assert names'[k] in names' && names'[k] == names[k + 1];
        if Enc(rest[i].key) == Enc(Text(names[0])) {
          TextKeys(names'[k], names[0]);
        }
      }
    }
  }

  // ----- lookups -----

  /** With distinct keys, looking a name up finds the one entry under it. */
  lemma {:induction false} GetFinds(es: seq<Entry>, name: Name, v: Value)
    requires DistinctKeys(es)
    ensures Get(es, name) == Some(v) <==> Entry(Text(name), v) in es
  {
    if es != [] {
      var rest := es[1..];
      assert forall i, j :: 0 <= i < j < |rest| ==> rest[i] == es[i + 1] && rest[j] == es[j + 1];
      assert DistinctKeys(rest);
      GetFinds(rest, name, v);
      assert es == [es[0]] + rest;
      forall i | 0 <= i < |rest|
        ensures rest[i].key != es[0].key
      {
        assert Enc(es[0].key) != Enc(es[i + 1].key);
      }
    }
  }

  /** Every key is one of the names. */
  predicate KnownKeys(es: seq<Entry>, names: seq<Name>) {
    forall e :: e in es ==> e.key.Text? && e.key.t in names
  }

  /** Looking every name up gives these fields. */
  predicate Holds(es: seq<Entry>, names: seq<Name>, fields: seq<Field>)
    requires |names| == |fields|
  {
    forall k :: 0 <= k < |names| ==> Get(es, names[k]) == fields[k]
  }

  /** Holding exactly some fields is having exactly their entries, in any order. */
  lemma HoldsIff(es: seq<Entry>, names: seq<Name>, fields: seq<Field>)
    requires |names| == |fields| && Names(names) && DistinctKeys(es)
    ensures KnownKeys(es, names) && Holds(es, names, fields) <==> SameEntries(es, FieldEntries(names, fields))
  {
    if KnownKeys(es, names) && Holds(es, names, fields) {
      forall e
        ensures e in es <==> e in FieldEntries(names, fields)
      {
        EntryIsField(names, fields, e);
        if e in es {
          var k :| 0 <= k < |names| && names[k] == e.key.t;
          GetFinds(es, names[k], e.val);
          assert Get(es, names[k]) == fields[k];
        }
        if e in FieldEntries(names, fields) {
          var k :| 0 <= k < |names| && e.key == Text(names[k]) && fields[k] == Some(e.val);
          assert Get(es, names[k]) == fields[k];
          GetFinds(es, names[k], e.val);
        }
      }
    }
    if SameEntries(es, FieldEntries(names, fields)) {
      SameHolds(es, names, fields);
    }
  }

  lemma SameHolds(es: seq<Entry>, names: seq<Name>, fields: seq<Field>)
    requires |names| == |fields| && Names(names) && DistinctKeys(es)
    requires SameEntries(es, FieldEntries(names, fields))
    ensures KnownKeys(es, names) && Holds(es, names, fields)
  {
    forall e | e in es
      ensures e.key.Text? && e.key.t in names
    {
      EntryIsField(names, fields, e);
    }
    forall k | 0 <= k < |names|
      ensures Get(es, names[k]) == fields[k]
    {
      if fields[k].Some? {
        var e := Entry(Text(names[k]), fields[k].value);
        EntryIsField(names, fields, e);
        GetFinds(es, names[k], e.val);
      } else if Get(es, names[k]).Some? {
        NoOtherField(es, names, fields, k);
      }
    }
  }

  lemma NoOtherField(es: seq<Entry>, names: seq<Name>, fields: seq<Field>, k: nat)
    requires |names| == |fields| && Names(names) && DistinctKeys(es) && k < |names|
    requires SameEntries(es, FieldEntries(names, fields)) && Get(es, names[k]).Some?
    ensures fields[k].Some?
  {
    var e := Entry(Text(names[k]), Get(es, names[k]).value);
    GetFinds(es, names[k], e.val);
    EntryIsField(names, fields, e);
    var j :| 0 <= j < |names| && e.key == Text(names[j]) && fields[j] == Some(e.val);
  }

  // ----- canonical form -----

  function CanonField(f: Field): Field {
    if f.Some? then Some(Canon(f.value)) else None
  }

  function CanonFields(fields: seq<Field>): (r: seq<Field>)
    ensures |r| == |fields| && forall i :: 0 <= i < |fields| ==> r[i] == CanonField(fields[i])
  {
    seq(|fields|, i requires 0 <= i < |fields| => CanonField(fields[i]))
  }

  lemma {:induction false} CanonOfFields(names: seq<Name>, fields: seq<Field>)
    requires |names| == |fields|
    ensures CanonEntries(FieldEntries(names, fields)) == FieldEntries(names, CanonFields(fields))
  {
    if names != [] {
      var (names', fields') := (names[1..], fields[1..]);
      CanonOfFields(names', fields');
      assert CanonFields(fields)[1..] == CanonFields(fields');
      var (first, rest) := (FieldEntry(names[0], fields[0]), FieldEntries(names', fields'));
      if first != [] {
        assert (first + rest)[1..] == rest && (first + rest)[0] == first[0];
        assert FieldEntry(names[0], CanonFields(fields)[0]) == [CanonEntry(first[0])];
      } else {
        assert first + rest == rest;
        assert FieldEntry(names[0], CanonFields(fields)[0]) == [];
      }
    }
  }

  /** The canonical map of some fields. */
  lemma CanonMap(names: seq<Name>, fields: seq<Field>)
    requires |names| == |fields| && Names(names)
    ensures var target := FieldEntries(names, CanonFields(fields));
      && Canon(Map(FieldEntries(names, fields))) == Map(Sort(target))
      && Increasing([], Sort(target)) && SameEntries(Sort(target), target)
  {
    var target := FieldEntries(names, CanonFields(fields));
    CanonOfFields(names, fields);
    FieldKeysDistinct(names, CanonFields(fields));
    SortIncreasing(target);
    SortEntries(target);
  }

  /** It is the one canonical map that holds them. */
  lemma CanonMapIff(names: seq<Name>, fields: seq<Field>, es: seq<Entry>)
    requires |names| == |fields| && Names(names) && Increasing([], es)
    ensures Canon(Map(FieldEntries(names, fields))) == Map(es)
      <==> KnownKeys(es, names) && Holds(es, names, CanonFields(fields))
  {
    CanonMap(names, fields);
    IncreasingDistinct([], es);
    HoldsIff(es, names, CanonFields(fields));
    var target := FieldEntries(names, CanonFields(fields));
    if SameEntries(es, target) {
      IncreasingUnique([], Sort(target), es);
    }
  }

  /** The canonical map of some fields, looked into. */
  lemma CanonMapHolds(names: seq<Name>, fields: seq<Field>) returns (es: seq<Entry>)
    requires |names| == |fields| && Names(names)
    ensures Canon(Map(FieldEntries(names, fields))) == Map(es)
    ensures KnownKeys(es, names) && Holds(es, names, CanonFields(fields))
  {
    CanonMap(names, fields);
    es := Sort(FieldEntries(names, CanonFields(fields)));
    CanonMapIff(names, fields, es);
  }

  /** Equal canonical maps have equal fields. */
  lemma FieldsInjective(names: seq<Name>, fields: seq<Field>, fields': seq<Field>)
    requires |names| == |fields| == |fields'| && Names(names)
    requires Canon(Map(FieldEntries(names, fields))) == Canon(Map(FieldEntries(names, fields')))
    ensures CanonFields(fields) == CanonFields(fields')
  {
    var es := CanonMapHolds(names, fields);
    var es' := CanonMapHolds(names, fields');
    forall k | 0 <= k < |names|
      ensures CanonFields(fields)[k] == CanonFields(fields')[k]
    {
      assert Get(es, names[k]) == CanonFields(fields)[k];
      assert Get(es', names[k]) == CanonFields(fields')[k];
    }
  }

  // ----- what encodes -----

  /** A field whose value, if present, encodes. */
  predicate EncodableField(f: Field, depth: nat) {
    f.Some? ==> WellFormed(f.value) && Fits(f.value, depth) && NoDuplicates(f.value)
  }

  predicate Encodable(fields: seq<Field>, depth: nat) {
    forall k :: 0 <= k < |fields| ==> EncodableField(fields[k], depth)
  }

  lemma FieldsEncode(names: seq<Name>, fields: seq<Field>, depth: nat, next: nat)
    requires |names| == |fields| < U64_RANGE && Names(names) && Encodable(fields, next) && next == depth + 1 <= MAX_DEPTH
    ensures var m := Map(FieldEntries(names, fields)); WellFormed(m) && Fits(m, depth) && NoDuplicates(m)
  {
    var es := FieldEntries(names, fields);
    CanonOfFields(names, fields);
    FieldKeysDistinct(names, CanonFields(fields));
    FieldCount(names, fields);
    forall e | e in es
      ensures WellFormedEntry(e) && FitsEntry(e, next) && NoDuplicatesEntry(e)
    {
      EntryIsField(names, fields, e);
      var k :| 0 <= k < |names| && e.key == Text(names[k]) && fields[k] == Some(e.val);
      assert EncodableField(fields[k], next);
    }
  }

  lemma {:induction false} FieldCount(names: seq<Name>, fields: seq<Field>)
    requires |names| == |fields|
    ensures |FieldEntries(names, fields)| <= |names|
  {
    if names != [] {
      FieldCount(names[1..], fields[1..]);
    }
  }
}
