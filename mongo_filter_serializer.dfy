/**
  The translation of a filter into a MongoDB query document.

  A field with one condition becomes one single-key equality document
  {path: value}; a field with several conditions becomes {$or: [...]} with one
  equality document per condition, in input order; all per-field documents are
  collected under $and. A null condition value becomes the sentinel document
  {$exists: true}. Field names become storage paths: the top-level fields of an
  element stay as they are, every other field f becomes "metadata.f", followed
  by ".value" unless the value is the exists sentinel.

  The fields are grouped in a hash map, so the order of the $and entries is
  whatever the map's key iteration yields: the method Serialize picks the next
  field arbitrarily, and the functional model SerializeIn takes that order as
  a parameter.
 */
module MongoFilterSerializer {
  import opened Wrappers
  import opened Filter

  /** Fields that are stored at the top level of an element. */
  const Exclude: seq<string> := ["_id", "uid", "collection", "name"]

  const MetadataPrefix: string := "metadata."
  const ValueSuffix: string := ".value"

  /** A value in a query document: a literal compared for equality, or the
      sentinel document {$exists: true}. */
  datatype QueryValue = Literal(s: string) | ExistsTrue

  /** A single-key query document {path: val}. */
  datatype Eq = Eq(path: string, val: QueryValue)

  /** One entry of the $and list: an equality, or {$or: [alts...]}. */
  datatype Term = Single(eq: Eq) | Or(alts: seq<Eq>)

  /** The query document: the empty document {}, or {$and: [terms...]}. */
  datatype Query = MatchAll | And(terms: seq<Term>)

  /** A condition value as it is put into a query: null becomes the sentinel. */
  function ToQueryValue(v: Option<string>): (q: QueryValue)
    ensures q == ExistsTrue <==> v == None
    ensures v.Some? ==> q == Literal(v.value)
  {
    match v
    case None => ExistsTrue
    case Some(s) => Literal(s)
  }

  /** The storage path queried for field `f` holding `value`: a top-level
      field is queried under its own name, any other field under "metadata.",
      where it can never clash with a top-level name. */
  function MapFieldToProperty(f: string, value: QueryValue): (path: string)
    ensures path in Exclude <==> f in Exclude
    ensures f in Exclude ==> path == f
    ensures f !in Exclude ==> MetadataPrefix <= path
  {
    if f in Exclude then f
    else
      var path := if value == ExistsTrue then MetadataPrefix + f else MetadataPrefix + f + ValueSuffix;
      assert path[0] == 'm' && forall x :: x in Exclude ==> x[0] != 'm';
      path
  }

  /** The equality document a condition turns into. */
  function EqFor(c: Condition): Eq
  {
    var v := ToQueryValue(c.value);
    Eq(MapFieldToProperty(c.field, v), v)
  }

  /** The equality documents of the given conditions, in order. */
  function EqsFor(cs: seq<Condition>): (r: seq<Eq>)
    ensures |r| == |cs|
  {
    seq(|cs|, i requires 0 <= i < |cs| => EqFor(cs[i]))
  }

  /** The value of the first condition on `field`, with null replaced by the
      sentinel, or None when no condition names `field`. */
  function FirstValue(field: string, cs: seq<Condition>): (r: Option<QueryValue>)
    ensures r == None <==> field !in Fields(cs)
    ensures r != None ==> |OnField(cs, field)| > 0 && r.value == ToQueryValue(OnField(cs, field)[0].value)
  {
    if cs == [] then None
    else
      if cs[0].field == field then Some(ToQueryValue(cs[0].value))
      else FirstValue(field, cs[1..])
  }

  /** The per-field entry of the $and list for field `f`. */
  function TermFor(cs: seq<Condition>, f: string): Term
  {
    if |OnField(cs, f)| == 1 then
      OnFieldEmpty(cs, f);
      var v := FirstValue(f, cs).value;
      Single(Eq(MapFieldToProperty(f, v), v))
    else
      Or(EqsFor(OnField(cs, f)))
  }

  /** The $and entries when the distinct fields are visited in `order`. */
  function TermsIn(cs: seq<Condition>, order: seq<string>): (r: seq<Term>)
    ensures |r| == |order|
  {
    seq(|order|, i requires 0 <= i < |order| => TermFor(cs, order[i]))
  }

  /** The distinct fields of a possibly null filter. */
  function FieldsOf(filter: Option<seq<Condition>>): set<string>
  {
    match filter
    case None => {}
    case Some(cs) => Fields(cs)
  }

  /** The serialized filter when the distinct fields are visited in `order`. */
  function SerializeIn(filter: Option<seq<Condition>>, order: seq<string>): Query
  {
    match filter
    case None => MatchAll
    case Some(cs) =>
      var terms := TermsIn(cs, order);
      if |terms| > 0 then And(terms) else MatchAll
  }

  // ---------------------------------------------------------------------------
  // The operations, as the source performs them.
  // ---------------------------------------------------------------------------

  /** Linear search for the first condition on `field`, with early return. */
  method GetValueForField(field: string, cs: seq<Condition>) returns (r: Option<QueryValue>)
    ensures r == None <==> forall i :: 0 <= i < |cs| ==> cs[i].field != field
    ensures r != None ==> exists i :: 0 <= i < |cs| && cs[i].field == field
                                    && (forall j :: 0 <= j < i ==> cs[j].field != field)
                                    && r.value == ToQueryValue(cs[i].value)
    ensures r == FirstValue(field, cs)
  {
    for i := 0 to |cs|
      invariant forall j :: 0 <= j < i ==> cs[j].field != field
      invariant FirstValue(field, cs) == FirstValue(field, cs[i..])
    {
      assert cs[i..] == [cs[i]] + cs[i + 1..];
      if cs[i].field == field {
        var val := cs[i].value;
        return Some(if val == None then ExistsTrue else Literal(val.value));
      }
    }
    assert cs[|cs|..] == [];
    return None;
  }

  /** Counts the conditions per distinct field. */
  method GetDistinctFields(cs: seq<Condition>) returns (counts: map<string, nat>)
    ensures counts.Keys == Fields(cs)
    ensures forall f :: f in counts ==> counts[f] == |OnField(cs, f)| && counts[f] >= 1
  {
    counts := map[];
    for i := 0 to |cs|
      invariant CountsUpTo(cs, i, counts)
    {
      var f := cs[i].field;
      var res := if f in counts then counts[f] else 0;
      CountStep(cs, i, counts);
      res := res + 1;
      counts := counts[f := res];
    }
    CountsComplete(cs, counts);
  }

  /** `counts` holds the number of conditions per field among the first `i`. */
  ghost predicate CountsUpTo(cs: seq<Condition>, i: nat, counts: map<string, nat>)
    requires i <= |cs|
  {
    counts.Keys == Fields(cs[..i]) && forall f :: f in counts ==> counts[f] == |OnField(cs[..i], f)|
  }

  lemma CountsComplete(cs: seq<Condition>, counts: map<string, nat>)
    requires CountsUpTo(cs, |cs|, counts)
    ensures counts.Keys == Fields(cs)
    ensures forall f :: f in counts ==> counts[f] == |OnField(cs, f)| && counts[f] >= 1
  {
    assert cs[..|cs|] == cs;
    forall f | f in counts ensures counts[f] >= 1 {
      OnFieldEmpty(cs, f);
    }
  }

  /** Counting one more condition adds its field or raises that field's count. */
  lemma CountStep(cs: seq<Condition>, i: nat, counts: map<string, nat>)
    requires i < |cs| && CountsUpTo(cs, i, counts)
    ensures var f := cs[i].field;
            CountsUpTo(cs, i + 1, counts[f := (if f in counts then counts[f] else 0) + 1])
  {
    var f := cs[i].field;
    assert cs[..i + 1] == cs[..i] + [cs[i]];
    OnFieldEmpty(cs[..i], f);
    FieldsSnoc(cs[..i], cs[i]);
    forall g ensures |OnField(cs[..i + 1], g)| == |OnField(cs[..i], g)| + (if g == f then 1 else 0) {
      OnFieldSnoc(cs[..i], cs[i], g);
    }
  }

  /** The {$or: [...]} document for `field`: one equality per condition on it. */
  method GetOrQuery(cs: seq<Condition>, field: string) returns (t: Term)
    ensures t.Or? && |t.alts| == |OnField(cs, field)|
    ensures forall j :: 0 <= j < |t.alts| ==> t.alts[j] == EqFor(OnField(cs, field)[j])
  {
    var or: seq<Eq> := [];
    for i := 0 to |cs|
      invariant or == EqsFor(OnField(cs[..i], field))
    {
      OrStep(cs, i, field);
      if field == cs[i].field {
        var val := GetValueForField(field, [cs[i]]);
        or := or + [Eq(MapFieldToProperty(field, val.value), val.value)];
      }
    }
    assert cs[..|cs|] == cs;
    t := Or(or);
  }

  lemma OrStep(cs: seq<Condition>, i: nat, field: string)
    requires i < |cs|
    ensures EqsFor(OnField(cs[..i + 1], field))
         == EqsFor(OnField(cs[..i], field)) + (if cs[i].field == field then [EqFor(cs[i])] else [])
  {
    assert cs[..i + 1] == cs[..i] + [cs[i]];
    OnFieldSnoc(cs[..i], cs[i], field);
    EqsForAppend(OnField(cs[..i], field), if cs[i].field == field then [cs[i]] else []);
  }

  lemma EqsForAppend(a: seq<Condition>, b: seq<Condition>)
    ensures EqsFor(a + b) == EqsFor(a) + EqsFor(b)
  {
  }

  /** Serializes a possibly null filter into a query document. */
  method Serialize(filter: Option<seq<Condition>>) returns (q: Query)
    ensures filter == None ==> q == MatchAll
    ensures filter != None ==> (q == MatchAll <==> filter.value == [])
    ensures exists order :: IsKeyOrder(order, FieldsOf(filter)) && q == SerializeIn(filter, order)
  {
    q := MatchAll;
    ghost var order: seq<string> := [];
    if filter != None {
      var cs := filter.value;
      var distinctFields := GetDistinctFields(cs);
      var and: seq<Term> := [];
      var keys := distinctFields.Keys;
      while keys != {}
        invariant keys <= distinctFields.Keys
        invariant |order| + |keys| == |distinctFields.Keys|
        invariant Distinct(order)
        invariant forall f :: f in order <==> f in distinctFields && f !in keys
        invariant and == TermsIn(cs, order)
        decreases |keys|
      {
        var field :| field in keys;
        ghost var term := TermFor(cs, field);
        if distinctFields[field] == 1 {
          var val := GetValueForField(field, cs);
          and := and + [Single(Eq(MapFieldToProperty(field, val.value), val.value))];
        } else {
          var orQuery := GetOrQuery(cs, field);
          assert orQuery.alts == EqsFor(OnField(cs, field));
          and := and + [orQuery];
        }
        assert and == TermsIn(cs, order) + [term];
        TermsInSnoc(cs, order, field);
        order := order + [field];
        keys := keys - {field};
      }
      if |and| > 0 {
        q := And(and);
      }
      if cs != [] {
        assert cs[0].field in Fields(cs);
      }
    }
    assert IsKeyOrder(order, FieldsOf(filter)) && q == SerializeIn(filter, order);
  }

  lemma TermsInSnoc(cs: seq<Condition>, order: seq<string>, f: string)
    ensures TermsIn(cs, order + [f]) == TermsIn(cs, order) + [TermFor(cs, f)]
  {
  }
}
