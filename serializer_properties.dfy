/**
  What the serialized query means, stated against an independent reading of
  it: a decoder that turns every equality document of the query back into a
  condition. Serializing and then decoding keeps, for every field, exactly the
  conditions on that field in input order, whatever order the hash map visits
  the fields in; the $and list has one entry per distinct field, and its
  entries are the same for every visiting order.
 */
module SerializerProperties {
  import opened Wrappers
  import opened Filter
  import opened MongoFilterSerializer

  // ---------------------------------------------------------------------------
  // Reading a query back.
  // ---------------------------------------------------------------------------

  /** The field a storage path was made from. */
  function FieldOfPath(path: string, value: QueryValue): string
  {
    if path in Exclude then path
    else
      var rest := if MetadataPrefix <= path then path[|MetadataPrefix|..] else path;
      if value != ExistsTrue && |ValueSuffix| <= |rest| && rest[|rest| - |ValueSuffix|..] == ValueSuffix
      then rest[..|rest| - |ValueSuffix|]
      else rest
  }

  /** The condition value an equality document tests for. */
  function ConditionValue(v: QueryValue): Option<string>
  {
    match v
    case ExistsTrue => None
    case Literal(s) => Some(s)
  }

  function DecodeEq(e: Eq): Condition
  {
    Condition(FieldOfPath(e.path, e.val), ConditionValue(e.val))
  }

  function DecodeEqs(es: seq<Eq>): (r: seq<Condition>)
    ensures |r| == |es|
  {
    seq(|es|, i requires 0 <= i < |es| => DecodeEq(es[i]))
  }

  /** The equality documents of one $and entry. */
  function TermLeaves(t: Term): seq<Eq>
  {
    match t
    case Single(e) => [e]
    case Or(alts) => alts
  }

  function LeavesOfTerms(ts: seq<Term>): seq<Eq>
  {
    if ts == [] then [] else TermLeaves(ts[0]) + LeavesOfTerms(ts[1..])
  }

  /** Every equality document of a query, entry by entry. */
  function QueryLeaves(q: Query): seq<Eq>
  {
    match q
    case MatchAll => []
    case And(ts) => LeavesOfTerms(ts)
  }

  /** The conditions a query tests, read back from its equality documents. */
  function Decode(q: Query): seq<Condition>
  {
    DecodeEqs(QueryLeaves(q))
  }

  /** The $and entries of a query; none for the empty document. */
  function AndTerms(q: Query): seq<Term>
  {
    match q
    case MatchAll => []
    case And(ts) => ts
  }

  // ---------------------------------------------------------------------------
  // Storage paths.
  // ---------------------------------------------------------------------------

  /** A storage path determines its field: top-level fields are kept, every
      other field lands under "metadata." and never on a top-level name, with
      ".value" appended exactly when the value is not the exists sentinel. */
  lemma PathRoundTrip(f: string, v: QueryValue)
    ensures f in Exclude ==> MapFieldToProperty(f, v) == f
    ensures f !in Exclude ==> (MetadataPrefix <= MapFieldToProperty(f, v) && MapFieldToProperty(f, v) !in Exclude)
    ensures f !in Exclude ==> MapFieldToProperty(f, ExistsTrue) == MetadataPrefix + f
    ensures f !in Exclude && v != ExistsTrue ==> MapFieldToProperty(f, v) == MapFieldToProperty(f, ExistsTrue) + ValueSuffix
    ensures FieldOfPath(MapFieldToProperty(f, v), v) == f
  {
    if f !in Exclude {
      var path := MapFieldToProperty(f, v);
      var rest := if v == ExistsTrue then f else f + ValueSuffix;
      assert path == MetadataPrefix + rest;
      assert path[0] == 'm';
      assert forall x :: x in Exclude ==> x[0] != 'm';
      assert path[|MetadataPrefix|..] == rest;
      if v != ExistsTrue {
        assert rest[|rest| - |ValueSuffix|..] == ValueSuffix;
        assert rest[..|rest| - |ValueSuffix|] == f;
      }
    }
  }

  /** Two fields queried with the same kind of value never share a path. */
  lemma PathInjective(f1: string, f2: string, v: QueryValue)
    requires MapFieldToProperty(f1, v) == MapFieldToProperty(f2, v)
    ensures f1 == f2
  {
    PathRoundTrip(f1, v);
    PathRoundTrip(f2, v);
  }

  /** Decoding the equality document of a condition gives the condition back. */
  lemma EqRoundTrip(c: Condition)
    ensures DecodeEq(EqFor(c)) == c
  {
    PathRoundTrip(c.field, ToQueryValue(c.value));
  }

  lemma DecodeEqsFor(cs: seq<Condition>)
    ensures DecodeEqs(EqsFor(cs)) == cs
  {
    forall i | 0 <= i < |cs| ensures DecodeEqs(EqsFor(cs))[i] == cs[i] {
      EqRoundTrip(cs[i]);
    }
  }

  // ---------------------------------------------------------------------------
  // One entry per field.
  // ---------------------------------------------------------------------------

  /** A field with one condition gives one equality document; a field with
      k >= 2 conditions gives an $or with k documents, in input order. */
  lemma TermForShape(cs: seq<Condition>, f: string)
    requires f in Fields(cs)
    ensures TermLeaves(TermFor(cs, f)) == EqsFor(OnField(cs, f))
    ensures TermFor(cs, f).Single? <==> |OnField(cs, f)| == 1
    ensures TermFor(cs, f).Or? ==> |TermFor(cs, f).alts| == |OnField(cs, f)| >= 2
  {
    OnFieldEmpty(cs, f);
    if |OnField(cs, f)| == 1 {
      var c := OnField(cs, f)[0];
      assert EqsFor(OnField(cs, f)) == [EqFor(c)];
    }
  }

  /** The documents of the $and entries are those of the regrouped conditions. */
  lemma {:induction false} LeavesOfTermsIn(cs: seq<Condition>, order: seq<string>)
    requires forall f :: f in order ==> f in Fields(cs)
    ensures LeavesOfTerms(TermsIn(cs, order)) == EqsFor(Grouped(cs, order))
  {
    if order != [] {
      assert TermsIn(cs, order)[1..] == TermsIn(cs, order[1..]);
      LeavesOfTermsIn(cs, order[1..]);
      TermForShape(cs, order[0]);
      EqsForAppend(OnField(cs, order[0]), Grouped(cs, order[1..]));
    }
  }

  /** A key order has one entry per distinct field. */
  lemma {:induction false} KeyOrderLength(order: seq<string>, fields: set<string>)
    requires IsKeyOrder(order, fields)
    ensures |order| == |fields|
  {
    if order != [] {
      var rest := fields - {order[0]};
      forall f ensures f in order[1..] <==> f in rest {
        if f in order[1..] {
          var j :| 1 <= j < |order| && order[j] == f;
          assert order[0] != order[j];
        }
      }
      assert Distinct(order[1..]);
      KeyOrderLength(order[1..], rest);
    } else {
      assert forall f :: f !in fields;
      assert fields == {};
    }
  }

  /** The query is the empty document exactly when there are no conditions;
      otherwise $and holds one entry per distinct field, each the entry for
      its field. */
  lemma SerializeShape(cs: seq<Condition>, order: seq<string>)
    requires IsKeyOrder(order, Fields(cs))
    ensures SerializeIn(Some(cs), order) == MatchAll <==> cs == []
    ensures |AndTerms(SerializeIn(Some(cs), order))| == |Fields(cs)|
    ensures forall i :: 0 <= i < |AndTerms(SerializeIn(Some(cs), order))|
                     ==> AndTerms(SerializeIn(Some(cs), order))[i] == TermFor(cs, order[i])
  {
    KeyOrderLength(order, Fields(cs));
    if cs != [] {
      assert cs[0].field in Fields(cs);
    }
  }

  // ---------------------------------------------------------------------------
  // The query means the filter.
  // ---------------------------------------------------------------------------

  /** Decoding the serialized filter gives the conditions regrouped by field. */
  lemma RoundTrip(cs: seq<Condition>, order: seq<string>)
    requires IsKeyOrder(order, Fields(cs))
    ensures Decode(SerializeIn(Some(cs), order)) == Grouped(cs, order)
  {
    if order != [] {
      LeavesOfTermsIn(cs, order);
      DecodeEqsFor(Grouped(cs, order));
    }
  }

  /** Whatever order the fields are visited in, the query tests, for every
      field, exactly the conditions on that field in their input order; it
      tests every condition once, so it has as many equality documents as the
      filter has conditions. */
  lemma SerializePreservesConditions(cs: seq<Condition>, order: seq<string>)
    requires IsKeyOrder(order, Fields(cs))
    ensures forall f :: OnField(Decode(SerializeIn(Some(cs), order)), f) == OnField(cs, f)
    ensures multiset(Decode(SerializeIn(Some(cs), order))) == multiset(cs)
    ensures |QueryLeaves(SerializeIn(Some(cs), order))| == |cs|
  {
    RoundTrip(cs, order);
    forall f ensures OnField(Grouped(cs, order), f) == OnField(cs, f) {
      GroupedOnField(cs, order, f);
      OnFieldEmpty(cs, f);
    }
    GroupedPermutes(cs, order);
    assert |Grouped(cs, order)| == |multiset(Grouped(cs, order))|;
  }

  /** Every equality document of the query comes from a condition and every
      condition yields one; so a null value is always queried as
      {path: {$exists: true}} on the field's own node, never as equality. */
  lemma NullBecomesExists(cs: seq<Condition>, order: seq<string>)
    requires IsKeyOrder(order, Fields(cs))
    ensures forall c :: c in cs && c.value == None
              ==> Eq(MapFieldToProperty(c.field, ExistsTrue), ExistsTrue) in QueryLeaves(SerializeIn(Some(cs), order))
    ensures forall e :: e in QueryLeaves(SerializeIn(Some(cs), order)) && e.val == ExistsTrue
              ==> exists c :: c in cs && c.value == None && e.path == MapFieldToProperty(c.field, ExistsTrue)
  {
    var q := SerializeIn(Some(cs), order);
    var g := Grouped(cs, order);
    if order != [] {
      LeavesOfTermsIn(cs, order);
    }
    assert QueryLeaves(q) == EqsFor(g);
    GroupedPermutes(cs, order);
    forall c | c in cs && c.value == None
      ensures Eq(MapFieldToProperty(c.field, ExistsTrue), ExistsTrue) in QueryLeaves(q)
    {
      assert c in multiset(g);
      var i :| 0 <= i < |g| && g[i] == c;
      assert QueryLeaves(q)[i] == EqFor(c);
    }
    forall e | e in QueryLeaves(q) && e.val == ExistsTrue
      ensures exists c :: c in cs && c.value == None && e.path == MapFieldToProperty(c.field, ExistsTrue)
    {
      var i :| 0 <= i < |QueryLeaves(q)| && QueryLeaves(q)[i] == e;
      assert e == EqFor(g[i]);
      assert g[i] in multiset(cs);
    }
  }

  // ---------------------------------------------------------------------------
  // The order of $and does not matter.
  // ---------------------------------------------------------------------------

  /** Different fields give different $and entries. */
  lemma TermForInjective(cs: seq<Condition>, f1: string, f2: string)
    requires f1 in Fields(cs) && f2 in Fields(cs)
    requires TermFor(cs, f1) == TermFor(cs, f2)
    ensures f1 == f2
  {
    TermForShape(cs, f1);
    TermForShape(cs, f2);
    OnFieldEmpty(cs, f1);
    OnFieldEmpty(cs, f2);
    EqRoundTrip(OnField(cs, f1)[0]);
    EqRoundTrip(OnField(cs, f2)[0]);
    assert TermLeaves(TermFor(cs, f1))[0] == EqFor(OnField(cs, f1)[0]);
    assert TermLeaves(TermFor(cs, f2))[0] == EqFor(OnField(cs, f2)[0]);
  }

  lemma {:induction false} DistinctMultiplicity<T>(s: seq<T>, x: T)
    requires forall i, j :: 0 <= i < j < |s| ==> s[i] != s[j]
    ensures multiset(s)[x] == if x in s then 1 else 0
  {
    if s != [] {
      assert s == [s[0]] + s[1..];
      DistinctMultiplicity(s[1..], x);
      if x == s[0] {
        assert x !in s[1..];
      }
    }
  }

  /** The $and entries are the same, with the same multiplicities, for every
      order the hash map may visit the fields in. */
  lemma TermsOrderIndependent(cs: seq<Condition>, o1: seq<string>, o2: seq<string>)
    requires IsKeyOrder(o1, Fields(cs)) && IsKeyOrder(o2, Fields(cs))
    ensures SerializeIn(Some(cs), o1).MatchAll? == SerializeIn(Some(cs), o2).MatchAll?
    ensures multiset(AndTerms(SerializeIn(Some(cs), o1))) == multiset(AndTerms(SerializeIn(Some(cs), o2)))
  {
    SerializeShape(cs, o1);
    SerializeShape(cs, o2);
    var t1, t2 := TermsIn(cs, o1), TermsIn(cs, o2);
    TermsInDistinct(cs, o1);
    TermsInDistinct(cs, o2);
    forall t ensures multiset(t1)[t] == multiset(t2)[t] {
      DistinctMultiplicity(t1, t);
      DistinctMultiplicity(t2, t);
      SameTerms(cs, o1, o2, t);
      SameTerms(cs, o2, o1, t);
    }
    assert multiset(t1) == multiset(t2);
  }

  /** An entry produced for one key order is produced for any other. */
  lemma SameTerms(cs: seq<Condition>, o1: seq<string>, o2: seq<string>, t: Term)
    requires IsKeyOrder(o1, Fields(cs)) && IsKeyOrder(o2, Fields(cs))
    ensures t in TermsIn(cs, o1) ==> t in TermsIn(cs, o2)
  {
    if t in TermsIn(cs, o1) {
      var i :| 0 <= i < |o1| && TermsIn(cs, o1)[i] == t;
      assert o1[i] in o2;
      var j :| 0 <= j < |o2| && o2[j] == o1[i];
      assert TermsIn(cs, o2)[j] == t;
    }
  }

  lemma TermsInDistinct(cs: seq<Condition>, order: seq<string>)
    requires IsKeyOrder(order, Fields(cs))
    ensures forall i, j :: 0 <= i < j < |order| ==> TermsIn(cs, order)[i] != TermsIn(cs, order)[j]
  {
    forall i, j | 0 <= i < j < |order| ensures TermsIn(cs, order)[i] != TermsIn(cs, order)[j] {
      if TermsIn(cs, order)[i] == TermsIn(cs, order)[j] {
        TermForInjective(cs, order[i], order[j]);
        assert false;
      }
    }
  }

  // ---------------------------------------------------------------------------
  // Per-field counts.
  // ---------------------------------------------------------------------------

  /** The counts of the fields visited in `order`, added up. */
  function SumCounts(counts: map<string, nat>, order: seq<string>): nat
  {
    if order == [] then 0
    else (if order[0] in counts then counts[order[0]] else 0) + SumCounts(counts, order[1..])
  }

  lemma {:induction false} SumCountsIsGroupedLength(cs: seq<Condition>, counts: map<string, nat>, order: seq<string>)
    requires forall f :: f in counts ==> counts[f] == |OnField(cs, f)|
    requires forall f :: f in order ==> f in counts
    ensures SumCounts(counts, order) == |Grouped(cs, order)|
  {
    if order != [] {
      SumCountsIsGroupedLength(cs, counts, order[1..]);
    }
  }

  /** The per-field counts add up to the number of conditions. */
  lemma CountsSumToConditions(cs: seq<Condition>, counts: map<string, nat>, order: seq<string>)
    requires counts.Keys == Fields(cs)
    requires forall f :: f in counts ==> counts[f] == |OnField(cs, f)|
    requires IsKeyOrder(order, counts.Keys)
    ensures SumCounts(counts, order) == |cs|
  {
    SumCountsIsGroupedLength(cs, counts, order);
    GroupedPermutes(cs, order);
    assert |Grouped(cs, order)| == |multiset(Grouped(cs, order))|;
  }

  // ---------------------------------------------------------------------------
  // A worked example.
  // ---------------------------------------------------------------------------

  /** The filter of the example: two values for "fmt", one for "size". */
  function ExampleFilter(): seq<Condition>
  {
    [Condition("fmt", Some("pdf")), Condition("fmt", Some("tiff")), Condition("size", Some("100"))]
  }

  lemma ExampleGroups()
    ensures Fields(ExampleFilter()) == {"fmt", "size"}
    ensures OnField(ExampleFilter(), "fmt") == [ExampleFilter()[0], ExampleFilter()[1]]
    ensures OnField(ExampleFilter(), "size") == [ExampleFilter()[2]]
  {
    var cs := ExampleFilter();
    assert cs[1..] == [cs[1], cs[2]] && cs[1..][1..] == [cs[2]] && cs[1..][1..][1..] == [];
  }

  lemma ExampleTerms()
    ensures TermFor(ExampleFilter(), "fmt")
            == Or([Eq("metadata.fmt.value", Literal("pdf")), Eq("metadata.fmt.value", Literal("tiff"))])
    ensures TermFor(ExampleFilter(), "size") == Single(Eq("metadata.size.value", Literal("100")))
  {
    ExampleGroups();
    assert "fmt" !in Exclude && "size" !in Exclude;
    assert MetadataPrefix + "fmt" + ValueSuffix == "metadata.fmt.value";
    assert MetadataPrefix + "size" + ValueSuffix == "metadata.size.value";
  }

  /** Two conditions on "fmt" and one on "size" give an $or over the two "fmt"
      values and one equality on "size", in either order under $and. */
  lemma TwoFieldExample(order: seq<string>)
    requires IsKeyOrder(order, {"fmt", "size"})
    ensures multiset(AndTerms(SerializeIn(Some(ExampleFilter()), order)))
            == multiset{Or([Eq("metadata.fmt.value", Literal("pdf")), Eq("metadata.fmt.value", Literal("tiff"))]),
                        Single(Eq("metadata.size.value", Literal("100")))}
  {
    var cs := ExampleFilter();
    ExampleGroups();
    var canonical := ["fmt", "size"];
    assert IsKeyOrder(canonical, Fields(cs));
    TermsOrderIndependent(cs, order, canonical);
    ExampleTerms();
    assert AndTerms(SerializeIn(Some(cs), canonical)) == [TermFor(cs, "fmt"), TermFor(cs, "size")];
  }
}
