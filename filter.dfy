/**
  The filter model the query serializer consumes: an ordered sequence of
  conditions, each naming a field and a value. A value of None stands for a
  null value, which means "the field exists" rather than "equals null".
  A whole filter may itself be null (Option<seq<Condition>>.None), which means
  "all objects".
 */
module Filter {
  import opened Wrappers

  datatype Condition = Condition(field: string, value: Option<string>)

  /** The distinct field names the conditions mention. */
  function Fields(cs: seq<Condition>): set<string>
  {
    if cs == [] then {} else {cs[0].field} + Fields(cs[1..])
  }

  /** The conditions on field `f`, in input order. */
  function OnField(cs: seq<Condition>, f: string): seq<Condition>
  {
    if cs == [] then []
    else (if cs[0].field == f then [cs[0]] else []) + OnField(cs[1..], f)
  }

  /** A field has conditions exactly when the filter mentions it, and the
      first of them is on that field. */
  lemma {:induction false} OnFieldEmpty(cs: seq<Condition>, f: string)
    ensures OnField(cs, f) == [] <==> f !in Fields(cs)
    ensures OnField(cs, f) != [] ==> OnField(cs, f)[0].field == f
  {
    if cs != [] {
      assert cs == [cs[0]] + cs[1..];
      OnFieldEmpty(cs[1..], f);
    }
  }

  /** No field name occurs twice in `order`. */
  ghost predicate Distinct(order: seq<string>)
  {
    forall i, j :: 0 <= i < j < |order| ==> order[i] != order[j]
  }

  /** `order` lists every field of `fields` exactly once: one possible
      iteration order of a hash map keyed by those fields. */
  ghost predicate IsKeyOrder(order: seq<string>, fields: set<string>)
  {
    Distinct(order) && forall f :: f in order <==> f in fields
  }

  /** The conditions regrouped field by field, following `order`. */
  function Grouped(cs: seq<Condition>, order: seq<string>): seq<Condition>
  {
    if order == [] then [] else OnField(cs, order[0]) + Grouped(cs, order[1..])
  }

  lemma {:induction false} OnFieldAppend(a: seq<Condition>, b: seq<Condition>, f: string)
    ensures OnField(a + b, f) == OnField(a, f) + OnField(b, f)
  {
    if a == [] {
      assert a + b == b;
    } else {
      var head := if a[0].field == f then [a[0]] else [];
      assert (a + b)[0] == a[0];
      assert (a + b)[1..] == a[1..] + b;
      OnFieldAppend(a[1..], b, f);
      assert OnField(a + b, f) == head + (OnField(a[1..], f) + OnField(b, f));
      assert OnField(a, f) == head + OnField(a[1..], f);
    }
  }

  /** Appending one condition extends the selection of its own field only. */
  lemma OnFieldSnoc(prefix: seq<Condition>, c: Condition, f: string)
    ensures OnField(prefix + [c], f) == OnField(prefix, f) + (if c.field == f then [c] else [])
  {
    OnFieldAppend(prefix, [c], f);
    assert [c][1..] == [];
  }

  lemma {:induction false} FieldsSnoc(prefix: seq<Condition>, c: Condition)
    ensures Fields(prefix + [c]) == Fields(prefix) + {c.field}
  {
    if prefix != [] {
      assert (prefix + [c])[1..] == prefix[1..] + [c];
      FieldsSnoc(prefix[1..], c);
    }
  }

  /** Selecting field `f` twice is selecting it once; selecting a second,
      different field from the conditions on `g` yields nothing. */
  lemma {:induction false} OnFieldOnField(cs: seq<Condition>, g: string, f: string)
    ensures OnField(OnField(cs, g), f) == if g == f then OnField(cs, g) else []
  {
    if cs != [] {
      var head := if cs[0].field == g then [cs[0]] else [];
      OnFieldOnField(cs[1..], g, f);
      OnFieldAppend(head, OnField(cs[1..], g), f);
      if cs[0].field == g {
        assert OnField(head, f) == OnField(head[1..], f) + (if g == f then head else []) by {
          assert head[1..] == [];
        }
      }
    }
  }

  lemma {:induction false} GroupedOfEmpty(order: seq<string>)
    ensures Grouped([], order) == []
  {
    if order != [] {
      GroupedOfEmpty(order[1..]);
    }
  }

  /** Regrouping keeps, for every field, exactly the conditions on that field
      in their input order, provided the order names each field once. */
  lemma {:induction false} GroupedOnField(cs: seq<Condition>, order: seq<string>, f: string)
    requires Distinct(order)
    ensures OnField(Grouped(cs, order), f) == if f in order then OnField(cs, f) else []
  {
    if order != [] {
      assert Distinct(order[1..]);
      GroupedOnField(cs, order[1..], f);
      OnFieldAppend(OnField(cs, order[0]), Grouped(cs, order[1..]), f);
      OnFieldOnField(cs, order[0], f);
      if f == order[0] {
        assert f !in order[1..];
      }
    }
  }

  /** Adding one condition in front adds it to the block of its field. */
  lemma {:induction false} GroupedCons(c: Condition, rest: seq<Condition>, order: seq<string>)
    requires Distinct(order)
    ensures multiset(Grouped([c] + rest, order))
         == multiset(Grouped(rest, order)) + (if c.field in order then multiset{c} else multiset{})
  {
    if order != [] {
      var cs := [c] + rest;
      assert cs[0] == c && cs[1..] == rest;
      assert Distinct(order[1..]);
      GroupedCons(c, rest, order[1..]);
      assert OnField(cs, order[0]) == (if c.field == order[0] then [c] else []) + OnField(rest, order[0]);
      if c.field == order[0] {
        assert c.field !in order[1..];
      }
    }
  }

  /** Regrouping by an order that covers every field is a permutation. */
  lemma {:induction false} GroupedPermutes(cs: seq<Condition>, order: seq<string>)
    requires Distinct(order)
    requires forall f :: f in Fields(cs) ==> f in order
    ensures multiset(Grouped(cs, order)) == multiset(cs)
  {
    if cs == [] {
      GroupedOfEmpty(order);
    } else {
      assert cs == [cs[0]] + cs[1..];
      GroupedPermutes(cs[1..], order);
      GroupedCons(cs[0], cs[1..], order);
    }
  }
}
