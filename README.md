# c3po: filter-to-query compiler and controller configuration rules

This project models two deterministic pieces of the c3po metadata ingest
system and proves properties about them.

- **The MongoDB filter serializer.** It turns a filter into a MongoDB query
  document. A filter is an ordered list of `(field, value)` conditions, or
  null. The serializer counts the conditions per field. A field with one
  condition becomes one `{path: value}` document. A field with several
  conditions becomes an `{$or: [...]}` group with one document per condition.
  All per-field documents go under `$and`, and `$and` is left out when nothing
  was produced. A null value becomes the sentinel `{$exists: true}`. Top-level
  fields (`_id`, `uid`, `collection`, `name`) are queried under their own
  name. Every other field `f` is queried at `metadata.f`, with `.value`
  appended unless the value is the sentinel.
- **The controller's configuration rules.**
  - It validates the configuration: known input type, then collection
    location, then a non-empty collection name.
  - It selects an adaptor by its backend tag.
  - It forwards the `adaptor.` entries, plus the collection id, to the
    adaptors.
  - It fixes the chain of three processing rules.

Files:

- `wrappers.dfy`: the `Option` type. `None` stands where the source has a Java null.
- `filter.dfy` (module `Filter`): conditions, the distinct fields, the
  conditions on one field (`OnField`), and the conditions regrouped field by
  field along a key order (`Grouped`). Also the lemmas about regrouping.
- `mongo_filter_serializer.dfy` (module `MongoFilterSerializer`): the query
  datatype (`MatchAll | And(seq<Term>)`, with `Term = Single(Eq) | Or(seq<Eq>)`)
  and the serializer's operations.
  - The loops of the source are methods with loop invariants:
    `GetValueForField`, `GetDistinctFields`, `GetOrQuery` and `Serialize`.
  - Pure functions specify them: `FirstValue`, `TermFor` and
    `SerializeIn(filter, order)`.
  - The fields are grouped in a `HashMap`, so the order of the `$and` entries
    is unspecified. `Serialize` picks each next field arbitrarily. Its
    contract says the result is `SerializeIn(filter, order)` for some
    enumeration `order` of the distinct fields.
- `serializer_properties.dfy` (module `SerializerProperties`): a decoder that
  reads a query back into conditions. It serves as the independent partner of
  the serializer. The lemmas here prove the round trip, that each field keeps
  its conditions, that the output is a permutation of the conditions, and
  that the `$and` entries do not depend on the key order.
- `controller.dfy` (module `Controller`): `CheckConfiguration`,
  `GetAdaptor`, `GetAdaptorConfig` and `GetRules`, with lemmas that relate
  them.

Three facts about the code shape the model:

- The `$and` entries come out in the key order of a `HashMap`
  (MongoFilterSerializer.java:45, filled at :119-125). That order is
  unspecified, so the model leaves it open. It proves that the entries are
  the same, as a multiset, for every order.
- `getAdaptorConfig` copies the `adaptor.` entries with their keys unchanged,
  prefix included (Controller.java:90-91). The model does the same.
- `getAdaptor` returns null for an unknown backend tag (Controller.java:211-212).
  `GetAdaptor` returns `None` there.

## Model

| member | source | states |
|---|---|---|
| `MongoFilterSerializer.ToQueryValue` | c3po-core/src/main/java/com/petpet/c3po/dao/mongo/MongoFilterSerializer.java:142-143 | A condition value becomes the `{$exists: true}` sentinel exactly when it is null. Any other value is kept as the literal it is. |
| `MongoFilterSerializer.MapFieldToProperty` | c3po-core/src/main/java/com/petpet/c3po/dao/mongo/MongoFilterSerializer.java:78-85 | A path is one of the top-level names exactly when the field is one. Such a field is kept as it is, and any other field is queried under `metadata.`. |
| `MongoFilterSerializer.GetValueForField` | c3po-core/src/main/java/com/petpet/c3po/dao/mongo/MongoFilterSerializer.java:139-149 | Returns None exactly when no condition names the field. Otherwise it returns the value of the first condition on that field, with null replaced by the `{$exists: true}` sentinel. |
| `MongoFilterSerializer.FirstValue` | c3po-core/src/main/java/com/petpet/c3po/dao/mongo/MongoFilterSerializer.java:139-149 | None exactly when the field is not among the filter's fields. Otherwise the sentinel-substituted value of the first condition on that field. |
| `MongoFilterSerializer.GetDistinctFields` | c3po-core/src/main/java/com/petpet/c3po/dao/mongo/MongoFilterSerializer.java:118-128 | The count map's keys are exactly the distinct fields. Each count is the number of conditions on that field and is at least 1. |
| `MongoFilterSerializer.GetOrQuery` | c3po-core/src/main/java/com/petpet/c3po/dao/mongo/MongoFilterSerializer.java:97-108 | Returns an `$or` with one equality document per condition on the field, in input order: the j-th document is the j-th such condition's `{path: value}`. |
| `MongoFilterSerializer.Serialize` | c3po-core/src/main/java/com/petpet/c3po/dao/mongo/MongoFilterSerializer.java:37-68 | A null filter and a filter without conditions give the empty document. Any other filter gives `$and`. The result is the functional serialization for some enumeration of the distinct fields, which models the hash-map iteration order. |
| `MongoFilterSerializer.CountStep` | c3po-core/src/main/java/com/petpet/c3po/dao/mongo/MongoFilterSerializer.java:121-125 | Counting one more condition adds its field, or raises that field's count by one, and changes no other count. |
| `SerializerProperties.PathRoundTrip` | c3po-core/src/main/java/com/petpet/c3po/dao/mongo/MongoFilterSerializer.java:78-85 | Excluded fields map to themselves. Any other field maps under `metadata.`, never onto an excluded name. For such a field the sentinel gives exactly `metadata.f`, and any other value gives `metadata.f.value`. The field can be read back from its path. |
| `SerializerProperties.PathInjective` | c3po-core/src/main/java/com/petpet/c3po/dao/mongo/MongoFilterSerializer.java:78-85 | Two fields queried with the same kind of value never share a storage path. |
| `SerializerProperties.EqRoundTrip` | c3po-core/src/main/java/com/petpet/c3po/dao/mongo/MongoFilterSerializer.java:100-104 | Decoding the `{path: value}` document built for a condition gives the condition back, including a null value. |
| `SerializerProperties.TermForShape` | c3po-core/src/main/java/com/petpet/c3po/dao/mongo/MongoFilterSerializer.java:47-57 | A field with one condition gives a single equality. A field with k >= 2 conditions gives an `$or` with exactly k documents, those of its conditions in input order. |
| `SerializerProperties.SerializeShape` | c3po-core/src/main/java/com/petpet/c3po/dao/mongo/MongoFilterSerializer.java:42-63 | The query is empty exactly when there are no conditions. Otherwise `$and` has exactly one entry per distinct field, and each entry is that field's entry. |
| `SerializerProperties.RoundTrip` | c3po-core/src/main/java/com/petpet/c3po/dao/mongo/MongoFilterSerializer.java:37-68 | Decoding the serialized filter gives the conditions regrouped field by field, in key order. |
| `SerializerProperties.SerializePreservesConditions` | c3po-core/src/main/java/com/petpet/c3po/dao/mongo/MongoFilterSerializer.java:37-68 | Whatever the key order, the query tests, for every field, exactly that field's conditions in input order. Its documents are a permutation of the conditions, and their number equals the number of conditions. |
| `SerializerProperties.NullBecomesExists` | c3po-core/src/main/java/com/petpet/c3po/dao/mongo/MongoFilterSerializer.java:142-143 | Every null-valued condition appears as `{path: {$exists: true}}` on the field's own node. Every sentinel document comes from a null-valued condition. |
| `SerializerProperties.TermsOrderIndependent` | c3po-core/src/main/java/com/petpet/c3po/dao/mongo/MongoFilterSerializer.java:45 | Any two hash-map iteration orders give the same `$and` entries with the same multiplicities, and agree on whether `$and` is present. |
| `SerializerProperties.TermForInjective` | c3po-core/src/main/java/com/petpet/c3po/dao/mongo/MongoFilterSerializer.java:45-59 | Different fields never produce the same `$and` entry. |
| `SerializerProperties.CountsSumToConditions` | c3po-core/src/main/java/com/petpet/c3po/dao/mongo/MongoFilterSerializer.java:118-128 | The per-field counts computed by the distinct-field count add up to the number of conditions. |
| `SerializerProperties.TwoFieldExample` | c3po-core/src/main/java/com/petpet/c3po/dao/mongo/MongoFilterSerializer.java:37-68 | `[(fmt,pdf), (fmt,tiff), (size,100)]` gives, in either order, `$or` over `metadata.fmt.value` = pdf / tiff and `metadata.size.value` = 100. |
| `Controller.CheckConfiguration` | c3po-core/src/main/java/com/petpet/c3po/controller/Controller.java:70-85 | Rejects a missing or unknown input type (not TIKA or FITS) first, then a missing location, then a missing or empty collection name. Accepts exactly when none of these holds. |
| `Controller.ReportsFirstViolation` | c3po-core/src/main/java/com/petpet/c3po/controller/Controller.java:70-85 | The configuration is accepted exactly when it violates no check. Otherwise the reported error is one of the violations, the earliest in the check order. |
| `Controller.Message` | c3po-core/src/main/java/com/petpet/c3po/controller/Controller.java:73-83 | Each rejection carries the source's exception text for its check, and that text is never empty. |
| `Controller.MessageIdentifiesError` | c3po-core/src/main/java/com/petpet/c3po/controller/Controller.java:73-83 | Two rejections carry the same text exactly when they report the same check, so the text tells which check failed. |
| `Controller.GetAdaptor` | c3po-core/src/main/java/com/petpet/c3po/controller/Controller.java:206-214 | FITS selects the FITS adaptor, TIKA the TIKA adaptor, and any other tag gives None. |
| `Controller.CheckedInputTypeHasAdaptor` | c3po-core/src/main/java/com/petpet/c3po/controller/Controller.java:71-74 | For a present input type, the adaptor dispatch yields an adaptor exactly when the input-type check passes. So after a successful check the adaptor is never None. |
| `Controller.GetAdaptorConfig` | c3po-core/src/main/java/com/petpet/c3po/controller/Controller.java:87-97 | Keeps exactly the entries whose key starts with `adaptor.`, with key and value unchanged. Maps the collection-id key to the configured collection name, or None when it is absent. |
| `Controller.AcceptedConfigNamesCollection` | c3po-core/src/main/java/com/petpet/c3po/controller/Controller.java:95 | After a successful check, the adaptors receive the present, non-empty collection name under the collection-id key. |
| `Controller.AdaptorConfigUnique` | c3po-core/src/main/java/com/petpet/c3po/controller/Controller.java:89-93 | The adaptor configuration is determined by the configuration alone, whatever order its keys are visited in. |
| `Controller.GetRules` | c3po-core/src/main/java/com/petpet/c3po/controller/Controller.java:197-204 | Exactly three rules, in the order HtmlInfo, EmptyValue, FormatVersionResolution. |

## Left out

- The ingest orchestration in `Controller.startJobs` is not modelled: the thread pools, the awaited termination with its month-long timeout, the stop flags and the wake-up of the consolidators. All of it is concurrency.
- `Controller.getNext` is not modelled. It is a deprecated, synchronized call into the file gatherer, with progress logging.
- `Controller.collect` and the constructor are not modelled. They parse the thread count, build the file gatherer and start the jobs, which is I/O and calls into foreign code.
- The persistence layer interface is not modelled. It has no logic. Its convention that a null filter means "all objects" is covered by `Serialize`.
- The FITS and TIKA adaptors and the three processing rules are opaque identifiers. Their code is not part of this model.
- Condition values are modelled as strings or null. In the source a value is any object. A non-null value that itself equals the document `{$exists: true}` would also be queried on the field node without `.value`; the model does not cover that case.
- Configuration values are never null in the model: the configuration is a map from keys to strings. In the source, `checkConfiguration` treats a key mapped to null like a missing key (Controller.java:71,76,81). `getAdaptorConfig` would copy an `adaptor.` key mapped to null as a present entry with a null value (Controller.java:91), and the model cannot hold such an entry.
- Field names and backend tags are never null in the model. In the source a null field name or tag raises a null-pointer exception.
- The filter condition's operator is not modelled. The serializer never reads it.
- GetDistinctFields: counts are unbounded. The source's `int` counter would wrap after 2^31 conditions on one field.
- Controller key constants: `Constants.java` is not part of this model. The configuration keys are named constants whose spelling is illustrative, and no proof depends on it.
- CheckConfiguration: the source throws a configuration exception. The model returns `Rejected(error)`, and `Message` gives the exception's text for each error.
- Serialize: the order of the `$and` entries is stated only up to permutation, because the source takes it from hash-map iteration.
