/**
  The configuration rules of the ingest controller: which configurations it
  accepts, which adaptor a backend tag selects, which entries are forwarded to
  the adaptors, and the fixed chain of processing rules each adaptor applies.

  The configuration is a map from keys to string values. The spelling of the
  keys is defined outside this model; the constants below name them, and no
  property proved here depends on how they are spelled.
 */
module Controller {
  import opened Wrappers

  const InputTypeKey: string := "c3po.input.type"
  const CollectionLocationKey: string := "c3po.collection.location"
  const CollectionNameKey: string := "c3po.collection.name"
  const CollectionIdKey: string := "c3po.collection.id"

  /** Keys forwarded to the adaptors start with this prefix. */
  const AdaptorPrefix: string := "adaptor."

  /** The extraction backends the controller knows, by their tags. */
  const FitsTag: string := "FITS"
  const TikaTag: string := "TIKA"

  /** The reasons a configuration is rejected. */
  datatype ConfigError = NoInputType | NoCollectionLocation | NoCollectionName

  /** The outcome of checking a configuration. */
  datatype CheckResult = Accepted | Rejected(error: ConfigError)

  /** The extraction adaptors, as opaque identifiers. */
  datatype Adaptor = FitsAdaptor | TikaAdaptor

  /** The processing rules, as opaque identifiers. */
  datatype Rule = HtmlInfo | EmptyValue | FormatVersionResolution

  /** The message the rejection carries. */
  function Message(e: ConfigError): (m: string)
    ensures m != ""
  {
    match e
    case NoInputType => "No input type specified. Please use one of FITS or TIKA."
    case NoCollectionLocation => "No input file path provided. Please provide a path to the input files."
    case NoCollectionName => "The name of the collection is not set. Please set a name."
  }

  /** The value stored under `key`, or None where the source reads null.
      Values in the map are never null: a null-valued entry is not modelled. */
  function Get(config: map<string, string>, key: string): Option<string>
  {
    if key in config then Some(config[key]) else None
  }

  // ---------------------------------------------------------------------------
  // What each check asks of the configuration, stated on its own.
  // ---------------------------------------------------------------------------

  ghost predicate KnownInputType(config: map<string, string>)
  {
    InputTypeKey in config && (config[InputTypeKey] == TikaTag || config[InputTypeKey] == FitsTag)
  }

  ghost predicate HasLocation(config: map<string, string>)
  {
    CollectionLocationKey in config
  }

  ghost predicate HasCollectionName(config: map<string, string>)
  {
    CollectionNameKey in config && config[CollectionNameKey] != ""
  }

  /** Every check the configuration fails. */
  ghost function Violations(config: map<string, string>): set<ConfigError>
  {
    (if KnownInputType(config) then {} else {NoInputType})
    + (if HasLocation(config) then {} else {NoCollectionLocation})
    + (if HasCollectionName(config) then {} else {NoCollectionName})
  }

  /** The position of each check in the order they run. */
  function Rank(e: ConfigError): nat
  {
    match e
    case NoInputType => 0
    case NoCollectionLocation => 1
    case NoCollectionName => 2
  }

  // ---------------------------------------------------------------------------
  // The operations.
  // ---------------------------------------------------------------------------

  /** Checks the input type, then the location, then the collection name, and
      reports the first that fails. */
  function CheckConfiguration(config: map<string, string>): (r: CheckResult)
    ensures r == Accepted <==> KnownInputType(config) && HasLocation(config) && HasCollectionName(config)
    ensures r == Rejected(NoInputType) <==> !KnownInputType(config)
    ensures r == Rejected(NoCollectionLocation) <==> KnownInputType(config) && !HasLocation(config)
    ensures r == Rejected(NoCollectionName)
            <==> KnownInputType(config) && HasLocation(config) && !HasCollectionName(config)
  {
    var inputType := Get(config, InputTypeKey);
    if inputType == None || (inputType.value != TikaTag && inputType.value != FitsTag) then
      Rejected(NoInputType)
    else if Get(config, CollectionLocationKey) == None then
      Rejected(NoCollectionLocation)
    else
      var name := Get(config, CollectionNameKey);
      if name == None || name.value == "" then Rejected(NoCollectionName)
      else Accepted
  }

  /** The adaptor a backend tag selects; None for an unknown tag. */
  function GetAdaptor(tag: string): (r: Option<Adaptor>)
    ensures r == Some(FitsAdaptor) <==> tag == FitsTag
    ensures r == Some(TikaAdaptor) <==> tag == TikaTag
    ensures r == None <==> tag != FitsTag && tag != TikaTag
  {
    if tag == FitsTag then Some(FitsAdaptor)
    else if tag == TikaTag then Some(TikaAdaptor)
    else None
  }

  /** `adaptorConfig` holds exactly the configuration entries whose key starts
      with the adaptor prefix, unchanged and with the prefix kept, and maps the
      collection-id key to the configured collection name (None when absent). */
  ghost predicate IsAdaptorConfig(config: map<string, string>, adaptorConfig: map<string, Option<string>>)
  {
    && CollectionIdKey in adaptorConfig
    && adaptorConfig[CollectionIdKey] == Get(config, CollectionNameKey)
    && (forall k :: k != CollectionIdKey ==> (k in adaptorConfig <==> k in config && AdaptorPrefix <= k))
    && (forall k :: k in adaptorConfig && k != CollectionIdKey ==> adaptorConfig[k] == Some(config[k]))
  }

  /** Copies the adaptor entries of the configuration, visiting its keys in an
      arbitrary order, then adds the collection id. */
  method GetAdaptorConfig(config: map<string, string>) returns (adaptorConfig: map<string, Option<string>>)
    ensures IsAdaptorConfig(config, adaptorConfig)
  {
    adaptorConfig := map[];
    var keys := config.Keys;
    while keys != {}
      invariant keys <= config.Keys
      invariant forall k :: k in adaptorConfig <==> k in config && k !in keys && AdaptorPrefix <= k
      invariant forall k :: k in adaptorConfig ==> adaptorConfig[k] == Some(config[k])
      decreases |keys|
    {
      var key :| key in keys;
      if AdaptorPrefix <= key {
        adaptorConfig := adaptorConfig[key := Some(config[key])];
      }
      keys := keys - {key};
    }
    adaptorConfig := adaptorConfig[CollectionIdKey := Get(config, CollectionNameKey)];
  }

  /** The processing rules, in the order they are applied. */
  method GetRules() returns (rules: seq<Rule>)
    ensures |rules| == 3
    ensures rules[0] == HtmlInfo && rules[1] == EmptyValue && rules[2] == FormatVersionResolution
  {
    rules := [];
    rules := rules + [HtmlInfo];
    rules := rules + [EmptyValue];
    rules := rules + [FormatVersionResolution];
  }

  // ---------------------------------------------------------------------------
  // How the operations fit together.
  // ---------------------------------------------------------------------------

  /** The reported error is the first failing check in the order input type,
      location, name; the configuration is accepted when no check fails. */
  lemma ReportsFirstViolation(config: map<string, string>)
    ensures CheckConfiguration(config) == Accepted <==> Violations(config) == {}
    ensures CheckConfiguration(config).Rejected? ==>
              CheckConfiguration(config).error in Violations(config)
              && forall e :: e in Violations(config) ==> Rank(CheckConfiguration(config).error) <= Rank(e)
  {
    if !KnownInputType(config) {
      assert NoInputType in Violations(config);
    } else if !HasLocation(config) {
      assert NoCollectionLocation in Violations(config);
    } else if !HasCollectionName(config) {
      assert NoCollectionName in Violations(config);
    }
  }

  /** The input-type check and the adaptor dispatch agree on the known
      backends: a configuration whose input type passes the check always gets
      an adaptor, and any other present input type gets none. */
  lemma CheckedInputTypeHasAdaptor(config: map<string, string>)
    requires InputTypeKey in config
    ensures GetAdaptor(config[InputTypeKey]) != None <==> CheckConfiguration(config) != Rejected(NoInputType)
  {
  }

  /** The message of a rejection tells which check failed. */
  lemma MessageIdentifiesError(e1: ConfigError, e2: ConfigError)
    ensures Message(e1) == Message(e2) <==> e1 == e2
  {
    var input, location, name := Message(NoInputType), Message(NoCollectionLocation), Message(NoCollectionName);
    assert input == "No input type specified. Please use one of FITS or TIKA.";
    assert location == "No input file path provided. Please provide a path to the input files.";
    assert name == "The name of the collection is not set. Please set a name.";
    assert |input| == 56 && |location| == 70 && |name| == 57;
  }

  /** After a successful check, the adaptors receive the collection name,
      which is present and not empty, under the collection-id key. */
  lemma AcceptedConfigNamesCollection(config: map<string, string>, adaptorConfig: map<string, Option<string>>)
    requires CheckConfiguration(config) == Accepted
    requires IsAdaptorConfig(config, adaptorConfig)
    ensures adaptorConfig[CollectionIdKey] == Some(config[CollectionNameKey])
    ensures config[CollectionNameKey] != ""
  {
  }

  /** The adaptor configuration does not depend on the order the keys are
      visited in: it is determined by the configuration. */
  lemma AdaptorConfigUnique(config: map<string, string>, a1: map<string, Option<string>>, a2: map<string, Option<string>>)
    requires IsAdaptorConfig(config, a1) && IsAdaptorConfig(config, a2)
    ensures a1 == a2
  {
    assert a1.Keys == a2.Keys;
  }
}
