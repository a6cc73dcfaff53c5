/**
  The in-memory localization bundle: a dictionary from localization key to item,
  tagged with the platform it was written for, and its conversion from Android to
  iOS, which rewrites the string parameters of every value.
*/
module LocalizationMaps {
  import opened Wrappers
  import opened FormatSpecifiers

  /** The platform a localization was written for; string parameters differ between them. */
  datatype LocalizationType = Android | Ios

  /** Grammatical plural categories. */
  datatype PluralType = Zero | One | Two | Few | Many | Other

  /** A translatable unit: one string, or one string per plural category. */
  datatype LocalizationItem =
    | String(value: string)
    | Plurals(values: map<PluralType, string>)

  type Localizations = map<string, LocalizationItem>

  /** Every variant of a plural group, with its string parameters rewritten for iOS. */
  function ConvertedPlurals(plurals: map<PluralType, string>): map<PluralType, string> {
    map t | t in plurals :: ReplaceStringParameters(plurals[t])
  }

  /** An item with its string parameters rewritten for iOS; the shape of the item is kept. */
  function ConvertedItem(item: LocalizationItem): LocalizationItem {
    match item
    case String(value) => String(ReplaceStringParameters(value))
    case Plurals(values) => Plurals(ConvertedPlurals(values))
  }

  /** Every item of a dictionary, converted for iOS under the same key. */
  function ConvertedLocalizations(localizations: Localizations): Localizations {
    map key | key in localizations :: ConvertedItem(localizations[key])
  }

  /** No string of the item holds a `%…s` string parameter. */
  predicate ItemHasNoSpecifier(item: LocalizationItem) {
    match item
    case String(value) => ContainsNoSpecifier(value)
    case Plurals(values) => forall t :: t in values ==> ContainsNoSpecifier(values[t])
  }

  /** The plural helper `convert(_:using:)`: builds the converted plurals entry by entry. */
  method ConvertPlurals(plurals: map<PluralType, string>) returns (convertedPlurals: map<PluralType, string>)
    ensures convertedPlurals == ConvertedPlurals(plurals)
  {
    convertedPlurals := map[];
    var remaining := plurals.Keys;
    while remaining != {}
      invariant remaining <= plurals.Keys
      invariant convertedPlurals.Keys == plurals.Keys - remaining
      invariant forall t :: t in convertedPlurals ==> convertedPlurals[t] == ReplaceStringParameters(plurals[t])
      decreases remaining
    {
      var t :| t in remaining;
      convertedPlurals := convertedPlurals[t := ReplaceStringParameters(plurals[t])];
      remaining := remaining - {t};
    }
  }

  /** The dictionary helper `convert(_:using:)`: builds the iOS dictionary entry by entry. */
  method ConvertLocalizations(localizations: Localizations) returns (iOSLocalizations: Localizations)
    ensures iOSLocalizations == ConvertedLocalizations(localizations)
  {
    iOSLocalizations := map[];
    var remaining := localizations.Keys;
    while remaining != {}
      invariant remaining <= localizations.Keys
      invariant iOSLocalizations.Keys == localizations.Keys - remaining
      invariant forall key :: key in iOSLocalizations ==> iOSLocalizations[key] == ConvertedItem(localizations[key])
      decreases remaining
    {
      var key :| key in remaining;
      var convertedItem: LocalizationItem;
      match localizations[key] {
        case String(value) =>
          convertedItem := String(ReplaceStringParameters(value));
        case Plurals(plurals) =>
          var convertedPlurals := ConvertPlurals(plurals);
          convertedItem := Plurals(convertedPlurals);
      }
      iOSLocalizations := iOSLocalizations[key := convertedItem];
      remaining := remaining - {key};
    }
  }

  /**
    Conversion keeps every key and the shape of every item: a string stays a string
    with its value rewritten, a plural group keeps its categories and has each
    variant rewritten.
  */
  lemma ConversionPreservesShape(localizations: Localizations)
    ensures ConvertedLocalizations(localizations).Keys == localizations.Keys
    ensures forall key :: key in localizations && localizations[key].String? ==>
      ConvertedLocalizations(localizations)[key] == String(ReplaceStringParameters(localizations[key].value))
    ensures forall key :: key in localizations && localizations[key].Plurals? ==>
      && ConvertedLocalizations(localizations)[key].Plurals?
      && ConvertedLocalizations(localizations)[key].values.Keys == localizations[key].values.Keys
      && forall t :: t in localizations[key].values ==>
        ConvertedLocalizations(localizations)[key].values[t] == ReplaceStringParameters(localizations[key].values[t])
  {
  }

  /** After conversion no string of any item holds a `%…s` string parameter any more. */
  lemma ConvertedItemsHaveNoSpecifier(localizations: Localizations)
    ensures forall key :: key in ConvertedLocalizations(localizations) ==>
      ItemHasNoSpecifier(ConvertedLocalizations(localizations)[key])
  {
    forall key | key in localizations
      ensures ItemHasNoSpecifier(ConvertedItem(localizations[key]))
    {
      match localizations[key]
      case String(value) =>
        RewrittenContainsNoSpecifier(value);
      case Plurals(values) =>
        forall t | t in values
          ensures ContainsNoSpecifier(ConvertedPlurals(values)[t])
        {
          RewrittenContainsNoSpecifier(values[t]);
        }
    }
  }

  /** Converting an already converted dictionary changes nothing. */
  lemma ConversionIdempotent(localizations: Localizations)
    ensures ConvertedLocalizations(ConvertedLocalizations(localizations)) == ConvertedLocalizations(localizations)
  {
    var once := ConvertedLocalizations(localizations);
    forall key | key in localizations
      ensures ConvertedItem(once[key]) == once[key]
    {
      match localizations[key]
      case String(value) =>
        ReplaceIdempotent(value);
      case Plurals(values) =>
        var p := ConvertedPlurals(values);
        forall t | t in values
          ensures ReplaceStringParameters(p[t]) == p[t]
        {
          ReplaceIdempotent(values[t]);
        }
        assert ConvertedPlurals(p) == p;
    }
  }

  /** Conversion leaves an item unchanged exactly when none of its strings holds a `%…s` parameter. */
  lemma ItemUnchangedIffNoSpecifier(item: LocalizationItem)
    ensures ConvertedItem(item) == item <==> ItemHasNoSpecifier(item)
  {
    match item
    case String(value) =>
      ReplaceIdentityIffNoSpecifier(value);
    case Plurals(values) =>
      forall t | t in values
        ensures ReplaceStringParameters(values[t]) == values[t] <==> ContainsNoSpecifier(values[t])
      {
        ReplaceIdentityIffNoSpecifier(values[t]);
      }
      if ConvertedItem(item) == item {
        forall t | t in values
          ensures ContainsNoSpecifier(values[t])
        {
          assert ConvertedPlurals(values)[t] == values[t];
        }
      }
  }

  /** Conversion leaves a dictionary unchanged exactly when none of its strings holds a `%…s` parameter. */
  lemma ConversionUnchangedIffNoSpecifier(localizations: Localizations)
    ensures ConvertedLocalizations(localizations) == localizations <==>
      forall key :: key in localizations ==> ItemHasNoSpecifier(localizations[key])
  {
    forall key | key in localizations
      ensures ConvertedItem(localizations[key]) == localizations[key] <==> ItemHasNoSpecifier(localizations[key])
    {
      ItemUnchangedIffNoSpecifier(localizations[key]);
    }
    if ConvertedLocalizations(localizations) == localizations {
      forall key | key in localizations
        ensures ItemHasNoSpecifier(localizations[key])
      {
        assert ConvertedLocalizations(localizations)[key] == localizations[key];
      }
    }
  }

  /** Two dictionaries are equal exactly when every key looks up the same optional item. */
  lemma EqualIffSameLookups(left: Localizations, right: Localizations)
    ensures left == right <==> forall key :: Lookup(left, key) == Lookup(right, key)
  {
    if forall key :: Lookup(left, key) == Lookup(right, key) {
      assert left.Keys == right.Keys by {
        forall key | key in left ensures key in right { assert Lookup(left, key).Some?; }
        forall key | key in right ensures key in left { assert Lookup(right, key).Some?; }
      }
      forall key | key in left ensures left[key] == right[key] {
        assert Lookup(left, key) == Lookup(right, key);
      }
    }
  }

  /** `LocalizationMap`: a dictionary of localizations for one platform, updated in place through its subscript. */
  class LocalizationMap {
    const localizationType: LocalizationType
    var localizations: Localizations

    /** `init(type:)`: an empty map. */
    constructor (localizationType: LocalizationType)
      ensures this.localizationType == localizationType
      ensures localizations == map[]
    {
      this.localizationType := localizationType;
      localizations := map[];
    }

    /** `init(type:dictionary:)`: every value of a plain dictionary becomes a string item under its key. */
    constructor FromDictionary(localizationType: LocalizationType, dictionary: map<string, string>)
      ensures this.localizationType == localizationType
      ensures localizations.Keys == dictionary.Keys
      ensures forall key :: key in dictionary ==> localizations[key] == String(dictionary[key])
    {
      this.localizationType := localizationType;
      localizations := map[];
      new;
      var remaining := dictionary.Keys;
      while remaining != {}
        invariant remaining <= dictionary.Keys
        invariant localizations.Keys == dictionary.Keys - remaining
        invariant forall key :: key in localizations ==> localizations[key] == String(dictionary[key])
        decreases remaining
      {
        var key :| key in remaining;
        localizations := localizations[key := String(dictionary[key])];
        remaining := remaining - {key};
      }
    }

    /** `init(type:localizationsDictionary:)`: a map holding exactly the given items. */
    constructor FromLocalizations(localizationType: LocalizationType, localizationsDictionary: Localizations)
      ensures this.localizationType == localizationType
      ensures localizations == localizationsDictionary
    {
      this.localizationType := localizationType;
      localizations := localizationsDictionary;
    }

    /** Subscript getter: the item stored under `key`, or nil. */
    function Get(key: string): (item: Option<LocalizationItem>)
      reads this
      ensures item.Some? <==> key in localizations
      ensures item.Some? ==> item.value == localizations[key]
    {
      Lookup(localizations, key)
    }

    /**
      Subscript setter: nil removes the key, any other value is stored under it;
      every other key keeps its item.
    */
    method Set(key: string, newValue: Option<LocalizationItem>)
      modifies this
      ensures Get(key) == newValue
      ensures forall other :: other != key ==> Get(other) == old(Get(other))
      ensures newValue.None? ==> Count() == if key in old(localizations) then old(Count()) - 1 else old(Count())
      ensures newValue.Some? ==> Count() == if key in old(localizations) then old(Count()) else old(Count()) + 1
    {
      if newValue.None? {
        localizations := localizations - {key};
        return;
      }
      localizations := localizations[key := newValue.value];
    }

    /** `keys`: every stored key exactly once, in no particular order. */
    method Keys() returns (keys: seq<string>)
      ensures forall key :: key in keys <==> key in localizations
      ensures forall i, j :: 0 <= i < j < |keys| ==> keys[i] != keys[j]
      ensures |keys| == Count()
    {
      keys := [];
      var remaining := localizations.Keys;
      while remaining != {}
        invariant remaining <= localizations.Keys
        invariant forall key :: key in keys <==> key in localizations && key !in remaining
        invariant forall i, j :: 0 <= i < j < |keys| ==> keys[i] != keys[j]
        invariant |keys| + |remaining| == |localizations.Keys|
        decreases remaining
      {
        var key :| key in remaining;
        keys := keys + [key];
        remaining := remaining - {key};
      }
    }

    /** `count`: the number of stored keys. */
    function Count(): (n: nat)
      reads this
      ensures n == |localizations.Keys|
      ensures n == 0 <==> localizations == map[]
    {
      |localizations|
    }

    /** `==`: same platform and, key by key, the same stored item. */
    function Equals(other: LocalizationMap): (r: bool)
      reads this, other
      ensures r <==> localizationType == other.localizationType && forall key :: Get(key) == other.Get(key)
    {
      EqualIffSameLookups(localizations, other.localizations);
      assert forall key :: Get(key) == Lookup(localizations, key);
      assert forall key :: other.Get(key) == Lookup(other.localizations, key);
      localizationType == other.localizationType && localizations == other.localizations
    }

    /**
      `convertedLocalization(to:)`: a copy of this map when it already has the target
      type, otherwise its conversion to iOS. Converting to Android from another type
      stops the program, so callers must not ask for it.
    */
    method ConvertedLocalization(to: LocalizationType) returns (converted: LocalizationMap)
      requires to == localizationType || to == Ios
      ensures fresh(converted)
      ensures converted.localizationType == to
      ensures to == localizationType ==> converted.localizations == localizations
      ensures to != localizationType ==> converted.localizations == ConvertedLocalizations(localizations)
      ensures converted.localizations.Keys == localizations.Keys
    {
      if to == localizationType {
        converted := new LocalizationMap.FromLocalizations(localizationType, localizations);
        return;
      }
      var iOSLocalizations := ConvertLocalizations(localizations);
      ConversionPreservesShape(localizations);
      converted := new LocalizationMap.FromLocalizations(Ios, iOSLocalizations);
    }
  }
}
