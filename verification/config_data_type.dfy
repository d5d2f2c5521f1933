/** The value type of a configuration entry (ConfigDataType.java). Unlike the
    other families it offers no list of visible values and does not cache its
    label. */
module ConfigDataTypeEnum {
  import TranslatableEnum

  datatype ConfigDataType = NotSet | String | Boolean | Integer | Long | Double | Float

  /** Every variant, in declaration order (Java's values()). */
  const Values: seq<ConfigDataType> := [NotSet, String, Boolean, Integer, Long, Double, Float]

  /** The persisted code (getEnumCode). */
  function Code(v: ConfigDataType): int {
    match v
    case NotSet => 0
    case String => 1
    case Boolean => 2
    case Integer => 3
    case Long => 4
    case Double => 5
    case Float => 6
  }

  /** The name of the string resource holding the label (getTranslationId). */
  function TranslationKey(v: ConfigDataType): string {
    match v
    case NotSet => "enum_config_data_type_not_set"
    case String => "enum_config_data_type_string"
    case Boolean => "enum_config_data_type_boolean"
    case Integer => "enum_config_data_type_integer"
    case Long => "enum_config_data_type_long"
    case Double => "enum_config_data_type_double"
    case Float => "enum_config_data_type_float"
  }

  /** getConfigDataTypeByCode: the variant carrying the code, or NotSet when
      no variant carries it. */
  function ByCode(enumCode: int): (v: ConfigDataType)
    ensures Code(v) == enumCode || (v == NotSet && forall w :: Code(w) != enumCode)
  {
    match enumCode
    case 1 => String
    case 2 => Boolean
    case 3 => Integer
    case 4 => Long
    case 5 => Double
    case 6 => Float
    case _ => NotSet
  }

  /** The instance method getByEnumCode: the receiver plays no part. */
  function GetByEnumCode(receiver: ConfigDataType, enumCode: int): (v: ConfigDataType)
    ensures v == ByCode(enumCode)
    ensures Code(v) == enumCode || v == NotSet
  {
    ByCode(enumCode)
  }

  /** getTranslatedValue: no cache, so every call asks the provider again. */
  function TranslatedValue(v: ConfigDataType, getString: string -> string): string {
    getString(TranslationKey(v))
  }

  /** Because nothing is cached, each call returns exactly what the provider
      passed to it gives for the variant's resource, so two providers that
      disagree on that resource give two different labels. */
  lemma LabelFollowsProvider(v: ConfigDataType, first: string -> string, second: string -> string)
    ensures TranslatedValue(v, first) == first(TranslationKey(v))
    ensures TranslatedValue(v, second) == second(TranslationKey(v))
    ensures first(TranslationKey(v)) != second(TranslationKey(v)) ==>
      TranslatedValue(v, first) != TranslatedValue(v, second)
  {
  }

  /** Values lists every variant exactly once. */
  lemma ValuesEnumerateFamily()
    ensures forall v :: v in Values
    ensures forall i, j :: 0 <= i < j < |Values| ==> Values[i] != Values[j]
  {
    forall v
      ensures v in Values
    {
      match v
      case NotSet => assert Values[0] == v;
      case String => assert Values[1] == v;
      case Boolean => assert Values[2] == v;
      case Integer => assert Values[3] == v;
      case Long => assert Values[4] == v;
      case Double => assert Values[5] == v;
      case Float => assert Values[6] == v;
    }
  }

  /** ConfigDataType satisfies the shared codec contract; its sentinel is
      NotSet, the variant with code 0. */
  lemma IsTranslatableEnum()
    ensures TranslatableEnum.IsCodec(Code, ByCode, NotSet)
  {
    forall c | forall v :: Code(v) != c
      ensures ByCode(c) == NotSet
    {
      assert Code(ByCode(c)) != c;
    }
  }
}
