/** How a pause definition is specified (PauseDefinitionType.java): by the
    time of day it starts, or by the working duration after which it is due. */
module PauseDefinitionTypeEnum {
  import TranslatableEnum

  datatype PauseDefinitionType = None | TimeBased | DurationBased

  /** Every variant, in declaration order (Java's values()). */
  const Values: seq<PauseDefinitionType> := [None, TimeBased, DurationBased]

  /** The persisted code (getEnumCode). */
  function Code(v: PauseDefinitionType): int {
    match v
    case None => 0
    case TimeBased => 1
    case DurationBased => 2
  }

  /** The name of the string resource holding the label (getTranslationId). */
  function TranslationKey(v: PauseDefinitionType): string {
    match v
    case None => "enum_pause_definition_type_none"
    case TimeBased => "enum_pause_definition_type_time_based"
    case DurationBased => "enum_pause_definition_type_duration_based"
  }

  /** getPauseDefinitionTypeByCode: the variant carrying the code, or None
      when no variant carries it. */
  function ByCode(enumCode: int): (v: PauseDefinitionType)
    ensures Code(v) == enumCode || (v == None && forall w :: Code(w) != enumCode)
  {
    match enumCode
    case 1 => TimeBased
    case 2 => DurationBased
    case _ => None
  }

  /** The instance method getByEnumCode: the receiver plays no part. */
  function GetByEnumCode(receiver: PauseDefinitionType, enumCode: int): (v: PauseDefinitionType)
    ensures v == ByCode(enumCode)
    ensures Code(v) == enumCode || v == None
  {
    ByCode(enumCode)
  }

  /** The variants offered to users (getVisibleValues): the sentinel is
      left out and the rest follow in code order. */
  function VisibleValues(): (vs: seq<PauseDefinitionType>)
    ensures None !in vs
    ensures forall i, j :: 0 <= i < j < |vs| ==> Code(vs[i]) < Code(vs[j])
    ensures |vs| == |Values| - 1
  {
    [TimeBased, DurationBased]
  }

  /** A variant is offered to users exactly when it is not the sentinel. */
  lemma VisibleValuesAreNonSentinel()
    ensures forall v :: v in VisibleValues() <==> v != None
  {
    var vs := VisibleValues();
    forall v
      ensures v in vs <==> v != None
    {
      match v
      case None =>
      case TimeBased => assert vs[0] == v;
      case DurationBased => assert vs[1] == v;
    }
  }

  /** getTranslatedValue: the label through the variant's cache cell. */
  function TranslatedValue(v: PauseDefinitionType, cache: TranslatableEnum.LabelCache, getString: string -> string): (r: (string, TranslatableEnum.LabelCache))
    ensures cache.Resolved? ==> r.0 == cache.text
    ensures cache.Unresolved? ==> r.0 == getString(TranslationKey(v))
    ensures r.1 == TranslatableEnum.Resolved(r.0)
  {
    TranslatableEnum.CachedLabel(cache, TranslationKey(v), getString)
  }

  /** Values lists every variant exactly once. */
  lemma ValuesEnumerateFamily()
    ensures forall v :: v in Values
    ensures forall i, j :: 0 <= i < j < |Values| ==> Values[i] != Values[j]
  {
    forall v
      ensures v in Values
    {
      match v
      case None => assert Values[0] == v;
      case TimeBased => assert Values[1] == v;
      case DurationBased => assert Values[2] == v;
    }
  }

  /** PauseDefinitionType satisfies the shared codec contract with None as
      sentinel. */
  lemma IsTranslatableEnum()
    ensures TranslatableEnum.IsCodec(Code, ByCode, None)
  {
    forall c | forall v :: Code(v) != c
      ensures ByCode(c) == None
    {
      assert Code(ByCode(c)) != c;
    }
  }
}
