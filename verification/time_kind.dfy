/** The kind of a time type (TimeKind.java): how recorded time counts. */
module TimeKindEnum {
  import TranslatableEnum

  datatype TimeKind = None | WorkingTime | Overtime | Holiday

  /** Every variant, in declaration order (Java's values()). */
  const Values: seq<TimeKind> := [None, WorkingTime, Overtime, Holiday]

  /** The persisted code (getEnumCode). */
  function Code(v: TimeKind): int {
    match v
    case None => 0
    case WorkingTime => 1
    case Overtime => 2
    case Holiday => 3
  }

  /** The name of the string resource holding the label (getTranslationId). */
  function TranslationKey(v: TimeKind): string {
    match v
    case None => "enum_time_kind_none"
    case WorkingTime => "enum_time_kind_working_time"
    case Overtime => "enum_time_kind_overtime"
    case Holiday => "enum_time_kind_holiday"
  }

  /** getTimeKindByCode: the variant carrying the code, or None when no
      variant carries it. */
  function ByCode(enumCode: int): (v: TimeKind)
    ensures Code(v) == enumCode || (v == None && forall w :: Code(w) != enumCode)
  {
    match enumCode
    case 1 => WorkingTime
    case 2 => Overtime
    case 3 => Holiday
    case _ => None
  }

  /** The instance method getByEnumCode: the receiver plays no part. */
  function GetByEnumCode(receiver: TimeKind, enumCode: int): (v: TimeKind)
    ensures v == ByCode(enumCode)
    ensures Code(v) == enumCode || v == None
  {
    ByCode(enumCode)
  }

  /** The variants offered to users (getVisibleValues): the sentinel is
      left out and the rest follow in code order. */
  function VisibleValues(): (vs: seq<TimeKind>)
    ensures None !in vs
    ensures forall i, j :: 0 <= i < j < |vs| ==> Code(vs[i]) < Code(vs[j])
    ensures |vs| == |Values| - 1
  {
    [WorkingTime, Overtime, Holiday]
  }

  /** A variant is offered to users exactly when it is not the sentinel. */
  lemma VisibleValuesAreNonSentinel()
    ensures forall v :: v in VisibleValues() <==> v != None
  {
    var vs := VisibleValues();
    forall v
      ensures v in vs <==> v != None
    {
      match v
      case None =>
      case WorkingTime => assert vs[0] == v;
      case Overtime => assert vs[1] == v;
      case Holiday => assert vs[2] == v;
    }
  }

  /** getTranslatedValue: the label through the variant's cache cell. */
  function TranslatedValue(v: TimeKind, cache: TranslatableEnum.LabelCache, getString: string -> string): (r: (string, TranslatableEnum.LabelCache))
    ensures cache.Resolved? ==> r.0 == cache.text
    ensures cache.Unresolved? ==> r.0 == getString(TranslationKey(v))
    ensures r.1 == TranslatableEnum.Resolved(r.0)
  {
    TranslatableEnum.CachedLabel(cache, TranslationKey(v), getString)
  }

  /** Values lists every variant exactly once. */
  lemma ValuesEnumerateFamily()
    ensures forall v :: v in Values
    ensures forall i, j :: 0 <= i < j < |Values| ==> Values[i] != Values[j]
  {
    forall v
      ensures v in Values
    {
      match v
      case None => assert Values[0] == v;
      case WorkingTime => assert Values[1] == v;
      case Overtime => assert Values[2] == v;
      case Holiday => assert Values[3] == v;
    }
  }

  /** TimeKind satisfies the shared codec contract with None as sentinel. */
  lemma IsTranslatableEnum()
    ensures TranslatableEnum.IsCodec(Code, ByCode, None)
  {
    forall c | forall v :: Code(v) != c
      ensures ByCode(c) == None
    {
      assert Code(ByCode(c)) != c;
    }
  }
}
