/** The kind of a report (ReportType.java): whether it yields a single value
    or a list. */
module ReportTypeEnum {
  import TranslatableEnum

  datatype ReportType = None | SingleValue | List

  /** Every variant, in declaration order (Java's values()). */
  const Values: seq<ReportType> := [None, SingleValue, List]

  /** The persisted code (getEnumCode). */
  function Code(v: ReportType): int {
    match v
    case None => 0
    case SingleValue => 1
    case List => 2
  }

  /** The name of the string resource holding the label (getTranslationId). */
  function TranslationKey(v: ReportType): string {
    match v
    case None => "enum_report_type_none"
    case SingleValue => "enum_report_type_single_value"
    case List => "enum_report_type_list"
  }

  /** getReportTypeByCode: the variant carrying the code, or None when no
      variant carries it. */
  function ByCode(enumCode: int): (v: ReportType)
    ensures Code(v) == enumCode || (v == None && forall w :: Code(w) != enumCode)
  {
    match enumCode
    case 1 => SingleValue
    case 2 => List
    case _ => None
  }

  /** The instance method getByEnumCode: the receiver plays no part. */
  function GetByEnumCode(receiver: ReportType, enumCode: int): (v: ReportType)
    ensures v == ByCode(enumCode)
    ensures Code(v) == enumCode || v == None
  {
    ByCode(enumCode)
  }

  /** The variants offered to users (getVisibleValues): the sentinel is
      left out and the rest follow in code order. */
  function VisibleValues(): (vs: seq<ReportType>)
    ensures None !in vs
    ensures forall i, j :: 0 <= i < j < |vs| ==> Code(vs[i]) < Code(vs[j])
    ensures |vs| == |Values| - 1
  {
    [SingleValue, List]
  }

  /** A variant is offered to users exactly when it is not the sentinel. */
  lemma VisibleValuesAreNonSentinel()
    ensures forall v :: v in VisibleValues() <==> v != None
  {
    var vs := VisibleValues();
    forall v
      ensures v in vs <==> v != None
    {
      match v
      case None =>
      case SingleValue => assert vs[0] == v;
      case List => assert vs[1] == v;
    }
  }

  /** getTranslatedValue: the label through the variant's cache cell. */
  function TranslatedValue(v: ReportType, cache: TranslatableEnum.LabelCache, getString: string -> string): (r: (string, TranslatableEnum.LabelCache))
    ensures cache.Resolved? ==> r.0 == cache.text
    ensures cache.Unresolved? ==> r.0 == getString(TranslationKey(v))
    ensures r.1 == TranslatableEnum.Resolved(r.0)
  {
    TranslatableEnum.CachedLabel(cache, TranslationKey(v), getString)
  }

  /** Values lists every variant exactly once. */
  lemma ValuesEnumerateFamily()
    ensures forall v :: v in Values
    ensures forall i, j :: 0 <= i < j < |Values| ==> Values[i] != Values[j]
  {
    forall v
      ensures v in Values
    {
      match v
      case None => assert Values[0] == v;
      case SingleValue => assert Values[1] == v;
      case List => assert Values[2] == v;
    }
  }

  /** ReportType satisfies the shared codec contract with None as
      sentinel. */
  lemma IsTranslatableEnum()
    ensures TranslatableEnum.IsCodec(Code, ByCode, None)
  {
    forall c | forall v :: Code(v) != c
      ensures ByCode(c) == None
    {
      assert Code(ByCode(c)) != c;
    }
  }
}
