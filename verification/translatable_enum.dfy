/** The contract every persisted enumeration shares (ITranslatableEnum.java):
    an integer code stored in the database, a decoder from codes that never
    fails, and a label looked up through the translation provider.

    The source expresses the contract as an interface; here it is a set of
    predicates over the encoder and decoder of a family, which each family
    module proves of itself. */
module TranslatableEnum {

  /** No two variants share a code. */
  ghost predicate CodesDistinct<E(!new)>(code: E -> int) {
    forall a, b :: code(a) == code(b) ==> a == b
  }

  /** Decoding the code of a variant gives the variant back. */
  ghost predicate DecodeInvertsCode<E(!new)>(code: E -> int, decode: int -> E) {
    forall v :: decode(code(v)) == v
  }

  /** The sentinel has code 0 and is what every unknown code decodes to. */
  ghost predicate FallsBackTo<E(!new)>(code: E -> int, decode: int -> E, sentinel: E) {
    && code(sentinel) == 0
    && forall c :: (forall v :: code(v) != c) ==> decode(c) == sentinel
  }

  /** The whole codec contract of one family. */
  ghost predicate IsCodec<E(!new)>(code: E -> int, decode: int -> E, sentinel: E) {
    && CodesDistinct(code)
    && DecodeInvertsCode(code, decode)
    && FallsBackTo(code, decode, sentinel)
  }

  /** Under the codec contract, decoding any integer yields either the variant
      carrying that code or the sentinel, and only code 0 belongs to the
      sentinel. */
  lemma DecodeIsExactOrSentinel<E(!new)>(code: E -> int, decode: int -> E, sentinel: E, c: int)
    requires IsCodec(code, decode, sentinel)
    ensures code(decode(c)) == c || decode(c) == sentinel
    ensures forall v :: code(v) == 0 ==> v == sentinel
  {
    if v :| code(v) == c {
      assert decode(code(v)) == v;
    }
  }

  /** The per-variant label cache of the source: a field that starts out
      null and, once filled, is never written again. */
  datatype LabelCache = Unresolved | Resolved(text: string)

  /** getTranslatedValue of a caching family: the provider (the Android
      context's getString) is asked only while the cache is empty; the answer
      is returned together with the cache state after the call. */
  function CachedLabel(cache: LabelCache, key: string, getString: string -> string): (r: (string, LabelCache))
    ensures r.1 == Resolved(r.0)
    ensures cache.Resolved? ==> r.0 == cache.text
    ensures cache.Unresolved? ==> r.0 == getString(key)
  {
    match cache
    case Resolved(text) => (text, cache)
    case Unresolved => (getString(key), Resolved(getString(key)))
  }

  /** The labels returned by successive calls, each with its own provider,
      threading the cache from one call to the next. */
  function LabelsOverCalls(cache: LabelCache, key: string, providers: seq<string -> string>): (labels: seq<string>)
    ensures |labels| == |providers|
    decreases |providers|
  {
    if |providers| == 0 then []
    else
      var (text, next) := CachedLabel(cache, key, providers[0]);
      [text] + LabelsOverCalls(next, key, providers[1..])
  }

  /** Whatever providers later calls pass, every call returns the label of the
      first one: the cached value when there was one, otherwise what the
      first provider answered. */
  lemma {:induction false} LabelResolvedOnce(cache: LabelCache, key: string, providers: seq<string -> string>)
    requires |providers| > 0
    ensures var labels := LabelsOverCalls(cache, key, providers);
      && labels[0] == (if cache.Resolved? then cache.text else providers[0](key))
      && forall i :: 0 <= i < |labels| ==> labels[i] == labels[0]
    decreases |providers|
  {
    var (text, next) := CachedLabel(cache, key, providers[0]);
    if |providers| > 1 {
      LabelResolvedOnce(next, key, providers[1..]);
    }
  }
}
