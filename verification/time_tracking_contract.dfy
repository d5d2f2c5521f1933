/** The behaviour-carrying part of the content-provider contract
    (TimeTrackingContract.java): the reserved ids, the encoding of boolean
    columns, and the helper that joins column lists. */
module TimeTrackingContract {
  import opened Wrappers
  import Decimal

  /** The id of an entry that was not found. */
  const NoId: int := -1

  /** The id of the "all" row of merged cursors; never stored. */
  const AllId: int := -1000

  /** The id of the "not assigned" row of merged cursors; never stored. */
  const NullId: int := -500

  const BoolTrue: int := 1
  const BoolTrueAsString: string := "1"
  const BoolFalse: int := 0
  const BoolFalseAsString: string := "0"

  /** The reserved ids cannot collide with a stored row id, which is
      positive, nor with each other. */
  lemma ReservedIdsNegativeAndDistinct()
    ensures NoId < 0 && AllId < 0 && NullId < 0
    ensures NoId != AllId && NoId != NullId && AllId != NullId
  {
  }

  /** The string forms of the boolean column values are the decimal text of
      their int forms, and true and false are told apart in both forms. */
  lemma BooleanFormsAgree()
    ensures Decimal.Digits(BoolTrue) == BoolTrueAsString
    ensures Decimal.Digits(BoolFalse) == BoolFalseAsString
    ensures Decimal.Value(BoolTrueAsString) == BoolTrue
    ensures Decimal.Value(BoolFalseAsString) == BoolFalse
    ensures BoolTrue != BoolFalse && BoolTrueAsString != BoolFalseAsString
  {
    Decimal.ValueOfDigits(BoolTrue);
    Decimal.ValueOfDigits(BoolFalse);
  }

  /** A Java String[]: the array itself may be null, and so may each
      element. */
  type StringArray = Option<seq<Option<string>>>

  /** No list to put first: null or empty. */
  predicate NoFirst(first: StringArray) {
    first.None? || |first.value| == 0
  }

  /** Nothing to add: null, empty, or a single null element (what a
      varargs call passing one null produces). */
  predicate NoParams(params: StringArray) {
    params.None? || |params.value| == 0 || (|params.value| == 1 && params.value[0].None?)
  }

  /** concatArrays: `params` when there is no first list, `first` when there
      is nothing to add, otherwise a new array holding the elements of
      `first` followed by those of `params`, in order, nulls included. */
  method ConcatArrays(first: StringArray, params: StringArray) returns (r: StringArray)
    ensures NoFirst(first) ==> r == params
    ensures !NoFirst(first) && NoParams(params) ==> r == first
    ensures !NoFirst(first) && !NoParams(params) ==>
      && r.Some?
      && |r.value| == |first.value| + |params.value|
      && r.value[..|first.value|] == first.value
      && r.value[|first.value|..] == params.value
    ensures r.Some? ==> forall x :: x in r.value ==>
      (first.Some? && x in first.value) || (params.Some? && x in params.value)
  {
    if NoFirst(first) {
      return params;
    }
    if NoParams(params) {
      return first;
    }
    var f, p := first.value, params.value;
    var joined := new Option<string>[|f| + |p|];
    var i := 0;
    while i < |f|
      invariant 0 <= i <= |f|
      invariant forall k :: 0 <= k < i ==> joined[k] == f[k]
    {
      joined[i] := f[i];
      i := i + 1;
    }
    var j := 0;
    while j < |p|
      invariant 0 <= j <= |p|
      invariant forall k :: 0 <= k < |f| ==> joined[k] == f[k]
      invariant forall k :: 0 <= k < j ==> joined[|f| + k] == p[k]
    {
      joined[|f| + j] := p[j];
      j := j + 1;
    }
    var s := joined[..];
    assert s[..|f|] == f;
    assert s[|f|..] == p;
    assert s == f + p;
    r := Some(s);
  }
}
