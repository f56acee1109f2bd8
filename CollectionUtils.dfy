/** `CollectionUtils.createFilledList`: a list of a given length holding one
    value in every slot, built from `Collections.nCopies`. */
module CollectionUtils {
  import opened Wrappers
  import opened Exceptions

  /** `count` copies of `value`; `nCopies` rejects a negative length. */
  function CreateFilledList<T>(count: int, value: T): (r: Result<seq<T>, Exception>)
    ensures r.Failure? <==> count < 0
    ensures r.Failure? ==> r.error == IllegalArgument(count)
    ensures r.Success? ==> |r.value| == count
    ensures r.Success? ==> forall i :: 0 <= i < |r.value| ==> r.value[i] == value
  {
    if count < 0 then Failure(IllegalArgument(count)) else Success(seq(count, _ => value))
  }

  /** The one-argument overload: a list of `count` nulls. */
  function CreateNullFilledList<T>(count: int): (r: Result<seq<Option<T>>, Exception>)
    ensures r == CreateFilledList<Option<T>>(count, None)
    ensures r.Failure? <==> count < 0
    ensures r.Success? ==> |r.value| == count && forall i :: 0 <= i < |r.value| ==> r.value[i].None?
  {
    CreateFilledList<Option<T>>(count, None)
  }
}
