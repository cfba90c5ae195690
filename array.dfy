/** Index replacement on a tuple (utils/array.ts). */
module ArrayUtil {
  import opened TypeLevel

  /**
   * `Replace<Arr, Idx, T, N>`: rebuilds the tuple, putting T at index Idx;
   * `n` is the index that `arr[0]` had in the original tuple.  When the
   * index is never met, the step at the last element returns `[]`, so the
   * last element is dropped; an empty tuple gives `never`.
   */
  function Replace<T>(arr: seq<T>, idx: int, t: T, n: int): (r: Ty<seq<T>>)
    ensures arr == [] ==> r == Never
    ensures arr != [] && n <= idx < n + |arr| ==> r == Val(arr[idx - n := t])
    ensures arr != [] && !(n <= idx < n + |arr|) ==> r == Val(arr[..|arr| - 1])
  {
    if arr == [] then Never
    else if n == idx then
      assert [t] + arr[1..] == arr[0 := t];
      Val([t] + arr[1..])
    else if |arr| == 1 then Val([])
    else
      match Replace(arr[1..], idx, t, n + 1)
      case Never => Never
      case Val(rest) =>
        assert n + 1 <= idx < n + |arr| ==> [arr[0]] + arr[1..][idx - n - 1 := t] == arr[idx - n := t];
        assert [arr[0]] + arr[1..][..|arr| - 2] == arr[..|arr| - 1];
        Val([arr[0]] + rest)
  }
}
