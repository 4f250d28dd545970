/**
 * `arguments`: the process's argument vector, one pointer per argument
 * followed by a null pointer.  The capture of the vector at process start is
 * outside the model; here it is a value.
 */
module Arguments {
  import opened Wrappers
  import opened PtrArray

  /** `std::out_of_range("invalid arguments subscript")`. */
  datatype OutOfRange = OutOfRange

  /** `args_vector()`: the vector `argv()` points into.  It always holds at
      least its last slot. */
  datatype Args = Args(vec: seq<Slot>)

  /** The shape `initialize_args` builds: `argc + 1` slots, the first `argc`
      holding the arguments and the last the null pointer. */
  predicate Terminated(a: Args)
    ensures Terminated(a) ==> HasNull(a.vec) && FirstNull(a.vec) == |a.vec| - 1
  {
    |a.vec| >= 1 && a.vec[|a.vec| - 1] == None &&
    forall i :: 0 <= i < |a.vec| - 1 ==> a.vec[i].Some?
  }

  /** `argc()`: one less than the vector's size, so the null slot is not
      counted. */
  function Argc(a: Args): (n: int)
    ensures Terminated(a) ==> n == |Entries(a.vec)|
  {
    |a.vec| - 1
  }

  /** `size()`, which is `argc()` as a `size_t`. */
  function Size(a: Args): (n: nat)
    requires |a.vec| >= 1
    ensures n == Argc(a)
    ensures Terminated(a) ==> n == |Entries(a.vec)|
  {
    |a.vec| - 1
  }

  /** `operator[]`: unchecked, so the index must be in range. */
  function Get(a: Args, i: nat): (r: Slot)
    requires |a.vec| >= 1 && i < Size(a)
    ensures At(a, i) == Success(r)
    ensures Terminated(a) ==> r == Some(Entries(a.vec)[i])
  {
    a.vec[i]
  }

  /** `at(i)`: throws exactly when `i >= size()`, else `argv()[i]`. */
  function At(a: Args, i: nat): (r: Result<Slot, OutOfRange>)
    requires |a.vec| >= 1
    ensures r.Failure? <==> i >= Size(a)
    ensures r.Success? ==> r.value == a.vec[i]
    ensures r.Success? && Terminated(a) ==> r.value == Some(Entries(a.vec)[i])
  {
    if i >= Size(a) then Failure(OutOfRange) else Success(a.vec[i])
  }

  /** `empty()`. */
  predicate Empty(a: Args)
    requires |a.vec| >= 1
    ensures Terminated(a) ==> (Empty(a) <==> Entries(a.vec) == [])
  {
    Size(a) == 0
  }

  /** `cend()` is `argv() + argc()`, as an offset into the vector: the null
      slot of the vector. */
  function CEnd(a: Args): (e: nat)
    requires |a.vec| >= 1
    ensures e < |a.vec|
    ensures Terminated(a) ==> e == FirstNull(a.vec) && a.vec[e] == None
  {
    |a.vec| - 1
  }

  /** `cbegin()` is `argv()`, as an offset into the vector: the first
      argument, or the end itself when there are none. */
  function CBegin(a: Args): (b: nat)
    requires |a.vec| >= 1
    ensures b <= CEnd(a)
    ensures b == CEnd(a) <==> Empty(a)
    ensures Terminated(a) && !Empty(a) ==> a.vec[b] == Some(Entries(a.vec)[0])
  {
    0
  }

  /** What `[first, last)` yields. */
  function Range(a: Args, first: nat, last: nat): seq<Slot>
    requires first <= last <= |a.vec|
  {
    a.vec[first..last]
  }

  /** What the reverse iterators yield from `it` down to `rend()`: each step
      reads the element before the underlying position. */
  function RevFrom<T>(s: seq<T>, it: nat): (r: seq<T>)
    requires it <= |s|
    ensures |r| == it
    ensures forall i :: 0 <= i < it ==> r[i] == s[it - 1 - i]
  {
    if it == 0 then [] else [s[it - 1]] + RevFrom(s, it - 1)
  }

  /** `[rbegin(), rend())`: starts at `cend()`. */
  function Reversed(a: Args): (r: seq<Slot>)
    requires |a.vec| >= 1
    ensures |r| == Size(a)
    ensures forall i :: 0 <= i < |r| ==> r[i] == a.vec[Size(a) - 1 - i]
    ensures Terminated(a) ==> forall i :: 0 <= i < |r| ==> r[i] == Some(Entries(a.vec)[Size(a) - 1 - i])
  {
    RevFrom(a.vec, CEnd(a))
  }

  /** The full forward range is the arguments, without the null slot, and
      reversing the reverse range gives it back. */
  lemma ReverseOfReverse(a: Args)
    requires Terminated(a)
    ensures CEnd(a) - CBegin(a) == Size(a)
    ensures |Range(a, CBegin(a), CEnd(a))| == Size(a)
    ensures forall i :: 0 <= i < Size(a) ==> Range(a, CBegin(a), CEnd(a))[i] == Some(Entries(a.vec)[i])
    ensures |Reversed(a)| == Size(a)
    ensures RevFrom(Reversed(a), |Reversed(a)|) == Range(a, CBegin(a), CEnd(a))
  {
  }
}
