/**
 What several components use: optional values, bytes, and filtering a sequence.
 */
module Common {
  datatype Option<T> = None | Some(value: T)

  newtype Byte = b: int | 0 <= b < 256

  /** The elements that satisfy `keep`, in order. */
  function Filter<T>(s: seq<T>, keep: T -> bool): seq<T> {
    if s == [] then [] else FilterOne(s[0], keep) + Filter(s[1..], keep)
  }

  function FilterOne<T>(x: T, keep: T -> bool): seq<T> {
    if keep(x) then [x] else []
  }

  lemma FilterStep<T>(s: seq<T>, keep: T -> bool)
    requires s != []
    ensures Filter(s, keep) == FilterOne(s[0], keep) + Filter(s[1..], keep)
  {
  }

  lemma {:induction false} FilterConcat<T>(a: seq<T>, b: seq<T>, keep: T -> bool)
    ensures Filter(a + b, keep) == Filter(a, keep) + Filter(b, keep)
  {
    hide FilterOne;
    if a == [] {
      assert a + b == b;
    } else {
      hide Filter;
      FilterConcat(a[1..], b, keep);
      FilterStep(a, keep);
      FilterStep(a + b, keep);
      assert (a + b)[1..] == a[1..] + b && (a + b)[0] == a[0];
    }
  }

  lemma {:induction false} FilterNone<T>(s: seq<T>, keep: T -> bool)
    requires forall x :: x in s ==> !keep(x)
    ensures Filter(s, keep) == []
  {
    if s != [] {
      FilterNone(s[1..], keep);
    }
  }

  lemma {:induction false} FilterKeeps<T>(s: seq<T>, keep: T -> bool, x: T)
    ensures x in Filter(s, keep) <==> x in s && keep(x)
  {
    if s != [] {
      assert s == [s[0]] + s[1..];
      FilterKeeps(s[1..], keep, x);
    }
  }
}
