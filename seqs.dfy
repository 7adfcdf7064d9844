/** Python list comprehensions with an `if` clause: `[x for x in s if keep(x)]`. */
module Seqs {

  /** The set of the elements of `s`: Python's `set(s)`. */
  function Elements<T>(s: seq<T>): set<T>
  {
    set x | x in s
  }

  /** The elements of `s` that satisfy `keep`, in their order in `s`, repetitions kept. */
  function Filter<T>(keep: T -> bool, s: seq<T>): (r: seq<T>)
    ensures |r| <= |s|
    ensures forall i :: 0 <= i < |r| ==> r[i] in s && keep(r[i])
    ensures forall i :: 0 <= i < |s| && keep(s[i]) ==> s[i] in r
  {
    if s == [] then []
    else (if keep(s[0]) then [s[0]] else []) + Filter(keep, s[1..])
  }

  /** Filtering a concatenation filters each part and keeps them in order: the
      comprehension preserves the order of its input. */
  lemma {:induction false} FilterAppend<T>(keep: T -> bool, a: seq<T>, b: seq<T>)
    ensures Filter(keep, a + b) == Filter(keep, a) + Filter(keep, b)
  {
    if a == [] {
      assert a + b == b;
    } else {
      assert (a + b)[1..] == a[1..] + b;
      FilterAppend(keep, a[1..], b);
    }
  }

  /** Appending one element extends the filtered list by that element exactly when it is kept. */
  lemma FilterSnoc<T>(keep: T -> bool, s: seq<T>, x: T)
    ensures Filter(keep, s + [x]) == Filter(keep, s) + (if keep(x) then [x] else [])
  {
    FilterAppend(keep, s, [x]);
    assert Filter(keep, [x]) == (if keep(x) then [x] else []) + Filter(keep, []);
  }

  /** When every element is kept, the filter returns its input unchanged. */
  lemma {:induction false} FilterAll<T>(keep: T -> bool, s: seq<T>)
    requires forall i :: 0 <= i < |s| ==> keep(s[i])
    ensures Filter(keep, s) == s
  {
    if s != [] {
      FilterAll(keep, s[1..]);
    }
  }
}
