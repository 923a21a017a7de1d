/** Small value types shared by the whole model: an optional value, a
    success-or-error result, and the unsigned byte of the output buffer. */
module Wrappers {

  /** Rust's `Option<T>`. */
  datatype Option<+T> = None | Some(value: T)

  /** Rust's `Result<T, E>`; here the error is a panic the source would raise. */
  datatype Result<+T, +E> = Ok(value: T) | Err(error: E)

  /** Rust's `u8`. */
  type Byte = b: int | 0 <= b < 256

  /** Concatenation of a sequence of sequences (Rust's `flatten` of slices). */
  function Concat<T>(ss: seq<seq<T>>): seq<T>
  {
    if ss == [] then [] else ss[0] + Concat(ss[1..])
  }

  lemma {:induction false} ConcatAppend<T>(a: seq<seq<T>>, b: seq<seq<T>>)
    ensures Concat(a + b) == Concat(a) + Concat(b)
  {
    if a == [] {
      assert a + b == b;
    } else {
      assert (a + b)[1..] == a[1..] + b;
      ConcatAppend(a[1..], b);
    }
  }

  /** Taking one batch out of the middle of a list of batches removes exactly
      its elements from the multiset of everything still listed. */
  lemma {:induction false} ConcatRemove<T>(ss: seq<seq<T>>, k: nat)
    requires k < |ss|
    ensures multiset(Concat(ss)) == multiset(Concat(ss[..k] + ss[k+1..])) + multiset(ss[k])
  {
    var pre, mid, post := ss[..k], [ss[k]], ss[k+1..];
    assert ss == (pre + mid) + post;
    ConcatAppend(pre + mid, post);
    ConcatAppend(pre, mid);
    ConcatAppend(pre, post);
    assert Concat(mid) == ss[k] + Concat(mid[1..]);
    assert Concat(ss) == Concat(pre) + ss[k] + Concat(post);
  }

  /** The set of elements of a sequence. */
  ghost function Elems<T>(s: seq<T>): set<T>
  {
    set x | x in s
  }

  /** No element occurs twice. */
  ghost predicate Distinct<T>(s: seq<T>)
  {
    forall i, j :: 0 <= i < j < |s| ==> s[i] != s[j]
  }

  /** In a sequence without repetitions every element occurs exactly once. */
  lemma {:induction false} DistinctCount<T>(s: seq<T>, x: T)
    requires Distinct(s)
    ensures x in s ==> multiset(s)[x] == 1
    ensures x !in s ==> multiset(s)[x] == 0
  {
    if s != [] {
      assert s == [s[0]] + s[1..];
      assert Distinct(s[1..]) by {
        forall i, j | 0 <= i < j < |s[1..]| ensures s[1..][i] != s[1..][j] {
          assert s[1..][i] == s[i + 1] && s[1..][j] == s[j + 1];
        }
      }
      DistinctCount(s[1..], x);
      if x == s[0] {
        assert x !in s[1..] by {
          forall k | 0 <= k < |s[1..]| ensures s[1..][k] != x {
            assert s[1..][k] == s[k + 1];
          }
        }
      }
    }
  }
}
