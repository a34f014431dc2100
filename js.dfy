/** The few JavaScript operations the controllers lean on, stated over Dafny values:
    `a || b` on request fields, `Array.prototype.filter` with `!==`, and
    `Array.prototype.toString` (which joins the elements with commas). */
module Js {

  /** `given || current` for a string field of a request body. The empty string is
      falsy, and an absent field (undefined) behaves the same way, so the model writes
      an absent field as "". */
  function Or(given: string, current: string): string
  {
    if given != "" then given else current
  }

  /** `given || current` for a numeric field: 0 (and an absent field, written 0) is falsy. */
  function OrNumber(given: int, current: int): int
  {
    if given != 0 then given else current
  }

  /** `s.filter(e => e.toString() !== x)`: every occurrence of `x` dropped, the rest kept in order. */
  function Without<T(==)>(s: seq<T>, x: T): seq<T>
  {
    if s == [] then [] else (if s[0] == x then [] else [s[0]]) + Without(s[1..], x)
  }

  /** Filtering keeps every other element with its multiplicity and drops all copies of `x`. */
  lemma {:induction false} WithoutCounts<T>(s: seq<T>, x: T)
    ensures multiset(Without(s, x)) == multiset(s)[x := 0]
  {
    if s != [] {
      WithoutCounts(s[1..], x);
      assert s == [s[0]] + s[1..];
      assert multiset(s) == multiset{s[0]} + multiset(s[1..]);
    }
  }

  lemma WithoutMembership<T>(s: seq<T>, x: T, y: T)
    ensures y in Without(s, x) <==> y in s && y != x
  {
    WithoutCounts(s, x);
    assert y in Without(s, x) <==> y in multiset(Without(s, x));
    assert y in s <==> y in multiset(s);
  }

  /** Filtering out an element that is not there changes nothing. */
  lemma {:induction false} WithoutAbsent<T>(s: seq<T>, x: T)
    requires x !in s
    ensures Without(s, x) == s
  {
    if s != [] {
      WithoutAbsent(s[1..], x);
      assert s == [s[0]] + s[1..];
    }
  }

  /** Filtering twice is filtering once. */
  lemma WithoutIdempotent<T>(s: seq<T>, x: T)
    ensures Without(Without(s, x), x) == Without(s, x)
  {
    WithoutMembership(s, x, x);
    WithoutAbsent(Without(s, x), x);
  }

  /** `list.toString()` for a list of ids: the elements joined with ",". */
  function Join(l: seq<string>): string
  {
    if |l| == 0 then "" else if |l| == 1 then l[0] else l[0] + "," + Join(l[1..])
  }

  /** An id as the store prints it: a 24-digit hexadecimal ObjectId is non-empty and has no comma. */
  predicate PlainId(x: string)
  {
    x != "" && ',' !in x
  }

  lemma JoinOfSeveralHasComma(l: seq<string>)
    requires |l| >= 2
    ensures ',' in Join(l)
  {
    var j := Join(l);
    assert j == l[0] + "," + Join(l[1..]);
    assert j[|l[0]|] == ',';
  }

  /** Comparing `list.toString()` with one plain id succeeds exactly when the list is that id alone. */
  lemma JoinMatchesOnlySingleton(l: seq<string>, h: string)
    requires PlainId(h)
    requires forall k :: 0 <= k < |l| ==> PlainId(l[k])
    ensures Join(l) == h <==> l == [h]
  {
    if |l| >= 2 {
      JoinOfSeveralHasComma(l);
    }
  }
}
