/**
 * Lists of records identified by a string id (`imdbID` in the source).
 * The source's `some`, `find` and `filter` over such lists are defined here
 * once, for any record type `T` and its id accessor `key`.
 */
module Keyed {
  import opened Wrappers

  /** Some element of `s` has id `id` (`s.some((m) => m.imdbID === id)`). */
  predicate Has<T>(s: seq<T>, key: T -> string, id: string) {
    exists i :: 0 <= i < |s| && key(s[i]) == id
  }

  /** No id occurs twice in `s`. */
  predicate Unique<T>(s: seq<T>, key: T -> string) {
    forall i, j :: 0 <= i < j < |s| ==> key(s[i]) != key(s[j])
  }

  /** The first element of `s` with id `id` (`s.find((m) => m.imdbID === id)`). */
  function Find<T>(s: seq<T>, key: T -> string, id: string): (r: Option<T>)
    ensures r.Some? <==> Has(s, key, id)
    ensures r.Some? ==> r.value in s && key(r.value) == id
  {
    if s == [] then None
    else if key(s[0]) == id then Some(s[0])
    else
      HasCons(s, key);
      Find(s[1..], key, id)
  }

  /** `s` without the elements whose id is `id`, in their original order (`s.filter((m) => m.imdbID !== id)`). */
  function Without<T>(s: seq<T>, key: T -> string, id: string): (r: seq<T>)
    ensures forall i :: 0 <= i < |r| ==> r[i] in s && key(r[i]) != id
    ensures forall i :: 0 <= i < |s| && key(s[i]) != id ==> s[i] in r
    ensures forall other :: Has(r, key, other) <==> Has(s, key, other) && other != id
    ensures |r| <= |s|
    ensures !Has(s, key, id) ==> r == s
  {
    if s == [] then []
    else
      var rest := Without(s[1..], key, id);
      HasCons(s, key);
      var r := if key(s[0]) == id then rest else [s[0]] + rest;
      HasCons(r, key);
      r
  }

  /** Membership by id in a non-empty list splits into its head and its tail. */
  lemma HasCons<T>(s: seq<T>, key: T -> string)
    ensures s != [] ==> forall id :: Has(s, key, id) <==> key(s[0]) == id || Has(s[1..], key, id)
  {
  }

  /** `Find` returns the first element carrying the id. */
  lemma {:induction false} FindFirst<T>(s: seq<T>, key: T -> string, id: string, i: nat)
    requires i < |s| && key(s[i]) == id
    requires forall j :: 0 <= j < i ==> key(s[j]) != id
    ensures Find(s, key, id) == Some(s[i])
  {
    if i > 0 {
      FindFirst(s[1..], key, id, i - 1);
    }
  }

  /** In a list without duplicate ids, `Find` returns THE element carrying the id. */
  lemma FindUnique<T>(s: seq<T>, key: T -> string, i: nat)
    requires Unique(s, key) && i < |s|
    ensures Find(s, key, key(s[i])) == Some(s[i])
  {
  }

  /** Filtering is a homomorphism of concatenation: it keeps the relative order of what it keeps. */
  lemma {:induction false} WithoutAppend<T>(a: seq<T>, b: seq<T>, key: T -> string, id: string)
    ensures Without(a + b, key, id) == Without(a, key, id) + Without(b, key, id)
  {
    if a == [] {
      assert a + b == b;
    } else {
      var head := if key(a[0]) == id then [] else [a[0]];
      calc {
        Without(a + b, key, id);
      == { assert (a + b)[0] == a[0] && (a + b)[1..] == a[1..] + b; }
        head + Without(a[1..] + b, key, id);
      == { WithoutAppend(a[1..], b, key, id); }
        head + (Without(a[1..], key, id) + Without(b, key, id));
      ==
        Without(a, key, id) + Without(b, key, id);
      }
    }
  }

  /** Removing by id keeps ids unique. */
  lemma {:induction false} WithoutUnique<T>(s: seq<T>, key: T -> string, id: string)
    requires Unique(s, key)
    ensures Unique(Without(s, key, id), key)
  {
    if s != [] {
      WithoutUnique(s[1..], key, id);
      HasCons(s, key);
      if key(s[0]) != id {
        var rest := Without(s[1..], key, id);
        PrependUnique(s[0], rest, key);
      }
    }
  }

  /** Prepending an element whose id is new keeps ids unique. */
  lemma PrependUnique<T>(x: T, s: seq<T>, key: T -> string)
    requires Unique(s, key) && !Has(s, key, key(x))
    ensures Unique([x] + s, key)
  {
  }

  /** In a list without duplicate ids, removing an element's id removes exactly that element. */
  lemma {:induction false} WithoutUniqueAt<T>(s: seq<T>, key: T -> string, i: nat)
    requires Unique(s, key) && i < |s|
    ensures Without(s, key, key(s[i])) == s[..i] + s[i + 1..]
  {
    var id := key(s[i]);
    if i == 0 {
      assert !Has(s[1..], key, id);
      calc {
        Without(s, key, id);
      ==
        Without(s[1..], key, id);
      ==
        s[..i] + s[i + 1..];
      }
    } else {
      assert Unique(s[1..], key) by {
        forall a, b | 0 <= a < b < |s[1..]| ensures key(s[1..][a]) != key(s[1..][b]) {
          assert s[1..][a] == s[a + 1] && s[1..][b] == s[b + 1];
        }
      }
      calc {
        Without(s, key, id);
      == { assert key(s[0]) != id; }
        [s[0]] + Without(s[1..], key, id);
      == { assert s[1..][i - 1] == s[i]; WithoutUniqueAt(s[1..], key, i - 1); }
        [s[0]] + (s[1..][..i - 1] + s[1..][i..]);
      == { assert s[..i] == [s[0]] + s[1..][..i - 1] && s[1..][i..] == s[i + 1..]; }
        s[..i] + s[i + 1..];
      }
    }
  }
}
