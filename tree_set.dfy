/**
 * `TreeSet<String>` as a strictly sorted sequence under `String.compareTo`
 * (lexicographic on characters, a proper prefix first). Iteration over a
 * TreeSet visits this sequence in order.
 */
module TreeSets {

  /** `a.compareTo(b) < 0`. */
  predicate StrLess(a: string, b: string)
    decreases |a|
  {
    if |a| == 0 then |b| > 0
    else if |b| == 0 then false
    else if a[0] != b[0] then a[0] < b[0]
    else StrLess(a[1..], b[1..])
  }

  lemma {:induction false} StrLessIrreflexive(a: string)
    ensures !StrLess(a, a)
    decreases |a|
  {
    if |a| > 0 {
      StrLessIrreflexive(a[1..]);
    }
  }

  lemma {:induction false} StrLessTransitive(a: string, b: string, c: string)
    requires StrLess(a, b) && StrLess(b, c)
    ensures StrLess(a, c)
    decreases |a|
  {
    if |a| > 0 && a[0] == b[0] && b[0] == c[0] {
      StrLessTransitive(a[1..], b[1..], c[1..]);
    }
  }

  /** Two different strings are ordered one way or the other. */
  lemma {:induction false} StrLessTotal(a: string, b: string)
    requires a != b
    ensures StrLess(a, b) || StrLess(b, a)
    decreases |a|
  {
    if |a| > 0 && |b| > 0 && a[0] == b[0] {
      assert a == [a[0]] + a[1..] && b == [b[0]] + b[1..];
      StrLessTotal(a[1..], b[1..]);
    }
  }

  lemma {:induction false} StrLessAsymmetric(a: string, b: string)
    requires StrLess(a, b)
    ensures !StrLess(b, a)
  {
    if StrLess(b, a) {
      StrLessTransitive(a, b, a);
      StrLessIrreflexive(a);
    }
  }

  predicate StrictlySorted(s: seq<string>) {
    forall i, j :: 0 <= i < j < |s| ==> StrLess(s[i], s[j])
  }

  /** `set.add(x)`: `x` goes to its place in the order, and nothing happens if it is present. */
  function Insert(s: seq<string>, x: string): (r: seq<string>)
    requires StrictlySorted(s)
    ensures StrictlySorted(r)
    ensures forall y :: y in r <==> y in s || y == x
    ensures x in s ==> r == s
    decreases |s|
  {
    if |s| == 0 then [x]
    else if x == s[0] then s
    else if StrLess(x, s[0]) then
      assert forall j :: 0 < j < |s| ==> StrLess(x, s[j]) by {
        forall j | 0 < j < |s| ensures StrLess(x, s[j]) {
          StrLessTransitive(x, s[0], s[j]);
        }
      }
      assert x !in s by {
        forall j | 0 <= j < |s| ensures s[j] != x {
          if j == 0 {
          } else {
            StrLessAsymmetric(x, s[j]);
          }
        }
      }
      [x] + s
    else
      var rest := Insert(s[1..], x);
      StrLessTotal(x, s[0]);
      assert forall y :: y in rest ==> StrLess(s[0], y);
      assert s == [s[0]] + s[1..];
      [s[0]] + rest
  }

  /** `Collections.addAll(set, xs)`: the elements added one by one, in order. */
  function AddAll(s: seq<string>, xs: seq<string>): (r: seq<string>)
    requires StrictlySorted(s)
    ensures StrictlySorted(r)
    ensures forall y :: y in r <==> y in s || y in xs
    decreases |xs|
  {
    if |xs| == 0 then s else AddAll(Insert(s, xs[0]), xs[1..])
  }

  /** Adding an element larger than every element appends it. */
  lemma {:induction false} InsertLargest(s: seq<string>, x: string)
    requires StrictlySorted(s)
    requires forall i :: 0 <= i < |s| ==> StrLess(s[i], x)
    ensures Insert(s, x) == s + [x]
    decreases |s|
  {
    if |s| > 0 {
      StrLessAsymmetric(s[0], x);
      StrLessIrreflexive(x);
      InsertLargest(s[1..], x);
      assert [s[0]] + (s[1..] + [x]) == s + [x];
    }
  }

  lemma SortedPrefix(s: seq<string>, k: nat)
    requires StrictlySorted(s) && k <= |s|
    ensures StrictlySorted(s[..k])
  {
  }

  lemma {:induction false} AddAllSortedSuffix(s: seq<string>, xs: seq<string>)
    requires StrictlySorted(s)
    requires StrictlySorted(s + xs)
    ensures AddAll(s, xs) == s + xs
    decreases |xs|
  {
    if |xs| > 0 {
      forall i | 0 <= i < |s| ensures StrLess(s[i], xs[0]) {
        assert (s + xs)[i] == s[i] && (s + xs)[|s|] == xs[0];
      }
      InsertLargest(s, xs[0]);
      assert s + [xs[0]] + xs[1..] == s + xs;
      assert (s + xs)[..|s| + 1] == s + [xs[0]];
      SortedPrefix(s + xs, |s| + 1);
      AddAllSortedSuffix(s + [xs[0]], xs[1..]);
    }
  }

  /** Adding a sorted, duplicate-free list to an empty TreeSet gives that list. */
  lemma AddAllSorted(xs: seq<string>)
    requires StrictlySorted(xs)
    ensures AddAll([], xs) == xs
  {
    assert [] + xs == xs;
    AddAllSortedSuffix([], xs);
  }
}
