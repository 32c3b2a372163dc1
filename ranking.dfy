/** The list handling both front-ends apply to their scored results: Python's stable
    `list.sort(key=..., reverse=True)`, the `[:top_k]` slice and the 200-character preview of
    the job circular. */
module Ranking {
  import opened Seqs

  function Min(a: int, b: int): int {
    if a <= b then a else b
  }

  function Max(a: int, b: int): int {
    if a >= b then a else b
  }

  /** Keys never increase from left to right. */
  predicate SortedDesc<T>(s: seq<T>, key: T -> real) {
    forall i, j :: 0 <= i < j < |s| ==> key(s[i]) >= key(s[j])
  }

  // ---------------------------------------------------------------------------
  // sort(key=..., reverse=True)

  /** x placed in front of the first element whose key is not larger than its own, so that it
      stays ahead of every element of equal key. */
  function Insert<T>(x: T, s: seq<T>, key: T -> real): seq<T> {
    if s == [] || key(s[0]) <= key(x) then [x] + s
    else [s[0]] + Insert(x, s[1..], key)
  }

  /** A stable sort by descending key: what `results.sort(key=k, reverse=True)` leaves. */
  function StableSortDesc<T>(s: seq<T>, key: T -> real): seq<T> {
    if s == [] then [] else Insert(s[0], StableSortDesc(s[1..], key), key)
  }

  lemma {:induction false} InsertPermutes<T>(x: T, s: seq<T>, key: T -> real)
    ensures multiset(Insert(x, s, key)) == multiset(s) + multiset{x}
    ensures |Insert(x, s, key)| == |s| + 1
  {
    if s != [] && key(s[0]) > key(x) {
      InsertPermutes(x, s[1..], key);
      assert s == [s[0]] + s[1..];
    }
  }

  /** Inserting under a bound keeps every key under it. */
  lemma {:induction false} InsertBounded<T>(x: T, s: seq<T>, key: T -> real, b: real)
    requires key(x) <= b && forall i :: 0 <= i < |s| ==> key(s[i]) <= b
    ensures forall i :: 0 <= i < |Insert(x, s, key)| ==> key(Insert(x, s, key)[i]) <= b
  {
    if s != [] && key(s[0]) > key(x) {
      InsertBounded(x, s[1..], key, b);
      assert forall i :: 1 <= i < |s| ==> s[1..][i - 1] == s[i];
    }
  }

  lemma {:induction false} InsertSorted<T>(x: T, s: seq<T>, key: T -> real)
    requires SortedDesc(s, key)
    ensures SortedDesc(Insert(x, s, key), key)
  {
    if s != [] && key(s[0]) > key(x) {
      var t := s[1..];
      assert forall i :: 0 <= i < |t| ==> t[i] == s[i + 1];
      InsertSorted(x, t, key);
      InsertBounded(x, t, key, key(s[0]));
      var r := Insert(x, t, key);
      var w := [s[0]] + r;
      forall i, j | 0 <= i < j < |w| ensures key(w[i]) >= key(w[j]) {
        assert w[j] == r[j - 1];
        if i > 0 {
          assert w[i] == r[i - 1];
        }
      }
    }
  }

  lemma {:induction false} SortDescSorted<T>(s: seq<T>, key: T -> real)
    ensures SortedDesc(StableSortDesc(s, key), key)
    ensures |StableSortDesc(s, key)| == |s|
  {
    if s != [] {
      SortDescSorted(s[1..], key);
      InsertSorted(s[0], StableSortDesc(s[1..], key), key);
      InsertPermutes(s[0], StableSortDesc(s[1..], key), key);
    }
  }

  lemma {:induction false} SortDescMultiset<T>(s: seq<T>, key: T -> real)
    ensures multiset(StableSortDesc(s, key)) == multiset(s)
  {
    if s != [] {
      SortDescMultiset(s[1..], key);
      InsertPermutes(s[0], StableSortDesc(s[1..], key), key);
      assert s == [s[0]] + s[1..];
    }
  }

  /** The result is ordered by descending key and holds exactly the input's elements. */
  lemma SortDescPermutes<T>(s: seq<T>, key: T -> real)
    ensures SortedDesc(StableSortDesc(s, key), key)
    ensures multiset(StableSortDesc(s, key)) == multiset(s)
    ensures |StableSortDesc(s, key)| == |s|
  {
    SortDescSorted(s, key);
    SortDescMultiset(s, key);
  }

  /** The elements whose key is v, in their order. */
  function WithKey<T>(s: seq<T>, key: T -> real, v: real): seq<T> {
    if s == [] then []
    else (if key(s[0]) == v then [s[0]] else []) + WithKey(s[1..], key, v)
  }

  lemma {:induction false} InsertWithKey<T>(x: T, s: seq<T>, key: T -> real, v: real)
    ensures WithKey(Insert(x, s, key), key, v) ==
              if key(x) == v then [x] + WithKey(s, key, v) else WithKey(s, key, v)
  {
    if s == [] || key(s[0]) <= key(x) {
      assert ([x] + s)[1..] == s;
    } else {
      InsertWithKey(x, s[1..], key, v);
      var r := [s[0]] + Insert(x, s[1..], key);
      assert r[1..] == Insert(x, s[1..], key);
    }
  }

  /** Stability: the elements of any one key come out in the order they went in. */
  lemma {:induction false} SortDescStable<T>(s: seq<T>, key: T -> real, v: real)
    ensures WithKey(StableSortDesc(s, key), key, v) == WithKey(s, key, v)
  {
    if s != [] {
      SortDescStable(s[1..], key, v);
      InsertWithKey(s[0], StableSortDesc(s[1..], key), key, v);
    }
  }

  // ---------------------------------------------------------------------------
  // [:k]

  /** Python's s[:k]: the first k elements, all of them when k is larger, and for a negative k
      all but the last -k. */
  function Prefix<T>(s: seq<T>, k: int): (r: seq<T>)
    ensures r <= s
    ensures k >= 0 ==> |r| == Min(k, |s|)
    ensures k < 0 ==> |r| == Max(|s| + k, 0)
  {
    if k >= 0 then s[..Min(k, |s|)] else s[..Max(|s| + k, 0)]
  }

  /** Top-k are the best: a prefix of a descending list is descending, and none of the
      elements it leaves out has a larger key than any element it keeps. */
  lemma PrefixOfSorted<T>(s: seq<T>, key: T -> real, k: int)
    requires SortedDesc(s, key)
    ensures SortedDesc(Prefix(s, k), key)
    ensures forall i, j :: 0 <= i < |Prefix(s, k)| <= j < |s| ==> key(Prefix(s, k)[i]) >= key(s[j])
  {
    var p := Prefix(s, k);
    forall i, j | 0 <= i < j < |p| ensures key(p[i]) >= key(p[j]) {
      assert p[i] == s[i] && p[j] == s[j];
    }
    forall i, j | 0 <= i < |p| <= j < |s| ensures key(p[i]) >= key(s[j]) {
      assert p[i] == s[i];
    }
  }

  lemma {:induction false} WithKeyTake<T>(s: seq<T>, key: T -> real, v: real, n: nat)
    requires n <= |s|
    ensures WithKey(s[..n], key, v) <= WithKey(s, key, v)
  {
    if n > 0 {
      assert s[..n][1..] == s[1..][..n - 1];
      WithKeyTake(s[1..], key, v, n - 1);
    }
  }

  /** results.sort(key=key, reverse=True) followed by results[:k]. */
  function Ranked<T>(s: seq<T>, key: T -> real, k: int): seq<T> {
    Prefix(StableSortDesc(s, key), k)
  }

  /** Ranking: the kept elements are non-increasing in key, there are min(k, |s|) of them for
      k >= 0, they are drawn from s, no element left out has a larger key than one kept, and the
      kept elements of any one key are the first of that key in input order. */
  lemma RankedFacts<T>(s: seq<T>, key: T -> real, k: int, v: real)
    ensures SortedDesc(Ranked(s, key, k), key)
    ensures k >= 0 ==> |Ranked(s, key, k)| == Min(k, |s|)
    ensures multiset(Ranked(s, key, k)) <= multiset(s)
    ensures |StableSortDesc(s, key)| == |s|
    ensures var r := Ranked(s, key, k);
            forall i, j :: 0 <= i < |r| <= j < |s| ==> key(r[i]) >= key(StableSortDesc(s, key)[j])
    ensures WithKey(Ranked(s, key, k), key, v) <= WithKey(s, key, v)
  {
    var t := StableSortDesc(s, key);
    SortDescPermutes(s, key);
    SortDescStable(s, key, v);
    PrefixOfSorted(t, key, k);
    var r := Ranked(s, key, k);
    assert t == r + t[|r|..];
    assert multiset(t) == multiset(r) + multiset(t[|r|..]);
    assert r == t[..|r|];
    WithKeyTake(t, key, v, |r|);
  }

  /** A k of at least |s| keeps every element. */
  lemma RankedAll<T>(s: seq<T>, key: T -> real, k: int)
    requires k >= |s|
    ensures multiset(Ranked(s, key, k)) == multiset(s)
  {
    SortDescPermutes(s, key);
    var t := StableSortDesc(s, key);
    assert Ranked(s, key, k) == t[..|t|];
    TakeAll(t);
  }

  // ---------------------------------------------------------------------------
  // job_circular[:200] + "..." if len(job_circular) > 200 else job_circular

  const PreviewLength := 200

  /** The job circular itself when it has at most 200 characters, else its first 200
      characters followed by "...". */
  function Preview(job: string): (r: string)
    ensures |job| <= PreviewLength ==> r == job
    ensures |job| > PreviewLength ==> |r| == PreviewLength + 3 && r[..PreviewLength] == job[..PreviewLength] && r[PreviewLength..] == "..."
  {
    if |job| > PreviewLength then job[..PreviewLength] + "..." else job
  }

  /** The preview never has more than 203 characters and always starts like the job circular. */
  lemma PreviewShape(job: string)
    ensures |Preview(job)| <= PreviewLength + 3
    ensures Preview(job)[..Min(|job|, PreviewLength)] == job[..Min(|job|, PreviewLength)]
  {
  }

  /** Previewing a preview changes nothing. */
  lemma PreviewIdempotent(job: string)
    ensures Preview(Preview(job)) == Preview(job)
  {
    if |job| > PreviewLength {
      assert Preview(job)[..PreviewLength] == job[..PreviewLength];
    }
  }
}
