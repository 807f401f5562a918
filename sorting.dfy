/**
 * The per-session ordering of entries: Python's stable `sorted` with the key
 * `item.get("sortText") or item["label"]`, compared as strings code point by
 * code point.
 */
module Sorting {
  import opened Wrappers
  import opened Protocol

  /** The sort key: a non-empty `sortText`, else the label. */
  function SortKey(e: CompletionItem): (k: string)
    ensures e.sortText.Some? && e.sortText.value != [] ==> k == e.sortText.value
    ensures e.sortText.None? || e.sortText.value == [] ==> k == e.labelText
  {
    if e.sortText.Some? && e.sortText.value != [] then e.sortText.value else e.labelText
  }

  /** Lexicographic order on strings (a proper prefix comes first). */
  predicate LexLe(a: string, b: string)
  {
    if a == [] then true
    else if b == [] then false
    else if a[0] != b[0] then a[0] < b[0]
    else LexLe(a[1..], b[1..])
  }

  lemma {:induction false} LexLeReflexive(a: string)
    ensures LexLe(a, a)
  {
    if a != [] { LexLeReflexive(a[1..]); }
  }

  lemma {:induction false} LexLeTotal(a: string, b: string)
    ensures LexLe(a, b) || LexLe(b, a)
  {
    if a != [] && b != [] && a[0] == b[0] { LexLeTotal(a[1..], b[1..]); }
  }

  lemma {:induction false} LexLeTransitive(a: string, b: string, c: string)
    requires LexLe(a, b) && LexLe(b, c)
    ensures LexLe(a, c)
  {
    if a != [] && b != [] && c != [] && a[0] == b[0] && b[0] == c[0] {
      LexLeTransitive(a[1..], b[1..], c[1..]);
    }
  }

  /** Entries in ascending key order. */
  predicate Sorted(s: seq<CompletionItem>)
  {
    forall i, j :: 0 <= i < j < |s| ==> LexLe(SortKey(s[i]), SortKey(s[j]))
  }

  /** The entries of `s` whose key is `k`, in their order in `s`. */
  function WithKey(s: seq<CompletionItem>, k: string): seq<CompletionItem>
  {
    if s == [] then []
    else (if SortKey(s[0]) == k then [s[0]] else []) + WithKey(s[1..], k)
  }

  /**
   * Inserts `x` in front of the first entry whose key is not smaller, so
   * that `x` stays ahead of entries with an equal key.
   */
  function Insert(x: CompletionItem, s: seq<CompletionItem>): (r: seq<CompletionItem>)
    ensures |r| == |s| + 1
  {
    if s == [] || LexLe(SortKey(x), SortKey(s[0])) then [x] + s
    else [s[0]] + Insert(x, s[1..])
  }

  lemma {:induction false} InsertPermutation(x: CompletionItem, s: seq<CompletionItem>)
    ensures multiset(Insert(x, s)) == multiset(s) + multiset{x}
  {
    if s != [] && !LexLe(SortKey(x), SortKey(s[0])) {
      InsertPermutation(x, s[1..]);
      assert s == [s[0]] + s[1..];
    }
  }

  lemma {:induction false} InsertSorted(x: CompletionItem, s: seq<CompletionItem>)
    requires Sorted(s)
    ensures Sorted(Insert(x, s))
    ensures forall e :: e in Insert(x, s) ==> e == x || e in s
  {
    if s == [] || LexLe(SortKey(x), SortKey(s[0])) {
      var r := [x] + s;
      forall i, j | 0 <= i < j < |r| ensures LexLe(SortKey(r[i]), SortKey(r[j])) {
        if i == 0 && j > 1 { LexLeTransitive(SortKey(x), SortKey(s[0]), SortKey(s[j - 1])); }
      }
    } else {
      LexLeTotal(SortKey(x), SortKey(s[0]));
      InsertSorted(x, s[1..]);
      var t := Insert(x, s[1..]);
      var r := [s[0]] + t;
      forall i, j | 0 <= i < j < |r| ensures LexLe(SortKey(r[i]), SortKey(r[j])) {
        if i == 0 {
          assert r[j] in t;
          if r[j] != x {
            var m :| 1 <= m < |s| && s[m] == r[j];
          }
        }
      }
    }
  }

  lemma WithKeyCons(e: CompletionItem, t: seq<CompletionItem>, k: string)
    ensures WithKey([e] + t, k) == (if SortKey(e) == k then [e] else []) + WithKey(t, k)
  {
    assert ([e] + t)[1..] == t;
  }

  /** Insertion of `x` adds `x` to the entries with its key and leaves the others. */
  lemma {:induction false} InsertWithKey(x: CompletionItem, s: seq<CompletionItem>, k: string)
    ensures WithKey(Insert(x, s), k) == (if SortKey(x) == k then [x] else []) + WithKey(s, k)
  {
    if s == [] || LexLe(SortKey(x), SortKey(s[0])) {
      WithKeyCons(x, s, k);
    } else {
      var t := Insert(x, s[1..]);
      InsertWithKey(x, s[1..], k);
      WithKeyCons(s[0], t, k);
      if SortKey(x) == k {
        LexLeReflexive(k);
      }
    }
  }

  /** Python's `sorted(entries, key=SortKey)`: a stable insertion sort. */
  function SortEntries(s: seq<CompletionItem>): (r: seq<CompletionItem>)
    ensures |r| == |s|
  {
    if s == [] then [] else Insert(s[0], SortEntries(s[1..]))
  }

  /** The result is in ascending key order and holds the same entries, each as often. */
  lemma {:induction false} SortEntriesSortedPermutation(s: seq<CompletionItem>)
    ensures Sorted(SortEntries(s))
    ensures multiset(SortEntries(s)) == multiset(s)
  {
    if s != [] {
      SortEntriesSortedPermutation(s[1..]);
      InsertSorted(s[0], SortEntries(s[1..]));
      InsertPermutation(s[0], SortEntries(s[1..]));
      assert s == [s[0]] + s[1..];
    }
  }

  /**
   * Stability: entries with equal keys keep their relative order, so for
   * every key the sorted list and the input agree on the entries with that
   * key. Together with `Sorted` and the permutation this fixes the result.
   */
  lemma {:induction false} SortEntriesStable(s: seq<CompletionItem>, k: string)
    ensures WithKey(SortEntries(s), k) == WithKey(s, k)
  {
    if s != [] {
      SortEntriesStable(s[1..], k);
      InsertWithKey(s[0], SortEntries(s[1..]), k);
    }
  }

  /** A list that is already in key order comes back unchanged. */
  lemma {:induction false} SortEntriesSortedIdentity(s: seq<CompletionItem>)
    requires Sorted(s)
    ensures SortEntries(s) == s
  {
    if s != [] {
      assert Sorted(s[1..]);
      SortEntriesSortedIdentity(s[1..]);
      assert s == [s[0]] + s[1..];
    }
  }
}
