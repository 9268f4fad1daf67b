/** The directory listing of the browsing page: one item per entry that
    `os.scandir` yields, collected in scan order and then sorted by the key
    `(not is_dir, name.lower())` with Python's stable sort; a permission
    error replaces the listing with a single "no access" item. */
module Listing {
  import opened Strings

  /** What the browser reads from one `os.DirEntry`: `name`, `path`,
      `is_dir()`, `is_file()` and `stat().st_size`. */
  datatype DirEntry = DirEntry(name: string, path: string, isDir: bool, isFile: bool, size: nat)

  /** The outcome of scanning a directory: the entries in the order the
      operating system yields them, a `PermissionError`, or any other
      `OSError` (for instance scanning a regular file), which is not caught. */
  datatype Scan = Entries(entries: seq<DirEntry>) | PermissionDenied | OtherError

  /** The `size` field of an item: a byte count for regular files, "-" otherwise. */
  datatype Size = Bytes(n: nat) | Dash

  /** One item handed to the page template. The "no access" item carries
      neither a path nor a size. */
  datatype Item = Item(name: string, isDir: bool, path: Option<string>, size: Option<Size>)

  const NoAccessMessage: string := "权限不足，无法访问"

  /** The single item shown when the directory cannot be read. */
  const NoAccessItem: Item := Item(NoAccessMessage, false, None, None)

  /** The item the loop appends for one scanned entry. */
  function ToItem(e: DirEntry): Item
  {
    Item(e.name, e.isDir, Some(e.path), Some(if e.isFile then Bytes(e.size) else Dash))
  }

  /** The items of a scan, in scan order, before sorting. */
  function ScanItems(es: seq<DirEntry>): (items: seq<Item>)
    ensures |items| == |es|
  {
    seq(|es|, i requires 0 <= i < |es| => ToItem(es[i]))
  }

  // ---------------------------------------------------------------------------
  // The sort key and its order
  // ---------------------------------------------------------------------------

  /** The sort key `(not is_dir, name.lower())`. */
  datatype Key = Key(notDir: bool, folded: string)

  function KeyOf(it: Item): Key
  {
    Key(!it.isDir, Lower(it.name))
  }

  /** Python's `<` on the key tuples: False sorts before True, then the
      lower-cased names compare as strings. */
  predicate KeyLess(a: Key, b: Key)
  {
    (!a.notDir && b.notDir) || (a.notDir == b.notDir && StrLess(a.folded, b.folded))
  }

  lemma KeyLessIrreflexive(a: Key)
    ensures !KeyLess(a, a)
  {
    StrLessIrreflexive(a.folded);
  }

  lemma KeyLessAsymmetric(a: Key, b: Key)
    ensures KeyLess(a, b) ==> !KeyLess(b, a)
  {
    StrLessAsymmetric(a.folded, b.folded);
  }

  lemma KeyLessTotal(a: Key, b: Key)
    ensures a == b || KeyLess(a, b) || KeyLess(b, a)
  {
    StrLessTotal(a.folded, b.folded);
  }

  /** "Not less than" is transitive: the order the sort produces chains. */
  lemma NotLessTransitive(a: Key, b: Key, c: Key)
    requires !KeyLess(b, a) && !KeyLess(c, b)
    ensures !KeyLess(c, a)
  {
    KeyLessTotal(a, b);
    if a != b && KeyLess(c, a) {
      KeyLessTransitive(c, a, b);
    }
  }

  lemma KeyLessTransitive(a: Key, b: Key, c: Key)
    requires KeyLess(a, b) && KeyLess(b, c)
    ensures KeyLess(a, c)
  {
    if a.notDir == b.notDir == c.notDir {
      StrLessTransitive(a.folded, b.folded, c.folded);
    }
  }

  /** Python's `list.sort` postcondition: no item has a smaller key than an
      item before it. */
  predicate Sorted(s: seq<Item>)
  {
    forall i, j :: 0 <= i < j < |s| ==> !KeyLess(KeyOf(s[j]), KeyOf(s[i]))
  }

  /** The same, for neighbours only. */
  predicate AdjacentSorted(s: seq<Item>)
  {
    forall i :: 0 < i < |s| ==> !KeyLess(KeyOf(s[i]), KeyOf(s[i - 1]))
  }

  lemma {:induction false} AdjacentSortedIsSorted(s: seq<Item>)
    requires AdjacentSorted(s)
    ensures Sorted(s)
  {
    if |s| > 1 {
      var t := s[..|s| - 1];
      AdjacentSortedIsSorted(t);
      forall i | 0 <= i < |s| - 1
        ensures !KeyLess(KeyOf(s[|s| - 1]), KeyOf(s[i]))
      {
        if i < |s| - 2 {
          assert !KeyLess(KeyOf(t[|t| - 1]), KeyOf(t[i]));
          NotLessTransitive(KeyOf(s[i]), KeyOf(s[|s| - 2]), KeyOf(s[|s| - 1]));
        }
      }
    }
  }

  // ---------------------------------------------------------------------------
  // Stability: the items with one key keep their relative order
  // ---------------------------------------------------------------------------

  /** The items of `s` whose key is `k`, in order. */
  function WithKey(s: seq<Item>, k: Key): seq<Item>
  {
    if s == [] then []
    else (if KeyOf(s[0]) == k then [s[0]] else []) + WithKey(s[1..], k)
  }

  lemma WithKeyCons(x: Item, u: seq<Item>, k: Key)
    ensures WithKey([x] + u, k) == (if KeyOf(x) == k then [x] else []) + WithKey(u, k)
  {
    assert ([x] + u)[1..] == u;
  }

  lemma {:induction false} WithKeyAppend(a: seq<Item>, b: seq<Item>, k: Key)
    ensures WithKey(a + b, k) == WithKey(a, k) + WithKey(b, k)
  {
    if a == [] {
      assert a + b == b;
    } else {
      var x, t := a[0], a[1..];
      assert a == [x] + t;
      assert a + b == [x] + (t + b);
      WithKeyAppend(t, b, k);
      WithKeyCons(x, t + b, k);
      WithKeyCons(x, t, k);
    }
  }

  /** `t` lists, for every key, the same items in the same order as `s`. */
  ghost predicate SameKeyOrder(s: seq<Item>, t: seq<Item>)
  {
    forall k :: WithKey(s, k) == WithKey(t, k)
  }

  lemma SameKeyOrderTransitive(s: seq<Item>, t: seq<Item>, u: seq<Item>)
    requires SameKeyOrder(s, t) && SameKeyOrder(t, u)
    ensures SameKeyOrder(s, u)
  {
    forall k ensures WithKey(s, k) == WithKey(u, k) {
      assert WithKey(s, k) == WithKey(t, k);
    }
  }

  // ---------------------------------------------------------------------------
  // The sort as a function: insertion of each item after the last one whose
  // key is not greater
  // ---------------------------------------------------------------------------

  /** `s` with `x` put in front of the run of items at the end of `s` whose
      key is strictly greater than that of `x`. */
  function Insert(s: seq<Item>, x: Item): (r: seq<Item>)
    ensures |r| == |s| + 1
  {
    if s == [] || !KeyLess(KeyOf(x), KeyOf(s[|s| - 1])) then s + [x]
    else Insert(s[..|s| - 1], x) + [s[|s| - 1]]
  }

  /** The result of a stable sort: each item in turn inserted into the sorted
      prefix before it. */
  function InsertionSort(s: seq<Item>): (r: seq<Item>)
    ensures |r| == |s|
  {
    if s == [] then [] else Insert(InsertionSort(s[..|s| - 1]), s[|s| - 1])
  }

  lemma {:induction false} InsertLast(s: seq<Item>, x: Item)
    ensures var r := Insert(s, x);
            r[|r| - 1] == x || (s != [] && r[|r| - 1] == s[|s| - 1])
  {
  }

  lemma {:induction false} InsertKeepsSorted(s: seq<Item>, x: Item)
    requires AdjacentSorted(s)
    ensures AdjacentSorted(Insert(s, x))
  {
    if s != [] && KeyLess(KeyOf(x), KeyOf(s[|s| - 1])) {
      var init, last := s[..|s| - 1], s[|s| - 1];
      assert AdjacentSorted(init);
      InsertKeepsSorted(init, x);
      var r := Insert(init, x);
      InsertLast(init, x);
      KeyLessAsymmetric(KeyOf(x), KeyOf(last));
      InsertBefore(s, x);
      AdjacentSortedSnoc(r, last);
    } else {
      AdjacentSortedSnoc(s, x);
    }
  }

  lemma AdjacentSortedSnoc(s: seq<Item>, y: Item)
    requires AdjacentSorted(s)
    requires s == [] || !KeyLess(KeyOf(y), KeyOf(s[|s| - 1]))
    ensures AdjacentSorted(s + [y])
  {
  }

  lemma {:induction false} InsertKeepsKeyOrder(s: seq<Item>, x: Item)
    ensures SameKeyOrder(Insert(s, x), s + [x])
  {
    if s != [] && KeyLess(KeyOf(x), KeyOf(s[|s| - 1])) {
      var init, last := s[..|s| - 1], s[|s| - 1];
      InsertKeepsKeyOrder(init, x);
      KeyLessIrreflexive(KeyOf(x));
      InsertBefore(s, x);
      InitLast(s);
      forall k ensures WithKey(Insert(init, x) + [last], k) == WithKey(init + [last] + [x], k) {
        PassLast(Insert(init, x), init, x, last, k);
      }
    }
  }

  /** Unfolds `Insert` once when `x` goes before the last item. */
  lemma InsertBefore(s: seq<Item>, x: Item)
    requires s != [] && KeyLess(KeyOf(x), KeyOf(s[|s| - 1]))
    ensures Insert(s, x) == Insert(s[..|s| - 1], x) + [s[|s| - 1]]
  {
  }

  /** Moving `x` past an item with another key keeps the items of key `k` in order. */
  lemma PassLast(r: seq<Item>, init: seq<Item>, x: Item, last: Item, k: Key)
    requires KeyOf(x) != KeyOf(last)
    requires WithKey(r, k) == WithKey(init + [x], k)
    ensures WithKey(r + [last], k) == WithKey(init + [last] + [x], k)
  {
    WithKeyAppend(r, [last], k);
    WithKeyAppend(init, [x], k);
    WithKeyAppend(init + [last], [x], k);
    WithKeyAppend(init, [last], k);
    WithKeyCons(x, [], k);
    WithKeyCons(last, [], k);
    assert [x] + [] == [x] && [last] + [] == [last];
  }

  lemma {:induction false} InsertPermutes(s: seq<Item>, x: Item)
    ensures multiset(Insert(s, x)) == multiset(s + [x])
  {
    if s != [] && KeyLess(KeyOf(x), KeyOf(s[|s| - 1])) {
      InsertPermutes(s[..|s| - 1], x);
      InsertBefore(s, x);
      InitLast(s);
    }
  }

  /** The function the in-place sort computes is stable: every key's items
      keep their order. */
  lemma {:induction false} InsertionSortStable(s: seq<Item>)
    ensures SameKeyOrder(InsertionSort(s), s)
  {
    if s != [] {
      var init, last := s[..|s| - 1], s[|s| - 1];
      var sorted := InsertionSort(init);
      InsertionSortStable(init);
      InsertKeepsKeyOrder(sorted, last);
      InsertionSortLast(s);
      InitLast(s);
      forall k ensures WithKey(sorted + [last], k) == WithKey(s, k) {
        WithKeyAppend(sorted, [last], k);
        WithKeyAppend(init, [last], k);
      }
      SameKeyOrderTransitive(InsertionSort(s), sorted + [last], s);
    }
  }

  /** The function the in-place sort computes is a permutation of its input. */
  lemma {:induction false} InsertionSortPermutes(s: seq<Item>)
    ensures multiset(InsertionSort(s)) == multiset(s)
  {
    if s != [] {
      var init, last := s[..|s| - 1], s[|s| - 1];
      InsertionSortPermutes(init);
      InsertPermutes(InsertionSort(init), last);
      InsertionSortLast(s);
      InitLast(s);
      SnocMultiset(InsertionSort(init), init, last, Insert(InsertionSort(init), last), s);
    }
  }

  lemma InsertionSortLast(s: seq<Item>)
    requires s != []
    ensures InsertionSort(s) == Insert(InsertionSort(s[..|s| - 1]), s[|s| - 1])
  {
  }

  lemma InitLast(s: seq<Item>)
    requires s != []
    ensures s == s[..|s| - 1] + [s[|s| - 1]]
  {
  }

  /** If `u` is a permutation of `v`, then `w`, a permutation of `u` with `y`
      added, is a permutation of `v` with `y` added. */
  lemma SnocMultiset(u: seq<Item>, v: seq<Item>, y: Item, w: seq<Item>, vy: seq<Item>)
    requires multiset(u) == multiset(v)
    requires multiset(w) == multiset(u + [y])
    requires vy == v + [y]
    ensures multiset(w) == multiset(vy)
  {
  }

  /** The function the in-place sort computes is sorted. */
  lemma InsertionSortSorted(s: seq<Item>)
    ensures Sorted(InsertionSort(s))
  {
    InsertionSortAdjacent(s);
    AdjacentSortedIsSorted(InsertionSort(s));
  }

  lemma {:induction false} InsertionSortAdjacent(s: seq<Item>)
    ensures AdjacentSorted(InsertionSort(s))
  {
    if s != [] {
      InsertionSortAdjacent(s[..|s| - 1]);
      InsertKeepsSorted(InsertionSort(s[..|s| - 1]), s[|s| - 1]);
    }
  }

  // ---------------------------------------------------------------------------
  // Sorting the items in place by (not is_dir, lower-cased name)
  // ---------------------------------------------------------------------------

  /** One step of the insertion sort: moves `a[i]` left past the items with
      a strictly greater key. */
  method SinkLast(a: array<Item>, i: nat)
    requires i < a.Length
    modifies a
    ensures a[..] == Insert(old(a[..i]), old(a[i])) + old(a[i + 1..])
  {
    ghost var s := a[..];
    var x := a[i];
    var j := Slot(a, i);
    ShiftRight(a, j, i);
    a[j] := x;
    InsertPlacesAt(s[..i], x, j);
    Shifted(a[..], s, x, i, j);
  }

  /** The array after one step of the insertion sort, as a sequence. */
  lemma Shifted(b: seq<Item>, s: seq<Item>, x: Item, i: nat, j: nat)
    requires j <= i < |s| == |b|
    requires forall k :: 0 <= k < j ==> b[k] == s[k]
    requires b[j] == x
    requires forall k :: j < k <= i ==> b[k] == s[k - 1]
    requires forall k :: i < k < |b| ==> b[k] == s[k]
    ensures b == s[..i][..j] + [x] + s[..i][j..] + s[i + 1..]
  {
  }

  /** Where `a[i]` goes among `a[..i]`: after the last item whose key is not
      greater, before the run of items with strictly greater keys. */
  method Slot(a: array<Item>, i: nat) returns (j: nat)
    requires i < a.Length
    ensures j <= i
    ensures j == 0 || !KeyLess(KeyOf(a[i]), KeyOf(a[j - 1]))
    ensures forall k :: j <= k < i ==> KeyLess(KeyOf(a[i]), KeyOf(a[k]))
  {
    j := i;
    while j > 0 && KeyLess(KeyOf(a[i]), KeyOf(a[j - 1]))
      invariant j <= i
      invariant forall k :: j <= k < i ==> KeyLess(KeyOf(a[i]), KeyOf(a[k]))
    {
      j := j - 1;
    }
  }

  /** Moves `a[j..i]` one place to the right, over `a[i]`. */
  method ShiftRight(a: array<Item>, j: nat, i: nat)
    requires j <= i < a.Length
    modifies a
    ensures forall k :: 0 <= k <= j ==> a[k] == old(a[k])
    ensures forall k :: j < k <= i ==> a[k] == old(a[k - 1])
    ensures forall k :: i < k < a.Length ==> a[k] == old(a[k])
  {
    var m := i;
    while m > j
      invariant j <= m <= i
      invariant forall k :: 0 <= k <= m ==> a[k] == old(a[k])
      invariant forall k :: m < k <= i ==> a[k] == old(a[k - 1])
      invariant forall k :: i < k < a.Length ==> a[k] == old(a[k])
    {
      a[m] := a[m - 1];
      m := m - 1;
    }
  }

  /** `Insert` puts `x` right after the last item whose key is not greater. */
  lemma {:induction false} InsertPlacesAt(s: seq<Item>, x: Item, j: nat)
    requires j <= |s|
    requires j == 0 || !KeyLess(KeyOf(x), KeyOf(s[j - 1]))
    requires forall k :: j <= k < |s| ==> KeyLess(KeyOf(x), KeyOf(s[k]))
    ensures Insert(s, x) == s[..j] + [x] + s[j..]
  {
    if j < |s| {
      var init, last := s[..|s| - 1], s[|s| - 1];
      assert KeyLess(KeyOf(x), KeyOf(last));
      InsertBefore(s, x);
      assert forall k :: j <= k < |init| ==> init[k] == s[k];
      InsertPlacesAt(init, x, j);
      DropLastSlices(s, j);
    } else {
      assert s[..j] == s;
    }
  }

  /** Sorting one more item inserts it into the sorted prefix: one pass of
      the loop of `SortItems` keeps its invariant. */
  lemma SortStep(s: seq<Item>, b: seq<Item>, c: seq<Item>, i: nat)
    requires i < |s|
    requires b == InsertionSort(s[..i]) + s[i..]
    requires c == Insert(b[..i], b[i]) + b[i + 1..]
    ensures c == InsertionSort(s[..i + 1]) + s[i + 1..]
  {
    PrefixThenRest(InsertionSort(s[..i]), s, i, b);
    InsertionSortSnoc(s, i);
  }

  lemma PrefixThenRest(x: seq<Item>, s: seq<Item>, i: nat, b: seq<Item>)
    requires |x| == i < |s| && b == x + s[i..]
    ensures b[..i] == x && b[i] == s[i] && b[i + 1..] == s[i + 1..]
  {
  }

  lemma InsertionSortSnoc(s: seq<Item>, i: nat)
    requires i < |s|
    ensures InsertionSort(s[..i + 1]) == Insert(InsertionSort(s[..i]), s[i])
  {
    var t := s[..i + 1];
    assert t[..|t| - 1] == s[..i];
  }

  lemma DropLastSlices(s: seq<Item>, j: nat)
    requires j < |s|
    ensures s[..|s| - 1][..j] == s[..j]
    ensures s[..|s| - 1][j..] + [s[|s| - 1]] == s[j..]
  {
  }

  /** Sorts the items in place: the array ends up as `InsertionSort` of its
      old contents, which is sorted by key, stable and a permutation. */
  method SortItems(a: array<Item>)
    modifies a
    ensures a[..] == InsertionSort(old(a[..]))
    ensures Sorted(a[..])
    ensures SameKeyOrder(a[..], old(a[..]))
    ensures multiset(a[..]) == multiset(old(a[..]))
  {
    ghost var s := a[..];
    var i := 0;
    while i < a.Length
      invariant 0 <= i <= a.Length
      invariant a[..] == InsertionSort(s[..i]) + s[i..]
    {
      ghost var b := a[..];
      SinkLast(a, i);
      SortStep(s, b, a[..], i);
      i := i + 1;
    }
    assert s[..a.Length] == s;
    InsertionSortSorted(s);
    InsertionSortStable(s);
    InsertionSortPermutes(s);
  }

  /** What the listing of a scan must be: the "no access" item alone on a
      permission error; otherwise the scanned items, sorted and stable. */
  ghost predicate IsListingOf(scan: Scan, items: seq<Item>)
  {
    && (scan.PermissionDenied? ==> items == [NoAccessItem])
    && (scan.Entries? ==>
          Sorted(items) && SameKeyOrder(items, ScanItems(scan.entries))
          && multiset(items) == multiset(ScanItems(scan.entries)))
  }

  /** The listing of the browsing page: scan entries are collected in scan
      order, then sorted directories first and by case-insensitive name,
      keeping the scan order among equal keys. A permission error gives the
      single "no access" item; any other error is passed on (None). */
  method ListDirectory(scan: Scan) returns (items: Option<seq<Item>>)
    ensures items.None? <==> scan.OtherError?
    ensures items.Some? ==> IsListingOf(scan, items.value)
  {
    match scan
    case OtherError => items := None;
    case PermissionDenied => items := Some([NoAccessItem]);
    case Entries(es) =>
      var collected: seq<Item> := [];
      for i := 0 to |es|
        invariant collected == ScanItems(es[..i])
      {
        collected := collected + [ToItem(es[i])];
      }
      assert es[..|es|] == es;
      var a := new Item[|collected|](k requires 0 <= k < |collected| => collected[k]);
      assert a[..] == collected;
      SortItems(a);
      items := Some(a[..]);
  }

  // ---------------------------------------------------------------------------
  // What the sorted listing means
  // ---------------------------------------------------------------------------

  /** In a sorted listing every directory precedes every non-directory, and
      within each group the lower-cased names never decrease. */
  lemma SortedMeaning(s: seq<Item>, i: nat, j: nat)
    requires Sorted(s) && i < j < |s|
    ensures s[j].isDir ==> s[i].isDir
    ensures s[i].isDir == s[j].isDir ==> !StrLess(Lower(s[j].name), Lower(s[i].name))
  {
    assert !KeyLess(KeyOf(s[j]), KeyOf(s[i]));
  }

  /** A stable sort is unique: two sorted sequences that agree on every key's
      order are equal, so the listing is exactly what Python's sort yields. */
  lemma {:induction false} StableSortUnique(s: seq<Item>, t: seq<Item>)
    requires Sorted(s) && Sorted(t) && SameKeyOrder(s, t)
    ensures s == t
  {
    if s != [] {
      assert WithKey(t, KeyOf(s[0])) == WithKey(s, KeyOf(s[0])) != [];
    }
    if t != [] {
      assert WithKey(s, KeyOf(t[0])) == WithKey(t, KeyOf(t[0])) != [];
    }
    if s != [] {
      var ks, kt := KeyOf(s[0]), KeyOf(t[0]);
      assert ks == kt by {
        var m := WithKeyIndex(t, ks);
        var n := WithKeyIndex(s, kt);
        if m > 0 { assert !KeyLess(ks, kt); }
        if n > 0 { assert !KeyLess(kt, ks); }
        KeyLessTotal(ks, kt);
      }
      assert WithKey(s, ks)[0] == s[0];
      assert WithKey(t, ks)[0] == t[0];
      assert s[0] == t[0];
      forall k ensures WithKey(s[1..], k) == WithKey(t[1..], k) {
        var head := if KeyOf(s[0]) == k then [s[0]] else [];
        assert WithKey(s, k) == head + WithKey(s[1..], k);
        assert WithKey(t, k) == head + WithKey(t[1..], k);
        assert WithKey(s, k) == WithKey(t, k);
        assert (head + WithKey(s[1..], k))[|head|..] == WithKey(s[1..], k);
        assert (head + WithKey(t[1..], k))[|head|..] == WithKey(t[1..], k);
      }
      StableSortUnique(s[1..], t[1..]);
      assert s == [s[0]] + s[1..] && t == [t[0]] + t[1..];
    }
  }

  /** The position of an item with key `k` in `s`, when `WithKey(s, k)` is not empty. */
  lemma {:induction false} WithKeyIndex(s: seq<Item>, k: Key) returns (m: nat)
    requires WithKey(s, k) != []
    ensures m < |s| && KeyOf(s[m]) == k
  {
    if KeyOf(s[0]) == k {
      m := 0;
    } else {
      var m' := WithKeyIndex(s[1..], k);
      m := m' + 1;
    }
  }
}
