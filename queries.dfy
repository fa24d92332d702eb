/**
 * The store's read-only queries: `search`, `getPaginated` and `sort`. Each
 * works on a snapshot of the records and returns a new sequence.
 */
module Queries {
  import opened Text
  import opened Dates
  import opened Employees

  // ---------------------------------------------------------------------
  // search

  /**
   * A record matches a search term when the term occurs in its lower-cased
   * first name, last name or e-mail, or in its phone exactly as stored.
   */
  predicate Matches(e: Employee, term: string) {
    || Contains(ToLower(e.firstName), term)
    || Contains(ToLower(e.lastName), term)
    || Contains(ToLower(e.email), term)
    || Contains(e.phone, term)
  }

  /** `Array.prototype.filter` with `Matches`: the matching records, in their order. */
  function Filter(es: seq<Employee>, term: string): (r: seq<Employee>)
    ensures |r| <= |es|
    ensures forall e :: e in r <==> e in es && Matches(e, term)
  {
    if es == [] then []
    else (if Matches(es[0], term) then [es[0]] else []) + Filter(es[1..], term)
  }

  /** Filtering works block by block, so it keeps the records' relative order. */
  lemma {:induction false} FilterConcat(a: seq<Employee>, b: seq<Employee>, term: string)
    ensures Filter(a + b, term) == Filter(a, term) + Filter(b, term)
  {
    if a == [] {
      assert a + b == b;
    } else {
      assert (a + b)[0] == a[0];
      assert (a + b)[1..] == a[1..] + b;
      FilterConcat(a[1..], b, term);
    }
  }

  /** With the empty term every record matches. */
  lemma {:induction false} FilterEmptyTerm(es: seq<Employee>)
    ensures Filter(es, []) == es
  {
    if es != [] {
      ContainsEmpty(es[0].phone);
      FilterEmptyTerm(es[1..]);
    }
  }

  /**
   * `search(query)`: every record when the query is blank; otherwise the
   * records matching the lower-cased query, which is not trimmed.
   */
  function Search(es: seq<Employee>, query: string): (r: seq<Employee>)
    ensures AllSpace(query) ==> r == es
    ensures !AllSpace(query) ==> r == Filter(es, ToLower(query))
  {
    if Trim(query) == [] then es else Filter(es, ToLower(query))
  }

  /** The search result holds exactly the records that match the lower-cased query, or all on a blank one. */
  lemma SearchMembers(es: seq<Employee>, query: string)
    ensures forall e :: e in Search(es, query) <==> e in es && (AllSpace(query) || Matches(e, ToLower(query)))
  {
  }

  /** Search results keep the store's order: the result over two blocks is the two results in turn. */
  lemma SearchConcat(a: seq<Employee>, b: seq<Employee>, query: string)
    ensures Search(a + b, query) == Search(a, query) + Search(b, query)
  {
    if !AllSpace(query) {
      FilterConcat(a, b, ToLower(query));
    }
  }

  /** A query that is not blank is searched for as it is, surrounding white space included (lower-cased, not trimmed). */
  lemma SearchSurroundingSpaceCounts(es: seq<Employee>, query: string)
    requires !AllSpace(query)
    ensures Search(es, query) == Filter(es, ToLower(query))
  {
  }

  // ---------------------------------------------------------------------
  // getPaginated

  /** `Math.ceil(n / size)` for a count and a positive page size. */
  function CeilDiv(n: nat, size: nat): (r: nat)
    requires size >= 1
    ensures r * size >= n
    ensures r == 0 || (r - 1) * size < n
    ensures r == 0 <==> n == 0
  {
    (n + size - 1) / size
  }

  /** An index argument of `Array.prototype.slice`, negative ones counting from the end. */
  function SliceIndex(x: int, len: nat): (r: nat)
    ensures r <= len
    ensures 0 <= x ==> r == if x <= len then x else len
    ensures x < 0 ==> r == if len + x >= 0 then len + x else 0
  {
    if x < 0 then (if len + x >= 0 then len + x else 0) else if x <= len then x else len
  }

  /** `s.slice(start, end)`. */
  function JsSlice<T>(s: seq<T>, start: int, end: int): (r: seq<T>)
    ensures |r| <= |s|
    ensures SliceIndex(start, |s|) < SliceIndex(end, |s|) ==> r == s[SliceIndex(start, |s|)..SliceIndex(end, |s|)]
    ensures SliceIndex(start, |s|) >= SliceIndex(end, |s|) ==> r == []
  {
    var from, to := SliceIndex(start, |s|), SliceIndex(end, |s|);
    if from < to then s[from..to] else []
  }

  /** The object `getPaginated` returns. */
  datatype PageResult = PageResult(
    items: seq<Employee>,
    totalItems: nat,
    totalPages: nat,
    currentPage: int,
    pageSize: nat,
    hasNext: bool,
    hasPrev: bool)

  /**
   * `getPaginated(page, pageSize, searchQuery)`: one page of the search
   * result. The page number is used as given, without clamping.
   */
  function Paginate(es: seq<Employee>, page: int, size: nat, query: string): (p: PageResult)
    requires size >= 1
    ensures p.totalItems == |Search(es, query)|
    ensures p.currentPage == page && p.pageSize == size
    ensures p.totalPages == CeilDiv(p.totalItems, size)
    ensures p.hasNext <==> page < p.totalPages
    ensures p.hasPrev <==> page > 1
    ensures |p.items| <= size
  {
    var filtered := Search(es, query);
    var totalPages := CeilDiv(|filtered|, size);
    var start := (page - 1) * size;
    PageResult(JsSlice(filtered, start, start + size), |filtered|, totalPages, page, size,
               page < totalPages, page > 1)
  }

  /** The `page`-th block of `size` records of `f`, for the page numbers the interface shows. */
  function Block<T>(f: seq<T>, page: nat, size: nat): (r: seq<T>)
    requires page >= 1 && size >= 1
    ensures |r| <= size
    ensures r != [] <==> (page - 1) * size < |f|
  {
    var lo := (page - 1) * size;
    if lo >= |f| then [] else if lo + size >= |f| then f[lo..] else f[lo..lo + size]
  }

  /** Slicing from the start of a block to its end cuts out that block. */
  lemma SliceIsBlock<T>(f: seq<T>, page: int, size: nat)
    requires size >= 1 && page >= 1
    ensures JsSlice(f, (page - 1) * size, (page - 1) * size + size) == Block(f, page, size)
  {
    var lo := (page - 1) * size;
    assert lo >= 0;
  }

  /** For a page number from 1 on, the items are that block of the search result. */
  lemma PageItemsAreBlock(es: seq<Employee>, page: int, size: nat, query: string)
    requires size >= 1 && page >= 1
    ensures Paginate(es, page, size, query).items == Block(Search(es, query), page, size)
  {
    SliceIsBlock(Search(es, query), page, size);
  }

  /** A block starts before the end of `n` records exactly when its page is within the page count. */
  lemma BlockStartsInside(n: nat, page: int, size: nat)
    requires size >= 1 && page >= 1
    ensures (page - 1) * size < n <==> page <= CeilDiv(n, size)
  {
    var t := CeilDiv(n, size);
    if page <= t {
      MulMonotone(page - 1, t - 1, size);
    } else {
      MulMonotone(t, page - 1, size);
    }
  }

  lemma MulMonotone(a: int, b: int, size: nat)
    requires a <= b
    ensures a * size <= b * size
  {
  }

  /** A page from 1 to the page count has items; the pages after it are empty. */
  lemma PageNonEmptyIffInRange(es: seq<Employee>, page: int, size: nat, query: string)
    requires size >= 1 && page >= 1
    ensures var p := Paginate(es, page, size, query);
      p.items != [] <==> page <= p.totalPages
  {
    var f := Search(es, query);
    var p := Paginate(es, page, size, query);
    PageItemsAreBlock(es, page, size, query);
    BlockStartsInside(|f|, page, size);
    assert p.items != [] <==> (page - 1) * size < |f|;
  }

  /** Page 0, which `page - 1` turns into a start before the first record, is always empty. */
  lemma PageZeroEmpty(es: seq<Employee>, size: nat, query: string)
    requires size >= 1
    ensures Paginate(es, 0, size, query).items == []
  {
  }

  /** The blocks of pages 1 to `k`, one after the other. */
  function Blocks<T>(f: seq<T>, k: nat, size: nat): seq<T>
    requires size >= 1
  {
    if k == 0 then [] else Blocks(f, k - 1, size) + Block(f, k, size)
  }

  /** The first `k` pages are the first `k * size` records. */
  lemma {:induction false} BlocksArePrefix<T>(f: seq<T>, k: nat, size: nat)
    requires size >= 1
    ensures Blocks(f, k, size) == f[..if k * size <= |f| then k * size else |f|]
  {
    if k > 0 {
      BlocksArePrefix(f, k - 1, size);
      assert k * size == (k - 1) * size + size;
    }
  }

  /** Pages 1 to the page count, read in turn, list the whole search result exactly once. */
  lemma PagesCoverResult(es: seq<Employee>, size: nat, query: string)
    requires size >= 1
    ensures var f := Search(es, query);
      Blocks(f, CeilDiv(|f|, size), size) == f
  {
    var f := Search(es, query);
    BlocksArePrefix(f, CeilDiv(|f|, size), size);
  }

  // ---------------------------------------------------------------------
  // sort

  /** The keys `sort` accepts; `Unlisted` is any other name, whose value on every record is `undefined`. */
  datatype SortField =
    | Id | FirstName | LastName | Email | Phone
    | DateOfEmployment | DateOfBirth | Department | Position
    | Unlisted

  /** `'asc'`, or any other direction string, which sorts descending. */
  datatype Direction = Asc | Desc

  /** The value the comparator compares: a lower-cased string, a day, or `undefined`. */
  datatype Key = Text(s: string) | Day(d: Date) | Undefined

  function KeyOf(e: Employee, f: SortField): Key {
    match f
    case Id => Text(ToLower(e.id))
    case FirstName => Text(ToLower(e.firstName))
    case LastName => Text(ToLower(e.lastName))
    case Email => Text(ToLower(e.email))
    case Phone => Text(ToLower(e.phone))
    case DateOfEmployment => Day(e.dateOfEmployment)
    case DateOfBirth => Day(e.dateOfBirth)
    case Department => Text(ToLower(e.department))
    case Position => Text(ToLower(e.position))
    case Unlisted => Undefined
  }

  function KindRank(k: Key): nat {
    match k
    case Undefined => 0
    case Text(_) => 1
    case Day(_) => 2
  }

  /**
   * `<` on the compared values. For one field every record yields the same
   * kind of key; across kinds an arbitrary fixed order keeps the relation total.
   */
  predicate KeyLess(a: Key, b: Key) {
    if a.Text? && b.Text? then StrLess(a.s, b.s)
    else if a.Day? && b.Day? then Before(a.d, b.d)
    else KindRank(a) < KindRank(b)
  }

  lemma KeyLessIrreflexive(a: Key)
    ensures !KeyLess(a, a)
  {
    if a.Text? { StrLessIrreflexive(a.s); }
  }

  lemma KeyLessTransitive(a: Key, b: Key, c: Key)
    requires KeyLess(a, b) && KeyLess(b, c)
    ensures KeyLess(a, c)
  {
    if a.Text? && b.Text? && c.Text? { StrLessTransitive(a.s, b.s, c.s); }
  }

  lemma KeyLessTotal(a: Key, b: Key)
    requires a != b
    ensures KeyLess(a, b) || KeyLess(b, a)
  {
    if a.Text? && b.Text? { StrLessTotal(a.s, b.s); }
    else if a.Day? && b.Day? {
      assert a.d != b.d;
    }
  }

  /** Two keys are equal, or exactly one is less than the other. */
  lemma KeyTrichotomy(a: Key, b: Key)
    ensures a == b <==> !KeyLess(a, b) && !KeyLess(b, a)
    ensures !(KeyLess(a, b) && KeyLess(b, a))
  {
    KeyLessIrreflexive(a);
    if a != b { KeyLessTotal(a, b); }
    if KeyLess(a, b) && KeyLess(b, a) {
      KeyLessTransitive(a, b, a);
    }
  }

  /** `a` goes first in direction `dir`. */
  predicate KeyBefore(a: Key, b: Key, dir: Direction) {
    if dir == Asc then KeyLess(a, b) else KeyLess(b, a)
  }

  /** "Not after" is transitive: the order of keys in either direction is a total preorder. */
  lemma KeyNotBeforeTransitive(a: Key, b: Key, c: Key, dir: Direction)
    requires !KeyBefore(b, a, dir) && !KeyBefore(c, b, dir)
    ensures !KeyBefore(c, a, dir)
  {
    KeyTrichotomy(a, b);
    KeyTrichotomy(b, c);
    KeyTrichotomy(a, c);
    if a != b && b != c {
      if dir == Asc { KeyLessTransitive(a, b, c); } else { KeyLessTransitive(c, b, a); }
    }
  }

  /** The comparator of `sort`: -1, 1 or 0. */
  function Compare(a: Employee, b: Employee, f: SortField, dir: Direction): (c: int)
    ensures c == 0 <==> KeyOf(a, f) == KeyOf(b, f)
    ensures c < 0 <==> KeyBefore(KeyOf(a, f), KeyOf(b, f), dir)
    ensures c > 0 <==> KeyBefore(KeyOf(b, f), KeyOf(a, f), dir)
  {
    var ka, kb := KeyOf(a, f), KeyOf(b, f);
    KeyTrichotomy(ka, kb);
    if KeyLess(ka, kb) then (if dir == Asc then -1 else 1)
    else if KeyLess(kb, ka) then (if dir == Asc then 1 else -1)
    else 0
  }

  /** `a` must come strictly before `b`: the comparator is negative. */
  predicate Precedes(a: Employee, b: Employee, f: SortField, dir: Direction) {
    KeyBefore(KeyOf(a, f), KeyOf(b, f), dir)
  }

  /** No record is followed by one that must precede it. */
  predicate SortedBy(s: seq<Employee>, f: SortField, dir: Direction) {
    forall i, j :: 0 <= i < j < |s| ==> !Precedes(s[j], s[i], f, dir)
  }

  /** Puts `x` in front of the first record that need not precede it. */
  function Insert(x: Employee, s: seq<Employee>, f: SortField, dir: Direction): (r: seq<Employee>)
    ensures multiset(r) == multiset(s) + multiset{x}
  {
    if s == [] then [x]
    else (
      assert s == [s[0]] + s[1..];
      if Precedes(s[0], x, f, dir) then [s[0]] + Insert(x, s[1..], f, dir) else [x] + s)
  }

  /**
   * The array `sort` returns: a stable sort of a copy of the records by the
   * comparator. Insertion sort is the reference for the stable sort the
   * language guarantees.
   */
  function SortBy(es: seq<Employee>, f: SortField, dir: Direction): (r: seq<Employee>)
    ensures multiset(r) == multiset(es)
  {
    if es == [] then [] else (assert es == [es[0]] + es[1..]; Insert(es[0], SortBy(es[1..], f, dir), f, dir))
  }

  /** Every record of `s` may stand after `y`. */
  predicate NoneBefore(y: Employee, s: seq<Employee>, f: SortField, dir: Direction) {
    forall j :: 0 <= j < |s| ==> !Precedes(s[j], y, f, dir)
  }

  lemma {:induction false} NoneBeforeInsert(y: Employee, x: Employee, s: seq<Employee>, f: SortField, dir: Direction)
    requires NoneBefore(y, s, f, dir) && !Precedes(x, y, f, dir)
    ensures NoneBefore(y, Insert(x, s, f, dir), f, dir)
  {
    if s == [] {
      NoneBeforeCons(y, x, [], f, dir);
    } else if Precedes(s[0], x, f, dir) {
      NoneBeforeTail(y, s, f, dir);
      NoneBeforeInsert(y, x, s[1..], f, dir);
      NoneBeforeCons(y, s[0], Insert(x, s[1..], f, dir), f, dir);
    } else {
      NoneBeforeCons(y, x, s, f, dir);
    }
  }

  lemma NoneBeforeCons(y: Employee, a: Employee, s: seq<Employee>, f: SortField, dir: Direction)
    requires !Precedes(a, y, f, dir) && NoneBefore(y, s, f, dir)
    ensures NoneBefore(y, [a] + s, f, dir)
  {
    forall j | 0 <= j < |[a] + s| ensures !Precedes(([a] + s)[j], y, f, dir) {
      if j > 0 {
        assert ([a] + s)[j] == s[j - 1];
      }
    }
  }

  lemma NoneBeforeTail(y: Employee, s: seq<Employee>, f: SortField, dir: Direction)
    requires s != [] && NoneBefore(y, s, f, dir)
    ensures NoneBefore(y, s[1..], f, dir)
  {
    forall j | 0 <= j < |s| - 1 ensures !Precedes(s[1..][j], y, f, dir) {
      assert s[1..][j] == s[j + 1];
    }
  }

  lemma {:induction false} InsertSorted(x: Employee, s: seq<Employee>, f: SortField, dir: Direction)
    requires SortedBy(s, f, dir)
    ensures SortedBy(Insert(x, s, f, dir), f, dir)
  {
    if s == [] {
    } else if Precedes(s[0], x, f, dir) {
      var t := s[1..];
      assert SortedBy(t, f, dir);
      InsertSorted(x, t, f, dir);
      KeyTrichotomy(KeyOf(s[0], f), KeyOf(x, f));
      assert NoneBefore(s[0], t, f, dir);
      NoneBeforeInsert(s[0], x, t, f, dir);
      SortedCons(s[0], Insert(x, t, f, dir), f, dir);
    } else {
      forall j | 0 <= j < |s| ensures !Precedes(s[j], x, f, dir) {
        if j > 0 {
          KeyNotBeforeTransitive(KeyOf(x, f), KeyOf(s[0], f), KeyOf(s[j], f), dir);
        }
      }
      SortedCons(x, s, f, dir);
    }
  }

  lemma SortedCons(y: Employee, s: seq<Employee>, f: SortField, dir: Direction)
    requires SortedBy(s, f, dir) && NoneBefore(y, s, f, dir)
    ensures SortedBy([y] + s, f, dir)
  {
    var r := [y] + s;
    forall i, j | 0 <= i < j < |r| ensures !Precedes(r[j], r[i], f, dir) {
      if i > 0 {
        assert r[i] == s[i - 1] && r[j] == s[j - 1];
      } else {
        assert r[j] == s[j - 1];
      }
    }
  }

  /** The result of `sort` is ordered by the comparator. */
  lemma {:induction false} SortBySorted(es: seq<Employee>, f: SortField, dir: Direction)
    ensures SortedBy(SortBy(es, f, dir), f, dir)
  {
    if es != [] {
      SortBySorted(es[1..], f, dir);
      InsertSorted(es[0], SortBy(es[1..], f, dir), f, dir);
    }
  }

  /** The records whose key is `k`, in their order. */
  function WithKey(s: seq<Employee>, f: SortField, k: Key): (r: seq<Employee>)
    ensures |r| <= |s|
  {
    if s == [] then [] else (if KeyOf(s[0], f) == k then [s[0]] else []) + WithKey(s[1..], f, k)
  }

  lemma {:induction false} InsertWithKey(x: Employee, s: seq<Employee>, f: SortField, dir: Direction, k: Key)
    ensures WithKey(Insert(x, s, f, dir), f, k) == (if KeyOf(x, f) == k then [x] else []) + WithKey(s, f, k)
  {
    if s != [] {
      if Precedes(s[0], x, f, dir) {
        var t := Insert(x, s[1..], f, dir);
        InsertWithKey(x, s[1..], f, dir, k);
        KeyTrichotomy(KeyOf(s[0], f), KeyOf(x, f));
        WithKeyCons(s[0], t, f, k);
      } else {
        WithKeyCons(x, s, f, k);
      }
    }
  }

  lemma WithKeyCons(y: Employee, s: seq<Employee>, f: SortField, k: Key)
    ensures WithKey([y] + s, f, k) == (if KeyOf(y, f) == k then [y] else []) + WithKey(s, f, k)
  {
    assert ([y] + s)[0] == y;
    assert ([y] + s)[1..] == s;
  }

  /** Stability: among records with equal keys the sort keeps the store's order. */
  lemma {:induction false} SortByStable(es: seq<Employee>, f: SortField, dir: Direction, k: Key)
    ensures WithKey(SortBy(es, f, dir), f, k) == WithKey(es, f, k)
  {
    if es != [] {
      SortByStable(es[1..], f, dir, k);
      InsertWithKey(es[0], SortBy(es[1..], f, dir), f, dir, k);
    }
  }

  lemma {:induction false} WithKeyAll(s: seq<Employee>, f: SortField, k: Key)
    requires forall i :: 0 <= i < |s| ==> KeyOf(s[i], f) == k
    ensures WithKey(s, f, k) == s
  {
    if s != [] {
      WithKeyAll(s[1..], f, k);
    }
  }

  /** Sorting by a key no record has leaves the order as it was. */
  lemma SortByUnlistedIsIdentity(es: seq<Employee>, dir: Direction)
    ensures SortBy(es, Unlisted, dir) == es
  {
    var r := SortBy(es, Unlisted, dir);
    SortByStable(es, Unlisted, dir, Undefined);
    assert forall i :: 0 <= i < |r| ==> KeyOf(r[i], Unlisted) == Undefined;
    WithKeyAll(es, Unlisted, Undefined);
    WithKeyAll(r, Unlisted, Undefined);
    calc {
      r;
      WithKey(r, Unlisted, Undefined);
      WithKey(es, Unlisted, Undefined);
      es;
    }
  }
}
