/** Paged iteration over an address book (`__iter__` / `__next__`). A pass
    works on a snapshot of the records and a page cursor; each step yields
    the slice `[k * page_size, (k + 1) * page_size)` of the snapshot and
    stops on an empty slice. */
module Pagination {
  import opened Wrappers
  import opened Records
  import AddressBook
  import opened Arith
  import opened Seqs

  /** The iteration state: the `contacts` snapshot and `current_page`. */
  datatype Cursor<T> = Cursor(contacts: seq<T>, currentPage: nat)

  /** One `__next__`: a page and the advanced cursor, or StopIteration. */
  datatype Step<T> = Stop | Page(page: seq<T>, next: Cursor<T>)

  function Min(a: int, b: int): int {
    if a <= b then a else b
  }

  /** Python's `s[lo:hi]` for non-negative bounds: the elements at positions
      `lo` up to `hi` that exist. */
  function Slice<T>(s: seq<T>, lo: nat, hi: nat): (r: seq<T>)
    ensures |r| == if lo < Min(hi, |s|) then Min(hi, |s|) - lo else 0
    ensures forall i :: 0 <= i < |r| ==> r[i] == s[lo + i]
  {
    if lo < Min(hi, |s|) then s[lo..Min(hi, |s|)] else []
  }

  /** `current_page * page_size`, the first index of page `k`, counted one
      page at a time. */
  function Offset(k: nat, ps: nat): nat {
    if k == 0 then 0 else Offset(k - 1, ps) + ps
  }

  lemma {:induction false} OffsetIsProduct(k: nat, ps: nat)
    ensures Offset(k, ps) == k * ps
  {
    if k > 0 {
      OffsetIsProduct(k - 1, ps);
      MulSucc(k - 1, ps);
    }
  }

  /** `__iter__`: a snapshot of the book's records and the cursor at page 0.
      Any earlier pass's cursor is discarded. */
  function Iter(b: AddressBook.Book): (c: Cursor<Record>)
    requires AddressBook.KeysUnique(b.entries)
    ensures c.contacts == AddressBook.Values(b) && c.currentPage == 0
    ensures |c.contacts| == |b.entries|
    ensures forall i :: 0 <= i < |c.contacts| ==>
              AddressBook.Find(b, b.entries[i].key) == Some(c.contacts[i])
  {
    Cursor(AddressBook.Values(b), 0)
  }

  /** `__next__` with page size `ps`. */
  function Next<T>(c: Cursor<T>, ps: nat): (st: Step<T>)
    ensures st.Stop? <==> ps == 0 || Offset(c.currentPage, ps) >= |c.contacts|
    ensures st.Page? ==>
              && st.next == Cursor(c.contacts, c.currentPage + 1)
              && |st.page| == Min(ps, |c.contacts| - Offset(c.currentPage, ps))
              && forall i :: 0 <= i < |st.page| ==> st.page[i] == c.contacts[Offset(c.currentPage, ps) + i]
  {
    var page := Slice(c.contacts, Offset(c.currentPage, ps), Offset(c.currentPage + 1, ps));
    if page == [] then Stop else Page(page, Cursor(c.contacts, c.currentPage + 1))
  }

  /** The records a cursor has not yet reached. */
  function Remaining<T>(c: Cursor<T>, ps: nat): nat {
    var start := Offset(c.currentPage, ps);
    if start < |c.contacts| then |c.contacts| - start else 0
  }

  /** Every page `__next__` yields from cursor `c` until StopIteration. */
  function PagesFrom<T>(c: Cursor<T>, ps: nat): seq<seq<T>>
    decreases Remaining(c, ps)
  {
    match Next(c, ps)
    case Stop => []
    case Page(page, next) =>
      [page] + PagesFrom(next, ps)
  }

  /** The pages of one full pass over the book, `for page in book`. */
  function Pages(b: AddressBook.Book): seq<seq<Record>>
    requires AddressBook.KeysUnique(b.entries)
  {
    PagesFrom(Iter(b), b.pageSize)
  }

  /** The pages laid end to end. */
  function Flatten<T>(pages: seq<seq<T>>): seq<T> {
    if |pages| == 0 then [] else pages[0] + Flatten(pages[1..])
  }

  /** From any cursor, every page is non-empty and at most `ps` long. */
  lemma {:induction false} PagesBounded<T>(c: Cursor<T>, ps: nat)
    ensures forall i :: 0 <= i < |PagesFrom(c, ps)| ==> 0 < |PagesFrom(c, ps)[i]| <= ps
    decreases Remaining(c, ps)
  {
    match Next(c, ps)
    case Stop =>
    case Page(page, next) =>
      PagesBounded(next, ps);
      assert PagesFrom(c, ps) == [page] + PagesFrom(next, ps);
  }

  /** From any cursor, every page but the last is full. */
  lemma {:induction false} PagesFull<T>(c: Cursor<T>, ps: nat)
    ensures forall i :: 0 <= i < |PagesFrom(c, ps)| - 1 ==> |PagesFrom(c, ps)[i]| == ps
    decreases Remaining(c, ps)
  {
    match Next(c, ps)
    case Stop =>
    case Page(page, next) =>
      PagesFull(next, ps);
      var rest := PagesFrom(next, ps);
      assert PagesFrom(c, ps) == [page] + rest;
      if |rest| > 0 {
        assert Next(next, ps).Page?;
      }
  }

  /** From any cursor, the pages lay out the rest of the snapshot. */
  lemma {:induction false} PagesFlatten<T>(c: Cursor<T>, ps: nat)
    requires ps > 0
    ensures Flatten(PagesFrom(c, ps)) == c.contacts[Min(Offset(c.currentPage, ps), |c.contacts|)..]
    decreases Remaining(c, ps)
  {
    var st := Next(c, ps);
    if st.Page? {
      NextPageIsSlice(c, ps);
      var start := Offset(c.currentPage, ps);
      var end := Min(start + ps, |c.contacts|);
      assert Remaining(st.next, ps) < Remaining(c, ps);
      PagesFlatten(st.next, ps);
      FlattenCons(st.page, PagesFrom(st.next, ps));
      SuffixSplit(c.contacts, start, end);
    }
  }

  lemma FlattenCons<T>(page: seq<T>, rest: seq<seq<T>>)
    ensures Flatten([page] + rest) == page + Flatten(rest)
  {
    assert ([page] + rest)[1..] == rest;
  }

  /** A page is the snapshot's slice from the cursor's offset, and the next
      cursor's offset is one page further on. */
  lemma NextPageIsSlice<T>(c: Cursor<T>, ps: nat)
    requires Next(c, ps).Page?
    ensures var start := Offset(c.currentPage, ps);
            && start < |c.contacts|
            && Next(c, ps).page == c.contacts[start..Min(start + ps, |c.contacts|)]
            && Offset(Next(c, ps).next.currentPage, ps) == start + ps
  {
    var start := Offset(c.currentPage, ps);
    var page := Next(c, ps).page;
    assert page == c.contacts[start..Min(start + ps, |c.contacts|)] by {
      forall i | 0 <= i < |page|
        ensures page[i] == c.contacts[start..Min(start + ps, |c.contacts|)][i]
      {
      }
    }
  }

  /** From any cursor with `ps > 0`, there are just enough pages to hold
      the records not yet reached. */
  lemma {:induction false} PagesCount<T>(c: Cursor<T>, ps: nat)
    requires ps > 0
    ensures Remaining(c, ps) <= Offset(|PagesFrom(c, ps)|, ps)
    ensures |PagesFrom(c, ps)| > 0 ==> Offset(|PagesFrom(c, ps)| - 1, ps) < Remaining(c, ps)
    decreases Remaining(c, ps)
  {
    match Next(c, ps)
    case Stop =>
    case Page(page, next) =>
      PagesCount(next, ps);
      var m := |PagesFrom(next, ps)|;
      assert |PagesFrom(c, ps)| == m + 1;
      assert Offset(m + 1, ps) == Offset(m, ps) + ps;
      assert Offset(next.currentPage, ps) == Offset(c.currentPage, ps) + ps;
      if m > 0 {
        assert Offset(m, ps) == Offset(m - 1, ps) + ps;
      }
  }

  /** With `page_size > 0`, a pass over a book of `n` records yields
      `ceil(n / page_size)` pages, each non-empty and at most `page_size`
      long, all but the last full, that concatenate back to the records in
      enumeration order. */
  lemma PagesOfBook(b: AddressBook.Book)
    requires AddressBook.KeysUnique(b.entries) && b.pageSize > 0
    ensures var p, n, ps := Pages(b), |b.entries|, b.pageSize;
            && (forall i :: 0 <= i < |p| ==> 0 < |p[i]| <= ps)
            && (forall i :: 0 <= i < |p| - 1 ==> |p[i]| == ps)
            && Flatten(p) == AddressBook.Values(b)
            && |p| == (n + ps - 1) / ps
  {
    var s, ps := AddressBook.Values(b), b.pageSize;
    var p := Pages(b);
    assert p == PagesFrom(Cursor(s, 0), ps);
    assert |s| == |b.entries|;
    PagesOfSnapshot(s, ps);
  }

  /** The same facts for a pass over any snapshot `s`. */
  lemma PagesOfSnapshot<T>(s: seq<T>, ps: nat)
    requires ps > 0
    ensures var p, n := PagesFrom(Cursor(s, 0), ps), |s|;
            && (forall i :: 0 <= i < |p| ==> 0 < |p[i]| <= ps)
            && (forall i :: 0 <= i < |p| - 1 ==> |p[i]| == ps)
            && Flatten(p) == s
            && |p| == (n + ps - 1) / ps
  {
    var c := Cursor(s, 0);
    var p, n := PagesFrom(c, ps), |s|;
    PagesBounded(c, ps);
    PagesFull(c, ps);
    PagesFlatten(c, ps);
    PagesCount(c, ps);
    OffsetIsProduct(|p|, ps);
    if |p| > 0 {
      OffsetIsProduct(|p| - 1, ps);
    }
    CeilingDivision(n, ps, |p|);
  }

  /** `m` is the ceiling of `n / ps` when `(m - 1) * ps < n <= m * ps`. */
  lemma CeilingDivision(n: nat, ps: nat, m: nat)
    requires ps > 0 && (m - 1) * ps < n <= m * ps
    ensures m == (n + ps - 1) / ps
  {
    MulSucc(m - 1, ps);
    DivUnique(n + ps - 1, ps, m, n + ps - 1 - m * ps);
  }

  /** Twelve records in pages of five come out as pages of 5, 5 and 2. */
  lemma TwelveRecordsInPagesOfFive(b: AddressBook.Book)
    requires AddressBook.KeysUnique(b.entries) && |b.entries| == 12 && b.pageSize == 5
    ensures |Pages(b)| == 3
    ensures |Pages(b)[0]| == 5 && |Pages(b)[1]| == 5 && |Pages(b)[2]| == 2
  {
    PagesOfBook(b);
    var p := Pages(b);
    assert Flatten(p) == p[0] + Flatten(p[1..]);
    assert Flatten(p[1..]) == p[1] + Flatten(p[2..]);
    assert Flatten(p[2..]) == p[2] + Flatten(p[3..]);
    assert |Flatten(p)| == 12;
  }

  /** `page_size == 0`: the first slice is already empty, so a pass yields
      nothing. */
  lemma PagesOfZeroSize(b: AddressBook.Book)
    requires AddressBook.KeysUnique(b.entries) && b.pageSize == 0
    ensures Pages(b) == []
  {
  }

  /** The demo loop over a new `AddressBook()` sees no page at all. */
  lemma EmptyBookHasNoPages()
    ensures Pages(AddressBook.EmptyBook()) == []
  {
  }

  /** A cursor that has yielded `j` pages goes on with exactly the pages a
      fresh pass yields from position `j`, so restarting with `__iter__`
      replays the same pages; once exhausted, it keeps stopping. */
  lemma {:induction false} ResumeYieldsRest<T>(s: seq<T>, ps: nat, j: nat)
    requires j <= |PagesFrom(Cursor(s, 0), ps)|
    ensures PagesFrom(Cursor(s, j), ps) == PagesFrom(Cursor(s, 0), ps)[j..]
    ensures j == |PagesFrom(Cursor(s, 0), ps)| ==> Next(Cursor(s, j), ps) == Stop
    decreases j
  {
    var all := PagesFrom(Cursor(s, 0), ps);
    if j > 0 {
      ResumeYieldsRest(s, ps, j - 1);
      var before := PagesFrom(Cursor(s, j - 1), ps);
      assert before == all[j - 1..];
      assert Next(Cursor(s, j - 1), ps).Page?;
      assert before[1..] == PagesFrom(Cursor(s, j), ps);
      assert all[j - 1..][1..] == all[j..];
    }
  }
}
