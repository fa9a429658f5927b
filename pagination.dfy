/** The arithmetic of the role table's pager (TablePaginationActions): the
    page each of the four buttons asks for and when each button is disabled.
    `count` is the number of roles the server reported, `page` the current
    0-based page index and `rowsPerPage` the page size. */
module TablePagination {

  /** The page sizes the role table offers. */
  const RowsPerPageOptions: set<nat> := {10, 20, 25}

  /** The four pager buttons. */
  datatype Button = First | Previous | Next | Last

  /** Reference definition: page `p` holds at least one of `count` rows. */
  predicate HasRows(count: nat, rowsPerPage: nat, p: nat)
  {
    p * rowsPerPage < count
  }

  lemma CeilDivBounds(count: nat, rowsPerPage: nat)
    requires rowsPerPage > 0
    ensures ((count + rowsPerPage - 1) / rowsPerPage) * rowsPerPage >= count
    ensures ((count + rowsPerPage - 1) / rowsPerPage) * rowsPerPage < count + rowsPerPage
  {
    var a := count + rowsPerPage - 1;
    var q, m := a / rowsPerPage, a % rowsPerPage;
    assert a == q * rowsPerPage + m;
    assert 0 <= m < rowsPerPage;
  }

  /** Math.ceil(count / rowsPerPage): the number of pages `count` rows fill. */
  function PageCount(count: nat, rowsPerPage: nat): (n: nat)
    requires rowsPerPage > 0
    ensures n * rowsPerPage >= count
    ensures n == 0 || (n - 1) * rowsPerPage < count
  {
    CeilDivBounds(count, rowsPerPage);
    (count + rowsPerPage - 1) / rowsPerPage
  }

  /** Any page count with the two ceiling bounds is PageCount: the bounds of
      PageCount pin it down. */
  lemma PageCountIsCeiling(count: nat, rowsPerPage: nat, n: nat)
    requires rowsPerPage > 0
    requires n * rowsPerPage >= count
    requires n == 0 || (n - 1) * rowsPerPage < count
    ensures n == PageCount(count, rowsPerPage)
  {
    var c := PageCount(count, rowsPerPage);
    if n < c {
      MulMonotone(n, c - 1, rowsPerPage);
    } else if c < n {
      MulMonotone(c, n - 1, rowsPerPage);
    }
  }

  lemma MulMonotone(a: nat, b: nat, k: nat)
    requires a <= b
    ensures a * k <= b * k
  {
    assert b * k == a * k + (b - a) * k;
  }

  /** A page index lies below the page count exactly when that page holds rows. */
  lemma BelowPageCountIffHasRows(count: nat, rowsPerPage: nat, p: nat)
    requires rowsPerPage > 0
    ensures p < PageCount(count, rowsPerPage) <==> HasRows(count, rowsPerPage, p)
  {
    var c := PageCount(count, rowsPerPage);
    if p < c {
      MulMonotone(p, c - 1, rowsPerPage);
    } else {
      MulMonotone(c, p, rowsPerPage);
    }
  }

  /** Math.max(0, Math.ceil(count / rowsPerPage) - 1): the index of the last page,
      never negative, 0 for an empty table, and otherwise the page holding the
      last row. */
  function LastPage(count: nat, rowsPerPage: nat): (p: nat)
    requires rowsPerPage > 0
    ensures count == 0 ==> p == 0
    ensures count > 0 ==> p * rowsPerPage < count <= (p + 1) * rowsPerPage
  {
    var n := PageCount(count, rowsPerPage);
    if n - 1 < 0 then 0 else n - 1
  }

  /** The last page is the highest page with rows: it has rows itself (when
      there are any) and no page after it has. */
  lemma LastPageIsLastWithRows(count: nat, rowsPerPage: nat, p: nat)
    requires rowsPerPage > 0
    ensures HasRows(count, rowsPerPage, p) ==> p <= LastPage(count, rowsPerPage)
    ensures count > 0 ==> HasRows(count, rowsPerPage, LastPage(count, rowsPerPage))
  {
    BelowPageCountIffHasRows(count, rowsPerPage, p);
  }

  /** With more rows than fit on one page, the page count is one more than
      that of the rows after the first page. */
  lemma PageCountStep(count: nat, rowsPerPage: nat)
    requires 0 < rowsPerPage < count
    ensures PageCount(count, rowsPerPage) == PageCount(count - rowsPerPage, rowsPerPage) + 1
  {
    var rest := PageCount(count - rowsPerPage, rowsPerPage);
    assert (rest + 1) * rowsPerPage == rest * rowsPerPage + rowsPerPage;
    PageCountIsCeiling(count, rowsPerPage, rest + 1);
  }

  function Min(a: int, b: int): int
  {
    if a < b then a else b
  }

  /** Reference definition: the rows `all`, cut into pages of `rowsPerPage`
      rows as the server pages them; every page holds at least one row and
      there are exactly PageCount pages. */
  function Pages<T>(all: seq<T>, rowsPerPage: nat): (pages: seq<seq<T>>)
    requires rowsPerPage > 0
    ensures |pages| == PageCount(|all|, rowsPerPage)
    ensures forall p :: 0 <= p < |pages| ==> 0 < |pages[p]| <= rowsPerPage
    decreases |all|
  {
    if all == [] then []
    else if |all| <= rowsPerPage then
      PageCountIsCeiling(|all|, rowsPerPage, 1);
      [all]
    else
      PageCountStep(|all|, rowsPerPage);
      [all[..rowsPerPage]] + Pages(all[rowsPerPage..], rowsPerPage)
  }

  /** The rows of several pages, one page after the other. */
  function Concat<T>(pages: seq<seq<T>>): seq<T>
  {
    if pages == [] then [] else pages[0] + Concat(pages[1..])
  }

  /** Paging from the first page to the last shows every row once, in order. */
  lemma {:induction false} PagesCoverAll<T>(all: seq<T>, rowsPerPage: nat)
    requires rowsPerPage > 0
    ensures Concat(Pages(all, rowsPerPage)) == all
    decreases |all|
  {
    if |all| > rowsPerPage {
      var pages := Pages(all, rowsPerPage);
      PagesCoverAll(all[rowsPerPage..], rowsPerPage);
      assert pages[1..] == Pages(all[rowsPerPage..], rowsPerPage);
      assert all == all[..rowsPerPage] + all[rowsPerPage..];
    } else if all != [] {
      assert Pages(all, rowsPerPage)[1..] == [];
    }
  }

  /** Page `p` of the reference is the slice that getAllRoles with page p + 1
      and limit rowsPerPage names: rows p * rowsPerPage up to
      (p + 1) * rowsPerPage, cut at the end of the list. */
  lemma {:induction false} PageIsSlice<T>(all: seq<T>, rowsPerPage: nat, p: nat)
    requires rowsPerPage > 0
    requires HasRows(|all|, rowsPerPage, p)
    ensures p < |Pages(all, rowsPerPage)|
    ensures Pages(all, rowsPerPage)[p] == all[p * rowsPerPage .. Min((p + 1) * rowsPerPage, |all|)]
    decreases p
  {
    BelowPageCountIffHasRows(|all|, rowsPerPage, p);
    if p == 0 {
      assert (p + 1) * rowsPerPage == rowsPerPage;
    } else {
      MulStep(p, rowsPerPage);
      MulStep(p + 1, rowsPerPage);
      PageIsSlice(all[rowsPerPage..], rowsPerPage, p - 1);
      PagesShift(all, rowsPerPage, p);
      ShiftedSlice(all, rowsPerPage, (p - 1) * rowsPerPage, p * rowsPerPage, (p + 1) * rowsPerPage);
    }
  }

  /** A slice of the rows after the first page, shifted by one page, is a
      slice of the whole list. */
  lemma ShiftedSlice<T>(all: seq<T>, k: nat, lo: nat, mid: nat, hi: nat)
    requires 0 < k && mid == lo + k && hi == mid + k && mid < |all|
    ensures all[k..][lo .. Min(mid, |all| - k)] == all[mid .. Min(hi, |all|)]
  {
    SliceOfSuffix(all, k, lo, Min(mid, |all| - k));
  }

  /** Past the first page, the pages of `all` are the pages of the rows
      after the first page. */
  lemma PagesShift<T>(all: seq<T>, rowsPerPage: nat, p: nat)
    requires 0 < rowsPerPage < |all| && 0 < p < |Pages(all, rowsPerPage)|
    ensures Pages(all, rowsPerPage)[p] == Pages(all[rowsPerPage..], rowsPerPage)[p - 1]
  {
  }

  /** Products of consecutive page indexes differ by one page. */
  lemma MulStep(p: nat, k: nat)
    requires p > 0
    ensures (p - 1) * k == p * k - k && p * k >= k
  {
  }

  lemma SliceOfSuffix<T>(s: seq<T>, k: nat, i: nat, j: nat)
    requires k <= |s| && i <= j <= |s| - k
    ensures s[k..][i..j] == s[k + i..k + j]
  {
  }

  /** For a non-empty list, LastPage is the index of its final page, and
      that page holds the rows from LastPage * rowsPerPage to the end. */
  lemma LastPageIsFinalPage<T>(all: seq<T>, rowsPerPage: nat)
    requires rowsPerPage > 0
    requires all != []
    ensures LastPage(|all|, rowsPerPage) == |Pages(all, rowsPerPage)| - 1
    ensures Pages(all, rowsPerPage)[LastPage(|all|, rowsPerPage)]
            == all[LastPage(|all|, rowsPerPage) * rowsPerPage..]
  {
    var last := LastPage(|all|, rowsPerPage);
    PageIsSlice(all, rowsPerPage, last);
  }

  /** The page index a click on button `b` passes to onPageChange: First
      and Last jump to the two ends, Previous and Next step one page back
      and forward, and Last lands on the page holding the last row. */
  function Target(b: Button, count: nat, page: nat, rowsPerPage: nat): (t: int)
    requires rowsPerPage > 0
    ensures b.Previous? ==> t < page
    ensures b.Next? ==> t > page
    ensures b.First? || b.Last? ==> t >= 0
    ensures b.Last? && count == 0 ==> t == 0
    ensures b.Last? && count > 0 ==>
              HasRows(count, rowsPerPage, t) && !HasRows(count, rowsPerPage, t + 1)
  {
    match b
    case First => 0
    case Previous => page - 1
    case Next => page + 1
    case Last => LastPage(count, rowsPerPage)
  }

  /** Whether button `b` is disabled: First and Previous on page 0, Next and
      Last once `page >= Math.ceil(count / rowsPerPage) - 1`. So First is
      disabled when the table already shows its target, Previous when its
      target would be negative, and Next and Last when no page after the
      current one holds rows. */
  predicate Disabled(b: Button, count: nat, page: nat, rowsPerPage: nat): (d: bool)
    requires rowsPerPage > 0
    ensures b.First? ==> (d <==> page == Target(b, count, page, rowsPerPage))
    ensures b.Previous? ==> (d <==> Target(b, count, page, rowsPerPage) < 0)
    ensures b.Next? || b.Last? ==> (d <==> !HasRows(count, rowsPerPage, page + 1))
  {
    BelowPageCountIffHasRows(count, rowsPerPage, page + 1);
    match b
    case First => page == 0
    case Previous => page == 0
    case Next => page >= PageCount(count, rowsPerPage) - 1
    case Last => page >= PageCount(count, rowsPerPage) - 1
  }

  /** Next and Last are disabled exactly when the current page is at or past
      the last page, and enabled exactly when the page after it holds rows. */
  lemma ForwardDisabledIff(count: nat, page: nat, rowsPerPage: nat)
    requires rowsPerPage > 0
    ensures Disabled(Next, count, page, rowsPerPage) <==> page >= LastPage(count, rowsPerPage)
    ensures Disabled(Last, count, page, rowsPerPage) <==> page >= LastPage(count, rowsPerPage)
    ensures !Disabled(Next, count, page, rowsPerPage) <==> HasRows(count, rowsPerPage, page + 1)
  {
    BelowPageCountIffHasRows(count, rowsPerPage, page + 1);
  }

  /** An enabled button never asks for a negative page: First asks for 0,
      Previous for the page before, Next for the page after, Last for the last
      page; Next and Last move forward without passing the last page. */
  lemma EnabledTarget(b: Button, count: nat, page: nat, rowsPerPage: nat)
    requires rowsPerPage > 0
    ensures !Disabled(b, count, page, rowsPerPage) ==> Target(b, count, page, rowsPerPage) >= 0
    ensures b == First ==> Target(b, count, page, rowsPerPage) == 0
    ensures b == Previous && !Disabled(b, count, page, rowsPerPage) ==>
              0 <= Target(b, count, page, rowsPerPage) == page - 1
    ensures (b.Next? || b.Last?) && !Disabled(b, count, page, rowsPerPage) ==>
              page < Target(b, count, page, rowsPerPage) <= LastPage(count, rowsPerPage)
  {
    ForwardDisabledIff(count, page, rowsPerPage);
  }

  /** From a page within [0, LastPage], every enabled button leads to a page
      within [0, LastPage]. */
  lemma EnabledTargetStaysInRange(b: Button, count: nat, page: nat, rowsPerPage: nat)
    requires rowsPerPage > 0
    requires page <= LastPage(count, rowsPerPage)
    requires !Disabled(b, count, page, rowsPerPage)
    ensures 0 <= Target(b, count, page, rowsPerPage) <= LastPage(count, rowsPerPage)
  {
    EnabledTarget(b, count, page, rowsPerPage);
  }
}
