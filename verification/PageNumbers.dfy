/** Page numbers: the path of each page, and when two pages share a table. */
module PageNumbers {
  import opened PageTables
  import opened PageRange
  import opened Paging
  import opened Bitmap

  // The pages of the lower half of the address space: canonical addresses, none of them in the recursive window.
  const PAGE_LIMIT := 256 * 0x800_0000

  function PagePath(page: nat): (path: seq<Index>)
    ensures |path| == 4
  {
    PathOf(page * PAGE_SIZE)
  }

  // The number of the aligned group of 512^k pages that a page belongs to: one table of level k per group.
  function Group(page: nat, k: nat): nat
    requires 1 <= k <= 3
  {
    if k == 1 then page / 512 else if k == 2 then page / 0x4_0000 else page / 0x800_0000
  }

  lemma PagePathIs(page: nat)
    requires page < PAGE_LIMIT
    ensures page / 0x800_0000 < 256
    ensures PagePath(page) == [page / 0x800_0000, page / 0x4_0000 % 512, page / 512 % 512, page % 512]
  {
    var a, b, c, d := page / 0x800_0000, page / 0x4_0000 % 512, page / 512 % 512, page % 512;
    assert page / 0x4_0000 == page / 512 / 512 by {
      QuotientIs(page, 0x4_0000, page / 512 / 512, page / 512 % 512 * 512 + page % 512);
    }
    assert a == page / 0x4_0000 / 512 by {
      QuotientIs(page, 0x800_0000, page / 0x4_0000 / 512, page / 0x4_0000 % 512 * 0x4_0000 + page % 0x4_0000);
    }
    PathOfFields(0, a, b, c, d, 0);
    assert EntriesToAddress(a, b, c, d) == page * PAGE_SIZE;
  }

  lemma SamePagePath(b: nat, offset: nat)
    requires b % PAGE_SIZE == 0 && offset < PAGE_SIZE
    ensures PathOf(b + offset) == PathOf(b)
  {
    AddressOfPath(b);
    PathOfFields(b / 0x1_0000_0000_0000, Pml4Entry(b), PdprEntry(b), PdEntry(b), PtEntry(b), offset);
  }

  // Word i of page t.
  lemma WordsOfPage(t: Frame, i: Index)
    requires t < PAGE_LIMIT
    ensures var x := t * PAGE_SIZE + i * WORD;
            Canonical(x) && x % WORD == 0 && PathOf(x) == PagePath(t) && WordOf(x) == i
  {
    hide PathOf;
    SamePagePath(t * PAGE_SIZE, i * WORD);
    var x := t * PAGE_SIZE + i * WORD;
    QuotientIs(x, PAGE_SIZE, t, i * WORD);
    QuotientIs(x, WORD, t * 512 + i, 0);
    QuotientIs(i * WORD, WORD, i, 0);
  }

  // Two pages share the table of level k exactly when they lie in the same group.
  lemma SharedPrefix(p: nat, q: nat)
    requires p < PAGE_LIMIT && q < PAGE_LIMIT
    ensures PagePath(p)[..3] == PagePath(q)[..3] <==> Group(p, 1) == Group(q, 1)
    ensures PagePath(p)[..2] == PagePath(q)[..2] <==> Group(p, 2) == Group(q, 2)
    ensures PagePath(p)[..1] == PagePath(q)[..1] <==> Group(p, 3) == Group(q, 3)
    ensures PagePath(p) == PagePath(q) <==> p == q
    ensures PagePath(p)[0] != RECURSIVE
  {
    PagePathIs(p);
    PagePathIs(q);
    PageDigits(p);
    PageDigits(q);
    var x, y := PagePath(p), PagePath(q);
    assert x[..1] == [x[0]] && x[..2] == [x[0], x[1]] && x[..3] == [x[0], x[1], x[2]];
    assert y[..1] == [y[0]] && y[..2] == [y[0], y[1]] && y[..3] == [y[0], y[1], y[2]];
  }

  lemma PageDigits(page: nat)
    ensures page == page / 512 * 512 + page % 512
    ensures page / 512 == page / 0x4_0000 * 512 + page / 512 % 512
    ensures page / 0x4_0000 == page / 0x800_0000 * 512 + page / 0x4_0000 % 512
  {
    QuotientIs(page, 0x4_0000, page / 512 / 512, page / 512 % 512 * 512 + page % 512);
    QuotientIs(page, 0x800_0000, page / 0x4_0000 / 512, page / 0x4_0000 % 512 * 0x4_0000 + page % 0x4_0000);
  }

  // ---------------------------------------------------------------------------------------------
  // How many tables a run of pages needs

  // One table for every group that the pages p, ..., p + n - 1 meet, at each of the three levels.
  function TablesFor(p: nat, n: nat): nat {
    if n == 0 then 0
    else
      GroupsMet(p, n, 1) + GroupsMet(p, n, 2) + GroupsMet(p, n, 3)
  }

  function GroupsMet(p: nat, n: nat, k: nat): nat
    requires 1 <= k <= 3 && n > 0
  {
    GroupGrows(p, p + n - 1, k);
    Group(p + n - 1, k) - Group(p, k) + 1
  }

  lemma GroupGrows(p: nat, q: nat, k: nat)
    requires p <= q && 1 <= k <= 3
    ensures Group(p, k) <= Group(q, k)
  {
  }

  function CeilDiv(n: nat, d: nat): nat
    requires d > 0
  {
    (n + d - 1) / d
  }

  // The bound that does not depend on where the pages lie.
  function TableBound(n: nat): nat {
    (CeilDiv(n, 512) + 1) + (CeilDiv(n, 0x4_0000) + 1) + (CeilDiv(n, 0x800_0000) + 1)
  }

  lemma TablesWithinBound(p: nat, n: nat)
    ensures TablesFor(p, n) <= TableBound(n)
  {
    if n > 0 {
      Spread(p, n, 512);
      Spread(p, n, 0x4_0000);
      Spread(p, n, 0x800_0000);
    }
  }

  // n consecutive numbers meet at most one more group of d than n / d, rounded up.
  lemma Spread(p: nat, n: nat, d: nat)
    requires n > 0 && d > 0
    ensures (p + n - 1) / d - p / d <= CeilDiv(n, d)
  {
    var a, b, c := p / d, (p + n - 1) / d, CeilDiv(n, d);
    if b - a >= c + 1 {
      Product(b - a - 1 - c, d);
    }
  }

  lemma TablesForGrows(p: nat, j: nat, n: nat)
    requires j <= n
    ensures TablesFor(p, j) <= TablesFor(p, n)
  {
    hide Group;
    if 0 < j {
      GroupGrows(p + j - 1, p + n - 1, 1);
      GroupGrows(p + j - 1, p + n - 1, 2);
      GroupGrows(p + j - 1, p + n - 1, 3);
    }
  }

  function Paths(p: nat, n: nat): (r: seq<seq<Index>>)
    ensures |r| == n && forall i :: 0 <= i < n ==> r[i] == PagePath(p + i)
  {
    seq(n, i requires 0 <= i < n => PagePath(p + i))
  }

  lemma PathsAreARange(p: nat, n: nat)
    requires p + n <= PAGE_LIMIT
    ensures IsRange(Paths(p, n))
  {
    var r := Paths(p, n);
    forall i | 0 <= i < n
      ensures |r[i]| == 4 && r[i][0] != RECURSIVE
    {
      SharedPrefix(p + i, p + i);
    }
    forall i, j | 0 <= i < j < n
      ensures r[i] != r[j]
    {
      SharedPrefix(p + i, p + j);
    }
  }

  // The paths of n consecutive pages.
  function PagePaths(p: nat, n: nat): (r: seq<seq<Index>>)
    requires p + n <= PAGE_LIMIT
    ensures |r| == n && IsRange(r) && forall i :: 0 <= i < n ==> r[i] == PagePath(p + i)
  {
    PathsAreARange(p, n);
    Paths(p, n)
  }

  // The first pages of the range are the ones from address `base` on.
  ghost predicate StartsAt(range: seq<seq<Index>>, base: nat, pages: nat)
  {
    && base / PAGE_SIZE + pages <= PAGE_LIMIT && pages <= |range|
    && range[..pages] == PagePaths(base / PAGE_SIZE, pages)
  }

  lemma OneMorePage(p: nat, n: nat, j: nat)
    requires p + n <= PAGE_LIMIT && j < n
    ensures TablesFor(p, j) + NewPrefixes(PagePaths(p, n), j) <= TablesFor(p, j + 1)
  {
    hide PagePath;
    if j > 0 {
      SharedPrefix(p + j - 1, p + j);
      NextGroup(p + j - 1);
    }
  }

  lemma NextGroup(p: nat)
    ensures Group(p, 3) != Group(p + 1, 3) ==> Group(p, 2) != Group(p + 1, 2)
    ensures Group(p, 2) != Group(p + 1, 2) ==> Group(p, 1) != Group(p + 1, 1)
    ensures Group(p, 1) <= Group(p + 1, 1) && Group(p, 2) <= Group(p + 1, 2) && Group(p, 3) <= Group(p + 1, 3)
  {
    PageDigits(p);
    PageDigits(p + 1);
  }

  // A page that does not share the first k indices with the first one of its range comes in a group of pages
  // that do share them, and the first of these has index zero next.
  lemma GroupStart(p: nat, n: nat, i: nat, k: nat) returns (j: nat)
    requires p + n <= PAGE_LIMIT && i < n && 1 <= k <= 3 && PagePaths(p, n)[i][..k] != PagePaths(p, n)[0][..k]
    ensures j < n && PagePaths(p, n)[j][..k] == PagePaths(p, n)[i][..k] && PagePaths(p, n)[j][k] == 0
  {
    hide PagePath;
    var d := if k == 3 then 512 else if k == 2 then 0x4_0000 else 0x800_0000;
    var start := (p + i) / d * d;
    SharedPrefix(p + i, p);
    GroupStartNumber(p, p + i, d);
    j := start - p;
    SharedPrefix(start, p + i);
    GroupStartIndex(start, k, d);
  }

  lemma GroupStartIndex(start: nat, k: nat, d: nat)
    requires 1 <= k <= 3 && d == if k == 3 then 512 else if k == 2 then 0x4_0000 else 0x800_0000
    requires start < PAGE_LIMIT && start % d == 0
    ensures PagePath(start)[k] == 0
  {
    hide PagePath;
    PagePathIs(start);
    PageDigits(start);
  }

  lemma GroupStartNumber(p: nat, q: nat, d: nat)
    requires p <= q && d in {512, 0x4_0000, 0x800_0000} && p / d != q / d
    ensures p <= q / d * d <= q && q / d * d / d == q / d
  {
  }
}
