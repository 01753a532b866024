/** Keyset pagination: a page is twenty rows next to a cursor in one of two
    directions, over a table that may change between page loads. */
module Paging {
  import opened Ceremonies

  const PAGE_SIZE := 20

  /** The sort key of a listed row: its timestamp (zero for credentials, which
      are listed by id alone) and its id. It identifies the row. */
  datatype Key = Key(time: Time, id: Uuid)

  predicate Less(a: Key, b: Key) {
    a.time < b.time || (a.time == b.time && a.id < b.id)
  }

  datatype Cursor = NoCursor | At(key: Key, previous: bool)

  // -------------------------------------------------------------- ordering

  ghost predicate Falls(rows: seq<Key>) {
    forall i, j :: 0 <= i < j < |rows| ==> Less(rows[j], rows[i])
  }

  function Elements(rows: seq<Key>): set<Key> {
    set i | 0 <= i < |rows| :: rows[i]
  }

  ghost predicate IsGreatest(s: set<Key>, k: Key) {
    k in s && forall other :: other in s && other != k ==> Less(other, k)
  }

  lemma {:induction false} GreatestExists(s: set<Key>) returns (k: Key)
    requires s != {}
    ensures IsGreatest(s, k)
    decreases |s|
  {
    var some :| some in s;
    if s == {some} {
      k := some;
    } else {
      assert s == (s - {some}) + {some} && s - {some} != {};
      var rest := GreatestExists(s - {some});
      k := if Less(rest, some) then some else rest;
    }
  }

  /** ORDER BY time DESC, id DESC. */
  ghost function Descending(s: set<Key>): seq<Key>
    decreases |s|
  {
    if s == {} then []
    else
      assert exists k :: IsGreatest(s, k) by {
        var k := GreatestExists(s);
      }
      var k :| IsGreatest(s, k);
      [k] + Descending(s - {k})
  }

  lemma {:induction false} DescendingElements(s: set<Key>)
    ensures forall k :: k in Descending(s) <==> k in s
    decreases |s|
  {
    if s != {} {
      var first := Descending(s)[0];
      assert IsGreatest(s, first) && Descending(s) == [first] + Descending(s - {first});
      DescendingElements(s - {first});
    }
  }

  lemma {:induction false} DescendingFalls(s: set<Key>)
    ensures Falls(Descending(s))
    decreases |s|
  {
    if s != {} {
      var first := Descending(s)[0];
      assert IsGreatest(s, first) && Descending(s) == [first] + Descending(s - {first});
      var rest := Descending(s - {first});
      DescendingElements(s - {first});
      DescendingFalls(s - {first});
      forall j | 0 <= j < |rest| ensures Less(rest[j], first) {
        assert rest[j] in s - {first};
      }
      assert Descending(s) == [first] + rest;
    }
  }

  /** There is one strictly descending list of a set. */
  lemma {:induction false} DescendingUnique(a: seq<Key>, b: seq<Key>)
    requires Falls(a) && Falls(b)
    requires forall k :: k in a <==> k in b
    ensures a == b
  {
    assert b != [] ==> b[0] in b;
    if a != [] {
      assert a[0] in b && b != [] && b[0] in a;
      assert a[0] == b[0];
      var s, t := a[1..], b[1..];
      forall k ensures k in s <==> k in t {
        assert k in s ==> k in a && k != a[0];
        assert k in t ==> k in b && k != b[0];
        assert k in a ==> k == a[0] || k in s;
        assert k in b ==> k == b[0] || k in t;
      }
      DescendingUnique(s, t);
    }
  }

  function Reversed<T>(rows: seq<T>): (r: seq<T>)
    ensures |r| == |rows| && forall i :: 0 <= i < |r| ==> r[i] == rows[|rows| - 1 - i]
  {
    if rows == [] then [] else Reversed(rows[1..]) + [rows[0]]
  }

  // ----------------------------------------------------------------- pages

  function Below(s: set<Key>, c: Key): set<Key> {
    set k | k in s && Less(k, c)
  }

  function Above(s: set<Key>, c: Key): set<Key> {
    set k | k in s && Less(c, k)
  }

  function Take<T>(rows: seq<T>, n: nat): seq<T> {
    if |rows| <= n then rows else rows[..n]
  }

  /** The query: matching rows beyond the cursor, nearest first, at most 21. */
  ghost function Fetch(s: set<Key>, c: Cursor): seq<Key> {
    match c
    case NoCursor => Take(Descending(s), PAGE_SIZE + 1)
    case At(k, previous) =>
      if previous then Take(Reversed(Descending(Above(s, k))), PAGE_SIZE + 1)
      else Take(Descending(Below(s, k)), PAGE_SIZE + 1)
  }

  datatype Page<T> = Page(rows: seq<T>, previous: bool, next: bool)

  /** At most 20 rows, newest first, and which links to offer. */
  function AdminPage<T>(rows: seq<T>, c: Cursor): Page<T> {
    var more := |rows| > PAGE_SIZE;
    var shown := Take(rows, PAGE_SIZE);
    if c.At? && c.previous then Page(Reversed(shown), more, true)
    else Page(shown, c.At?, more)
  }

  /** adminPage works in place on the rows it is given. */
  method AdminPageInPlace<T>(rows: array<T>, c: Cursor) returns (shown: nat, previous: bool, next: bool)
    modifies rows
    ensures shown <= rows.Length
    ensures Page(rows[..shown], previous, next) == AdminPage(old(rows[..]), c)
  {
    var more := rows.Length > PAGE_SIZE;
    shown := if more then PAGE_SIZE else rows.Length;
    previous, next := c.At?, more;
    if c.At? && c.previous {
      var i := 0;
      while i < shown / 2
        invariant 0 <= i <= shown / 2
        invariant forall j :: 0 <= j < i ==> rows[j] == old(rows[shown - 1 - j]) && rows[shown - 1 - j] == old(rows[j])
        invariant forall j :: i <= j < shown - i ==> rows[j] == old(rows[j])
      {
        rows[i], rows[shown - 1 - i] := rows[shown - 1 - i], rows[i];
        i := i + 1;
      }
      previous, next := more, true;
    }
    ghost var taken := Take(old(rows[..]), PAGE_SIZE);
    assert |taken| == shown && forall j :: 0 <= j < shown ==> taken[j] == old(rows[j]);
    if c.At? && c.previous {
      assert rows[..shown] == Reversed(taken);
    } else {
      assert rows[..shown] == taken;
    }
  }

  /** The page a request with this cursor shows. */
  ghost function Show(s: set<Key>, c: Cursor): Page<Key> {
    AdminPage(Fetch(s, c), c)
  }

  /** The links of a page: none on an empty page. */
  function NextLink(p: Page<Key>): Option<Cursor> {
    if p.next && p.rows != [] then Some(At(p.rows[|p.rows| - 1], false)) else None
  }

  function PreviousLink(p: Page<Key>): Option<Cursor> {
    if p.previous && p.rows != [] then Some(At(p.rows[0], true)) else None
  }

  /** The data of a rendered list. */
  class PageData {
    var history: seq<Key>
    var previous: Option<Cursor>
    var next: Option<Cursor>

    /** A fresh page with its links, from the fetched rows in place. */
    method Fill(rows: array<Key>, c: Cursor)
      requires previous == None && next == None
      modifies this, rows
      ensures var page := AdminPage(old(rows[..]), c);
              history == page.rows && previous == PreviousLink(page) && next == NextLink(page)
    {
      var shown, prev, more := AdminPageInPlace(rows, c);
      history := rows[..shown];
      if |history| > 0 {
        if prev {
          previous := Some(At(history[0], true));
        }
        if more {
          next := Some(At(history[|history| - 1], false));
        }
      }
    }
  }

  // ------------------------------------------------------ an unchanged table

  lemma BelowIsRest(s: set<Key>, j: nat)
    requires j < |Descending(s)|
    ensures Descending(Below(s, Descending(s)[j])) == Descending(s)[j + 1..]
  {
    var d := Descending(s);
    var rest, below := d[j + 1..], Below(s, d[j]);
    DescendingFalls(s);
    DescendingElements(s);
    DescendingFalls(below);
    DescendingElements(below);
    forall k ensures k in Descending(below) <==> k in rest {
      if k in below {
        var i :| 0 <= i < |d| && d[i] == k;
        assert i > j && rest[i - j - 1] == k;
      }
    }
    DescendingUnique(Descending(below), rest);
  }

  lemma AboveIsStart(s: set<Key>, j: nat)
    requires j < |Descending(s)|
    ensures Descending(Above(s, Descending(s)[j])) == Descending(s)[..j]
  {
    var d := Descending(s);
    var start, above := d[..j], Above(s, d[j]);
    DescendingFalls(s);
    DescendingElements(s);
    DescendingFalls(above);
    DescendingElements(above);
    forall k ensures k in Descending(above) <==> k in start {
      if k in above {
        var i :| 0 <= i < |d| && d[i] == k;
        assert i < j && start[i] == k;
      }
    }
    DescendingUnique(Descending(above), start);
  }

  /** Page number `p` of the whole descending list. */
  ghost function Window(s: set<Key>, p: nat): Page<Key>
    requires p == 0 || PAGE_SIZE * p < |Descending(s)|
  {
    var d := Descending(s);
    Page(Take(d[PAGE_SIZE * p..], PAGE_SIZE), p > 0, PAGE_SIZE * p + PAGE_SIZE < |d|)
  }

  lemma FirstWindow(s: set<Key>)
    ensures Show(s, NoCursor) == Window(s, 0)
  {
    var d := Descending(s);
    assert d[0..] == d;
    assert Take(Take(d, PAGE_SIZE + 1), PAGE_SIZE) == Take(d, PAGE_SIZE);
  }

  /** The page after a row of the list. */
  lemma PageAfter(s: set<Key>, j: nat)
    requires j < |Descending(s)|
    ensures var d := Descending(s);
            Show(s, At(d[j], false)) == Page(Take(d[j + 1..], PAGE_SIZE), true, j + 1 + PAGE_SIZE < |d|)
  {
    BelowIsRest(s, j);
    var rest := Descending(s)[j + 1..];
    assert Take(Take(rest, PAGE_SIZE + 1), PAGE_SIZE) == Take(rest, PAGE_SIZE);
  }

  /** A Previous page shows the last rows of what lies above its cursor, newest
      first, however few they are. */
  lemma PreviousPageIsEnd(s: set<Key>, k: Key)
    ensures var d, page := Descending(Above(s, k)), Show(s, At(k, true));
            var start := if |d| > PAGE_SIZE then |d| - PAGE_SIZE else 0;
            page == Page(d[start..], |d| > PAGE_SIZE, true)
  {
    var d := Descending(Above(s, k));
    var start := if |d| > PAGE_SIZE then |d| - PAGE_SIZE else 0;
    var nearest := Take(Take(Reversed(d), PAGE_SIZE + 1), PAGE_SIZE);
    assert |nearest| == |d| - start && forall i :: 0 <= i < |nearest| ==> nearest[i] == d[|d| - 1 - i];
    assert Reversed(nearest) == d[start..];
  }

  /** The page before a row with a full page above it. */
  lemma PageBefore(s: set<Key>, j: nat)
    requires PAGE_SIZE <= j < |Descending(s)|
    ensures var d := Descending(s);
            Show(s, At(d[j], true)) == Page(d[j - PAGE_SIZE..j], j > PAGE_SIZE, true)
  {
    AboveIsStart(s, j);
    PreviousPageIsEnd(s, Descending(s)[j]);
    assert Descending(s)[..j][j - PAGE_SIZE..] == Descending(s)[j - PAGE_SIZE..j];
  }

  lemma FullWindow(s: set<Key>, p: nat)
    requires PAGE_SIZE * p + PAGE_SIZE < |Descending(s)|
    ensures Window(s, p) == Page(Descending(s)[PAGE_SIZE * p..PAGE_SIZE * p + PAGE_SIZE], p > 0, true)
  {
  }

  lemma NextWindow(s: set<Key>, p: nat)
    requires PAGE_SIZE * p + PAGE_SIZE < |Descending(s)|
    ensures NextLink(Window(s, p)).Some?
    ensures Show(s, NextLink(Window(s, p)).value) == Window(s, p + 1)
  {
    FullWindow(s, p);
    PageAfter(s, PAGE_SIZE * p + PAGE_SIZE - 1);
  }

  lemma PreviousWindow(s: set<Key>, p: nat)
    requires PAGE_SIZE * p + PAGE_SIZE < |Descending(s)|
    ensures PreviousLink(Window(s, p + 1)).Some?
    ensures Show(s, PreviousLink(Window(s, p + 1)).value) == Window(s, p)
  {
    assert Window(s, p + 1).rows[0] == Descending(s)[PAGE_SIZE * p + PAGE_SIZE];
    FullWindow(s, p);
    PageBefore(s, PAGE_SIZE * p + PAGE_SIZE);
  }

  /** The page reached from the first by following links; `true` is Next. */
  ghost function Follow(s: set<Key>, moves: seq<bool>): Option<Page<Key>> {
    if moves == [] then Some(Show(s, NoCursor))
    else
      match Follow(s, moves[..|moves| - 1])
      case None => None
      case Some(page) =>
        var link := if moves[|moves| - 1] then NextLink(page) else PreviousLink(page);
        if link.None? then None else Some(Show(s, link.value))
  }

  lemma {:induction false} FollowedIsWindow(s: set<Key>, moves: seq<bool>) returns (p: nat)
    requires Follow(s, moves).Some?
    ensures p == 0 || PAGE_SIZE * p < |Descending(s)|
    ensures Follow(s, moves).value == Window(s, p)
  {
    if moves == [] {
      FirstWindow(s);
      p := 0;
    } else {
      var q := FollowedIsWindow(s, moves[..|moves| - 1]);
      if moves[|moves| - 1] {
        NextWindow(s, q);
        p := q + 1;
      } else {
        p := q - 1;
        PreviousWindow(s, p);
      }
    }
  }

  /** On an unchanged table, from any page reached by links from the first page,
      Next then Previous and Previous then Next give back the same rows and the
      same pair of links. */
  lemma LinksAreInverse(s: set<Key>, moves: seq<bool>)
    requires Follow(s, moves).Some?
    ensures var page := Follow(s, moves).value;
            && (NextLink(page).Some? ==>
                  var after := Show(s, NextLink(page).value);
                  PreviousLink(after).Some? && Show(s, PreviousLink(after).value) == page)
            && (PreviousLink(page).Some? ==>
                  var before := Show(s, PreviousLink(page).value);
                  NextLink(before).Some? && Show(s, NextLink(before).value) == page)
  {
    var p := FollowedIsWindow(s, moves);
    if NextLink(Window(s, p)).Some? {
      NextWindow(s, p);
      PreviousWindow(s, p);
    }
    if PreviousLink(Window(s, p)).Some? {
      NextWindow(s, p - 1);
      PreviousWindow(s, p - 1);
    }
  }

  /** On an unchanged table a link is offered exactly when a matching row lies on
      that side of the page, and only an empty table gives an empty page. */
  lemma LinksAreExact(s: set<Key>, moves: seq<bool>)
    requires Follow(s, moves).Some?
    ensures var page := Follow(s, moves).value;
            && (page.rows == [] <==> s == {})
            && (page.rows != [] ==>
                  && (page.next <==> Below(s, page.rows[|page.rows| - 1]) != {})
                  && (page.previous <==> Above(s, page.rows[0]) != {}))
            && (s == {} ==> !page.next && !page.previous)
  {
    var p := FollowedIsWindow(s, moves);
    var d, page := Descending(s), Window(s, p);
    DescendingElements(s);
    if page.rows != [] {
      var last := PAGE_SIZE * p + |page.rows| - 1;
      assert page.rows[|page.rows| - 1] == d[last] && page.rows[0] == d[PAGE_SIZE * p];
      BelowIsRest(s, last);
      AboveIsStart(s, PAGE_SIZE * p);
      DescendingElements(Below(s, d[last]));
      DescendingElements(Above(s, d[PAGE_SIZE * p]));
    }
    assert s != {} ==> d != [];
  }

  // ------------------------------------------------------------ a live table

  /** Following Next links while the table changes: `tables[i]` is what the i-th
      page load finds. */
  ghost function Walk(tables: seq<set<Key>>, c: Cursor): seq<Page<Key>> {
    if tables == [] then []
    else
      var page := Show(tables[0], c);
      var link := NextLink(page);
      [page] + (if link.None? then [] else Walk(tables[1..], link.value))
  }

  function Shown(pages: seq<Page<Key>>): seq<Key> {
    if pages == [] then [] else pages[0].rows + Shown(pages[1..])
  }

  /** The walk went on until no Next link was offered. */
  predicate Finished(pages: seq<Page<Key>>) {
    pages != [] && NextLink(pages[|pages| - 1]).None?
  }

  predicate Forward(c: Cursor) {
    c.At? ==> !c.previous
  }

  predicate Beyond(c: Cursor, k: Key) {
    c.At? ==> Less(k, c.key)
  }

  /** One page of a walk: its rows fall from the cursor on, come from the table,
      and leave out only rows after the last one shown. */
  lemma PageOfWalk(s: set<Key>, c: Cursor)
    requires Forward(c)
    ensures var page := Show(s, c);
            && Falls(page.rows)
            && (forall k :: k in page.rows ==> k in s && Beyond(c, k))
            && (page.next ==> |page.rows| == 20)
            && (forall k :: k in s && Beyond(c, k) && k !in page.rows ==>
                  page.next && Less(k, page.rows[|page.rows| - 1]))
  {
    var page := Show(s, c);
    var beyond := if c.At? then Below(s, c.key) else s;
    var d := Descending(beyond);
    DescendingElements(beyond);
    DescendingFalls(beyond);
    assert page == Page(Take(d, PAGE_SIZE), c.At?, |d| > PAGE_SIZE) by {
      assert Take(Take(d, PAGE_SIZE + 1), PAGE_SIZE) == Take(d, PAGE_SIZE);
    }
    forall k | k in page.rows ensures k in s && Beyond(c, k) {
      assert k in d;
      assert k in beyond;
    }
    forall k | k in s && Beyond(c, k) && k !in page.rows
      ensures page.next && Less(k, page.rows[|page.rows| - 1])
    {
      assert k in beyond;
      assert k in d;
      var i :| 0 <= i < |d| && d[i] == k;
      assert forall j :: 0 <= j < |page.rows| ==> page.rows[j] in page.rows && page.rows[j] == d[j];
      assert i >= |page.rows|;
    }
  }

  lemma FallsOn(rows: seq<Key>, rest: seq<Key>)
    requires Falls(rows) && Falls(rest) && rows != []
    requires forall k :: k in rest ==> Less(k, rows[|rows| - 1])
    ensures Falls(rows + rest)
    ensures forall k :: k in rest ==> Less(k, rows[0])
  {
    var both, last := rows + rest, rows[|rows| - 1];
    forall i, j | 0 <= i < j < |both| ensures Less(both[j], both[i]) {
      if i < |rows| <= j {
        assert both[j] in rest;
        assert both[i] == last || Less(last, both[i]);
      }
    }
    assert rows[0] == last || Less(last, rows[0]);
  }

  lemma {:induction false} WalkFalls(tables: seq<set<Key>>, c: Cursor)
    requires Forward(c)
    ensures Falls(Shown(Walk(tables, c)))
    ensures forall k :: k in Shown(Walk(tables, c)) ==> Beyond(c, k)
  {
    if tables != [] {
      var page := Show(tables[0], c);
      PageOfWalk(tables[0], c);
      var link := NextLink(page);
      var pages := Walk(tables, c);
      assert pages[0] == page;
      if link.Some? {
        WalkFalls(tables[1..], link.value);
        assert pages[1..] == Walk(tables[1..], link.value);
        FallsOn(page.rows, Shown(pages[1..]));
      } else {
        assert pages[1..] == [];
        assert Shown(pages) == page.rows;
      }
    }
  }

  lemma {:induction false} WalkCovers(tables: seq<set<Key>>, c: Cursor, k: Key)
    requires Forward(c) && Finished(Walk(tables, c)) && Beyond(c, k)
    requires |Walk(tables, c)| <= |tables| && forall i :: 0 <= i < |Walk(tables, c)| ==> k in tables[i]
    ensures k in Shown(Walk(tables, c))
  {
    var page, pages := Show(tables[0], c), Walk(tables, c);
    PageOfWalk(tables[0], c);
    var link := NextLink(page);
    assert pages[0] == page;
    if k !in page.rows {
      assert link.Some? && Less(k, page.rows[|page.rows| - 1]);
      assert pages[1..] == Walk(tables[1..], link.value);
      assert |pages| > 1 by {
        assert pages[|pages| - 1] != page || NextLink(pages[|pages| - 1]).Some?;
      }
      assert pages[1..][|pages[1..]| - 1] == pages[|pages| - 1];
      forall i | 0 <= i < |pages[1..]| ensures k in tables[1..][i] {
        assert k in tables[i + 1];
      }
      WalkCovers(tables[1..], link.value, k);
    }
  }

  lemma {:induction false} WalkIsFromTables(tables: seq<set<Key>>, c: Cursor)
    requires Forward(c)
    ensures |Walk(tables, c)| <= |tables|
    ensures forall i, k :: 0 <= i < |Walk(tables, c)| && k in Walk(tables, c)[i].rows ==> k in tables[i]
    ensures forall i :: 0 <= i < |Walk(tables, c)| ==> |Walk(tables, c)[i].rows| <= PAGE_SIZE
  {
    if tables != [] {
      PageOfWalk(tables[0], c);
      var link := NextLink(Show(tables[0], c));
      if link.Some? {
        WalkIsFromTables(tables[1..], link.value);
      }
    }
  }

  /** A stable walk over a live table: whatever rows are inserted and deleted
      between page loads, following Next links from the first page until none is
      offered shows rows in strictly descending key order, so none twice; shows
      every matching row that was present at every load; and shows nothing that
      was not in the table when its page was loaded. */
  lemma WalkIsStable(tables: seq<set<Key>>)
    requires Finished(Walk(tables, NoCursor))
    ensures var pages := Walk(tables, NoCursor);
            && |pages| <= |tables|
            && Falls(Shown(pages))
            && (forall k :: (forall i :: 0 <= i < |pages| ==> k in tables[i]) ==> k in Shown(pages))
            && (forall i, k :: 0 <= i < |pages| && k in pages[i].rows ==> k in tables[i])
            && (forall i :: 0 <= i < |pages| ==> |pages[i].rows| <= 20)
  {
    WalkFalls(tables, NoCursor);
    WalkIsFromTables(tables, NoCursor);
    forall k | forall i :: 0 <= i < |Walk(tables, NoCursor)| ==> k in tables[i] ensures k in Shown(Walk(tables, NoCursor)) {
      WalkCovers(tables, NoCursor, k);
    }
  }

  // ------------------------------------------- backwards over a live table

  lemma {:induction false} NearestAbove(s: set<Key>, k: Key)
    ensures var d := Descending(Above(s, k));
            Falls(d) && (forall x :: x in d <==> x in s && Less(k, x))
  {
    DescendingFalls(Above(s, k));
    DescendingElements(Above(s, k));
    forall x ensures x in Descending(Above(s, k)) <==> x in Above(s, k) {
    }
  }

  /** One page of a walk back, on any table: its rows fall, lie above the cursor and
      leave out only rows above the first one shown; Previous is offered when it
      leaves some out, and then the page is full. */
  lemma PageOfWalkBack(s: set<Key>, k: Key)
    ensures var page := Show(s, At(k, true));
            && Falls(page.rows) && |page.rows| <= 20 && page.next
            && (forall x :: x in page.rows ==> x in s && Less(k, x))
            && (forall x :: x in s && Less(k, x) && x !in page.rows ==> page.previous && page.rows != [] && Less(page.rows[0], x))
            && (page.previous ==> |page.rows| == 20)
  {
    var d := Descending(Above(s, k));
    var start := if |d| > PAGE_SIZE then |d| - PAGE_SIZE else 0;
    NearestAbove(s, k);
    PreviousPageIsEnd(s, k);
    EndOfFalling(d, start);
  }

  /** The end of a falling list. */
  lemma EndOfFalling(d: seq<Key>, start: nat)
    requires Falls(d) && start <= |d|
    ensures var rows := d[start..];
            && Falls(rows) && (forall x :: x in rows ==> x in d)
            && (forall x :: x in d && x !in rows ==> start > 0 && (rows != [] ==> Less(rows[0], x)))
            && (start > 0 ==> d[0] !in rows)
  {
    var rows := d[start..];
    assert forall i :: 0 <= i < |rows| ==> rows[i] == d[start + i];
    forall i | start <= i < |d| ensures d[i] in rows {
      assert rows[i - start] == d[i];
    }
    forall x | x in d && x !in rows ensures start > 0 && (rows != [] ==> Less(rows[0], x)) {
      var i :| 0 <= i < |d| && d[i] == x;
      assert i < start;
    }
  }

  lemma SomeLeftOut(s: set<Key>, rows: seq<Key>, d: seq<Key>, first: nat, i: nat)
    requires Falls(d) && first + |rows| <= |d| && rows == d[first..first + |rows|]
    requires i < |d| && (i < first || first + |rows| <= i)
    ensures d[i] !in rows
  {
    forall j | 0 <= j < |rows| ensures rows[j] != d[i] {
      assert rows[j] == d[first + j];
    }
  }

  /** A link onward is offered exactly when a row on that side, on the table the
      page was loaded from, is left out. */
  lemma OnwardLinksAreExact(s: set<Key>, k: Key)
    ensures Show(s, At(k, true)).previous <==> exists x :: x in s && Less(k, x) && x !in Show(s, At(k, true)).rows
    ensures Show(s, At(k, false)).next <==> exists x :: x in s && Less(x, k) && x !in Show(s, At(k, false)).rows
    ensures Show(s, NoCursor).next <==> exists x :: x in s && x !in Show(s, NoCursor).rows
  {
    PreviousIsExact(s, k);
    NextIsExact(s, At(k, false));
    NextIsExact(s, NoCursor);
  }

  lemma PreviousIsExact(s: set<Key>, k: Key)
    ensures Show(s, At(k, true)).previous <==> exists x :: x in s && Less(k, x) && x !in Show(s, At(k, true)).rows
  {
    PageOfWalkBack(s, k);
    if Show(s, At(k, true)).previous {
      var x := NewestAbove(s, k);
    }
  }

  lemma NewestAbove(s: set<Key>, k: Key) returns (x: Key)
    requires Show(s, At(k, true)).previous
    ensures x in s && Less(k, x) && x !in Show(s, At(k, true)).rows
  {
    var d := Descending(Above(s, k));
    NearestAbove(s, k);
    PreviousPageIsEnd(s, k);
    EndOfFalling(d, |d| - PAGE_SIZE);
    x := d[0];
    assert x in d;
  }

  lemma NextIsExact(s: set<Key>, c: Cursor)
    requires Forward(c)
    ensures Show(s, c).next <==> exists x :: x in s && Beyond(c, x) && x !in Show(s, c).rows
  {
    PageOfWalk(s, c);
    var beyond := if c.At? then Below(s, c.key) else s;
    var d, page := Descending(beyond), Show(s, c);
    DescendingElements(beyond);
    DescendingFalls(beyond);
    if page.next {
      assert page.rows == d[..PAGE_SIZE] by {
        assert Take(Take(d, PAGE_SIZE + 1), PAGE_SIZE) == Take(d, PAGE_SIZE);
      }
      SomeLeftOut(s, page.rows, d, 0, PAGE_SIZE);
      assert d[PAGE_SIZE] in d;
      assert d[PAGE_SIZE] in beyond;
    }
  }

  /** Following Previous links while the table changes. */
  ghost function WalkBack(tables: seq<set<Key>>, k: Key): seq<Page<Key>> {
    if tables == [] then []
    else
      var page := Show(tables[0], At(k, true));
      var link := PreviousLink(page);
      [page] + (if link.None? then [] else WalkBack(tables[1..], link.value.key))
  }

  /** The rows a walk back showed, newest first: each page lies above the one before. */
  function ShownBack(pages: seq<Page<Key>>): seq<Key> {
    if pages == [] then [] else ShownBack(pages[1..]) + pages[0].rows
  }

  predicate FinishedBack(pages: seq<Page<Key>>) {
    pages != [] && PreviousLink(pages[|pages| - 1]).None?
  }

  lemma FallsBefore(newer: seq<Key>, rows: seq<Key>)
    requires Falls(newer) && Falls(rows) && rows != []
    requires forall x :: x in newer ==> Less(rows[0], x)
    ensures Falls(newer + rows)
  {
    var both, first := newer + rows, rows[0];
    forall i, j | 0 <= i < j < |both| ensures Less(both[j], both[i]) {
      if i < |newer| <= j {
        assert both[i] in newer;
        assert both[j] == first || Less(both[j], first);
      }
    }
  }

  lemma {:induction false} WalkBackFalls(tables: seq<set<Key>>, k: Key)
    ensures Falls(ShownBack(WalkBack(tables, k)))
    ensures forall x :: x in ShownBack(WalkBack(tables, k)) ==> Less(k, x)
    decreases |tables|
  {
    if tables != [] {
      var page, pages := Show(tables[0], At(k, true)), WalkBack(tables, k);
      PageOfWalkBack(tables[0], k);
      var link := PreviousLink(page);
      assert pages[0] == page;
      if link.Some? {
        var rest := pages[1..];
        assert rest == WalkBack(tables[1..], link.value.key);
        WalkBackFalls(tables[1..], page.rows[0]);
        FallsBefore(ShownBack(rest), page.rows);
        assert page.rows[0] in page.rows;
        forall x | x in ShownBack(rest) ensures Less(k, x) {
          assert Less(page.rows[0], x);
        }
      } else {
        assert pages[1..] == [];
        assert ShownBack(pages) == page.rows;
      }
    }
  }

  lemma {:induction false} WalkBackCovers(tables: seq<set<Key>>, k: Key, x: Key)
    requires FinishedBack(WalkBack(tables, k)) && Less(k, x)
    requires |WalkBack(tables, k)| <= |tables| && forall i :: 0 <= i < |WalkBack(tables, k)| ==> x in tables[i]
    ensures x in ShownBack(WalkBack(tables, k))
    decreases |tables|
  {
    var page, pages := Show(tables[0], At(k, true)), WalkBack(tables, k);
    PageOfWalkBack(tables[0], k);
    var link := PreviousLink(page);
    assert pages[0] == page;
    if x !in page.rows {
      assert x in tables[0];
      assert link.Some? && Less(page.rows[0], x);
      var rest := pages[1..];
      assert rest == WalkBack(tables[1..], page.rows[0]);
      assert pages[|pages| - 1] != pages[0];
      assert rest[|rest| - 1] == pages[|pages| - 1];
      forall i | 0 <= i < |rest| ensures x in tables[1..][i] {
        assert x in tables[i + 1];
      }
      WalkBackCovers(tables[1..], page.rows[0], x);
    }
  }

  lemma {:induction false} WalkBackIsFromTables(tables: seq<set<Key>>, k: Key)
    ensures |WalkBack(tables, k)| <= |tables|
    ensures forall i, x :: 0 <= i < |WalkBack(tables, k)| && x in WalkBack(tables, k)[i].rows ==> x in tables[i]
    decreases |tables|
  {
    if tables != [] {
      PageOfWalkBack(tables[0], k);
      var link := PreviousLink(Show(tables[0], At(k, true)));
      if link.Some? {
        WalkBackIsFromTables(tables[1..], link.value.key);
      }
    }
  }

  /** A walk back from any row over a live table, following Previous links until none
      is offered: the pages, put newest first, show rows above that row in strictly
      descending key order; every matching row above it that was present at every
      load; and nothing that was not in the table when its page was loaded. */
  lemma WalkBackIsStable(tables: seq<set<Key>>, k: Key)
    requires FinishedBack(WalkBack(tables, k))
    ensures var pages := WalkBack(tables, k);
            && |pages| <= |tables|
            && Falls(ShownBack(pages)) && (forall x :: x in ShownBack(pages) ==> Less(k, x))
            && (forall x :: Less(k, x) && (forall i :: 0 <= i < |pages| ==> x in tables[i]) ==> x in ShownBack(pages))
            && (forall i, x :: 0 <= i < |pages| && x in pages[i].rows ==> x in tables[i])
  {
    WalkBackFalls(tables, k);
    WalkBackIsFromTables(tables, k);
    forall x | Less(k, x) && forall i :: 0 <= i < |WalkBack(tables, k)| ==> x in tables[i] ensures x in ShownBack(WalkBack(tables, k)) {
      WalkBackCovers(tables, k, x);
    }
  }
}
