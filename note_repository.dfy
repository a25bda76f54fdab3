/** The note repository of src/repositories/noteRepository.js over the `notes`
    table of src/db/db.js: paginated listing newest first, lookup, insert,
    partial update and delete. The table is a sequence of rows in insertion
    (rowid) order; `increments('id')` is the counter `nextId`. Timestamps are
    parameters. */
module NoteRepository {
  import opened Js

  datatype NoteRow = NoteRow(id: nat, title: string, content: string, createdAt: string)

  datatype Pagination = Pagination(page: int, limit: int, total: nat, totalPages: nat,
                                   hasNextPage: bool, hasPrevPage: bool)

  datatype NotePage = NotePage(notes: seq<NoteRow>, pagination: Pagination)

  function Min(a: int, b: int): int {
    if a <= b then a else b
  }

  // ---------------------------------------------------------------------------
  // `orderBy('createdAt', 'desc')`

  /** SQLite's BINARY collation on text: code point by code point, a proper
      prefix first. */
  predicate LexLe(a: string, b: string) {
    if a == [] then true
    else if b == [] then false
    else if a[0] != b[0] then a[0] < b[0]
    else LexLe(a[1..], b[1..])
  }

  lemma {:induction false} LexLeTotal(a: string, b: string)
    ensures LexLe(a, b) || LexLe(b, a)
  {
    if a != [] && b != [] && a[0] == b[0] {
      LexLeTotal(a[1..], b[1..]);
    }
  }

  lemma {:induction false} LexLeTrans(a: string, b: string, c: string)
    requires LexLe(a, b) && LexLe(b, c)
    ensures LexLe(a, c)
  {
    if a != [] && b != [] && c != [] && a[0] == b[0] && b[0] == c[0] {
      LexLeTrans(a[1..], b[1..], c[1..]);
    }
  }

  /** Newest first: no row is preceded by an older one. */
  ghost predicate SortedDesc(s: seq<NoteRow>) {
    forall i, j :: 0 <= i < j < |s| ==> LexLe(s[j].createdAt, s[i].createdAt)
  }

  /** Places `x` before the first row that is not newer than it. */
  function InsertDesc(x: NoteRow, s: seq<NoteRow>): (r: seq<NoteRow>)
    ensures |r| == |s| + 1
  {
    if s == [] || LexLe(s[0].createdAt, x.createdAt) then [x] + s
    else [s[0]] + InsertDesc(x, s[1..])
  }

  /** The rows newest first; rows with equal timestamps keep table order. */
  function SortDesc(s: seq<NoteRow>): (r: seq<NoteRow>)
    ensures |r| == |s|
  {
    if s == [] then [] else InsertDesc(s[0], SortDesc(s[1..]))
  }

  /** A row at least as new as every row of a sorted list may go in front of it. */
  lemma PrependSorted(a: NoteRow, t: seq<NoteRow>)
    requires SortedDesc(t)
    requires forall k :: 0 <= k < |t| ==> LexLe(t[k].createdAt, a.createdAt)
    ensures SortedDesc([a] + t)
  {
    var r := [a] + t;
    forall i, j | 0 <= i < j < |r|
      ensures LexLe(r[j].createdAt, r[i].createdAt)
    {
      assert r[j] == t[j - 1];
      if i > 0 {
        assert r[i] == t[i - 1];
      }
    }
  }

  lemma {:induction false} InsertDescPermutes(x: NoteRow, s: seq<NoteRow>)
    ensures multiset(InsertDesc(x, s)) == multiset(s) + multiset{x}
  {
    if s != [] && !LexLe(s[0].createdAt, x.createdAt) {
      InsertDescPermutes(x, s[1..]);
      assert s == [s[0]] + s[1..];
    }
  }

  /** Every row of a list that is not newer than `a`, and `x` too, leaves the
      insertion of `x` not newer than `a`. */
  lemma InsertDescBounded(x: NoteRow, s: seq<NoteRow>, a: NoteRow)
    requires LexLe(x.createdAt, a.createdAt)
    requires forall k :: 0 <= k < |s| ==> LexLe(s[k].createdAt, a.createdAt)
    ensures forall k :: 0 <= k < |InsertDesc(x, s)| ==> LexLe(InsertDesc(x, s)[k].createdAt, a.createdAt)
  {
    var t := InsertDesc(x, s);
    InsertDescPermutes(x, s);
    forall k | 0 <= k < |t|
      ensures LexLe(t[k].createdAt, a.createdAt)
    {
      assert t[k] in multiset(t);
      if t[k] != x {
        assert t[k] in multiset(s);
        var m :| 0 <= m < |s| && s[m] == t[k];
      }
    }
  }

  lemma {:induction false} InsertDescSorted(x: NoteRow, s: seq<NoteRow>)
    requires SortedDesc(s)
    ensures SortedDesc(InsertDesc(x, s))
  {
    if s == [] || LexLe(s[0].createdAt, x.createdAt) {
      forall k | 0 <= k < |s|
        ensures LexLe(s[k].createdAt, x.createdAt)
      {
        if k > 0 {
          LexLeTrans(s[k].createdAt, s[0].createdAt, x.createdAt);
        }
      }
      PrependSorted(x, s);
    } else {
      var tail := s[1..];
      assert SortedDesc(tail) by {
        forall i, j | 0 <= i < j < |tail|
          ensures LexLe(tail[j].createdAt, tail[i].createdAt)
        {
          assert tail[i] == s[i + 1] && tail[j] == s[j + 1];
        }
      }
      InsertDescSorted(x, tail);
      LexLeTotal(s[0].createdAt, x.createdAt);
      forall k | 0 <= k < |tail|
        ensures LexLe(tail[k].createdAt, s[0].createdAt)
      {
        assert tail[k] == s[k + 1];
      }
      InsertDescBounded(x, tail, s[0]);
      PrependSorted(s[0], InsertDesc(x, tail));
    }
  }

  /** The listing order is a permutation of the table, newest first. */
  lemma {:induction false} SortDescCorrect(s: seq<NoteRow>)
    ensures SortedDesc(SortDesc(s))
    ensures multiset(SortDesc(s)) == multiset(s)
  {
    if s != [] {
      SortDescCorrect(s[1..]);
      InsertDescSorted(s[0], SortDesc(s[1..]));
      InsertDescPermutes(s[0], SortDesc(s[1..]));
      assert s == [s[0]] + s[1..];
    }
  }

  /** The rows stamped `t`, in the order of `s`. */
  function StampedAt(s: seq<NoteRow>, t: string): seq<NoteRow> {
    if s == [] then []
    else (if s[0].createdAt == t then [s[0]] else []) + StampedAt(s[1..], t)
  }

  lemma {:induction false} LexLeRefl(a: string)
    ensures LexLe(a, a)
  {
    if a != [] {
      LexLeRefl(a[1..]);
    }
  }

  /** Insertion puts `x` before every row stamped like it. */
  lemma {:induction false} InsertDescStamped(x: NoteRow, s: seq<NoteRow>, t: string)
    ensures StampedAt(InsertDesc(x, s), t) == (if x.createdAt == t then [x] else []) + StampedAt(s, t)
  {
    var r := InsertDesc(x, s);
    if s == [] || LexLe(s[0].createdAt, x.createdAt) {
      assert r[0] == x && r[1..] == s;
    } else {
      assert r[0] == s[0] && r[1..] == InsertDesc(x, s[1..]);
      InsertDescStamped(x, s[1..], t);
      LexLeRefl(x.createdAt);
    }
  }

  /** The sort is stable: rows with equal timestamps keep table order. */
  lemma {:induction false} SortDescStable(s: seq<NoteRow>, t: string)
    ensures StampedAt(SortDesc(s), t) == StampedAt(s, t)
  {
    if s != [] {
      SortDescStable(s[1..], t);
      InsertDescStamped(s[0], SortDesc(s[1..]), t);
    }
  }

  // ---------------------------------------------------------------------------
  // `Math.ceil(total / limit)`

  /** Ceiling division, for a positive divisor. */
  function CeilDiv(a: nat, b: nat): nat
    requires b >= 1
  {
    (a + b - 1) / b
  }

  /** `CeilDiv(a, b)` is the least number of `b`-sized pages that hold `a` items. */
  lemma CeilDivIsLeast(a: nat, b: nat)
    requires b >= 1
    ensures CeilDiv(a, b) * b >= a
    ensures a > 0 ==> (CeilDiv(a, b) - 1) * b < a
    ensures a == 0 ==> CeilDiv(a, b) == 0
  {
    var q, r := (a + b - 1) / b, (a + b - 1) % b;
    assert a + b - 1 == q * b + r;
    assert (q - 1) * b == q * b - b;
  }

  /** A page `p` lies before the last page exactly when `p` full pages do not
      yet hold all `a` items. */
  lemma BeforeLastPageIff(a: nat, b: nat, p: int)
    requires b >= 1 && p >= 0
    ensures p < CeilDiv(a, b) <==> p * b < a
  {
    var q := CeilDiv(a, b);
    CeilDivIsLeast(a, b);
    if p < q {
      MulMonotone(p, q - 1, b);
    } else {
      MulMonotone(q, p, b);
    }
  }

  lemma MulMonotone(x: int, y: int, b: nat)
    requires x <= y
    ensures x * b <= y * b
  {
    assert y * b - x * b == (y - x) * b;
  }

  // ---------------------------------------------------------------------------
  // The table

  /** The index of the row with the given id, if there is one. */
  function FindRow(rows: seq<NoteRow>, id: int): (r: Option<nat>)
    ensures r.Some? ==> r.value < |rows| && rows[r.value].id == id
    ensures r.None? <==> forall j :: 0 <= j < |rows| ==> rows[j].id != id
  {
    if |rows| == 0 then None
    else if rows[0].id == id then Some(0)
    else
      match FindRow(rows[1..], id)
      case None => None
      case Some(k) => Some(k + 1)
  }

  ghost predicate IdsIncreasing(rows: seq<NoteRow>) {
    forall i, j :: 0 <= i < j < |rows| ==> rows[i].id < rows[j].id
  }

  class NoteTable {
    var rows: seq<NoteRow>
    var nextId: nat

    ghost predicate Valid()
      reads this
    {
      && nextId >= 1
      && (forall i :: 0 <= i < |rows| ==> 1 <= rows[i].id < nextId)
      && IdsIncreasing(rows)
    }

    constructor ()
      ensures Valid() && rows == [] && nextId == 1
    {
      rows := [];
      nextId := 1;
    }

    /** `getAll(page = 1, limit = 10)`: skip `(page - 1) * limit` notes of the
        newest-first listing and return at most `limit`, with the page counts. */
    function GetAll(page: int := 1, limit: int := 10): NotePage
      requires page >= 1 && limit >= 1
      reads this
    {
      var offset := (page - 1) * limit;
      var sorted := SortDesc(rows);
      var total := |rows|;
      var totalPages := CeilDiv(total, limit);
      NotePage(sorted[Min(offset, total)..Min(offset + limit, total)],
               Pagination(page, limit, total, totalPages, page < totalPages, page > 1))
    }

    /** `getById(id)`: the row with that id, or null. */
    function GetById(id: int): (r: Option<NoteRow>)
      reads this
      ensures r.None? <==> forall j :: 0 <= j < |rows| ==> rows[j].id != id
      ensures r.Some? ==> r.value.id == id && r.value in rows
    {
      match FindRow(rows, id)
      case None => None
      case Some(i) => Some(rows[i])
    }

    /** `create(title, content)`: insert the row, whose `createdAt` the database's
        clock sets (`storedAt`), and return it with the id the database assigned
        and the application's clock (`now`) as `createdAt`. */
    method Create(title: string, content: string, storedAt: string, now: string) returns (r: NoteRow)
      requires Valid()
      modifies this
      ensures Valid()
      ensures rows == old(rows) + [NoteRow(old(nextId), title, content, storedAt)]
      ensures nextId == old(nextId) + 1
      ensures r == NoteRow(old(nextId), title, content, now)
      ensures forall j :: 0 <= j < |old(rows)| ==> old(rows)[j].id < r.id
    {
      var id := nextId;
      rows := rows + [NoteRow(id, title, content, storedAt)];
      nextId := nextId + 1;
      r := NoteRow(id, title, content, now);
    }

    /** `updateById(id, title, content)`: `None` is an argument passed as
        `undefined` and keeps the column. With nothing to set, the row is returned
        as it is and the table is untouched; otherwise the updated row is read back. */
    method UpdateById(id: int, title: Option<string>, content: Option<string>) returns (r: Option<NoteRow>)
      requires Valid()
      modifies this
      ensures Valid()
      ensures nextId == old(nextId)
      ensures old(GetById(id)).None? ==> r.None? && unchanged(this)
      ensures old(GetById(id)).Some? && title.None? && content.None? ==> r == old(GetById(id)) && unchanged(this)
      ensures old(GetById(id)).Some? ==>
        var row := old(GetById(id)).value;
        && r == Some(NoteRow(row.id, title.GetOr(row.title), content.GetOr(row.content), row.createdAt))
        && r == GetById(id)
      ensures FindRow(old(rows), id).Some? ==>
        var i := FindRow(old(rows), id).value;
        rows == old(rows)[i := r.value]
    {
      var found := FindRow(rows, id);
      if found.None? {
        return None;
      }
      var i := found.value;
      var row := rows[i];
      if title.None? && content.None? {
        return Some(row);
      }
      rows := rows[i := NoteRow(row.id, title.GetOr(row.title), content.GetOr(row.content), row.createdAt)];
      assert FindRow(rows, id) == Some(i) by {
        UniqueIdAt(rows, i, id);
      }
      r := Some(rows[i]);
    }

    /** `deleteById(id)`: true exactly when a row was removed; afterwards no row
        has that id and the other rows keep their order. */
    method DeleteById(id: int) returns (deleted: bool)
      requires Valid()
      modifies this
      ensures Valid()
      ensures nextId == old(nextId)
      ensures deleted <==> old(GetById(id)).Some?
      ensures GetById(id).None?
      ensures !deleted ==> unchanged(this)
      ensures deleted ==>
        var i := FindRow(old(rows), id).value;
        rows == old(rows)[..i] + old(rows)[i + 1..]
    {
      var found := FindRow(rows, id);
      if found.None? {
        return false;
      }
      var i := found.value;
      UniqueIdAt(rows, i, id);
      rows := rows[..i] + rows[i + 1..];
      deleted := true;
    }
  }

  /** With increasing ids, the row at `i` is the only one with its id. */
  lemma UniqueIdAt(rows: seq<NoteRow>, i: nat, id: int)
    requires IdsIncreasing(rows) && i < |rows| && rows[i].id == id
    ensures FindRow(rows, id) == Some(i)
    ensures forall j :: 0 <= j < |rows| && j != i ==> rows[j].id != id
  {
  }

  // ---------------------------------------------------------------------------
  // Properties of getAll

  /** A page holds at most `limit` notes: those at positions `offset`,
      `offset + 1`, ... of the newest-first listing, as many as remain. */
  lemma GetAllWindow(t: NoteTable, page: int, limit: int)
    requires page >= 1 && limit >= 1
    ensures var r := t.GetAll(page, limit);
      var offset := (page - 1) * limit;
      && |r.notes| <= limit
      && (offset >= |t.rows| ==> r.notes == [])
      && (offset < |t.rows| ==> |r.notes| == Min(limit, |t.rows| - offset))
      && forall k :: 0 <= k < |r.notes| ==> r.notes[k] == SortDesc(t.rows)[offset + k]
  {
    MulMonotone(0, page - 1, limit);
  }

  /** A window of a sorted list is sorted. */
  lemma SliceSorted(s: seq<NoteRow>, lo: int, hi: int)
    requires SortedDesc(s) && 0 <= lo <= hi <= |s|
    ensures SortedDesc(s[lo..hi])
  {
    var w := s[lo..hi];
    forall i, j | 0 <= i < j < |w|
      ensures LexLe(w[j].createdAt, w[i].createdAt)
    {
      assert w[i] == s[lo + i] && w[j] == s[lo + j];
    }
  }

  /** Every note on a page is a row of the table, and a page is newest first. */
  lemma GetAllSortedRows(t: NoteTable, page: int, limit: int)
    requires page >= 1 && limit >= 1
    ensures var r := t.GetAll(page, limit);
      SortedDesc(r.notes) && forall k :: 0 <= k < |r.notes| ==> r.notes[k] in t.rows
  {
    var sorted := SortDesc(t.rows);
    var offset := (page - 1) * limit;
    var lo, hi := Min(offset, |t.rows|), Min(offset + limit, |t.rows|);
    MulMonotone(0, page - 1, limit);
    var w := sorted[lo..hi];
    assert t.GetAll(page, limit).notes == w;
    SortDescCorrect(t.rows);
    SliceSorted(sorted, lo, hi);
    forall k | 0 <= k < |w|
      ensures w[k] in t.rows
    {
      assert w[k] == sorted[lo + k];
      assert sorted[lo + k] in multiset(sorted);
      assert w[k] in multiset(t.rows);
    }
  }

  /** `total` counts the rows and `totalPages` is the least number of pages of
      `limit` notes that hold them all. */
  lemma GetAllCounts(t: NoteTable, page: int, limit: int)
    requires page >= 1 && limit >= 1
    ensures var p := t.GetAll(page, limit).pagination;
      && p.page == page && p.limit == limit
      && p.total == |t.rows|
      && p.totalPages * limit >= p.total
      && (p.total > 0 ==> (p.totalPages - 1) * limit < p.total)
      && (p.total == 0 ==> p.totalPages == 0)
  {
    CeilDivIsLeast(|t.rows|, limit);
  }

  /** `hasNextPage` holds exactly when notes remain after this page, and
      `hasPrevPage` exactly when notes were skipped before it. */
  lemma GetAllNeighbours(t: NoteTable, page: int, limit: int)
    requires page >= 1 && limit >= 1
    ensures var p := t.GetAll(page, limit).pagination;
      && (p.hasNextPage <==> (page - 1) * limit + limit < |t.rows|)
      && (p.hasPrevPage <==> (page - 1) * limit > 0)
  {
    BeforeLastPageIff(|t.rows|, limit, page);
    assert (page - 1) * limit + limit == page * limit;
    if page > 1 {
      MulMonotone(1, page - 1, limit);
    }
  }

  /** A page has notes exactly when it is one of the pages 1 .. totalPages. */
  lemma GetAllNonEmptyIff(t: NoteTable, page: int, limit: int)
    requires page >= 1 && limit >= 1
    ensures var r := t.GetAll(page, limit);
      |r.notes| > 0 <==> page <= r.pagination.totalPages
  {
    BeforeLastPageIff(|t.rows|, limit, page - 1);
    GetAllWindow(t, page, limit);
  }

  /** The notes of pages 1 .. k, one after another. */
  ghost function PagesUpTo(t: NoteTable, k: nat, limit: int): seq<NoteRow>
    requires limit >= 1
    reads t
  {
    if k == 0 then [] else PagesUpTo(t, k - 1, limit) + t.GetAll(k, limit).notes
  }

  lemma {:induction false} PagesUpToPrefix(t: NoteTable, k: nat, limit: int)
    requires limit >= 1
    ensures PagesUpTo(t, k, limit) == SortDesc(t.rows)[..Min(k * limit, |t.rows|)]
  {
    if k > 0 {
      PagesUpToPrefix(t, k - 1, limit);
      var sorted := SortDesc(t.rows);
      var lo := Min((k - 1) * limit, |t.rows|);
      var hi := Min((k - 1) * limit + limit, |t.rows|);
      assert (k - 1) * limit + limit == k * limit;
      MulMonotone(0, k - 1, limit);
      assert sorted[..lo] + sorted[lo..hi] == sorted[..hi];
    }
  }

  /** Walking pages 1 .. totalPages lists every note exactly once, newest first. */
  lemma PagesCoverListing(t: NoteTable, limit: int)
    requires limit >= 1
    ensures PagesUpTo(t, CeilDiv(|t.rows|, limit), limit) == SortDesc(t.rows)
  {
    var n := CeilDiv(|t.rows|, limit);
    PagesUpToPrefix(t, n, limit);
    CeilDivIsLeast(|t.rows|, limit);
    assert SortDesc(t.rows)[..|t.rows|] == SortDesc(t.rows);
  }
}
