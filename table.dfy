/** The file store's table as a value: the queries of the store (list a
    folder, get one row, total size, search by name) are functions of it, and
    the rows a recursive delete removes are described by ghost functions of it.
    Filters keep the table's order; they are written from the back so that a
    table extended by one row unfolds in one step. */
module Table {
  import opened Schema
  import opened JsString

  type Table = seq<FileRecord>

  /** The id of the row at position `i`. */
  ghost function IdAt(t: Table, i: int): int
    requires 0 <= i < |t|
  {
    t[i].id
  }

  /** No two rows share an id: the primary key. The pairs are matched on
      `IdAt` so that the property is used only where a proof asks for it. */
  ghost predicate UniqueIds(t: Table) {
    forall i, j {:trigger IdAt(t, i), IdAt(t, j)} :: 0 <= i < j < |t| ==> IdAt(t, i) != IdAt(t, j)
  }

  /** With unique ids, two different positions hold different ids. */
  lemma UniqueAt(t: Table, i: int, j: int)
    requires UniqueIds(t) && 0 <= i < |t| && 0 <= j < |t| && i != j
    ensures t[i].id != t[j].id
  {
    if i < j {
      assert IdAt(t, i) != IdAt(t, j);
    } else {
      assert IdAt(t, j) != IdAt(t, i);
    }
  }

  /** A table extended by one row has unique ids exactly when the table has
      and no row of it has the new row's id. */
  lemma UniqueAppend(t: Table, r: FileRecord)
    ensures UniqueIds(t + [r]) <==> UniqueIds(t) && forall q :: q in t ==> q.id != r.id
  {
    var s := t + [r];
    if UniqueIds(s) {
      forall i, j | 0 <= i < j < |t|
        ensures IdAt(t, i) != IdAt(t, j)
      {
        assert IdAt(s, i) != IdAt(s, j);
      }
      forall q | q in t
        ensures q.id != r.id
      {
        var k :| 0 <= k < |t| && t[k] == q;
        assert IdAt(s, k) != IdAt(s, |t|);
      }
    }
    if UniqueIds(t) && forall q :: q in t ==> q.id != r.id {
      forall i, j | 0 <= i < j < |s|
        ensures IdAt(s, i) != IdAt(s, j)
      {
        if j < |t| {
          assert IdAt(t, i) != IdAt(t, j);
        } else {
          assert t[i] in t;
        }
      }
    }
  }

  /** Dropping the first row keeps the ids unique. */
  lemma UniqueTail(t: Table)
    requires UniqueIds(t) && t != []
    ensures UniqueIds(t[1..])
  {
    forall i, j | 0 <= i < j < |t| - 1
      ensures IdAt(t[1..], i) != IdAt(t[1..], j)
    {
      assert IdAt(t, i + 1) != IdAt(t, j + 1);
    }
  }

  /** getFile: the first row with that id, or nothing. */
  function Find(t: Table, id: int): (r: Option<FileRecord>)
    ensures r.Some? ==> r.value in t && r.value.id == id
    ensures r.None? <==> forall q :: q in t ==> q.id != id
  {
    if t == [] then None
    else if t[0].id == id then Some(t[0])
    else Find(t[1..], id)
  }

  /** With unique ids, getFile returns THE row with that id. */
  lemma {:induction false} FindUnique(t: Table, r: FileRecord)
    requires UniqueIds(t) && r in t
    ensures Find(t, r.id) == Some(r)
  {
    if t[0] != r {
      var k :| 0 <= k < |t| && t[k] == r;
      UniqueAt(t, 0, k);
      assert t[1..][k - 1] == r;
      UniqueTail(t);
      FindUnique(t[1..], r);
    }
  }

  /** getFiles: the rows whose parentId equals the given one (null lists the
      root), in the model's table order. */
  function ChildrenOf(t: Table, parentId: Option<int>): (kids: Table)
    ensures forall r {:trigger r in kids} :: r in kids <==> r in t && r.parentId == parentId
    ensures |kids| <= |t|
  {
    if t == [] then []
    else
      var n := |t| - 1;
      ChildrenOf(t[..n], parentId) + (if t[n].parentId == parentId then [t[n]] else [])
  }

  /** searchFiles: the rows, folders included, whose name contains the query
      as a case-sensitive substring, in the model's table order. */
  function Search(t: Table, query: string): (found: Table)
    ensures forall r {:trigger r in found} :: r in found <==> r in t && Contains(r.name, query)
    ensures |found| <= |t|
  {
    if t == [] then []
    else
      var n := |t| - 1;
      Search(t[..n], query) + (if Contains(t[n].name, query) then [t[n]] else [])
  }

  /** The table after deleting every row whose id is in `gone`. */
  function Without(t: Table, gone: set<int>): (rest: Table)
    ensures forall r {:trigger r in rest} :: r in rest <==> r in t && r.id !in gone
    ensures |rest| <= |t|
  {
    if t == [] then []
    else
      var n := |t| - 1;
      Without(t[..n], gone) + (if t[n].id in gone then [] else [t[n]])
  }

  /** What a row adds to the total: its size, or nothing for a folder. */
  function Weight(r: FileRecord): int {
    if r.isFolder then 0 else r.size
  }

  /** getTotalSize: the sum of `size` over the non-folder rows. */
  function TotalSize(t: Table): (total: int)
    ensures (forall r :: r in t ==> r.isFolder) ==> total == 0
    ensures (forall r :: r in t ==> r.isFolder || r.size >= 0) ==> total >= 0
  {
    if t == [] then 0
    else
      var n := |t| - 1;
      TotalSize(t[..n]) + Weight(t[n])
  }

  /** updateFile: every row with that id has the update merged into it; the
      table keeps its size and its ids, and every row with another id stays. */
  function Updated(t: Table, id: int, u: FileUpdate): (r: Table)
    ensures |r| == |t|
    ensures forall i :: 0 <= i < |t| ==> r[i].id == t[i].id
    ensures forall q :: q in t && q.id != id ==> q in r
  {
    seq(|t|, i requires 0 <= i < |t| => if t[i].id == id then Merge(t[i], u) else t[i])
  }

  // ---------------------------------------------------------------------
  // Laws of the queries

  /** Searching for the empty string returns the whole table. */
  lemma {:induction false} SearchEmpty(t: Table)
    ensures Search(t, "") == t
  {
    if t != [] {
      var n := |t| - 1;
      SearchEmpty(t[..n]);
      ContainsEmpty(t[n].name);
      assert t == t[..n] + [t[n]];
    }
  }

  /** Appending a row raises the total by the row's weight. */
  lemma TotalSizeAppend(t: Table, r: FileRecord)
    ensures TotalSize(t + [r]) == TotalSize(t) + Weight(r)
  {
    assert (t + [r])[..|t|] == t;
  }

  /** The total of two tables laid end to end is the sum of their totals. */
  lemma {:induction false} TotalSizeConcat(a: Table, b: Table)
    ensures TotalSize(a + b) == TotalSize(a) + TotalSize(b)
    decreases |b|
  {
    if b != [] {
      var n := |b| - 1;
      TotalSizeConcat(a, b[..n]);
      assert a + b == (a + b[..n]) + [b[n]];
      assert TotalSize(a + b) == TotalSize(a + b[..n]) + Weight(b[n]);
      assert TotalSize(b) == TotalSize(b[..n]) + Weight(b[n]);
    } else {
      assert a + b == a;
    }
  }

  /** An update keeps every row's id and the model's row order; rows with
      other ids are untouched; an id no row has leaves the table as it was. */
  lemma UpdatedLaws(t: Table, id: int, u: FileUpdate)
    ensures |Updated(t, id, u)| == |t|
    ensures forall i :: 0 <= i < |t| ==> Updated(t, id, u)[i].id == t[i].id
    ensures forall i :: 0 <= i < |t| && t[i].id != id ==> Updated(t, id, u)[i] == t[i]
    ensures UniqueIds(t) ==> UniqueIds(Updated(t, id, u))
    ensures Find(t, id).None? ==> Updated(t, id, u) == t
  {
    var t' := Updated(t, id, u);
    if UniqueIds(t) {
      forall i, j | 0 <= i < j < |t'|
        ensures IdAt(t', i) != IdAt(t', j)
      {
        assert IdAt(t, i) != IdAt(t, j);
      }
    }
  }

  /** The row the update returns (the first one with that id) is the old row
      with the update merged in. */
  lemma {:induction false} FindUpdated(t: Table, id: int, u: FileUpdate)
    ensures Find(Updated(t, id, u), id) ==
      (if Find(t, id).Some? then Some(Merge(Find(t, id).value, u)) else None)
  {
    if t != [] {
      if t[0].id != id {
        FindUpdated(t[1..], id, u);
        assert Updated(t, id, u)[1..] == Updated(t[1..], id, u);
      }
    }
  }

  lemma UpdatedAppend(p: Table, x: FileRecord, id: int, u: FileUpdate)
    ensures Updated(p + [x], id, u) == Updated(p, id, u) + [if x.id == id then Merge(x, u) else x]
  {
  }

  /** With unique ids, an update changes the total by the difference between
      the merged row's weight and the old row's weight. */
  lemma {:induction false} TotalSizeUpdated(t: Table, f: FileRecord, u: FileUpdate)
    requires UniqueIds(t) && f in t
    ensures TotalSize(Updated(t, f.id, u)) == TotalSize(t) - Weight(f) + Weight(Merge(f, u))
  {
    var n := |t| - 1;
    var p, x := t[..n], t[n];
    assert t == p + [x];
    UniqueAppend(p, x);
    UpdatedAppend(p, x, f.id, u);
    TotalSizeAppend(p, x);
    if x == f {
      assert Updated(p, f.id, u) == p;
      TotalSizeAppend(p, Merge(x, u));
    } else {
      assert f in p;
      TotalSizeUpdated(p, f, u);
      TotalSizeAppend(Updated(p, f.id, u), x);
    }
  }

  // ---------------------------------------------------------------------
  // Deleting rows

  /** Deleting rows keeps the ids unique. */
  lemma {:induction false} WithoutUnique(t: Table, gone: set<int>)
    requires UniqueIds(t)
    ensures UniqueIds(Without(t, gone))
  {
    if t != [] {
      var n := |t| - 1;
      var p, x := t[..n], t[n];
      assert t == p + [x];
      UniqueAppend(p, x);
      var w := Without(p, gone);
      WithoutUnique(p, gone);
      WithoutAppend(p, x, gone);
      if x.id !in gone {
        assert Without(t, gone) == w + [x];
        UniqueAppend(w, x);
      } else {
        assert Without(t, gone) == w;
      }
    }
  }

  /** With unique ids, getFile on the smaller table finds the same row unless
      the row was deleted. */
  lemma FindWithout(t: Table, gone: set<int>, x: int)
    requires UniqueIds(t)
    ensures Find(Without(t, gone), x) == if x in gone then None else Find(t, x)
  {
    WithoutUnique(t, gone);
    if x !in gone && Find(t, x).Some? {
      FindUnique(Without(t, gone), Find(t, x).value);
    }
  }

  lemma WithoutAppend(t: Table, r: FileRecord, gone: set<int>)
    ensures Without(t + [r], gone) == Without(t, gone) + (if r.id in gone then [] else [r])
  {
    assert (t + [r])[..|t|] == t;
  }

  lemma ChildrenAppend(t: Table, r: FileRecord, p: Option<int>)
    ensures ChildrenOf(t + [r], p) == ChildrenOf(t, p) + (if r.parentId == p then [r] else [])
  {
    assert (t + [r])[..|t|] == t;
  }

  /** Deleting no rows leaves the table as it was. */
  lemma {:induction false} WithoutNothing(t: Table)
    ensures Without(t, {}) == t
  {
    if t != [] {
      var n := |t| - 1;
      WithoutNothing(t[..n]);
      assert t == t[..n] + [t[n]];
    }
  }

  /** Deleting one set of rows and then another deletes their union. */
  lemma {:induction false} WithoutWithout(t: Table, a: set<int>, b: set<int>)
    ensures Without(Without(t, a), b) == Without(t, a + b)
  {
    if t != [] {
      var n := |t| - 1;
      var p, x := t[..n], t[n];
      WithoutWithout(p, a, b);
      assert t == p + [x];
      WithoutAppend(p, x, a);
      WithoutAppend(p, x, a + b);
      if x.id !in a {
        WithoutAppend(Without(p, a), x, b);
        assert Without(t, a) == Without(p, a) + [x];
        assert Without(Without(t, a), b) == Without(Without(p, a), b) + (if x.id in b then [] else [x]);
        assert Without(t, a + b) == Without(p, a + b) + (if x.id in b then [] else [x]);
      } else {
        assert Without(t, a) == Without(p, a);
        assert Without(t, a + b) == Without(p, a + b);
      }
    }
  }

  /** Listing a folder's children commutes with deleting rows. */
  lemma {:induction false} ChildrenWithout(t: Table, gone: set<int>, q: Option<int>)
    ensures ChildrenOf(Without(t, gone), q) == Without(ChildrenOf(t, q), gone)
  {
    if t != [] {
      var n := |t| - 1;
      var p, x := t[..n], t[n];
      ChildrenWithout(p, gone, q);
      assert t == p + [x];
      WithoutAppend(p, x, gone);
      ChildrenAppend(p, x, q);
      if x.id in gone {
        assert Without(t, gone) == Without(p, gone);
        if x.parentId == q {
          WithoutAppend(ChildrenOf(p, q), x, gone);
        } else {
          assert ChildrenOf(t, q) == ChildrenOf(p, q);
        }
      } else {
        assert Without(t, gone) == Without(p, gone) + [x];
        ChildrenAppend(Without(p, gone), x, q);
        if x.parentId == q {
          WithoutAppend(ChildrenOf(p, q), x, gone);
          assert ChildrenOf(t, q) == ChildrenOf(p, q) + [x];
        } else {
          assert ChildrenOf(t, q) == ChildrenOf(p, q);
        }
      }
    }
  }

  // ---------------------------------------------------------------------
  // Parent chains without cycles

  /** The rank a ghost map gives an id (0 when it gives none). */
  ghost function Rank(rank: map<int, nat>, id: int): nat {
    if id in rank then rank[id] else 0
  }

  /** `rank` witnesses that the parent chains have no cycle: every row is
      ranked, and a row ranks strictly below the row its parentId names. */
  ghost predicate RankedBy(t: Table, rank: map<int, nat>) {
    && (forall r :: r in t ==> r.id in rank)
    && (forall r, q {:trigger ParentRow(t, r, q)} :: ParentRow(t, r, q) ==> rank[r.id] < rank[q.id])
  }

  /** `q` is the row that the parentId of row `r` names. */
  ghost predicate ParentRow(t: Table, r: FileRecord, q: FileRecord) {
    r in t && q in t && r.parentId == Some(q.id)
  }

  /** The parent chains of the table have no cycle. */
  ghost predicate Acyclic(t: Table) {
    exists rank :: RankedBy(t, rank)
  }

  lemma RankedByWithout(t: Table, gone: set<int>, rank: map<int, nat>)
    requires RankedBy(t, rank)
    ensures RankedBy(Without(t, gone), rank)
  {
    var w := Without(t, gone);
    forall r, q | ParentRow(w, r, q)
      ensures rank[r.id] < rank[q.id]
    {
      assert ParentRow(t, r, q);
    }
  }

  /** A row ranks below the row its parentId names. */
  lemma ParentRanked(t: Table, rank: map<int, nat>, r: FileRecord, q: FileRecord)
    requires RankedBy(t, rank) && r in t && q in t && r.parentId == Some(q.id)
    ensures Rank(rank, r.id) < Rank(rank, q.id)
  {
    assert ParentRow(t, r, q);
  }

  /** The children of a row all rank below it. */
  lemma ChildrenRanked(t: Table, rank: map<int, nat>, id: int)
    requires RankedBy(t, rank) && Find(t, id).Some?
    ensures forall k :: k in ChildrenOf(t, Some(id)) ==> Rank(rank, k.id) < Rank(rank, id)
  {
    var f := Find(t, id).value;
    forall k | k in ChildrenOf(t, Some(id))
      ensures Rank(rank, k.id) < Rank(rank, id)
    {
      ParentRanked(t, rank, k, f);
    }
  }

  /** The ids the recursive delete of `id` removes: nothing if no row has that
      id; the row alone if it is not a folder; otherwise the row and, for each
      child in table order, what deleting that child removes. The row itself
      is removed exactly when it exists. */
  ghost function Cascade(t: Table, id: int, rank: map<int, nat>): (c: set<int>)
    requires RankedBy(t, rank)
    ensures id in c <==> Find(t, id).Some?
    ensures Find(t, id).None? ==> c == {}
    decreases Rank(rank, id), 1, 0
  {
    match Find(t, id)
    case None => {}
    case Some(f) =>
      if f.isFolder then
        ChildrenRanked(t, rank, id);
        {id} + CascadeAll(t, ChildrenOf(t, Some(id)), rank, Rank(rank, id))
      else {id}
  }

  /** The union of the cascades of the given rows, all ranked below `bound`. */
  ghost function CascadeAll(t: Table, kids: Table, rank: map<int, nat>, bound: nat): (c: set<int>)
    requires RankedBy(t, rank)
    requires forall k :: k in kids ==> Rank(rank, k.id) < bound
    ensures forall k :: k in kids && k in t ==> k.id in c
    decreases bound, 0, |kids|
  {
    if kids == [] then {}
    else
      var n := |kids| - 1;
      assert forall k :: k in kids[..n] ==> k in kids;
      CascadeAll(t, kids[..n], rank, bound) + Cascade(t, kids[n].id, rank)
  }

  /** A set of ids that holds the whole cascade of each of its members. */
  ghost predicate Closed(t: Table, ids: set<int>, rank: map<int, nat>)
    requires RankedBy(t, rank)
  {
    forall y :: y in ids ==> Cascade(t, y, rank) <= ids
  }

  /** The parentId of the row with id `x`, when there is such a row. */
  ghost function ParentOf(t: Table, x: int): Option<int> {
    match Find(t, x)
    case None => None
    case Some(r) => r.parentId
  }

  /** Everything a cascade removes is a row of the table ranked no higher than
      where the cascade starts. */
  lemma {:induction false} CascadeRows(t: Table, id: int, rank: map<int, nat>, x: int)
    requires RankedBy(t, rank)
    requires x in Cascade(t, id, rank)
    ensures Find(t, x).Some? && Rank(rank, x) <= Rank(rank, id)
    decreases Rank(rank, id), 1, 0
  {
    if x != id {
      var kids := ChildrenOf(t, Some(id));
      ChildrenRanked(t, rank, id);
      CascadeAllRows(t, kids, rank, Rank(rank, id), x);
    }
  }

  lemma {:induction false} CascadeAllRows(t: Table, kids: Table, rank: map<int, nat>, bound: nat, x: int)
    requires RankedBy(t, rank)
    requires forall k :: k in kids ==> Rank(rank, k.id) < bound
    requires x in CascadeAll(t, kids, rank, bound)
    ensures Find(t, x).Some? && Rank(rank, x) < bound
    decreases bound, 0, |kids|
  {
    var n := |kids| - 1;
    assert forall k :: k in kids[..n] ==> k in kids;
    if x in CascadeAll(t, kids[..n], rank, bound) {
      CascadeAllRows(t, kids[..n], rank, bound, x);
    } else {
      CascadeRows(t, kids[n].id, rank, x);
    }
  }

  /** A member of a union of cascades is in the cascade of one of the rows. */
  lemma {:induction false} CascadeAllWitness(t: Table, kids: Table, rank: map<int, nat>, bound: nat, x: int)
    returns (k: FileRecord)
    requires RankedBy(t, rank)
    requires forall k :: k in kids ==> Rank(rank, k.id) < bound
    requires x in CascadeAll(t, kids, rank, bound)
    ensures k in kids && x in Cascade(t, k.id, rank)
    decreases |kids|
  {
    var n := |kids| - 1;
    assert forall k :: k in kids[..n] ==> k in kids;
    if x in CascadeAll(t, kids[..n], rank, bound) {
      k := CascadeAllWitness(t, kids[..n], rank, bound, x);
    } else {
      k := kids[n];
    }
  }

  /** The union of cascades holds the cascade of each of the rows. */
  lemma {:induction false} CascadeAllCovers(t: Table, kids: Table, rank: map<int, nat>, bound: nat, k: FileRecord)
    requires RankedBy(t, rank)
    requires forall k :: k in kids ==> Rank(rank, k.id) < bound
    requires k in kids
    ensures Cascade(t, k.id, rank) <= CascadeAll(t, kids, rank, bound)
    decreases |kids|
  {
    var n := |kids| - 1;
    assert forall k :: k in kids[..n] ==> k in kids;
    if kids[n] != k {
      assert k in kids[..n];
      CascadeAllCovers(t, kids[..n], rank, bound, k);
    }
  }

  /** The cascade of any row a cascade removes is removed by it too. */
  lemma {:induction false} CascadeClosed(t: Table, id: int, rank: map<int, nat>, y: int)
    requires RankedBy(t, rank)
    requires y in Cascade(t, id, rank)
    ensures Cascade(t, y, rank) <= Cascade(t, id, rank)
    decreases Rank(rank, id)
  {
    if y != id {
      var kids := ChildrenOf(t, Some(id));
      ChildrenRanked(t, rank, id);
      var k := CascadeAllWitness(t, kids, rank, Rank(rank, id), y);
      CascadeClosed(t, k.id, rank, y);
      CascadeAllCovers(t, kids, rank, Rank(rank, id), k);
    }
  }

  /** A union of cascades is closed. */
  lemma CascadeAllClosed(t: Table, kids: Table, rank: map<int, nat>, bound: nat)
    requires RankedBy(t, rank)
    requires forall k :: k in kids ==> Rank(rank, k.id) < bound
    ensures Closed(t, CascadeAll(t, kids, rank, bound), rank)
  {
    forall y | y in CascadeAll(t, kids, rank, bound)
      ensures Cascade(t, y, rank) <= CascadeAll(t, kids, rank, bound)
    {
      var k := CascadeAllWitness(t, kids, rank, bound, y);
      CascadeClosed(t, k.id, rank, y);
      CascadeAllCovers(t, kids, rank, bound, k);
    }
  }

  /** Every row a cascade removes, except the one it starts from, has its
      parent removed by the same cascade. */
  lemma {:induction false} CascadeParent(t: Table, id: int, rank: map<int, nat>, x: int)
    requires RankedBy(t, rank) && UniqueIds(t)
    requires x in Cascade(t, id, rank) && x != id
    ensures ParentOf(t, x).Some? && ParentOf(t, x).value in Cascade(t, id, rank)
    decreases Rank(rank, id)
  {
    var kids := ChildrenOf(t, Some(id));
    ChildrenRanked(t, rank, id);
    var k := CascadeAllWitness(t, kids, rank, Rank(rank, id), x);
    CascadeAllCovers(t, kids, rank, Rank(rank, id), k);
    if x == k.id {
      FindUnique(t, k);
    } else {
      CascadeParent(t, k.id, rank, x);
    }
  }

  /** After deleting a closed set of rows, a cascade removes what it removed
      before, less what is already gone. */
  lemma {:induction false} CascadeWithout(t: Table, gone: set<int>, rank: map<int, nat>, id: int)
    requires RankedBy(t, rank) && UniqueIds(t) && Closed(t, gone, rank)
    ensures RankedBy(Without(t, gone), rank)
    ensures Cascade(Without(t, gone), id, rank) == Cascade(t, id, rank) - gone
    decreases Rank(rank, id), 1, 0
  {
    var w := Without(t, gone);
    RankedByWithout(t, gone, rank);
    FindWithout(t, gone, id);
    if id in gone {
      assert Find(w, id).None?;
      assert Cascade(t, id, rank) <= gone;
    } else if Find(t, id).Some? && Find(t, id).value.isFolder {
      var kids := ChildrenOf(t, Some(id));
      ChildrenRanked(t, rank, id);
      var bound := Rank(rank, id);
      ChildrenWithout(t, gone, Some(id));
      CascadeAllWithout(t, gone, rank, kids, bound);
      assert Cascade(t, id, rank) == {id} + CascadeAll(t, kids, rank, bound);
      assert Find(w, id) == Find(t, id);
      assert ChildrenOf(w, Some(id)) == Without(kids, gone);
      assert Cascade(w, id, rank) == {id} + CascadeAll(w, Without(kids, gone), rank, bound);
    }
  }

  lemma CascadeAllAppend(t: Table, kids: Table, k: FileRecord, rank: map<int, nat>, bound: nat)
    requires RankedBy(t, rank)
    requires forall j :: j in kids + [k] ==> Rank(rank, j.id) < bound
    ensures forall j :: j in kids ==> Rank(rank, j.id) < bound
    ensures CascadeAll(t, kids + [k], rank, bound) == CascadeAll(t, kids, rank, bound) + Cascade(t, k.id, rank)
  {
    assert forall j :: j in kids ==> j in kids + [k];
    assert (kids + [k])[..|kids|] == kids;
  }

  lemma {:induction false} CascadeAllWithout(t: Table, gone: set<int>, rank: map<int, nat>, kids: Table, bound: nat)
    requires RankedBy(t, rank) && UniqueIds(t) && Closed(t, gone, rank)
    requires forall k :: k in kids ==> Rank(rank, k.id) < bound
    ensures RankedBy(Without(t, gone), rank)
    ensures CascadeAll(Without(t, gone), Without(kids, gone), rank, bound) == CascadeAll(t, kids, rank, bound) - gone
    decreases bound, 0, |kids|
  {
    var w := Without(t, gone);
    RankedByWithout(t, gone, rank);
    if kids != [] {
      var n := |kids| - 1;
      var p, k := kids[..n], kids[n];
      assert kids == p + [k];
      CascadeAllAppend(t, p, k, rank, bound);
      CascadeAllWithout(t, gone, rank, p, bound);
      CascadeWithout(t, gone, rank, k.id);
      WithoutAppend(p, k, gone);
      var wp := Without(p, gone);
      if k.id in gone {
        assert Without(kids, gone) == wp;
        assert Cascade(t, k.id, rank) <= gone;
      } else {
        assert Without(kids, gone) == wp + [k];
        CascadeAllAppend(w, wp, k, rank, bound);
      }
    }
  }

  /** Deleting the children of a folder one after another: once the rows
      removed for the first `i` children are gone, removing the cascade of
      child `i` computed on the smaller table leaves the table without the
      rows removed for the first `i + 1` children. */
  lemma CascadeStep(t: Table, rank: map<int, nat>, kids: Table, bound: nat, i: nat)
    requires RankedBy(t, rank) && UniqueIds(t)
    requires forall k :: k in kids ==> Rank(rank, k.id) < bound
    requires i < |kids|
    ensures forall k :: k in kids[..i + 1] ==> k in kids
    ensures RankedBy(Without(t, CascadeAll(t, kids[..i], rank, bound)), rank)
    ensures Cascade(Without(t, CascadeAll(t, kids[..i], rank, bound)), kids[i].id, rank) ==
            Cascade(t, kids[i].id, rank) - CascadeAll(t, kids[..i], rank, bound)
    ensures CascadeAll(t, kids[..i + 1], rank, bound) ==
            CascadeAll(t, kids[..i], rank, bound) + Cascade(t, kids[i].id, rank)
    ensures Without(Without(t, CascadeAll(t, kids[..i], rank, bound)),
                    Cascade(Without(t, CascadeAll(t, kids[..i], rank, bound)), kids[i].id, rank)) ==
            Without(t, CascadeAll(t, kids[..i + 1], rank, bound))
  {
    assert forall k :: k in kids[..i + 1] ==> k in kids;
    assert kids[..i + 1] == kids[..i] + [kids[i]];
    var gone := CascadeAll(t, kids[..i], rank, bound);
    CascadeAllClosed(t, kids[..i], rank, bound);
    CascadeWithout(t, gone, rank, kids[i].id);
    CascadeAllAppend(t, kids[..i], kids[i], rank, bound);
    var c := Cascade(t, kids[i].id, rank);
    WithoutWithout(t, gone, c - gone);
    assert gone + (c - gone) == gone + c;
  }

  // ---------------------------------------------------------------------
  // What a cascade removes, described from below

  /** The row `x` exists and reaches `a` by its parent chain through folders
      only: `x` is `a`, or the parent of `x` is a folder that does. */
  ghost predicate UnderFolders(t: Table, x: int, a: int, rank: map<int, nat>)
    requires RankedBy(t, rank)
    decreases Rank(rank, a) - Rank(rank, x)
  {
    match Find(t, x)
    case None => false
    case Some(r) =>
      x == a ||
      (Rank(rank, x) < Rank(rank, a) && r.parentId.Some? &&
       match Find(t, r.parentId.value)
       case None => false
       case Some(p) =>
         ParentRanked(t, rank, r, p);
         p.isFolder && UnderFolders(t, p.id, a, rank))
  }

  /** A chain through folders that ends at a child of the folder `a` can be
      extended to `a`. */
  lemma {:induction false} UnderFoldersExtend(t: Table, x: int, k: FileRecord, a: int, rank: map<int, nat>)
    requires RankedBy(t, rank) && UniqueIds(t)
    requires k in t && k.parentId == Some(a)
    requires Find(t, a).Some? && Find(t, a).value.isFolder
    requires UnderFolders(t, x, k.id, rank)
    ensures UnderFolders(t, x, a, rank)
    decreases Rank(rank, k.id) - Rank(rank, x)
  {
    var fa := Find(t, a).value;
    ParentRanked(t, rank, k, fa);
    if x == k.id {
      FindUnique(t, k);
      assert UnderFolders(t, a, a, rank);
    } else {
      var r := Find(t, x).value;
      var p := Find(t, r.parentId.value).value;
      ParentRanked(t, rank, r, p);
      UnderFoldersExtend(t, p.id, k, a, rank);
    }
  }

  /** The cascade of `a` removes exactly the rows that reach `a` through
      folders: every descendant of a folder whose path to it passes through
      folders only, and nothing outside that subtree. */
  lemma {:induction false} CascadeIsUnderFolders(t: Table, a: int, rank: map<int, nat>, x: int)
    requires RankedBy(t, rank) && UniqueIds(t)
    ensures x in Cascade(t, a, rank) <==> UnderFolders(t, x, a, rank)
  {
    if x in Cascade(t, a, rank) {
      CascadeToUnderFolders(t, a, rank, x);
    }
    if UnderFolders(t, x, a, rank) {
      UnderFoldersToCascade(t, a, rank, x);
    }
  }

  lemma {:induction false} CascadeToUnderFolders(t: Table, a: int, rank: map<int, nat>, x: int)
    requires RankedBy(t, rank) && UniqueIds(t)
    requires x in Cascade(t, a, rank)
    ensures UnderFolders(t, x, a, rank)
    decreases Rank(rank, a)
  {
    if x != a {
      var kids := ChildrenOf(t, Some(a));
      ChildrenRanked(t, rank, a);
      var k := CascadeAllWitness(t, kids, rank, Rank(rank, a), x);
      CascadeToUnderFolders(t, k.id, rank, x);
      UnderFoldersExtend(t, x, k, a, rank);
    }
  }

  lemma {:induction false} UnderFoldersToCascade(t: Table, a: int, rank: map<int, nat>, x: int)
    requires RankedBy(t, rank) && UniqueIds(t)
    requires UnderFolders(t, x, a, rank)
    ensures x in Cascade(t, a, rank)
    decreases Rank(rank, a) - Rank(rank, x)
  {
    if x != a {
      var r := Find(t, x).value;
      var p := Find(t, r.parentId.value).value;
      ParentRanked(t, rank, r, p);
      UnderFoldersToCascade(t, a, rank, p.id);
      var kids := ChildrenOf(t, Some(p.id));
      ChildrenRanked(t, rank, p.id);
      assert r in kids;
      CascadeAllCovers(t, kids, rank, Rank(rank, p.id), r);
      assert x in Cascade(t, x, rank);
      CascadeClosed(t, a, rank, p.id);
    }
  }

  /** A row the cascade leaves behind whose parent it removed is the child of
      a non-folder: only non-folders leave orphans. The model does not
      enforce the foreign key on `parent_id`; the database refuses such a
      delete instead. */
  lemma OnlyFilesLeaveOrphans(t: Table, a: int, rank: map<int, nat>, r: FileRecord)
    requires RankedBy(t, rank) && UniqueIds(t)
    requires r in t && r.id !in Cascade(t, a, rank)
    requires r.parentId.Some? && r.parentId.value in Cascade(t, a, rank)
    ensures Find(t, r.parentId.value).Some? && !Find(t, r.parentId.value).value.isFolder
  {
    var p := r.parentId.value;
    CascadeRows(t, a, rank, p);
    CascadeIsUnderFolders(t, a, rank, p);
    CascadeIsUnderFolders(t, a, rank, r.id);
    FindUnique(t, r);
    ParentRanked(t, rank, r, Find(t, p).value);
  }

  // ---------------------------------------------------------------------
  // The order in which a cascade deletes rows

  ghost predicate IsChildOf(t: Table, x: int, p: int) {
    ParentOf(t, x) == Some(p)
  }

  /** No id in the log comes after the id of one of its children. */
  ghost predicate ChildrenFirst(t: Table, log: seq<int>) {
    forall i, j :: 0 <= i < j < |log| ==> !IsChildOf(t, log[j], log[i])
  }

  ghost predicate Distinct(log: seq<int>) {
    forall i, j :: 0 <= i < j < |log| ==> log[i] != log[j]
  }

  /** `log` deletes each id of `ids` exactly once, children before parents. */
  ghost predicate DeletionOrder(t: Table, ids: set<int>, log: seq<int>) {
    Distinct(log) && ChildrenFirst(t, log) && forall x :: x in log <==> x in ids
  }

  /** A row in the cascade of a child `c` of `id`, computed after deleting a
      closed set `gone` of rows ranked below `id`, is not in `gone`, has the
      same parent as before the deletion, and that parent is not in `gone`. */
  lemma ChildCascadeRow(t: Table, rank: map<int, nat>, id: int, gone: set<int>,
                        c: FileRecord, x: int)
    requires RankedBy(t, rank) && UniqueIds(t)
    requires Find(t, id).Some?
    requires c in t && c.parentId == Some(id)
    requires forall y :: y in gone ==> Rank(rank, y) < Rank(rank, id)
    requires RankedBy(Without(t, gone), rank)
    requires x in Cascade(Without(t, gone), c.id, rank)
    ensures x !in gone && ParentOf(Without(t, gone), x) == ParentOf(t, x)
    ensures ParentOf(t, x).Some? && ParentOf(t, x).value !in gone
  {
    var w := Without(t, gone);
    WithoutUnique(t, gone);
    CascadeRows(w, c.id, rank, x);
    FindWithout(t, gone, x);
    if x == c.id {
      FindUnique(t, c);
      assert ParentOf(t, x) == Some(id);
    } else {
      CascadeParent(w, c.id, rank, x);
      var q := ParentOf(w, x).value;
      CascadeRows(w, c.id, rank, q);
      FindWithout(t, gone, q);
    }
  }

  /** The deletions of one child's cascade, made after the deletions `done` of
      the earlier children, keep children ahead of their parents. */
  lemma LogAppendChild(t: Table, rank: map<int, nat>, id: int, gone: set<int>,
                       done: seq<int>, c: FileRecord, more: seq<int>)
    requires RankedBy(t, rank) && UniqueIds(t)
    requires Find(t, id).Some?
    requires c in t && c.parentId == Some(id)
    requires forall x :: x in gone ==> Rank(rank, x) < Rank(rank, id)
    requires forall x :: x in done <==> x in gone
    requires Distinct(done) && ChildrenFirst(t, done)
    requires RankedBy(Without(t, gone), rank)
    requires forall x :: x in more <==> x in Cascade(Without(t, gone), c.id, rank)
    requires Distinct(more) && ChildrenFirst(Without(t, gone), more)
    ensures Distinct(done + more) && ChildrenFirst(t, done + more)
  {
    var w := Without(t, gone);
    var log := done + more;
    forall i, j | 0 <= i < j < |log|
      ensures log[i] != log[j] && !IsChildOf(t, log[j], log[i])
    {
      if j >= |done| {
        var x := more[j - |done|];
        assert log[j] == x && x in more;
        ChildCascadeRow(t, rank, id, gone, c, x);
        if i >= |done| {
          assert log[i] == more[i - |done|];
        } else {
          assert log[i] in done;
        }
      }
    }
  }

  /** The folder itself, deleted after the cascades of all its children, comes
      after each of them. */
  lemma LogAppendFolder(t: Table, rank: map<int, nat>, id: int, done: seq<int>)
    requires RankedBy(t, rank)
    requires Find(t, id).Some?
    requires forall x :: x in done ==> Find(t, x).Some? && Rank(rank, x) < Rank(rank, id)
    requires Distinct(done) && ChildrenFirst(t, done)
    ensures Distinct(done + [id]) && ChildrenFirst(t, done + [id])
  {
    var log := done + [id];
    forall i | 0 <= i < |done|
      ensures !IsChildOf(t, id, done[i])
    {
      var x := done[i];
      assert x in done;
      if IsChildOf(t, id, x) {
        ParentRanked(t, rank, Find(t, id).value, Find(t, x).value);
      }
    }
    forall i, j | 0 <= i < j < |log|
      ensures log[i] != log[j] && !IsChildOf(t, log[j], log[i])
    {
      if j == |done| {
        assert log[i] == done[i] && log[i] in done;
      }
    }
  }
}
