/** The soft-delete repository shared by every table (Repository.kt): a table
    is a finite map from id to row, and "trashing" a row sets its `deleted`
    flag instead of removing it. The read paths that must ignore trashed rows
    filter on that flag. */
module Repository {
  import opened Wrappers
  import opened Entities
  import opened SqlText

  /** The first id the database generates. */
  const FirstId := 1

  type Table<T> = map<int, Entity<T>>

  /** Every stored row carries its own key as its id. */
  ghost predicate Keyed<T>(rows: Table<T>) {
    forall k :: k in rows ==> rows[k].base.id == Some(k)
  }

  /** `e` is, unchanged, the row stored under its id. */
  ghost predicate IsStored<T>(rows: Table<T>, e: Entity<T>) {
    e.base.id.Some? && e.base.id.value in rows && rows[e.base.id.value] == e
  }

  /** Ids strictly ascend along `rows`, so no row is listed twice. */
  ghost predicate InStoreOrder<T>(rows: seq<Entity<T>>) {
    forall i, j :: 0 <= i < j < |rows| ==>
      rows[i].base.id.Some? && rows[j].base.id.Some? && rows[i].base.id.value < rows[j].base.id.value
  }

  /** The criterion of `findAllNotDeleted`: a row passes exactly when trashing
      it would still change it. */
  predicate IsNotDeleted<T>(e: Entity<T>): (ok: bool)
    ensures ok <==> MarkDeleted(e) != e
  {
    !e.base.deleted
  }

  /** The row as `trash` saves it: flagged deleted, every other column kept. */
  function MarkDeleted<T>(e: Entity<T>): Entity<T> {
    e.(base := e.base.(deleted := true))
  }

  /** The lookup by id that `trash` uses; it does not look at the `deleted` flag. */
  function FindByIdOrNull<T>(rows: Table<T>, id: int): Option<Entity<T>> {
    if id in rows then Some(rows[id]) else None
  }

  /** The result and the new table of `trash(id)`. */
  function TrashRow<T>(rows: Table<T>, id: int): (res: (Option<Entity<T>>, Table<T>))
    ensures id !in rows ==> res.0 == None && res.1 == rows
    ensures id in rows ==>
      && res.1.Keys == rows.Keys
      && res.1[id].base.deleted
      && res.1[id].base.id == rows[id].base.id
      && res.1[id].fields == rows[id].fields
      && res.0 == Some(res.1[id])
    ensures forall k :: k in rows && k != id ==> k in res.1 && res.1[k] == rows[k]
  {
    match FindByIdOrNull(rows, id)
    case None => (None, rows)
    case Some(e) =>
      var saved := MarkDeleted(e);
      (Some(saved), rows[id := saved])
  }

  /** Trashing keeps every row under its own id. */
  lemma TrashKeepsKeyed<T>(rows: Table<T>, id: int)
    requires Keyed(rows)
    ensures Keyed(TrashRow(rows, id).1)
  {
  }

  /** Trashing twice is trashing once: the second call succeeds with the same row and changes nothing. */
  lemma TrashIdempotent<T>(rows: Table<T>, id: int)
    ensures var (r1, t1) := TrashRow(rows, id);
            TrashRow(t1, id) == (r1, t1)
  {
    if id in rows {
      var t1 := TrashRow(rows, id).1;
      assert MarkDeleted(t1[id]) == t1[id];
      assert t1[id := t1[id]] == t1;
    }
  }

  /** A trashed row stays in the table, flagged, and the unfiltered lookup still finds it. */
  lemma TrashHidesButKeeps<T>(rows: Table<T>, id: int)
    requires id in rows
    ensures id in TrashRow(rows, id).1 && TrashRow(rows, id).1[id].base.deleted
    ensures FindByIdOrNull(TrashRow(rows, id).1, id) == TrashRow(rows, id).0
  {
  }

  /** The table after trashing `ids` one after the other, left to right. */
  function TrashAll<T>(rows: Table<T>, ids: seq<int>): Table<T>
    decreases |ids|
  {
    if ids == [] then rows
    else TrashRow(TrashAll(rows, ids[..|ids| - 1]), ids[|ids| - 1]).1
  }

  /** The per-id results of trashing `ids` one after the other, left to right. */
  function TrashResults<T>(rows: Table<T>, ids: seq<int>): seq<Option<Entity<T>>>
    decreases |ids|
  {
    if ids == [] then []
    else
      var prefix := ids[..|ids| - 1];
      TrashResults(rows, prefix) + [TrashRow(TrashAll(rows, prefix), ids[|ids| - 1]).0]
  }

  /** Trashing a list flags exactly the listed rows that exist and touches nothing else. */
  lemma {:induction false} TrashAllEffect<T>(rows: Table<T>, ids: seq<int>)
    ensures TrashAll(rows, ids).Keys == rows.Keys
    ensures forall k :: k in rows ==>
      TrashAll(rows, ids)[k] == if k in ids then MarkDeleted(rows[k]) else rows[k]
    decreases |ids|
  {
    if ids != [] {
      var prefix, last := ids[..|ids| - 1], ids[|ids| - 1];
      TrashAllEffect(rows, prefix);
      assert ids == prefix + [last];
      forall k | k in rows
        ensures TrashAll(rows, ids)[k] == if k in ids then MarkDeleted(rows[k]) else rows[k]
      {
        assert k in ids <==> k in prefix || k == last;
      }
    }
  }

  /** One result per id, in order: the trashed row for a stored id, nothing for an absent one. */
  lemma {:induction false} TrashResultsSpec<T>(rows: Table<T>, ids: seq<int>)
    ensures |TrashResults(rows, ids)| == |ids|
    ensures forall j :: 0 <= j < |ids| ==>
      TrashResults(rows, ids)[j] == if ids[j] in rows then Some(MarkDeleted(rows[ids[j]])) else None
    decreases |ids|
  {
    if ids != [] {
      var prefix, last := ids[..|ids| - 1], ids[|ids| - 1];
      TrashResultsSpec(rows, prefix);
      TrashAllEffect(rows, prefix);
    }
  }

  /** The rows with ids in [lo, hi) that satisfy `spec`, in ascending id order:
      `findAll` with a JPA specification, over a table listed in id order. */
  function Select<T>(rows: Table<T>, lo: int, hi: int, spec: Entity<T> -> bool): (r: seq<Entity<T>>)
    requires Keyed(rows)
    ensures forall i :: 0 <= i < |r| ==> IsStored(rows, r[i]) && lo <= r[i].base.id.value < hi && spec(r[i])
    ensures forall k :: k in rows && lo <= k < hi && spec(rows[k]) ==> rows[k] in r
    ensures InStoreOrder(r)
    decreases hi - lo
  {
    if hi <= lo then []
    else
      var k := hi - 1;
      Select(rows, lo, k, spec) + if k in rows && spec(rows[k]) then [rows[k]] else []
  }

  /** Rows at or above `hi` do not change a selection below `hi`. */
  lemma {:induction false} SelectBelow<T>(rows: Table<T>, rows': Table<T>, lo: int, hi: int, spec: Entity<T> -> bool)
    requires Keyed(rows) && Keyed(rows')
    requires forall k :: k < hi ==> (k in rows <==> k in rows')
    requires forall k :: k < hi && k in rows ==> rows[k] == rows'[k]
    ensures Select(rows, lo, hi, spec) == Select(rows', lo, hi, spec)
    decreases hi - lo
  {
    if lo < hi {
      SelectBelow(rows, rows', lo, hi - 1, spec);
    }
  }

  /** A row inserted above every stored id comes last in the full listing. */
  lemma SelectAppend<T>(rows: Table<T>, lo: int, n: int, e: Entity<T>)
    requires Keyed(rows) && lo <= n
    requires forall k :: k in rows ==> k < n
    requires e.base.id == Some(n)
    ensures Select(rows[n := e], lo, n + 1, _ => true) == Select(rows, lo, n, _ => true) + [e]
  {
    SelectBelow(rows, rows[n := e], lo, n, _ => true);
  }

  /** A table of one entity kind, kept by the database. */
  class BaseRepository<T> {
    var rows: Table<T>
    /** The id the database generates for the next inserted row. */
    var nextId: int

    ghost predicate Valid()
      reads this
    {
      && FirstId <= nextId
      && Keyed(rows)
      && forall k :: k in rows ==> FirstId <= k < nextId
    }

    constructor ()
      ensures Valid() && rows == map[] && nextId == FirstId
    {
      rows := map[];
      nextId := FirstId;
    }

    /** Every row, in store order, trashed ones included. */
    function FindAll(): (r: seq<Entity<T>>)
      reads this
      requires Valid()
      ensures forall i :: 0 <= i < |r| ==> IsStored(rows, r[i])
      ensures forall k :: k in rows ==> rows[k] in r
      ensures InStoreOrder(r)
    {
      Select(rows, FirstId, nextId, _ => true)
    }

    /** Every row that satisfies `spec`, in store order. */
    function FindAllBy(spec: Entity<T> -> bool): (r: seq<Entity<T>>)
      reads this
      requires Valid()
      ensures forall i :: 0 <= i < |r| ==> IsStored(rows, r[i]) && spec(r[i])
      ensures forall k :: k in rows && spec(rows[k]) ==> rows[k] in r
      ensures InStoreOrder(r)
    {
      Select(rows, FirstId, nextId, spec)
    }

    /** The lookup that ignores trashed rows. */
    function FindByIdAndDeletedFalse(id: int): (r: Option<Entity<T>>)
      reads this
      ensures r.Some? <==> id in rows && !rows[id].base.deleted
      ensures r.Some? ==> r.value == rows[id]
    {
      match FindByIdOrNull(rows, id)
      case None => None
      case Some(e) => if e.base.deleted then None else Some(e)
    }

    /** Exactly the rows that are not trashed, each once, in store order. */
    function FindAllNotDeleted(): (r: seq<Entity<T>>)
      reads this
      requires Valid()
      ensures forall i :: 0 <= i < |r| ==> IsStored(rows, r[i]) && !r[i].base.deleted
      ensures forall k :: k in rows && !rows[k].base.deleted ==> rows[k] in r
      ensures InStoreOrder(r)
    {
      FindAllBy(IsNotDeleted)
    }

    /** Persists `e`: a row whose id is stored is overwritten; any other row is
        inserted under the next generated id. */
    method Save(e: Entity<T>) returns (saved: Entity<T>)
      requires Valid()
      modifies this
      ensures Valid()
      ensures e.base.id.Some? && e.base.id.value in old(rows) ==>
        && saved == e
        && rows == old(rows)[e.base.id.value := e]
        && nextId == old(nextId)
      ensures !(e.base.id.Some? && e.base.id.value in old(rows)) ==>
        && saved == e.(base := e.base.(id := Some(old(nextId))))
        && rows == old(rows)[old(nextId) := saved]
        && nextId == old(nextId) + 1
        && FindAll() == old(FindAll()) + [saved]
    {
      if e.base.id.Some? && e.base.id.value in rows {
        saved := e;
        rows := rows[e.base.id.value := e];
      } else {
        saved := e.(base := e.base.(id := Some(nextId)));
        SelectAppend(rows, FirstId, nextId, saved);
        rows := rows[nextId := saved];
        nextId := nextId + 1;
      }
    }

    /** Flags the row `id` as deleted and saves it; an absent id gives nothing. */
    method Trash(id: int) returns (r: Option<Entity<T>>)
      requires Valid()
      modifies this
      ensures Valid()
      ensures (r, rows) == TrashRow(old(rows), id)
      ensures nextId == old(nextId)
      ensures r.Some? ==> id in rows && FindByIdAndDeletedFalse(id) == None
    {
      match FindByIdOrNull(rows, id)
      case None =>
        r := None;
      case Some(e) =>
        e := MarkDeleted(e);
        var saved := Save(e);
        r := Some(saved);
    }

    /** Trashes each id in turn and collects the results in the same order. */
    method TrashList(ids: seq<int>) returns (results: seq<Option<Entity<T>>>)
      requires Valid()
      modifies this
      ensures Valid()
      ensures rows == TrashAll(old(rows), ids)
      ensures results == TrashResults(old(rows), ids)
      ensures |results| == |ids|
      ensures nextId == old(nextId)
    {
      results := [];
      var i := 0;
      while i < |ids|
        invariant 0 <= i <= |ids|
        invariant Valid() && nextId == old(nextId)
        invariant rows == TrashAll(old(rows), ids[..i])
        invariant results == TrashResults(old(rows), ids[..i])
      {
        assert ids[..i + 1][..i] == ids[..i];
        var r := Trash(ids[i]);
        results := results + [r];
        i := i + 1;
      }
      assert ids[..i] == ids;
      TrashResultsSpec(old(rows), ids);
    }
  }

  /** In stock and not trashed: the filter both product queries share. */
  predicate Available(p: Entity<Product>) {
    p.fields.count > 0 && !p.base.deleted
  }

  /** Some name of the product is LIKE the keyword wrapped in `%`, both sides lower-cased. */
  predicate MatchesKeyword(name: LocalizedName, keyword: string) {
    var pattern := Lower("%" + keyword + "%");
    Like(Lower(name.uz), pattern) || Like(Lower(name.ru), pattern) || Like(Lower(name.en), pattern)
  }

  /** Some lower-cased name of the product contains the lower-cased keyword. */
  predicate NameContains(name: LocalizedName, keyword: string) {
    var k := Lower(keyword);
    Contains(Lower(name.uz), k) || Contains(Lower(name.ru), k) || Contains(Lower(name.en), k)
  }

  /** For a keyword without `%` or `_`, the LIKE test is a substring test. */
  lemma MatchesKeywordIsContainment(name: LocalizedName, keyword: string)
    requires NoWildcards(keyword)
    ensures MatchesKeyword(name, keyword) <==> NameContains(name, keyword)
  {
    LowerPattern(keyword);
    LikeContains(Lower(name.uz), Lower(keyword));
    LikeContains(Lower(name.ru), Lower(keyword));
    LikeContains(Lower(name.en), Lower(keyword));
  }

  /** The products in stock, not trashed, with a name matching `keyword`. */
  function SearchAvailableProducts(repo: BaseRepository<Product>, keyword: string): (r: seq<Entity<Product>>)
    reads repo
    requires repo.Valid()
    ensures forall p :: p in r <==> IsStored(repo.rows, p) && Available(p) && MatchesKeyword(p.fields.name, keyword)
    ensures forall p :: p in r ==> !p.base.deleted && p.fields.count > 0
    ensures NoWildcards(keyword) ==>
      forall p :: p in r <==> IsStored(repo.rows, p) && Available(p) && NameContains(p.fields.name, keyword)
  {
    var r := repo.FindAllBy(p => Available(p) && MatchesKeyword(p.fields.name, keyword));
    if NoWildcards(keyword) then
      assert forall p: Entity<Product> :: MatchesKeyword(p.fields.name, keyword) <==> NameContains(p.fields.name, keyword) by {
        forall p: Entity<Product> ensures MatchesKeyword(p.fields.name, keyword) <==> NameContains(p.fields.name, keyword) {
          MatchesKeywordIsContainment(p.fields.name, keyword);
        }
      }
      r
    else r
  }

  /** The products in stock, not trashed, that belong to category `categoryId`. */
  function FindAvailableProductsByCategory(repo: BaseRepository<Product>, categoryId: int): (r: seq<Entity<Product>>)
    reads repo
    requires repo.Valid()
    ensures forall p :: p in r <==> IsStored(repo.rows, p) && Available(p) && p.fields.categoryId == categoryId
    ensures forall p :: p in r ==> !p.base.deleted && p.fields.count > 0
  {
    repo.FindAllBy(p => Available(p) && p.fields.categoryId == categoryId)
  }
}
