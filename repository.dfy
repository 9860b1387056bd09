/** The article store behind the ArticleRepository interface, as an in-memory table. SQL, row
    scanning and timestamp formatting are not modelled; what is kept is which operations succeed,
    what they change, and the text of the errors the handlers classify. */
module Repository {
  import opened Wrappers
  import opened GoInts
  import opened Proto

  /** The repository operations, by kind. */
  datatype Operation = GetByIDOp | CreateOp | UpdateOp | DeleteOp | ListByUserOp | ListAllOp

  datatype RepoError = RepoError(message: string)

  /** The driver's text for a query that returned no row. */
  const NoRowsText: string := "no rows in result set"
  const QueryArticleFailed: string := "query article failed: "
  const CreateArticleFailed: string := "create article failed: "
  const UpdateArticleFailed: string := "update article failed: "
  const DeleteArticleFailed: string := "Delete article failded: "
  const QueryArticlesFailed: string := "query articles failed: "

  function Min(a: int, b: int): (m: int) { if a <= b then a else b }
  function Max(a: int, b: int): (m: int) { if a >= b then a else b }

  /** A listing row matches the filter: every row without a filter, the author's rows with one. */
  predicate Matches(a: Article, filter: Option<int32>) {
    filter.None? || a.userId == filter.value
  }

  /** The articles with the given ids, in the order of the ids, that match the filter. */
  function Select(ids: seq<int32>, table: map<int32, Article>, filter: Option<int32>): (rows: seq<Article>)
    requires forall i :: 0 <= i < |ids| ==> ids[i] in table
    ensures |rows| <= |ids|
    ensures forall k :: 0 <= k < |rows| ==> rows[k] in table.Values && Matches(rows[k], filter)
  {
    if |ids| == 0 then []
    else
      var a := table[ids[0]];
      var rest := Select(ids[1..], table, filter);
      if Matches(a, filter) then [a] + rest else rest
  }

  /** Without a filter every id gives its row, in order. */
  lemma {:induction false} SelectAll(ids: seq<int32>, table: map<int32, Article>)
    requires forall i :: 0 <= i < |ids| ==> ids[i] in table
    ensures |Select(ids, table, None)| == |ids|
    ensures forall k :: 0 <= k < |ids| ==> Select(ids, table, None)[k] == table[ids[k]]
  {
    if |ids| > 0 {
      SelectAll(ids[1..], table);
    }
  }

  /** Every article listed under an id that matches the filter is in the selection. */
  lemma {:induction false} SelectComplete(ids: seq<int32>, table: map<int32, Article>, filter: Option<int32>, i: int)
    requires forall j :: 0 <= j < |ids| ==> ids[j] in table
    requires 0 <= i < |ids| && Matches(table[ids[i]], filter)
    ensures table[ids[i]] in Select(ids, table, filter)
  {
    if i > 0 {
      SelectComplete(ids[1..], table, filter, i - 1);
    }
  }

  /** The ids in ids that name a stored article matching the filter: what COUNT(*) counts. */
  function MatchingIds(ids: seq<int32>, table: map<int32, Article>, filter: Option<int32>): (matching: set<int32>) {
    set id | id in ids && id in table && Matches(table[id], filter)
  }

  /** The tail of a list of distinct ids naming their own rows is one too, and does not hold
      the head. */
  lemma TailDistinct(ids: seq<int32>, table: map<int32, Article>)
    requires |ids| > 0
    requires forall i :: 0 <= i < |ids| ==> ids[i] in table && table[ids[i]].id == ids[i]
    requires forall i, j :: 0 <= i < j < |ids| ==> ids[i] != ids[j]
    ensures forall i :: 0 <= i < |ids[1..]| ==> ids[1..][i] in table && table[ids[1..][i]].id == ids[1..][i]
    ensures forall i, j :: 0 <= i < j < |ids[1..]| ==> ids[1..][i] != ids[1..][j]
    ensures ids[0] !in ids[1..]
  {
    forall k | 0 <= k < |ids[1..]| ensures ids[1..][k] != ids[0] {
      assert ids[1..][k] == ids[k + 1];
    }
  }

  /** Over distinct ids naming their own rows, the selection lists each article once. */
  lemma {:induction false} SelectDistinct(ids: seq<int32>, table: map<int32, Article>, filter: Option<int32>)
    requires forall i :: 0 <= i < |ids| ==> ids[i] in table && table[ids[i]].id == ids[i]
    requires forall i, j :: 0 <= i < j < |ids| ==> ids[i] != ids[j]
    ensures forall k :: 0 <= k < |Select(ids, table, filter)| ==> Select(ids, table, filter)[k].id in ids
    ensures forall k, l :: 0 <= k < l < |Select(ids, table, filter)| ==>
              Select(ids, table, filter)[k] != Select(ids, table, filter)[l]
  {
    if |ids| > 0 {
      TailDistinct(ids, table);
      SelectDistinct(ids[1..], table, filter);
      var rows, rest := Select(ids, table, filter), Select(ids[1..], table, filter);
      if Matches(table[ids[0]], filter) {
        assert rows == [table[ids[0]]] + rest;
        forall k | 0 < k < |rows| ensures rows[k].id != ids[0] && rows[k].id in ids {
          assert rows[k] == rest[k - 1];
        }
      } else {
        assert rows == rest;
      }
    }
  }

  /** Over distinct ids, the selection has one row per matching id. */
  lemma {:induction false} SelectCount(ids: seq<int32>, table: map<int32, Article>, filter: Option<int32>)
    requires forall i :: 0 <= i < |ids| ==> ids[i] in table && table[ids[i]].id == ids[i]
    requires forall i, j :: 0 <= i < j < |ids| ==> ids[i] != ids[j]
    ensures |Select(ids, table, filter)| == |MatchingIds(ids, table, filter)|
  {
    if |ids| == 0 {
      assert MatchingIds(ids, table, filter) == {};
    } else {
      var h, t := ids[0], ids[1..];
      TailDistinct(ids, table);
      SelectCount(t, table, filter);
      var mine: set<int32> := if Matches(table[h], filter) then {h} else {};
      assert MatchingIds(ids, table, filter) == mine + MatchingIds(t, table, filter) by {
        assert forall id :: id in ids <==> id == h || id in t;
      }
      assert h !in MatchingIds(t, table, filter);
    }
  }

  /** The rows of one page: at most limit rows, starting at offset. */
  function Window(rows: seq<Article>, limit: nat, offset: nat): (w: seq<Article>)
    ensures |w| == Min(limit, Max(0, |rows| - offset))
    ensures forall k :: 0 <= k < |w| ==> w[k] == rows[offset + k]
  {
    if offset >= |rows| then [] else rows[offset..Min(|rows|, offset + limit)]
  }

  /** The ids without id, the others in their order. */
  function RemoveId(ids: seq<int32>, id: int32): (r: seq<int32>)
    ensures forall x :: x in r <==> x in ids && x != id
    ensures id !in ids ==> r == ids
    ensures |r| <= |ids|
    ensures (forall i, j :: 0 <= i < j < |ids| ==> ids[i] != ids[j]) ==>
              (forall i, j :: 0 <= i < j < |r| ==> r[i] != r[j])
  {
    if |ids| == 0 then []
    else if ids[0] == id then RemoveId(ids[1..], id)
    else
      var rest := RemoveId(ids[1..], id);
      assert (forall i, j :: 0 <= i < j < |ids| ==> ids[i] != ids[j]) ==> ids[0] !in ids[1..] by {
        if forall i, j :: 0 <= i < j < |ids| ==> ids[i] != ids[j] {
          forall k | 0 <= k < |ids[1..]| ensures ids[1..][k] != ids[0] {
            assert ids[1..][k] == ids[k + 1];
          }
        }
      }
      [ids[0]] + rest
  }

  /** Removing an id that occurs once, at k, leaves the ids before and after it in their order. */
  lemma {:induction false} RemoveIdKeepsOrder(ids: seq<int32>, id: int32, k: int)
    requires 0 <= k < |ids| && ids[k] == id
    requires id !in ids[..k] && id !in ids[k + 1..]
    ensures RemoveId(ids, id) == ids[..k] + ids[k + 1..]
  {
    if k > 0 {
      assert ids[0] in ids[..k];
      assert ids[1..][..k - 1] == ids[1..k];
      assert ids[1..][k..] == ids[k + 1..];
      RemoveIdKeepsOrder(ids[1..], id, k - 1);
      assert ids[..k] == [ids[0]] + ids[1..k];
    }
  }

  class ArticleStore {
    /** The table, by id. */
    var articles: map<int32, Article>
    /** The order in which listings return rows: newest first, as ORDER BY created_at DESC does. */
    var order: seq<int32>
    /** The next value of the id sequence; ids are never reused. */
    var nextId: int
    /** Operations that currently fail at the driver, with the driver's error text. */
    var faults: map<Operation, string>

    ghost predicate Valid()
      reads this
    {
      && 1 <= nextId <= MaxInt32 + 1
      && |order| < nextId
      && (forall i, j :: 0 <= i < j < |order| ==> order[i] != order[j])
      && (forall i :: 0 <= i < |order| ==> order[i] in articles)
      && (forall id :: id in articles ==> id in order)
      && (forall id :: id in articles ==> articles[id].id == id && 0 < id < nextId)
    }

    constructor ()
      ensures Valid()
      ensures articles == map[] && order == [] && nextId == 1 && faults == map[]
    {
      articles, order, nextId, faults := map[], [], 1, map[];
    }

    /** The stored article, a "no rows" error when there is none, or the driver's error. */
    function GetByID(id: int32): (r: Result<Article, RepoError>)
      reads this
      ensures r.Ok? <==> GetByIDOp !in faults && id in articles
      ensures r.Ok? ==> r.value == articles[id]
      ensures GetByIDOp !in faults && id !in articles ==> r == Err(RepoError(QueryArticleFailed + NoRowsText))
      ensures GetByIDOp in faults ==> r == Err(RepoError(QueryArticleFailed + faults[GetByIDOp]))
    {
      if GetByIDOp in faults then Err(RepoError(QueryArticleFailed + faults[GetByIDOp]))
      else if id in articles then Ok(articles[id])
      else Err(RepoError(QueryArticleFailed + NoRowsText))
    }

    /** Create succeeds unless the driver fails or the id sequence is exhausted. */
    predicate CanCreate()
      reads this
    {
      CreateOp !in faults && nextId <= MaxInt32
    }

    /** Inserts a new article under the next id, created and updated at now. */
    method Create(title: string, content: string, userId: int32, now: string) returns (r: Result<Article, RepoError>)
      requires Valid()
      modifies this
      ensures Valid() && faults == old(faults)
      ensures r.Ok? <==> old(CanCreate())
      ensures r.Ok? ==>
                && r.value == Article(old(nextId), title, content, userId, now, now)
                && r.value.id !in old(articles)
                && articles == old(articles)[r.value.id := r.value]
                && order == [r.value.id] + old(order)
                && nextId == old(nextId) + 1
      ensures r.Err? ==> unchanged(this)
    {
      if CreateOp in faults {
        return Err(RepoError(CreateArticleFailed + faults[CreateOp]));
      }
      if nextId > MaxInt32 {
        return Err(RepoError(CreateArticleFailed + "nextval: reached maximum value of sequence"));
      }
      var a := Article(nextId, title, content, userId, now, now);
      articles := articles[a.id := a];
      order := [a.id] + order;
      nextId := nextId + 1;
      r := Ok(a);
    }

    /** Sets the title and content of an existing article and stamps it updated at now. */
    method Update(id: int32, title: string, content: string, now: string) returns (r: Result<Article, RepoError>)
      requires Valid()
      modifies this
      ensures Valid()
      ensures order == old(order) && nextId == old(nextId) && faults == old(faults)
      ensures r.Ok? <==> UpdateOp !in old(faults) && id in old(articles)
      ensures r.Ok? ==>
                && r.value == old(articles[id]).(title := title, content := content, updatedAt := now)
                && articles == old(articles)[id := r.value]
      ensures r.Err? ==> unchanged(this)
    {
      if UpdateOp in faults {
        return Err(RepoError(UpdateArticleFailed + faults[UpdateOp]));
      }
      if id !in articles {
        return Err(RepoError(UpdateArticleFailed + NoRowsText));
      }
      var a := articles[id].(title := title, content := content, updatedAt := now);
      articles := articles[id := a];
      r := Ok(a);
    }

    /** Removes an article; deleting no row is an error that does not mention "no rows". */
    method Delete(id: int32) returns (r: Result<(), RepoError>)
      requires Valid()
      modifies this
      ensures Valid()
      ensures nextId == old(nextId) && faults == old(faults)
      ensures r.Ok? <==> DeleteOp !in old(faults) && id in old(articles)
      ensures r.Ok? ==> articles == old(articles) - {id} && order == RemoveId(old(order), id)
      ensures r.Err? ==> unchanged(this)
      ensures r.Err? && DeleteOp !in old(faults) ==>
                r.error.message == "article with ID " + DecimalString(id) + " not found"
    {
      if DeleteOp in faults {
        return Err(RepoError(DeleteArticleFailed + faults[DeleteOp]));
      }
      if id !in articles {
        return Err(RepoError("article with ID " + DecimalString(id) + " not found"));
      }
      articles := articles - {id};
      order := RemoveId(order, id);
      forall i | 0 <= i < |order| ensures order[i] in articles {
        assert order[i] in order;
      }
      r := Ok(());
    }

    /** Every stored article matching the filter, in listing order. */
    function Listing(filter: Option<int32>): (rows: seq<Article>)
      reads this
      requires Valid()
      ensures |rows| <= |order| <= MaxInt32
      ensures forall k :: 0 <= k < |rows| ==> rows[k] in articles.Values && Matches(rows[k], filter)
      ensures forall id :: id in articles && Matches(articles[id], filter) ==> articles[id] in rows
      ensures forall k, l :: 0 <= k < l < |rows| ==> rows[k] != rows[l]
      ensures |rows| == |set id | id in articles && Matches(articles[id], filter)|
    {
      var rows := Select(order, articles, filter);
      SelectDistinct(order, articles, filter);
      SelectCount(order, articles, filter);
      assert MatchingIds(order, articles, filter) == set id | id in articles && Matches(articles[id], filter);
      forall id | id in articles && Matches(articles[id], filter)
        ensures articles[id] in rows
      {
        var i :| 0 <= i < |order| && order[i] == id;
        SelectComplete(order, articles, filter, i);
      }
      rows
    }

    /** One page of the filtered listing and the number of matching rows. A negative limit or
        offset is an error the database raises while running the page query; the repository
        never asks the rows for that error, so it sees no rows and still reports the count. */
    function List(op: Operation, filter: Option<int32>, limit: int32, offset: int64)
      : (r: Result<(seq<Article>, int32), RepoError>)
      reads this
      requires Valid()
      ensures r.Ok? <==> op !in faults
      ensures r.Err? ==> r.error.message == QueryArticlesFailed + faults[op]
      ensures r.Ok? ==> r.value.1 == |Listing(filter)|
      ensures r.Ok? && limit >= 0 && offset >= 0 ==> r.value.0 == Window(Listing(filter), limit, offset)
      ensures r.Ok? && (limit < 0 || offset < 0) ==> r.value.0 == []
    {
      if op in faults then Err(RepoError(QueryArticlesFailed + faults[op]))
      else
        var all := Listing(filter);
        var page := if limit < 0 || offset < 0 then [] else Window(all, limit, offset);
        Ok((page, |all|))
    }

    /** The author's articles, one page of them, and how many the author has. */
    function ListByUser(userId: int32, limit: int32, offset: int64): (r: Result<(seq<Article>, int32), RepoError>)
      reads this
      requires Valid()
      ensures r.Ok? <==> ListByUserOp !in faults
      ensures r.Ok? ==> r.value.1 == |Listing(Some(userId))|
      ensures r.Ok? && limit >= 0 && offset >= 0 ==>
                && |r.value.0| == Min(limit, Max(0, r.value.1 - offset))
                && forall k :: 0 <= k < |r.value.0| ==>
                     r.value.0[k] == Listing(Some(userId))[offset + k] && r.value.0[k].userId == userId
      ensures r.Ok? && (limit < 0 || offset < 0) ==> r.value.0 == []
    {
      List(ListByUserOp, Some(userId), limit, offset)
    }

    /** The total ListByUser reports is what `COUNT(*) ... WHERE user_id` counts: the stored
        articles of that author, each once. */
    lemma ListByUserCountsAuthor(userId: int32, limit: int32, offset: int64)
      requires Valid()
      ensures ListByUser(userId, limit, offset).Ok? ==>
                ListByUser(userId, limit, offset).value.1 == |set id | id in articles && articles[id].userId == userId|
    {
      assert (set id | id in articles && Matches(articles[id], Some(userId)))
          == set id | id in articles && articles[id].userId == userId;
    }

    /** One page of all articles, and how many there are. */
    function ListAll(limit: int32, offset: int64): (r: Result<(seq<Article>, int32), RepoError>)
      reads this
      requires Valid()
      ensures r.Ok? <==> ListAllOp !in faults
      ensures r.Ok? ==> r.value.1 == |articles| == |order|
      ensures r.Ok? && limit >= 0 && offset >= 0 ==>
                && |r.value.0| == Min(limit, Max(0, r.value.1 - offset))
                && forall k :: 0 <= k < |r.value.0| ==> r.value.0[k] == articles[order[offset + k]]
      ensures r.Ok? && (limit < 0 || offset < 0) ==> r.value.0 == []
    {
      SelectAll(order, articles);
      DistinctCovering(order, articles);
      List(ListAllOp, None, limit, offset)
    }
  }

  /** A table whose keys are listed exactly once each has as many entries as the list. */
  lemma {:induction false} DistinctCovering(ids: seq<int32>, table: map<int32, Article>)
    requires forall i, j :: 0 <= i < j < |ids| ==> ids[i] != ids[j]
    requires forall i :: 0 <= i < |ids| ==> ids[i] in table
    requires forall id :: id in table ==> id in ids
    ensures |table| == |ids|
  {
    if |ids| == 0 {
      assert table.Keys == {};
    } else {
      var rest := table - {ids[0]};
      forall id | id in rest ensures id in ids[1..] {
        var i :| 0 <= i < |ids| && ids[i] == id;
        assert i != 0;
      }
      forall i | 0 <= i < |ids[1..]| ensures ids[1..][i] in rest {
        assert ids[1..][i] == ids[i + 1] != ids[0];
      }
      DistinctCovering(ids[1..], rest);
      assert table.Keys == rest.Keys + {ids[0]};
    }
  }
}
