/** The listing route of routes/todos.js as a pure computation over the stored
    records: build the filter, select the matches, sort them newest first, cut out
    one page and report the pagination totals. */
module TodoQuery {
  import opened TodoModel

  type Positive = n: nat | n >= 1 witness 1

  const DefaultPage: Positive := 1
  const DefaultLimit: Positive := 10

  /** The query string of a listing request; every parameter may be missing. */
  datatype Query = Query(
    completed: Option<string>,
    priority: Option<string>,
    page: Option<Positive>,
    limit: Option<Positive>)

  /** The database filter. The owner is always part of it. */
  datatype Filter = Filter(owner: UserId, completed: Option<bool>, priority: Option<string>)

  /** `completed` is compared with the text "true"; `priority` is used only when it
      is a non-empty string. */
  function BuildFilter(user: UserId, q: Query): (f: Filter)
    ensures f.owner == user
    ensures f.completed.Some? <==> q.completed.Some?
    ensures q.completed.Some? ==> (f.completed.value <==> q.completed.value == "true")
    ensures f.priority.Some? <==> (q.priority.Some? && q.priority.value != "")
    ensures f.priority.Some? ==> f.priority.value == q.priority.value
  {
    Filter(user,
           if q.completed.Some? then Some(q.completed.value == "true") else None,
           if q.priority.Some? && q.priority.value != "" then q.priority else None)
  }

  /** Exact match on each field the filter holds. */
  predicate Matches(f: Filter, t: Todo) {
    && t.userId == f.owner
    && (f.completed.Some? ==> t.completed == f.completed.value)
    && (f.priority.Some? ==> t.priority == Some(f.priority.value))
  }

  /** The matching records, each as often as it is stored, in store order. */
  function Select(s: seq<Todo>, f: Filter): (r: seq<Todo>)
    ensures |r| <= |s|
    ensures forall t :: multiset(r)[t] == if Matches(f, t) then multiset(s)[t] else 0
  {
    if s == [] then []
    else
      var rest := Select(s[1..], f);
      assert s == [s[0]] + s[1..];
      if Matches(f, s[0]) then [s[0]] + rest else rest
  }

  lemma SelectMembers(s: seq<Todo>, f: Filter)
    ensures forall t :: t in Select(s, f) <==> t in s && Matches(f, t)
  {
    forall t ensures t in Select(s, f) <==> t in s && Matches(f, t) {
      assert t in Select(s, f) <==> multiset(Select(s, f))[t] > 0;
      assert t in s <==> multiset(s)[t] > 0;
    }
  }

  /** Newest first: `sort: { createdAt: -1 }`. */
  predicate SortedDesc(s: seq<Todo>) {
    forall i, j :: 0 <= i < j < |s| ==> s[i].createdAt >= s[j].createdAt
  }

  /** Puts `t` in front of the first entry that is not newer than it. */
  function Insert(t: Todo, s: seq<Todo>): (r: seq<Todo>)
    ensures multiset(r) == multiset(s) + multiset{t}
    ensures r[0] == t || (s != [] && r[0] == s[0])
  {
    if s == [] then [t]
    else if t.createdAt >= s[0].createdAt then [t] + s
    else
      var rest := Insert(t, s[1..]);
      assert s == [s[0]] + s[1..];
      [s[0]] + rest
  }

  /** Inserting into a newest-first sequence keeps it newest first. */
  lemma {:induction false} InsertSorted(t: Todo, s: seq<Todo>)
    requires SortedDesc(s)
    ensures SortedDesc(Insert(t, s))
  {
    if s == [] {
    } else if t.createdAt >= s[0].createdAt {
      SortedCons(t, s);
    } else {
      InsertSorted(t, s[1..]);
      SortedCons(s[0], Insert(t, s[1..]));
    }
  }

  lemma SortedCons(x: Todo, s: seq<Todo>)
    requires SortedDesc(s)
    requires s != [] ==> x.createdAt >= s[0].createdAt
    ensures SortedDesc([x] + s)
  {
    var r := [x] + s;
    forall i, j | 0 <= i < j < |r| ensures r[i].createdAt >= r[j].createdAt {
      if i == 0 && j > 1 {
        assert r[j] == s[j - 1];
      }
    }
  }

  function SortByCreatedDesc(s: seq<Todo>): (r: seq<Todo>)
    ensures SortedDesc(r)
    ensures multiset(r) == multiset(s)
  {
    if s == [] then []
    else
      assert s == [s[0]] + s[1..];
      InsertSorted(s[0], SortByCreatedDesc(s[1..]));
      Insert(s[0], SortByCreatedDesc(s[1..]))
  }

  /** The number of entries the page skips: `(page - 1) * limit`. */
  function Skip(page: Positive, limit: Positive): nat {
    (page - 1) * limit
  }

  /** At most `limit` entries of `s`, starting after the skipped ones. */
  function PageOf(s: seq<Todo>, page: Positive, limit: Positive): (r: seq<Todo>)
    ensures |r| <= limit
    ensures Skip(page, limit) >= |s| ==> r == []
    ensures Skip(page, limit) < |s| ==> |r| == if |s| - Skip(page, limit) < limit then |s| - Skip(page, limit) else limit
    ensures forall k :: 0 <= k < |r| ==> Skip(page, limit) + k < |s| && r[k] == s[Skip(page, limit) + k]
  {
    var skip := Skip(page, limit);
    if skip >= |s| then []
    else s[skip .. if skip + limit <= |s| then skip + limit else |s|]
  }

  /** `Math.ceil(total / limit)` in integers. */
  function PageCount(total: nat, limit: Positive): (r: nat)
    ensures r * limit >= total
    ensures r > 0 ==> (r - 1) * limit < total
    ensures r == 0 <==> total == 0
  {
    var r := (total + limit - 1) / limit;
    assert limit * r + (total + limit - 1) % limit == total + limit - 1;
    assert r * limit == limit * r;
    assert (r - 1) * limit == r * limit - limit;
    r
  }

  datatype Pagination = Pagination(current: Positive, total: nat, count: nat, totalTodos: nat)

  datatype Listing = Listing(todos: seq<Todo>, pagination: Pagination)

  /** The records a listing request matches, newest first, before paging. */
  function Matching(s: seq<Todo>, user: UserId, q: Query): seq<Todo> {
    SortByCreatedDesc(Select(s, BuildFilter(user, q)))
  }

  function PageParam(q: Query): Positive {
    if q.page.Some? then q.page.value else DefaultPage
  }

  function LimitParam(q: Query): Positive {
    if q.limit.Some? then q.limit.value else DefaultLimit
  }

  /** The response of `GET /api/todos`: one page of the matches and the pagination block. */
  function List(s: seq<Todo>, user: UserId, q: Query): (r: Listing)
    ensures r.pagination.current == PageParam(q)
    ensures r.pagination.count == |r.todos| <= LimitParam(q)
    ensures forall t :: t in r.todos ==> t in s && Matches(BuildFilter(user, q), t)
  {
    var all := Matching(s, user, q);
    var page, limit := PageParam(q), LimitParam(q);
    var items := PageOf(all, page, limit);
    MatchingMembers(s, user, q);
    assert forall t :: t in items ==> t in all;
    Listing(items, Pagination(page, PageCount(|all|, limit), |items|, |all|))
  }

  /** A record matches a listing request exactly when it is the caller's, its `completed`
      equals the comparison of the parameter with "true" when that is given, and its
      priority is the parameter when that is a non-empty string. */
  lemma MatchesQuery(user: UserId, q: Query, t: Todo)
    ensures Matches(BuildFilter(user, q), t) <==>
      && t.userId == user
      && (q.completed.Some? ==> t.completed == (q.completed.value == "true"))
      && (q.priority.Some? && q.priority.value != "" ==> t.priority == q.priority)
  {
  }

  /** Without `page` and `limit` the listing is the first ten matches, newest first. */
  lemma ListDefaults(s: seq<Todo>, user: UserId, completed: Option<string>, priority: Option<string>)
    ensures var q := Query(completed, priority, None, None);
      var all := Matching(s, user, q);
      && List(s, user, q).pagination.current == 1
      && List(s, user, q).todos == all[..if |all| < 10 then |all| else 10]
  {
    var q := Query(completed, priority, None, None);
    var all := Matching(s, user, q);
    var n := if |all| < 10 then |all| else 10;
    assert Skip(PageParam(q), LimitParam(q)) == 0;
    assert |PageOf(all, 1, 10)| == n;
  }

  /** A slice of a sorted sequence is sorted. */
  lemma PageOfSorted(s: seq<Todo>, page: Positive, limit: Positive)
    requires SortedDesc(s)
    ensures SortedDesc(PageOf(s, page, limit))
  {
    var r := PageOf(s, page, limit);
    var skip := Skip(page, limit);
    forall i, j | 0 <= i < j < |r| ensures r[i].createdAt >= r[j].createdAt {
      assert r[i] == s[skip + i] && r[j] == s[skip + j];
    }
  }

  lemma MulMonotone(a: nat, b: nat, c: nat)
    requires a <= b
    ensures a * c <= b * c
  {
  }

  /** A page is empty exactly when it lies beyond the last of `PageCount` pages. */
  lemma PageOfEmptyIff(s: seq<Todo>, page: Positive, limit: Positive)
    ensures PageOf(s, page, limit) == [] <==> page > PageCount(|s|, limit)
  {
    var total := PageCount(|s|, limit);
    var before: nat := page - 1;
    if page > total {
      MulMonotone(total, before, limit);
    } else {
      MulMonotone(before, total - 1, limit);
    }
  }

  /** Paging loses nothing: entry `i` is on page `i / limit + 1`, at position `i % limit`. */
  lemma PageOfCovers(s: seq<Todo>, limit: Positive, i: nat)
    requires i < |s|
    ensures var page: Positive := i / limit + 1;
      && page <= PageCount(|s|, limit)
      && i % limit < |PageOf(s, page, limit)|
      && PageOf(s, page, limit)[i % limit] == s[i]
  {
    var page: Positive := i / limit + 1;
    assert i == limit * (i / limit) + i % limit;
    assert Skip(page, limit) == (i / limit) * limit;
    PageOfEmptyIff(s, page, limit);
  }

  lemma MatchingMembers(s: seq<Todo>, user: UserId, q: Query)
    ensures forall t :: t in Matching(s, user, q) <==> t in s && Matches(BuildFilter(user, q), t)
    ensures |Matching(s, user, q)| == |Select(s, BuildFilter(user, q))|
  {
    var sel := Select(s, BuildFilter(user, q));
    SelectMembers(s, BuildFilter(user, q));
    var all := SortByCreatedDesc(sel);
    assert forall t :: t in all <==> t in multiset(all);
    assert forall t :: t in sel <==> t in multiset(sel);
    assert |all| == |multiset(all)| == |multiset(sel)| == |sel|;
  }

  /** Every listed record is a stored record of the caller that satisfies both optional filters. */
  lemma ListOnlyMatches(s: seq<Todo>, user: UserId, q: Query)
    ensures forall t :: t in List(s, user, q).todos ==>
      && t in s
      && t.userId == user
      && (q.completed.Some? ==> t.completed == (q.completed.value == "true"))
      && (q.priority.Some? && q.priority.value != "" ==> t.priority == q.priority)
  {
    var all := Matching(s, user, q);
    var items := List(s, user, q).todos;
    MatchingMembers(s, user, q);
    forall t | t in items ensures t in all {
      var k :| 0 <= k < |items| && items[k] == t;
    }
  }

  /** The page is sorted newest first and is the slice of the sorted matches that
      starts at `(page - 1) * limit`. */
  lemma ListIsSortedSlice(s: seq<Todo>, user: UserId, q: Query)
    ensures SortedDesc(List(s, user, q).todos)
    ensures var all := Matching(s, user, q);
      forall k :: 0 <= k < |List(s, user, q).todos| ==>
        List(s, user, q).todos[k] == all[Skip(PageParam(q), LimitParam(q)) + k]
  {
    PageOfSorted(Matching(s, user, q), PageParam(q), LimitParam(q));
  }

  /** The pagination block: `count` is the page length and at most `limit`, `totalTodos`
      the number of matches, `total` the ceiling of `totalTodos / limit`. */
  lemma ListPagination(s: seq<Todo>, user: UserId, q: Query)
    ensures var p := List(s, user, q).pagination;
      && p.current == PageParam(q)
      && p.count == |List(s, user, q).todos| <= LimitParam(q)
      && p.totalTodos == |Select(s, BuildFilter(user, q))|
      && p.total * LimitParam(q) >= p.totalTodos
      && (p.total > 0 ==> (p.total - 1) * LimitParam(q) < p.totalTodos)
  {
    MatchingMembers(s, user, q);
  }

  /** A page of the listing is empty exactly when it lies beyond the last page. */
  lemma ListEmptyBeyondLastPage(s: seq<Todo>, user: UserId, q: Query)
    ensures List(s, user, q).todos == [] <==> PageParam(q) > List(s, user, q).pagination.total
  {
    PageOfEmptyIff(Matching(s, user, q), PageParam(q), LimitParam(q));
  }

  /** The totals do not depend on the page asked for. */
  lemma ListTotalsIgnorePage(s: seq<Todo>, user: UserId, q: Query, page: Positive)
    ensures var p := List(s, user, q).pagination;
      var p' := List(s, user, q.(page := Some(page))).pagination;
      p'.total == p.total && p'.totalTodos == p.totalTodos
  {
  }

  /** Every match is listed: the page whose window `[(page - 1) * limit, page * limit)`
      holds index `i` of the sorted matches lists that match, and lies within the
      reported page count. */
  lemma ListCoversEveryMatch(s: seq<Todo>, user: UserId, q: Query, i: nat)
    requires i < |Matching(s, user, q)|
    requires Skip(PageParam(q), LimitParam(q)) <= i < Skip(PageParam(q), LimitParam(q)) + LimitParam(q)
    ensures PageParam(q) <= List(s, user, q).pagination.total
    ensures i - Skip(PageParam(q), LimitParam(q)) < |List(s, user, q).todos|
    ensures List(s, user, q).todos[i - Skip(PageParam(q), LimitParam(q))] == Matching(s, user, q)[i]
  {
    PageOfEmptyIff(Matching(s, user, q), PageParam(q), LimitParam(q));
  }

  /** The sequence in the opposite order. */
  function Reverse(s: seq<Todo>): (r: seq<Todo>)
    ensures |r| == |s|
    ensures forall i :: 0 <= i < |s| ==> r[i] == s[|s| - 1 - i]
  {
    if s == [] then [] else Reverse(s[1..]) + [s[0]]
  }

  /** Newest first with no two records on the same stamp. */
  predicate StrictlyNewestFirst(s: seq<Todo>) {
    forall i, j :: 0 <= i < j < |s| ==> s[i].createdAt > s[j].createdAt
  }

  /** A record older than every entry of a table in creation order can go in front. */
  lemma OrderedCons(x: Todo, u: seq<Todo>)
    requires CreationOrdered(u)
    requires forall y :: y in u ==> x.createdAt < y.createdAt
    ensures CreationOrdered([x] + u)
  {
    var r := [x] + u;
    forall i, j | 0 <= i < j < |r| ensures r[i].createdAt < r[j].createdAt {
      assert r[j] == u[j - 1];
      if i > 0 {
        assert r[i] == u[i - 1];
      }
    }
  }

  /** Selecting from a table kept in creation order keeps creation order. */
  lemma {:induction false} SelectKeepsOrder(s: seq<Todo>, f: Filter)
    requires CreationOrdered(s)
    ensures CreationOrdered(Select(s, f))
  {
    if s != [] {
      var rest := Select(s[1..], f);
      SelectKeepsOrder(s[1..], f);
      if Matches(f, s[0]) {
        assert Select(s, f) == [s[0]] + rest;
        SelectMembers(s[1..], f);
        forall y | y in rest ensures s[0].createdAt < y.createdAt {
          var i :| 0 <= i < |s[1..]| && s[1..][i] == y;
          assert y == s[i + 1];
        }
        OrderedCons(s[0], rest);
      } else {
        assert Select(s, f) == rest;
      }
    }
  }

  /** A record older than every entry goes to the end. */
  lemma {:induction false} InsertOldest(t: Todo, u: seq<Todo>)
    requires forall i :: 0 <= i < |u| ==> t.createdAt < u[i].createdAt
    ensures Insert(t, u) == u + [t]
  {
    if u != [] {
      assert t.createdAt < u[0].createdAt;
      InsertOldest(t, u[1..]);
      assert u == [u[0]] + u[1..];
    }
  }

  /** Sorting a table kept in creation order reverses it. */
  lemma {:induction false} SortOrderedIsReverse(s: seq<Todo>)
    requires CreationOrdered(s)
    ensures SortByCreatedDesc(s) == Reverse(s)
  {
    if s != [] {
      var tail := s[1..];
      forall i, j | 0 <= i < j < |tail| ensures tail[i].createdAt < tail[j].createdAt {
        assert tail[i] == s[i + 1] && tail[j] == s[j + 1];
      }
      SortOrderedIsReverse(tail);
      var rest := Reverse(tail);
      forall i | 0 <= i < |rest| ensures s[0].createdAt < rest[i].createdAt {
        assert rest[i] == s[|tail| - i];
      }
      InsertOldest(s[0], rest);
      assert SortByCreatedDesc(s) == Insert(s[0], SortByCreatedDesc(tail));
      assert Reverse(s) == rest + [s[0]];
    }
  }

  /** Reversing a table kept in creation order gives a strictly newest-first sequence. */
  lemma ReverseOrderedIsStrict(s: seq<Todo>)
    requires CreationOrdered(s)
    ensures StrictlyNewestFirst(Reverse(s))
  {
    var r := Reverse(s);
    forall i, j | 0 <= i < j < |r| ensures r[i].createdAt > r[j].createdAt {
      assert r[i] == s[|s| - 1 - i] && r[j] == s[|s| - 1 - j];
    }
  }

  /** A page of a strictly newest-first sequence is strictly newest first. */
  lemma PageOfStrict(s: seq<Todo>, page: Positive, limit: Positive)
    requires StrictlyNewestFirst(s)
    ensures StrictlyNewestFirst(PageOf(s, page, limit))
  {
    var r := PageOf(s, page, limit);
    var skip := Skip(page, limit);
    forall i, j | 0 <= i < j < |r| ensures r[i].createdAt > r[j].createdAt {
      assert r[i] == s[skip + i] && r[j] == s[skip + j];
    }
  }

  /** In a table kept in creation order, the sorted matches are the matches in reversed
      store order, and no two of them tie on `createdAt`. */
  lemma MatchingInCreationOrder(s: seq<Todo>, user: UserId, q: Query)
    requires CreationOrdered(s)
    ensures Matching(s, user, q) == Reverse(Select(s, BuildFilter(user, q)))
    ensures StrictlyNewestFirst(Matching(s, user, q))
  {
    var sel := Select(s, BuildFilter(user, q));
    SelectKeepsOrder(s, BuildFilter(user, q));
    SortOrderedIsReverse(sel);
    ReverseOrderedIsStrict(sel);
  }

  /** In a table kept in creation order, a listed page is strictly newest first. */
  lemma ListStrictlyNewestFirst(s: seq<Todo>, user: UserId, q: Query)
    requires CreationOrdered(s)
    ensures StrictlyNewestFirst(List(s, user, q).todos)
  {
    MatchingInCreationOrder(s, user, q);
    PageOfStrict(Matching(s, user, q), PageParam(q), LimitParam(q));
  }
}
