/**
  The answers of the citations service without a cache: filters, seeded and plain listings, pages,
  and what views, reports and publications do to an answer.
 */
module CitationAnswers {

  import opened Basics
  import opened Wrappers
  import opened SeededShuffle
  import TextNormalizer

  datatype Status = DRAFT | PUBLISHED | ARCHIVED

  /** The columns that a caller edits. */
  datatype Content = Content(
    citationMg: string,
    citationFr: string,
    sourceName: string,
    contexte: Option<string>,
    authorId: Option<string>,
    themes: set<string>,
    status: Status)

  datatype Citation = Citation(
    id: string,
    content: Content,
    createdAt: int,
    updatedAt: int,
    likesCount: nat,
    viewCount: nat,
    reportCount: nat)

  type Table = map<string, Citation>

  /** The query of `findAll`; an absent text is empty, an absent number 0. */
  datatype Query = Query(
    authorId: string,
    themeSlug: string,
    excludeIds: string,
    search: string,
    seed: seq<CodeUnit>,
    page: int,
    limit: int)

  datatype ListPage = ListPage(data: seq<Citation>, total: nat, page: int, limit: int, totalPages: nat)

  /**
    What the model leaves to the database and to string handling: the split of `excludeIds`, the
    case-insensitive search, and the order in which rows are listed, newest first or unspecified.
   */
  datatype Env = Env(
    parseIds: string -> set<string>,
    found: (string, Content) -> bool,
    newestFirst: map<string, int> -> seq<string>,
    unordered: map<string, int> -> seq<string>)

  /** A listing names exactly the rows it is given, each once. */
  ghost predicate IsListing(order: map<string, int> -> seq<string>) {
    forall m :: (forall id :: id in order(m) <==> id in m) && |order(m)| == |m|
  }

  // ---------- The uncached answers ----------

  predicate Matches(env: Env, q: Query, excluded: set<string>, c: Citation) {
    && c.content.status == PUBLISHED
    && (q.authorId != "" ==> c.content.authorId == Some(q.authorId))
    && (q.themeSlug != "" ==> q.themeSlug in c.content.themes)
    && c.id !in excluded
    && (var search := TextNormalizer.Trim(q.search);
        search != "" ==> env.found(search, c.content))
  }

  /** The matching rows, with the column by which they may be ordered. */
  function Matching(env: Env, rows: Table, q: Query, excluded: set<string>): map<string, int> {
    map id | id in rows && Matches(env, q, excluded, rows[id]) :: rows[id].createdAt
  }

  /** All ids that the seeded branch shuffles; the exclusion is dropped when it leaves nothing. */
  function SeededIds(env: Env, rows: Table, q: Query): seq<string> {
    var excluded := env.parseIds(q.excludeIds);
    var ids := env.unordered(Matching(env, rows, q, excluded));
    if ids == [] && excluded != {} then env.unordered(Matching(env, rows, q, {})) else ids
  }

  function PageOf(env: Env, q: Query, ids: seq<string>, rows: Table): ListPage {
    var p := CalculatePagination(q.page, q.limit);
    var pageIds := SeededShuffle.Page(ids, p.page, p.limit);
    ListPage(InOrder(pageIds, rows), |ids|, p.page, p.limit, TotalPages(|ids|, p.limit))
  }

  /** `findAll` without a cache. */
  function Answer(env: Env, rows: Table, q: Query): ListPage {
    if q.seed != [] then PageOf(env, q, Shuffled(SeededIds(env, rows, q), q.seed), rows)
    else PageOf(env, q, env.newestFirst(Matching(env, rows, q, env.parseIds(q.excludeIds))), rows)
  }

  /**
    Walking through all pages of a seeded query shows each matching citation exactly once, in the
    order of the shuffle, whatever order the database lists the rows in.
   */
  lemma {:induction false} SeededWalkIsComplete(env: Env, rows: Table, q: Query)
    requires IsListing(env.unordered) && q.seed != []
    ensures var ids := SeededIds(env, rows, q);
            var matching := Matching(env, rows, q, env.parseIds(q.excludeIds));
            var limit := CalculatePagination(q.page, q.limit).limit;
            var walk := Pages(Shuffled(ids, q.seed), limit, TotalPages(|ids|, limit));
            && walk == Shuffled(ids, q.seed) && multiset(walk) == multiset(ids)
            && (forall id | id in ids :: id in rows)
            && (matching != map[] ==> |ids| == |matching| && forall id :: id in ids <==> id in matching)
  {
    var excluded := env.parseIds(q.excludeIds);
    var limit := CalculatePagination(q.page, q.limit).limit;
    AllPagesShowEverythingOnce(SeededIds(env, rows, q), q.seed, limit);
  }

  /** Rows carry their key. */
  ghost predicate Keyed(rows: Table) {
    forall id | id in rows :: rows[id].id == id
  }

  /** What a caller collects who asks for the pages 1 to n of a query. */
  ghost function Walk(env: Env, rows: Table, q: Query, n: nat): seq<Citation> {
    if n == 0 then [] else Walk(env, rows, q, n - 1) + Answer(env, rows, q.(page := n)).data
  }

  lemma {:induction false} InOrderConcat(a: seq<string>, b: seq<string>, rows: Table)
    ensures InOrder(a + b, rows) == InOrder(a, rows) + InOrder(b, rows)
    decreases |b|
  {
    if b == [] {
      assert a + b == a;
    } else {
      assert (a + b)[..|a + b| - 1] == a + b[..|b| - 1];
      InOrderConcat(a, b[..|b| - 1], rows);
    }
  }

  /** Page n of a seeded query is page n of the shuffled ids. */
  lemma SeededAnswer(env: Env, rows: Table, q: Query, n: nat)
    requires q.seed != [] && n >= 1
    ensures var limit := CalculatePagination(q.page, q.limit).limit;
            Answer(env, rows, q.(page := n)).data ==
            InOrder(SeededShuffle.Page(Shuffled(SeededIds(env, rows, q), q.seed), n, limit), rows)
  {
    hide Shuffled, SeededIds, SeededShuffle.Page, InOrder;
    SameIds(env, rows, q, n);
    var limit := CalculatePagination(q.page, q.limit).limit;
    assert CalculatePagination(n, q.limit) == Pagination(n, limit, (n - 1) * limit);
  }

  lemma {:induction false} WalkIsInOrder(env: Env, rows: Table, q: Query, n: nat)
    requires q.seed != []
    ensures var limit := CalculatePagination(q.page, q.limit).limit;
            Walk(env, rows, q, n) == InOrder(Pages(Shuffled(SeededIds(env, rows, q), q.seed), limit, n), rows)
  {
    hide Shuffled, SeededIds, Answer, SeededShuffle.Page, CalculatePagination;
    if n > 0 {
      WalkIsInOrder(env, rows, q, n - 1);
      SeededAnswer(env, rows, q, n);
      var limit := CalculatePagination(q.page, q.limit).limit;
      var shuffled := Shuffled(SeededIds(env, rows, q), q.seed);
      InOrderConcat(Pages(shuffled, limit, n - 1), SeededShuffle.Page(shuffled, n, limit), rows);
    }
  }

  /** The page asked for does not change which ids are shuffled. */
  lemma SameIds(env: Env, rows: Table, q: Query, n: nat)
    ensures SeededIds(env, rows, q.(page := n)) == SeededIds(env, rows, q)
  {
    var excluded := env.parseIds(q.excludeIds);
    assert Matching(env, rows, q.(page := n), excluded) == Matching(env, rows, q, excluded);
    assert Matching(env, rows, q.(page := n), {}) == Matching(env, rows, q, {});
  }

  lemma ListedOnce(order: map<string, int> -> seq<string>, m: map<string, int>)
    requires IsListing(order)
    ensures Distinct(order(m))
  {
    assert Elements(order(m)) == m.Keys;
    NoRepeats(order(m));
  }

  /** The citations that a seeded query is meant to show: the fallback when everything is excluded. */
  function Shown(env: Env, rows: Table, q: Query): map<string, int> {
    var matching := Matching(env, rows, q, env.parseIds(q.excludeIds));
    if matching == map[] then Matching(env, rows, q, {}) else matching
  }

  lemma SeededIdsAreShown(env: Env, rows: Table, q: Query)
    requires IsListing(env.unordered)
    ensures Distinct(SeededIds(env, rows, q))
    ensures forall id :: id in SeededIds(env, rows, q) <==> id in Shown(env, rows, q)
  {
    var excluded := env.parseIds(q.excludeIds);
    ListedOnce(env.unordered, Matching(env, rows, q, excluded));
    ListedOnce(env.unordered, Matching(env, rows, q, {}));
    var ids := env.unordered(Matching(env, rows, q, excluded));
    assert ids == [] <==> Matching(env, rows, q, excluded) == map[] by {
      assert |ids| == |Matching(env, rows, q, excluded)|;
    }
  }

  /**
    The answers to the pages of a seeded query, one after the other, carry the row of every
    citation to be shown exactly once, in shuffled order, and nothing else.
   */
  lemma {:induction false} WalkShowsEveryRowOnce(env: Env, rows: Table, q: Query)
    requires IsListing(env.unordered) && q.seed != [] && Keyed(rows)
    ensures var ids := SeededIds(env, rows, q);
            var order := Shuffled(ids, q.seed);
            var walk := Walk(env, rows, q, TotalPages(|ids|, CalculatePagination(q.page, q.limit).limit));
            && |walk| == |order| && (forall k | 0 <= k < |order| :: order[k] in rows && walk[k] == rows[order[k]])
            && (forall j, k | 0 <= j < k < |walk| :: walk[j].id != walk[k].id)
            && (forall c: Citation :: c in walk <==> c.id in Shown(env, rows, q) && c.id in rows && c == rows[c.id])
  {
    hide Shuffled, SeededIds, Shown, Walk, TotalPages, CalculatePagination;
    var ids := SeededIds(env, rows, q);
    var order := Shuffled(ids, q.seed);
    WalkIsWhole(env, rows, q);
    SeededIdsAreShown(env, rows, q);
    ShuffledIsPermutation(ids, q.seed);
    DistinctPermutation(ids, order);
    SameMembers(ids, order);
    SeededWalkIsComplete(env, rows, q);
    RowsInOrder(order, rows);
  }

  /** All pages together are the rows of the shuffled ids. */
  lemma WalkIsWhole(env: Env, rows: Table, q: Query)
    requires IsListing(env.unordered) && q.seed != []
    ensures var ids := SeededIds(env, rows, q);
            Walk(env, rows, q, TotalPages(|ids|, CalculatePagination(q.page, q.limit).limit)) ==
            InOrder(Shuffled(ids, q.seed), rows)
  {
    hide Shuffled, SeededIds, Walk, TotalPages;
    var ids := SeededIds(env, rows, q);
    var limit := CalculatePagination(q.page, q.limit).limit;
    WalkIsInOrder(env, rows, q, TotalPages(|ids|, limit));
    AllPagesShowEverythingOnce(ids, q.seed, limit);
  }

  /** Reading stored rows along ids without repetition gives each of these rows once. */
  lemma RowsInOrder(order: seq<string>, rows: Table)
    requires Distinct(order) && Keyed(rows) && forall id | id in order :: id in rows
    ensures var data := InOrder(order, rows);
            && |data| == |order| && (forall k | 0 <= k < |order| :: data[k] == rows[order[k]])
            && (forall j, k | 0 <= j < k < |data| :: data[j].id != data[k].id)
            && (forall c: Citation :: c in data <==> c.id in order && c.id in rows && c == rows[c.id])
  {
    InOrderComplete(order, rows);
    var data := InOrder(order, rows);
    forall k | 0 <= k < |order| ensures data[k].id == order[k] {
      assert order[k] in order;
    }
    forall c: Citation | c.id in order && c.id in rows && c == rows[c.id] ensures c in data {
      var k :| 0 <= k < |order| && order[k] == c.id;
      assert data[k] == c;
    }
  }

  // ---------- Views, reports and publications ----------

  /**
    The calls that leave cached answers standing: a view or a report with its time, and the row
    that the approval of a contribution publishes.
   */
  datatype Change =
    | Viewed(id: string, at: int)
    | Reported(id: string, at: int)
    | Published(id: string, row: Citation)

  function TouchOne(c: Citation, t: Change): Citation {
    if t.id != c.id || t.Published? then c
    else if t.Viewed? then c.(viewCount := c.viewCount + 1, updatedAt := t.at)
    else c.(reportCount := c.reportCount + 1, updatedAt := t.at)
  }

  /** A row after some views and reports of any rows. */
  function Touched(c: Citation, changes: seq<Change>): Citation {
    if changes == [] then c else TouchOne(Touched(c, changes[..|changes| - 1]), changes[|changes| - 1])
  }

  function Views(changes: seq<Change>, id: string): nat {
    if changes == [] then 0
    else
      var last := changes[|changes| - 1];
      Views(changes[..|changes| - 1], id) + if last.Viewed? && last.id == id then 1 else 0
  }

  function Reports(changes: seq<Change>, id: string): nat {
    if changes == [] then 0
    else
      var last := changes[|changes| - 1];
      Reports(changes[..|changes| - 1], id) + if last.Reported? && last.id == id then 1 else 0
  }

  ghost predicate PublishedIn(changes: seq<Change>, id: string) {
    exists k | 0 <= k < |changes| :: changes[k].Published? && changes[k].id == id
  }

  lemma TouchedSnoc(c: Citation, changes: seq<Change>, t: Change)
    ensures Touched(c, changes + [t]) == TouchOne(Touched(c, changes), t)
    ensures forall id :: Views(changes + [t], id) == Views(changes, id) + if t.Viewed? && t.id == id then 1 else 0
    ensures forall id :: Reports(changes + [t], id) == Reports(changes, id) + if t.Reported? && t.id == id then 1 else 0
  {
    assert (changes + [t])[..|changes|] == changes;
  }

  lemma PublishedSnoc(changes: seq<Change>, t: Change, id: string)
    ensures PublishedIn(changes + [t], id) <==> PublishedIn(changes, id) || (t.Published? && t.id == id)
  {
    var more := changes + [t];
    assert more[|changes|] == t;
    if k :| 0 <= k < |changes| && changes[k].Published? && changes[k].id == id {
      assert more[k] == changes[k];
    }
  }

  /** Only the two counters and the time of the last update move, each counter by its own calls. */
  lemma {:induction false} TouchedColumns(c: Citation, changes: seq<Change>)
    ensures var after := Touched(c, changes);
            && after.viewCount == c.viewCount + Views(changes, c.id)
            && after.reportCount == c.reportCount + Reports(changes, c.id)
            && after == c.(viewCount := after.viewCount, reportCount := after.reportCount, updatedAt := after.updatedAt)
            && (Views(changes, c.id) == 0 && Reports(changes, c.id) == 0 ==> after == c)
  {
    if changes != [] {
      TouchedColumns(c, changes[..|changes| - 1]);
    }
  }

  /** The table after one change. */
  function Changed(rows: Table, t: Change): Table
    requires !t.Published? ==> t.id in rows
  {
    rows[t.id := if t.Published? then t.row else TouchOne(rows[t.id], t)]
  }

  /** A change that can happen: a row that is there is touched, a new id is published. */
  predicate CanHappen(rows: Table, t: Change) {
    if t.Published? then t.id !in rows && t.row.id == t.id else t.id in rows
  }

  /** `rows` has grown from `before` by the changes: the old rows touched, and the published ones. */
  ghost predicate Grown(before: Table, rows: Table, changes: seq<Change>) {
    && Keyed(before) && Keyed(rows)
    && (forall id | id in before :: id in rows && rows[id] == Touched(before[id], changes))
    && (forall id | id !in before :: id in rows <==> PublishedIn(changes, id))
  }

  lemma GrownFromItself(rows: Table)
    requires Keyed(rows)
    ensures Grown(rows, rows, [])
  {
  }

  lemma GrownSnoc(before: Table, rows: Table, changes: seq<Change>, t: Change)
    requires Grown(before, rows, changes) && CanHappen(rows, t)
    ensures Grown(before, Changed(rows, t), changes + [t])
  {
    hide Touched, PublishedIn;
    forall id ensures PublishedIn(changes + [t], id) <==> PublishedIn(changes, id) || (t.Published? && t.id == id) {
      PublishedSnoc(changes, t, id);
    }
    forall id | id in before ensures Touched(before[id], changes + [t]) == TouchOne(Touched(before[id], changes), t) {
      TouchedSnoc(before[id], changes, t);
    }
  }

  // ---------- What the changes do to an answer ----------

  /** The rows published in between that a query lists. */
  function Entering(env: Env, before: Table, rows: Table, q: Query, excluded: set<string>): set<string> {
    set id | id in rows && id !in before && Matches(env, q, excluded, rows[id])
  }

  /** An old row matches now exactly if it matched then. */
  lemma MatchesAsBefore(env: Env, before: Table, rows: Table, changes: seq<Change>, q: Query, excluded: set<string>)
    requires Grown(before, rows, changes)
    ensures forall id | id in before ::
              && rows[id].createdAt == before[id].createdAt
              && (Matches(env, q, excluded, rows[id]) <==> Matches(env, q, excluded, before[id]))
  {
    hide Touched, PublishedIn;
    forall id | id in before
      ensures rows[id].content == before[id].content && rows[id].createdAt == before[id].createdAt
    {
      TouchedColumns(before[id], changes);
    }
  }

  /** The listed rows are the old ones and those that enter. */
  lemma MatchingGrown(env: Env, before: Table, rows: Table, changes: seq<Change>, q: Query, excluded: set<string>)
    requires Grown(before, rows, changes)
    ensures var was, now := Matching(env, before, q, excluded), Matching(env, rows, q, excluded);
            var entering := Entering(env, before, rows, q, excluded);
            && now.Keys == was.Keys + entering && was.Keys !! entering
            && |now| == |was| + |entering|
            && (entering == {} ==> now == was)
  {
    hide Touched, PublishedIn, Matches;
    MatchesAsBefore(env, before, rows, changes, q, excluded);
    var was, now := Matching(env, before, q, excluded), Matching(env, rows, q, excluded);
    var entering := Entering(env, before, rows, q, excluded);
    assert now.Keys == was.Keys + entering;
    assert |now.Keys| == |was.Keys| + |entering|;
  }

  /** The stored answer `p` is the cached answer with the changes since replayed on every row. */
  ghost predicate PageTouched(cached: ListPage, p: ListPage, changes: seq<Change>) {
    && p == cached.(data := p.data)
    && |p.data| == |cached.data|
    && forall k | 0 <= k < |p.data| :: p.data[k] == Touched(cached.data[k], changes)
  }

  /** No row of the page has been viewed or reported. */
  ghost predicate Untouched(page: ListPage, changes: seq<Change>) {
    forall k | 0 <= k < |page.data| :: Views(changes, page.data[k].id) == 0 && Reports(changes, page.data[k].id) == 0
  }

  /** A page of the same citations is current if and only if none of them has been viewed or reported since. */
  lemma CurrentIffUntouched(cached: ListPage, p: ListPage, changes: seq<Change>)
    requires PageTouched(cached, p, changes)
    ensures cached == p <==> Untouched(cached, changes)
  {
    forall k | 0 <= k < |cached.data|
      ensures p.data[k] == cached.data[k] <==>
                Views(changes, cached.data[k].id) == 0 && Reports(changes, cached.data[k].id) == 0
    {
      TouchedColumns(cached.data[k], changes);
    }
    if Untouched(cached, changes) {
      assert p.data == cached.data;
    }
  }

  lemma {:induction false} InOrderGrown(ids: seq<string>, before: Table, rows: Table, changes: seq<Change>)
    requires Grown(before, rows, changes) && forall id | id in ids :: id in before
    ensures var was, now := InOrder(ids, before), InOrder(ids, rows);
            |now| == |was| && forall k | 0 <= k < |was| :: now[k] == Touched(was[k], changes)
  {
    hide Touched, PublishedIn;
    if ids != [] {
      assert ids[|ids| - 1] in ids;
      assert forall id | id in ids[..|ids| - 1] :: id in ids;
      InOrderGrown(ids[..|ids| - 1], before, rows, changes);
    }
  }

  /** The ids that an answer is a page of, in order. */
  function ListedIds(env: Env, rows: Table, q: Query): seq<string> {
    if q.seed != [] then Shuffled(SeededIds(env, rows, q), q.seed)
    else env.newestFirst(Matching(env, rows, q, env.parseIds(q.excludeIds)))
  }

  lemma AnswerIsAPage(env: Env, rows: Table, q: Query)
    ensures Answer(env, rows, q) == PageOf(env, q, ListedIds(env, rows, q), rows)
  {
  }

  /** The database lists rows by descending time of creation. */
  ghost predicate IsNewestFirst(order: map<string, int> -> seq<string>) {
    forall m, j, k | 0 <= j < k < |order(m)| && order(m)[j] in m && order(m)[k] in m :: m[order(m)[j]] >= m[order(m)[k]]
  }

  ghost predicate HasListings(env: Env) {
    IsListing(env.unordered) && IsListing(env.newestFirst) && IsNewestFirst(env.newestFirst)
  }

  /** The seeded branch drops the exclusion, which leaves nothing. */
  predicate FallsBack(env: Env, rows: Table, q: Query) {
    q.seed != [] && env.parseIds(q.excludeIds) != {} && Matching(env, rows, q, env.parseIds(q.excludeIds)) == map[]
  }

  /** The exclusion that an answer applies. */
  function Exclusion(env: Env, rows: Table, q: Query): set<string> {
    if FallsBack(env, rows, q) then {} else env.parseIds(q.excludeIds)
  }

  /** An answer lists exactly what matches under its exclusion. */
  lemma ListedIdsMatch(env: Env, rows: Table, q: Query)
    requires HasListings(env)
    ensures var matching := Matching(env, rows, q, Exclusion(env, rows, q));
            && |ListedIds(env, rows, q)| == |matching|
            && (forall id :: id in ListedIds(env, rows, q) <==> id in matching)
  {
    hide Matching, Shuffled;
    var excluded := env.parseIds(q.excludeIds);
    assert |env.unordered(Matching(env, rows, q, excluded))| == |Matching(env, rows, q, excluded)|;
    if q.seed != [] {
      ShuffledIsPermutation(SeededIds(env, rows, q), q.seed);
      SameMembers(SeededIds(env, rows, q), Shuffled(SeededIds(env, rows, q), q.seed));
    }
  }

  /** The columns by which a query selects, the exclusion apart. */
  lemma ListedColumns(env: Env, rows: Table, q: Query, id: string)
    requires HasListings(env) && Keyed(rows)
    ensures var excluded := if FallsBack(env, rows, q) then {} else env.parseIds(q.excludeIds);
            id in ListedIds(env, rows, q) <==>
              && id in rows && id !in excluded
              && rows[id].content.status == PUBLISHED
              && (q.authorId == "" || rows[id].content.authorId == Some(q.authorId))
              && (q.themeSlug == "" || q.themeSlug in rows[id].content.themes)
              && (TextNormalizer.Trim(q.search) == "" || env.found(TextNormalizer.Trim(q.search), rows[id].content))
  {
    hide ListedIds, FallsBack, IsNewestFirst;
    ListedIdsMatch(env, rows, q);
  }

  /** A seeded query falls back exactly if it excludes something and then nothing else fits. */
  lemma FallsBackExactly(env: Env, rows: Table, q: Query)
    requires Keyed(rows)
    ensures FallsBack(env, rows, q) <==>
              && q.seed != [] && env.parseIds(q.excludeIds) != {}
              && forall id | id in rows && id !in env.parseIds(q.excludeIds) ::
                   || rows[id].content.status != PUBLISHED
                   || (q.authorId != "" && rows[id].content.authorId != Some(q.authorId))
                   || (q.themeSlug != "" && q.themeSlug !in rows[id].content.themes)
                   || (TextNormalizer.Trim(q.search) != "" && !env.found(TextNormalizer.Trim(q.search), rows[id].content))
  {
    var excluded := env.parseIds(q.excludeIds);
    var matching := Matching(env, rows, q, excluded);
    forall id | id in rows && id !in excluded
      ensures id !in matching <==>
                || rows[id].content.status != PUBLISHED
                || (q.authorId != "" && rows[id].content.authorId != Some(q.authorId))
                || (q.themeSlug != "" && q.themeSlug !in rows[id].content.themes)
                || (TextNormalizer.Trim(q.search) != "" && !env.found(TextNormalizer.Trim(q.search), rows[id].content))
    {
    }
    if forall id :: id !in matching {
      assert matching.Keys == {};
    }
    assert forall id | id in matching :: id in rows && id !in excluded;
  }

  /** Every row of an answer is published and has what was asked for; without a seed the newest come first. */
  lemma AnswerColumns(env: Env, rows: Table, q: Query)
    requires HasListings(env) && Keyed(rows)
    ensures forall c | c in Answer(env, rows, q).data ::
              && c.id in rows && rows[c.id] == c
              && c.content.status == PUBLISHED
              && (q.authorId == "" || c.content.authorId == Some(q.authorId))
              && (q.themeSlug == "" || q.themeSlug in c.content.themes)
              && (TextNormalizer.Trim(q.search) == "" || env.found(TextNormalizer.Trim(q.search), c.content))
              && (FallsBack(env, rows, q) || c.id !in env.parseIds(q.excludeIds))
    ensures q.seed == [] ==>
              forall j, k | 0 <= j < k < |Answer(env, rows, q).data| ::
                Answer(env, rows, q).data[j].createdAt >= Answer(env, rows, q).data[k].createdAt
  {
    hide ListedIds, FallsBack, HasListings, Answer, SeededShuffle.Page, CalculatePagination;
    AnswerIsAPage(env, rows, q);
    var p := CalculatePagination(q.page, q.limit);
    var ids := ListedIds(env, rows, q);
    var pageIds := SeededShuffle.Page(ids, p.page, p.limit);
    PagesOfSameLength(ids, ids, p.page, p.limit);
    forall id | id in pageIds
      ensures id in rows && rows[id].content.status == PUBLISHED
              && (q.authorId == "" || rows[id].content.authorId == Some(q.authorId))
              && (q.themeSlug == "" || q.themeSlug in rows[id].content.themes)
              && (TextNormalizer.Trim(q.search) == "" || env.found(TextNormalizer.Trim(q.search), rows[id].content))
              && (FallsBack(env, rows, q) || id !in env.parseIds(q.excludeIds))
    {
      ListedColumns(env, rows, q, id);
    }
    InOrderComplete(pageIds, rows);
    var data := Answer(env, rows, q).data;
    forall c | c in data ensures c.id in pageIds && rows[c.id] == c {
      var k :| 0 <= k < |data| && data[k] == c;
      assert pageIds[k] in pageIds;
    }
    if q.seed == [] {
      PlainOrder(env, rows, q, p.page, p.limit);
    }
  }

  /** The figures around an answer: the number of rows listed, and the least number of pages that holds them. */
  lemma AnswerMeta(env: Env, rows: Table, q: Query)
    requires HasListings(env)
    ensures var a := Answer(env, rows, q);
            && a.total == |Matching(env, rows, q, Exclusion(env, rows, q))|
            && 1 <= a.limit <= 100 && a.page >= 1 && |a.data| <= a.limit
            && (q.page > 0 ==> a.page == q.page) && (1 <= q.limit <= 100 ==> a.limit == q.limit)
            && (q.limit == 0 ==> a.limit == 20)
            && (if a.total == 0 then a.totalPages == 1
                else a.totalPages >= 1 && (a.totalPages - 1) * a.limit < a.total <= a.totalPages * a.limit)
  {
    hide Matching, ListedIds, Exclusion, SeededShuffle.Page, HasListings, TotalPages, InOrder;
    AnswerIsAPage(env, rows, q);
    ListedIdsMatch(env, rows, q);
    var p := CalculatePagination(q.page, q.limit);
    LastPageIsNeeded(|ListedIds(env, rows, q)|, p.limit);
    PageAtMost(ListedIds(env, rows, q), p.page, p.limit);
    InOrderAtMost(SeededShuffle.Page(ListedIds(env, rows, q), p.page, p.limit), rows);
  }

  lemma PageAtMost(ids: seq<string>, page: nat, limit: nat)
    requires page >= 1
    ensures |SeededShuffle.Page(ids, page, limit)| <= limit
  {
    PageIsSlice(ids, page, limit);
    PageBounds(page, limit);
  }

  lemma {:induction false} InOrderAtMost(ids: seq<string>, rows: Table)
    ensures |InOrder(ids, rows)| <= |ids|
  {
    if ids != [] {
      InOrderAtMost(ids[..|ids| - 1], rows);
    }
  }

  /** A list of stored ids that goes from newer to older rows. */
  ghost predicate NewerFirst(ids: seq<string>, rows: Table) {
    && (forall id | id in ids :: id in rows)
    && forall j, k | 0 <= j < k < |ids| :: rows[ids[j]].createdAt >= rows[ids[k]].createdAt
  }

  lemma ListingIsNewerFirst(order: map<string, int> -> seq<string>, m: map<string, int>, rows: Table)
    requires IsListing(order) && IsNewestFirst(order)
    requires forall id | id in m :: id in rows && m[id] == rows[id].createdAt
    ensures NewerFirst(order(m), rows)
  {
    var ids := order(m);
    assert forall id | id in ids :: id in m;
    forall j, k | 0 <= j < k < |ids| ensures rows[ids[j]].createdAt >= rows[ids[k]].createdAt {
      assert ids[j] in ids && ids[k] in ids;
      assert m[ids[j]] >= m[ids[k]];
    }
  }

  lemma PageIsNewerFirst(ids: seq<string>, rows: Table, page: nat, limit: nat)
    requires NewerFirst(ids, rows) && page >= 1
    ensures NewerFirst(SeededShuffle.Page(ids, page, limit), rows)
  {
    hide SeededShuffle.Page;
    PageIsSlice(ids, page, limit);
    var from, to := Min((page - 1) * limit, |ids|), Min(page * limit, |ids|);
    SliceIsNewerFirst(ids, rows, from, to);
  }

  lemma SliceIsNewerFirst(ids: seq<string>, rows: Table, from: nat, to: nat)
    requires NewerFirst(ids, rows) && from <= to <= |ids|
    ensures NewerFirst(ids[from..to], rows)
  {
  }

  /** A page of a plain listing goes from newer to older rows. */
  lemma PlainOrder(env: Env, rows: Table, q: Query, page: nat, limit: nat)
    requires HasListings(env) && q.seed == [] && page >= 1
    ensures NewerFirst(SeededShuffle.Page(ListedIds(env, rows, q), page, limit), rows)
  {
    hide NewerFirst, SeededShuffle.Page, IsListing, IsNewestFirst;
    ListingIsNewerFirst(env.newestFirst, Matching(env, rows, q, env.parseIds(q.excludeIds)), rows);
    PageIsNewerFirst(ListedIds(env, rows, q), rows, page, limit);
  }

  /** The same listings and exclusions are the same list of ids. */
  lemma SameListedIds(env: Env, before: Table, rows: Table, q: Query)
    requires HasListings(env)
    requires FallsBack(env, before, q) == FallsBack(env, rows, q)
    requires Matching(env, before, q, Exclusion(env, before, q)) == Matching(env, rows, q, Exclusion(env, rows, q))
    ensures ListedIds(env, before, q) == ListedIds(env, rows, q)
  {
    hide Matching, Shuffled;
    var excluded := env.parseIds(q.excludeIds);
    assert |env.unordered(Matching(env, rows, q, excluded))| == |Matching(env, rows, q, excluded)|;
    assert |env.unordered(Matching(env, before, q, excluded))| == |Matching(env, before, q, excluded)|;
  }

  /** A published row ends the fallback of a query that it matches in spite of the exclusion. */
  ghost predicate EndsFallback(env: Env, before: Table, rows: Table, q: Query) {
    FallsBack(env, before, q) && Entering(env, before, rows, q, env.parseIds(q.excludeIds)) != {}
  }

  /**
    When a cached page is current.  In general: no row of it was viewed or reported, and no row was
    published that the query lists.  Where a published row ends the fallback of the seeded branch,
    other citations are listed: then only a page beyond the end stands, if there are as many of them.
   */
  ghost predicate Current(env: Env, before: Table, rows: Table, q: Query, page: ListPage, changes: seq<Change>) {
    if EndsFallback(env, before, rows, q)
    then page.data == [] && |Entering(env, before, rows, q, env.parseIds(q.excludeIds))| == page.total
    else Untouched(page, changes) && Entering(env, before, rows, q, Exclusion(env, before, q)) == {}
  }

  /** While no row enters, the same ids are listed in the same order, and all of them are stored. */
  lemma SameIdsListed(env: Env, before: Table, rows: Table, changes: seq<Change>, q: Query)
    requires Grown(before, rows, changes) && HasListings(env)
    requires !EndsFallback(env, before, rows, q) && Entering(env, before, rows, q, Exclusion(env, before, q)) == {}
    ensures ListedIds(env, before, q) == ListedIds(env, rows, q)
    ensures forall id | id in ListedIds(env, before, q) :: id in before
  {
    hide Matching, ListedIds, Touched, PublishedIn, Entering, IsListing;
    MatchingGrown(env, before, rows, changes, q, env.parseIds(q.excludeIds));
    MatchingGrown(env, before, rows, changes, q, {});
    SameListedIds(env, before, rows, q);
    ListedIdsMatch(env, before, q);
    MatchingIsStored(env, before, q, Exclusion(env, before, q));
  }

  /** While no row enters, the list has the same citations in the same order. */
  lemma NobodyEnters(env: Env, before: Table, rows: Table, changes: seq<Change>, q: Query)
    requires Grown(before, rows, changes) && HasListings(env)
    requires !EndsFallback(env, before, rows, q) && Entering(env, before, rows, q, Exclusion(env, before, q)) == {}
    ensures PageTouched(Answer(env, before, q), Answer(env, rows, q), changes)
  {
    hide ListedIds, Answer, Touched, Grown, Entering, HasListings, EndsFallback, Exclusion, SeededShuffle.Page;
    SameIdsListed(env, before, rows, changes, q);
    AnswerIsAPage(env, before, q);
    AnswerIsAPage(env, rows, q);
    var p := CalculatePagination(q.page, q.limit);
    var ids := ListedIds(env, before, q);
    PagesOfSameLength(ids, ids, p.page, p.limit);
    InOrderGrown(SeededShuffle.Page(ids, p.page, p.limit), before, rows, changes);
  }

  lemma MatchingIsStored(env: Env, rows: Table, q: Query, excluded: set<string>)
    ensures forall id | id in Matching(env, rows, q, excluded) :: id in rows && Matches(env, q, excluded, rows[id])
  {
  }

  /** A row that enters makes the total larger. */
  lemma SomebodyEnters(env: Env, before: Table, rows: Table, changes: seq<Change>, q: Query)
    requires Grown(before, rows, changes) && HasListings(env)
    requires !EndsFallback(env, before, rows, q) && Entering(env, before, rows, q, Exclusion(env, before, q)) != {}
    ensures Answer(env, rows, q).total > Answer(env, before, q).total
  {
    hide Matching, ListedIds, Answer, Touched, PublishedIn, Entering, IsListing;
    MatchingGrown(env, before, rows, changes, q, env.parseIds(q.excludeIds));
    MatchingGrown(env, before, rows, changes, q, {});
    ListedIdsMatch(env, before, q);
    ListedIdsMatch(env, rows, q);
    AnswerIsAPage(env, before, q);
    AnswerIsAPage(env, rows, q);
  }

  lemma PagesOfSameLength(s: seq<string>, t: seq<string>, page: nat, limit: nat)
    requires |s| == |t| && page >= 1
    ensures |SeededShuffle.Page(s, page, limit)| == |SeededShuffle.Page(t, page, limit)|
    ensures forall id | id in SeededShuffle.Page(s, page, limit) :: id in s
    ensures forall id | id in SeededShuffle.Page(t, page, limit) :: id in t
  {
  }

  /** After the fallback has ended, exactly the published rows are listed. */
  lemma FallbackEnded(env: Env, before: Table, rows: Table, changes: seq<Change>, q: Query)
    requires Grown(before, rows, changes) && HasListings(env) && EndsFallback(env, before, rows, q)
    ensures var entering := Entering(env, before, rows, q, env.parseIds(q.excludeIds));
            && |ListedIds(env, rows, q)| == |entering|
            && (forall id | id in ListedIds(env, rows, q) :: id in entering)
    ensures forall id | id in ListedIds(env, before, q) :: id in before
  {
    hide Matching, ListedIds, Touched, PublishedIn, Entering, IsListing;
    MatchingGrown(env, before, rows, changes, q, env.parseIds(q.excludeIds));
    ListedIdsMatch(env, before, q);
    ListedIdsMatch(env, rows, q);
    MatchingIsStored(env, before, q, {});
  }

  lemma EnteringIsNew(env: Env, before: Table, rows: Table, q: Query, excluded: set<string>)
    ensures forall id | id in Entering(env, before, rows, q, excluded) :: id in rows && id !in before
  {
  }

  lemma TotalOfPage(env: Env, rows: Table, q: Query)
    ensures Answer(env, rows, q).total == |ListedIds(env, rows, q)|
  {
  }

  /** After the fallback has ended, the list has other citations than before. */
  lemma OtherCitations(env: Env, before: Table, rows: Table, changes: seq<Change>, q: Query)
    requires Grown(before, rows, changes) && HasListings(env) && EndsFallback(env, before, rows, q)
    ensures var was, now := Answer(env, before, q), Answer(env, rows, q);
            && now.total == |Entering(env, before, rows, q, env.parseIds(q.excludeIds))|
            && (was == now <==> was.data == [] && now.total == was.total)
  {
    hide ListedIds, Answer, Touched, PublishedIn, Entering, HasListings, EndsFallback, PageOf;
    FallbackEnded(env, before, rows, changes, q);
    EnteringIsNew(env, before, rows, q, env.parseIds(q.excludeIds));
    TotalOfPage(env, before, q);
    TotalOfPage(env, rows, q);
    AnswerIsAPage(env, before, q);
    AnswerIsAPage(env, rows, q);
    if Answer(env, rows, q).total == Answer(env, before, q).total {
      PagesDiffer(env, before, rows, q);
    }
  }

  lemma PagesDiffer(env: Env, before: Table, rows: Table, q: Query)
    requires Keyed(before) && Keyed(rows) && |ListedIds(env, before, q)| == |ListedIds(env, rows, q)|
    requires forall id | id in ListedIds(env, before, q) :: id in before
    requires forall id | id in ListedIds(env, rows, q) :: id in rows && id !in before
    ensures var was := PageOf(env, q, ListedIds(env, before, q), before);
            var now := PageOf(env, q, ListedIds(env, rows, q), rows);
            was == now <==> was.data == []
  {
    hide ListedIds, SeededShuffle.Page;
    var p := CalculatePagination(q.page, q.limit);
    var was := SeededShuffle.Page(ListedIds(env, before, q), p.page, p.limit);
    var now := SeededShuffle.Page(ListedIds(env, rows, q), p.page, p.limit);
    PagesOfSameLength(ListedIds(env, before, q), ListedIds(env, rows, q), p.page, p.limit);
    InOrderComplete(was, before);
    InOrderComplete(now, rows);
    if was != [] {
      assert was[0] in was && now[0] in now;
      assert InOrder(was, before)[0].id == was[0] && InOrder(now, rows)[0].id == now[0];
    }
  }

  /** The exact condition for a cached page to be the answer that an uncached read would give. */
  lemma CurrentIff(env: Env, before: Table, rows: Table, changes: seq<Change>, q: Query)
    requires Grown(before, rows, changes) && HasListings(env)
    ensures Answer(env, before, q) == Answer(env, rows, q) <==>
            Current(env, before, rows, q, Answer(env, before, q), changes)
  {
    hide Answer, Entering, Grown, HasListings, Exclusion, EndsFallback, Untouched;
    if EndsFallback(env, before, rows, q) {
      OtherCitations(env, before, rows, changes, q);
    } else if Entering(env, before, rows, q, Exclusion(env, before, q)) == {} {
      NobodyEnters(env, before, rows, changes, q);
      CurrentIffUntouched(Answer(env, before, q), Answer(env, rows, q), changes);
    } else {
      SomebodyEnters(env, before, rows, changes, q);
    }
  }

  /** An answer carries stored rows. */
  lemma {:induction false} AnswerRows(env: Env, rows: Table, q: Query)
    requires Keyed(rows)
    ensures forall c | c in Answer(env, rows, q).data :: c.id in rows && rows[c.id] == c
  {
    hide Matching, Shuffled;
    var ids := if q.seed != [] then Shuffled(SeededIds(env, rows, q), q.seed)
               else env.newestFirst(Matching(env, rows, q, env.parseIds(q.excludeIds)));
    var p := CalculatePagination(q.page, q.limit);
    InOrderRows(SeededShuffle.Page(ids, p.page, p.limit), rows);
  }

  lemma {:induction false} InOrderRows(ids: seq<string>, rows: Table)
    requires Keyed(rows)
    ensures forall c | c in InOrder(ids, rows) :: c.id in rows && rows[c.id] == c
  {
    if ids != [] {
      InOrderRows(ids[..|ids| - 1], rows);
    }
  }
}
