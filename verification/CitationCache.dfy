/**
  The citations service: a read-through cache in front of the table of citations.

  The main result is a refinement: along any sequence of calls and expiries, the cached reads
  answer what an uncached read would, less the views, the reports and the publications of approved
  contributions since the answer was cached.
 */
module CitationCache {

  import opened Basics
  import opened CitationAnswers
  import opened SeededShuffle
  import opened Wrappers

  // ---------- Cache keys ----------

  datatype Key = ListKey(q: Query) | DetailKey(id: string)

  datatype Value = ListValue(page: ListPage) | DetailValue(citation: Citation)

  const CITATIONS_PATTERN := "kanto:citations:"
  const DAILY_PATTERN := "kanto:daily:"

  /** The fixed first part of the text of a key. */
  function Prefix(key: Key): string {
    match key
    case ListKey(_) => "kanto:citations:list:"
    case DetailKey(_) => "kanto:citations:detail:"
  }

  /** `delByPattern`: the keys whose text starts with the pattern are gone. */
  function WithoutPattern(cache: map<Key, Value>, pattern: string): map<Key, Value> {
    map k | k in cache && !(pattern <= Prefix(k)) :: cache[k]
  }

  /** The pattern for lists covers the details as well, so it empties the whole cache. */
  lemma CitationsPatternCoversAll(cache: map<Key, Value>)
    ensures WithoutPattern(cache, CITATIONS_PATTERN) == map[]
  {
    assert CITATIONS_PATTERN <= "kanto:citations:list:";
    assert CITATIONS_PATTERN <= "kanto:citations:detail:";
  }

  // ---------- The invariant ----------

  /** When a cache entry was written: the number of changes before, and the table at that time. */
  datatype Origin = Origin(at: nat, rows: Table)

  /** The changes since a cache entry was written. */
  function Since(changes: seq<Change>, origins: map<Key, Origin>, key: Key): seq<Change> {
    if key in origins && origins[key].at <= |changes| then changes[origins[key].at..] else []
  }

  /** A detail entry: the stored row is the cached one with the reports since replayed. */
  ghost predicate DetailExact(rows: Table, id: string, value: Value, since: seq<Change>) {
    && id in rows && value.DetailValue?
    && rows[id] == Touched(value.citation, since)
    && Views(since, id) == 0
  }

  /** A list entry: the answer of a table from which the present one has grown by the changes since. */
  ghost predicate ListExact(env: Env, rows: Table, q: Query, value: Value, before: Table, since: seq<Change>) {
    value == ListValue(Answer(env, before, q)) && Grown(before, rows, since)
  }

  ghost predicate EntryExact(env: Env, rows: Table, key: Key, value: Value, before: Table, since: seq<Change>) {
    match key
    case DetailKey(id) => DetailExact(rows, id, value, since)
    case ListKey(q) => ListExact(env, rows, q, value, before, since)
  }

  /** Every cached answer is the uncached one, less exactly the changes since it was written. */
  ghost predicate Coherent(env: Env, rows: Table, cache: map<Key, Value>, changes: seq<Change>, origins: map<Key, Origin>) {
    forall key | key in cache ::
      && key in origins && origins[key].at <= |changes|
      && EntryExact(env, rows, key, cache[key], origins[key].rows, Since(changes, origins, key))
  }

  function LikersOf(likes: set<(string, string)>, id: string): set<(string, string)> {
    set l | l in likes && l.1 == id
  }

  /** Rows carry their key, and the like counter is the number of like rows. */
  ghost predicate LikesAgree(rows: Table, likes: set<(string, string)>) {
    && Keyed(rows)
    && (forall id | id in rows :: rows[id].likesCount == |LikersOf(likes, id)|)
    && (forall l | l in likes :: l.1 in rows)
  }

  /** The separate view counter never runs ahead of the column. */
  ghost predicate ViewsAgree(rows: Table, viewKeys: map<string, nat>) {
    forall id | id in rows && id in viewKeys :: viewKeys[id] <= rows[id].viewCount
  }

  lemma SinceSnoc(changes: seq<Change>, origins: map<Key, Origin>, key: Key, t: Change)
    requires key in origins && origins[key].at <= |changes|
    ensures Since(changes + [t], origins, key) == Since(changes, origins, key) + [t]
  {
  }

  lemma DetailAfterChange(rows: Table, id: string, value: Value, since: seq<Change>, t: Change)
    requires DetailExact(rows, id, value, since) && Keyed(rows) && CanHappen(rows, t)
    requires t.Viewed? ==> t.id != id
    ensures DetailExact(Changed(rows, t), id, value, since + [t])
  {
    TouchedSnoc(value.citation, since, t);
  }

  /** A report, a publication, or a view that drops the detail of its row, keeps the cache exact. */
  lemma {:induction false} CoherentAfterChange(env: Env, rows: Table, cache: map<Key, Value>, changes: seq<Change>,
                                               origins: map<Key, Origin>, t: Change)
    requires Coherent(env, rows, cache, changes, origins) && Keyed(rows) && CanHappen(rows, t)
    requires t.Viewed? ==> DetailKey(t.id) !in cache
    ensures Coherent(env, Changed(rows, t), cache, changes + [t], origins)
  {
    hide Answer, DetailExact, Grown, Changed, Since;
    forall key | key in cache
      ensures EntryExact(env, Changed(rows, t), key, cache[key], origins[key].rows, Since(changes + [t], origins, key))
    {
      var since := Since(changes, origins, key);
      SinceSnoc(changes, origins, key, t);
      match key
      case DetailKey(id) => DetailAfterChange(rows, id, cache[key], since, t);
      case ListKey(q) => GrownSnoc(origins[key].rows, rows, since, t);
    }
  }

  /** The value that a miss writes: the uncached answer. */
  ghost predicate Uncached(env: Env, rows: Table, key: Key, value: Value) {
    match key
    case DetailKey(id) => id in rows && value == DetailValue(rows[id])
    case ListKey(q) => value == ListValue(Answer(env, rows, q))
  }

  lemma UncachedIsExact(env: Env, rows: Table, key: Key, value: Value)
    requires Uncached(env, rows, key, value) && Keyed(rows)
    ensures EntryExact(env, rows, key, value, rows, [])
  {
    hide Answer, Grown;
    GrownFromItself(rows);
  }

  /** A new entry with the uncached answer is exact, and nothing has happened since. */
  lemma CoherentAfterWrite(env: Env, rows: Table, cache: map<Key, Value>, changes: seq<Change>, origins: map<Key, Origin>,
                           key: Key, value: Value)
    requires Coherent(env, rows, cache, changes, origins) && Uncached(env, rows, key, value) && Keyed(rows)
    ensures Coherent(env, rows, cache[key := value], changes, origins[key := Origin(|changes|, rows)])
    ensures Since(changes, origins[key := Origin(|changes|, rows)], key) == []
  {
    hide EntryExact, Uncached;
    UncachedIsExact(env, rows, key, value);
    assert changes[|changes|..] == [];
  }

  /** Dropping entries keeps the cache exact. */
  lemma CoherentAfterRemoval(env: Env, rows: Table, cache: map<Key, Value>, changes: seq<Change>, origins: map<Key, Origin>,
                             key: Key)
    requires Coherent(env, rows, cache, changes, origins)
    ensures Coherent(env, rows, cache - {key}, changes, origins)
  {
    hide EntryExact, Since;
  }

  lemma LikersAfterAdd(likes: set<(string, string)>, l: (string, string), id: string)
    requires l !in likes
    ensures |LikersOf(likes + {l}, id)| == |LikersOf(likes, id)| + if l.1 == id then 1 else 0
  {
    assert LikersOf(likes + {l}, id) == if l.1 == id then LikersOf(likes, id) + {l} else LikersOf(likes, id);
  }

  lemma LikersAfterRemoval(likes: set<(string, string)>, l: (string, string), id: string)
    requires l in likes
    ensures |LikersOf(likes - {l}, id)| == |LikersOf(likes, id)| - if l.1 == id then 1 else 0
  {
    assert LikersOf(likes - {l}, id) == LikersOf(likes, id) - {l};
  }

  // ---------- The service ----------

  datatype Failure = NotFound | NotAuthenticated

  datatype Result<T> = Ok(value: T) | Err(failure: Failure)

  /** The fields of an update; `None` leaves the column as it is. */
  datatype Patch = Patch(
    citationMg: Option<string>,
    citationFr: Option<string>,
    sourceName: Option<string>,
    contexte: Option<string>,
    authorId: Option<string>,
    status: Option<Status>)

  function Patched(c: Content, p: Patch): Content {
    c.(citationMg := Or(p.citationMg, c.citationMg),
       citationFr := Or(p.citationFr, c.citationFr),
       sourceName := Or(p.sourceName, c.sourceName),
       contexte := if p.contexte.Some? then p.contexte else c.contexte,
       authorId := if p.authorId.Some? then p.authorId else c.authorId,
       status := Or(p.status, c.status))
  }

  function IdOf(c: Citation): string {
    c.id
  }

  lemma {:induction false} InOrderAgrees(ids: seq<string>, a: Table, b: Table)
    requires forall id | id in ids :: id in a <==> id in b
    requires forall id | id in ids && id in a :: a[id] == b[id]
    ensures InOrder(ids, a) == InOrder(ids, b)
  {
    if ids != [] {
      var before := ids[..|ids| - 1];
      assert ids[|ids| - 1] in ids;
      assert forall id | id in before :: id in ids;
      InOrderAgrees(before, a, b);
    }
  }

  /** Reading the fetched rows along the page is reading the table along the page. */
  lemma FetchedIsEnough(ids: seq<string>, fetched: seq<Citation>, rows: Table)
    requires DistinctIds(fetched, IdOf)
    requires forall c | c in fetched :: c.id in ids && c.id in rows && rows[c.id] == c
    requires forall id | id in ids && id in rows :: rows[id] in fetched && rows[id].id == id
    ensures InOrder(ids, ById(fetched, IdOf)) == InOrder(ids, rows)
  {
    ByIdContents(fetched, IdOf);
    InOrderAgrees(ids, ById(fetched, IdOf), rows);
  }

  /** The row that an approval publishes. */
  function ApprovedCitation(id: string, textMg: string, textFr: string, meaning: string, region: Option<string>, now: int): Citation {
    Citation(id, Content(textMg, textFr, Or(region, "Communaut\U{00E9}"), Some(meaning), None, {}, PUBLISHED), now, now, 0, 0, 0)
  }

  /** What a page tells that is the answer of an earlier table. */
  lemma PageAndTable(env: Env, before: Table, rows: Table, since: seq<Change>, q: Query)
    requires Grown(before, rows, since) && HasListings(env)
    ensures var page := Answer(env, before, q);
            && (page == Answer(env, rows, q) <==> Current(env, before, rows, q, page, since))
            && (!EndsFallback(env, before, rows, q) && Entering(env, before, rows, q, Exclusion(env, before, q)) == {} ==>
                  PageTouched(page, Answer(env, rows, q), since))
  {
    hide Answer, Grown, Current, Entering, EndsFallback, Exclusion, HasListings, PageTouched;
    CurrentIff(env, before, rows, since, q);
    if !EndsFallback(env, before, rows, q) && Entering(env, before, rows, q, Exclusion(env, before, q)) == {} {
      NobodyEnters(env, before, rows, since, q);
    }
  }

  lemma NobodyLikes(likes: set<(string, string)>, rows: Table, id: string)
    requires id !in rows && forall l | l in likes :: l.1 in rows
    ensures |LikersOf(likes, id)| == 0
  {
    assert LikersOf(likes, id) == {};
  }

  class CitationsService {
    const env: Env
    var rows: Table
    var likes: set<(string, string)>
    var cache: map<Key, Value>
    var viewKeys: map<string, nat>
    ghost var changes: seq<Change>
    ghost var origins: map<Key, Origin>

    ghost predicate Valid()
      reads this
    {
      && HasListings(env)
      && Coherent(env, rows, cache, changes, origins) && LikesAgree(rows, likes) && ViewsAgree(rows, viewKeys)
    }

    /** What has changed since the entry of a key was written; nothing when there is no entry. */
    ghost function ChangesSince(key: Key): seq<Change>
      reads this
    {
      if key in cache then Since(changes, origins, key) else []
    }

    /** The table when the entry of a key was written; the present one when there is no entry. */
    ghost function TableThen(key: Key): Table
      reads this
    {
      if key in cache && key in origins then origins[key].rows else rows
    }

    constructor (env: Env)
      requires HasListings(env)
      ensures Valid() && this.env == env && rows == map[] && likes == {} && cache == map[] && viewKeys == map[]
    {
      this.env, rows, likes, cache, viewKeys, changes, origins := env, map[], {}, map[], map[], [], map[];
    }

    /** `invalidateCache` */
    method InvalidateCache(id: string)
      modifies this`cache
      ensures cache == map[]
    {
      CitationsPatternCoversAll(cache);
      cache := WithoutPattern(cache, CITATIONS_PATTERN);
      cache := WithoutPattern(cache, DAILY_PATTERN);
      cache := cache - {DetailKey(id)};
    }

    /** `create`, with the new id and the author already looked up */
    method Create(id: string, content: Content, now: int) returns (c: Citation)
      requires Valid() && id !in rows && id !in viewKeys
      modifies this
      ensures Valid() && likes == old(likes) && cache == map[] && viewKeys == old(viewKeys)
      ensures c == Citation(id, content.(status := PUBLISHED), now, now, 0, 0, 0)
      ensures rows == old(rows)[id := c]
    {
      c := Citation(id, content.(status := PUBLISHED), now, now, 0, 0, 0);
      rows := rows[id := c];
      assert LikersOf(likes, id) == {};
      InvalidateCache(id);
    }

    /**
      The approval of a contribution of the category CITATION, in another service: the row is
      published and no cached answer is dropped.
     */
    method PublishApproved(id: string, textMg: string, textFr: string, meaning: string, region: Option<string>, now: int)
      returns (c: Citation)
      requires Valid() && id !in rows && id !in viewKeys
      modifies this`rows, this`changes
      ensures Valid()
      ensures c == ApprovedCitation(id, textMg, textFr, meaning, region, now)
      ensures var source := if region.Some? then region.value else "Communaut\U{00E9}";
              c == Citation(id, Content(textMg, textFr, source, Some(meaning), None, {}, PUBLISHED), now, now, 0, 0, 0)
      ensures rows == old(rows)[id := c] && changes == old(changes) + [Published(id, c)]
    {
      hide Answer, DetailExact, ListExact, Since, LikersOf;
      c := Citation(id, Content(textMg, textFr, Or(region, "Communaut\U{00E9}"), Some(meaning), None, {}, PUBLISHED),
                    now, now, 0, 0, 0);
      NobodyLikes(likes, rows, id);
      CoherentAfterChange(env, rows, cache, changes, origins, Published(id, c));
      rows := rows[id := c];
      changes := changes + [Published(id, c)];
    }

    /** `update`, with the author already looked up */
    method Update(id: string, patch: Patch, now: int) returns (r: Result<Citation>)
      requires Valid()
      modifies this
      ensures Valid() && likes == old(likes) && viewKeys == old(viewKeys)
      ensures id !in old(rows) ==> r == Err(NotFound) && rows == old(rows) && cache == old(cache)
      ensures id in old(rows) ==>
                var c := old(rows)[id].content;
                && r.Ok? && rows == old(rows)[id := r.value] && cache == map[]
                && r.value == old(rows)[id].(content := r.value.content, updatedAt := now)
                && r.value.content.themes == c.themes
                && r.value.content.citationMg == (if patch.citationMg.Some? then patch.citationMg.value else c.citationMg)
                && r.value.content.citationFr == (if patch.citationFr.Some? then patch.citationFr.value else c.citationFr)
                && r.value.content.sourceName == (if patch.sourceName.Some? then patch.sourceName.value else c.sourceName)
                && r.value.content.contexte == (if patch.contexte.Some? then patch.contexte else c.contexte)
                && r.value.content.authorId == (if patch.authorId.Some? then patch.authorId else c.authorId)
                && r.value.content.status == (if patch.status.Some? then patch.status.value else c.status)
    {
      if id !in rows {
        return Err(NotFound);
      }
      var c := rows[id].(content := Patched(rows[id].content, patch), updatedAt := now);
      rows := rows[id := c];
      InvalidateCache(id);
      r := Ok(c);
    }

    /** `remove`; the likes of a row go with it. */
    method Remove(id: string) returns (r: Result<string>)
      requires Valid()
      modifies this
      ensures Valid()
      ensures id !in old(rows) ==> r == Err(NotFound) && rows == old(rows) && likes == old(likes) && cache == old(cache)
      ensures id in old(rows) ==>
                && r == Ok(id) && rows == old(rows) - {id} && cache == map[]
                && likes == old(likes) - LikersOf(old(likes), id)
    {
      if id !in rows {
        return Err(NotFound);
      }
      rows := rows - {id};
      ghost var before := likes;
      likes := likes - LikersOf(likes, id);
      forall other | other in rows ensures LikersOf(likes, other) == LikersOf(before, other) {
      }
      InvalidateCache(id);
      r := Ok(id);
    }

    /**
      `findOne`: the stored row is the row returned, with the reports replayed that were made since
      its entry was written.  The two are equal if and only if there were none.
     */
    method FindOne(id: string) returns (r: Result<Citation>)
      requires Valid()
      modifies this`cache, this`origins
      ensures Valid()
      ensures id !in rows ==> r == Err(NotFound) && cache == old(cache)
      ensures id in rows ==>
                && r.Ok? && cache == old(cache)[DetailKey(id) := DetailValue(r.value)]
                && rows[id] == Touched(r.value, ChangesSince(DetailKey(id)))
                && rows[id].reportCount == r.value.reportCount + Reports(ChangesSince(DetailKey(id)), id)
                && (r.value == rows[id] <==> Reports(ChangesSince(DetailKey(id)), id) == 0)
      ensures ChangesSince(DetailKey(id)) == old(ChangesSince(DetailKey(id)))
      ensures DetailKey(id) in old(cache) ==> old(cache)[DetailKey(id)] == DetailValue(r.value)
    {
      hide Answer, ListExact, LikersOf, HasListings;
      var key := DetailKey(id);
      if key in cache {
        TouchedColumns(cache[key].citation, ChangesSince(key));
        return Ok(cache[key].citation);
      }
      if id !in rows {
        return Err(NotFound);
      }
      CoherentAfterWrite(env, rows, cache, changes, origins, key, DetailValue(rows[id]));
      cache := cache[key := DetailValue(rows[id])];
      origins := origins[key := Origin(|changes|, rows)];
      r := Ok(rows[id]);
    }

    /**
      `findAll`: the page returned is the answer of the table at the time its entry was written, and
      the present table has grown from that one by the changes since.  It is the uncached answer
      exactly as `Current` says; as long as no row enters, the uncached answer is the page with the
      views and reports replayed.
     */
    method FindAll(q: Query) returns (page: ListPage)
      requires Valid()
      modifies this`cache, this`origins
      ensures Valid()
      ensures var before, since := TableThen(ListKey(q)), ChangesSince(ListKey(q));
              && page == Answer(env, before, q) && Grown(before, rows, since)
              && (page == Answer(env, rows, q) <==> Current(env, before, rows, q, page, since))
              && (!EndsFallback(env, before, rows, q) && Entering(env, before, rows, q, Exclusion(env, before, q)) == {} ==>
                    PageTouched(page, Answer(env, rows, q), since))
      ensures cache == old(cache)[ListKey(q) := ListValue(page)]
      ensures ChangesSince(ListKey(q)) == old(ChangesSince(ListKey(q))) && TableThen(ListKey(q)) == old(TableThen(ListKey(q)))
      ensures ListKey(q) in old(cache) ==> old(cache)[ListKey(q)] == ListValue(page)
    {
      hide Answer, LikersOf, DetailExact, Grown, Current, Entering, EndsFallback, Exclusion, HasListings, PageTouched;
      page := ReadList(q);
      PageAndTable(env, TableThen(ListKey(q)), rows, ChangesSince(ListKey(q)), q);
    }

    /** The cached page, or the answer computed and cached. */
    method ReadList(q: Query) returns (page: ListPage)
      requires Valid()
      modifies this`cache, this`origins
      ensures Valid()
      ensures page == Answer(env, TableThen(ListKey(q)), q)
      ensures Grown(TableThen(ListKey(q)), rows, ChangesSince(ListKey(q)))
      ensures cache == old(cache)[ListKey(q) := ListValue(page)]
      ensures ChangesSince(ListKey(q)) == old(ChangesSince(ListKey(q))) && TableThen(ListKey(q)) == old(TableThen(ListKey(q)))
      ensures ListKey(q) in old(cache) ==> old(cache)[ListKey(q)] == ListValue(page)
    {
      hide Answer, LikersOf, DetailExact, Grown, HasListings;
      var key := ListKey(q);
      if key in cache {
        return cache[key].page;
      }
      page := Query(q);
      GrownFromItself(rows);
      CoherentAfterWrite(env, rows, cache, changes, origins, key, ListValue(page));
      cache := cache[key := ListValue(page)];
      origins := origins[key := Origin(|changes|, rows)];
    }

    /** The rows with the given ids, in whatever order the database returns them. */
    method FetchRows(ids: seq<string>) returns (fetched: seq<Citation>)
      requires LikesAgree(rows, likes)
      ensures DistinctIds(fetched, IdOf)
      ensures forall c | c in fetched :: c.id in ids && c.id in rows && rows[c.id] == c
      ensures forall id | id in ids && id in rows :: rows[id] in fetched
    {
      var rest := set id | id in ids && id in rows;
      fetched := [];
      while rest != {}
        invariant forall id | id in rest :: id in ids && id in rows
        invariant forall c | c in fetched :: c.id in ids && c.id in rows && rows[c.id] == c && c.id !in rest
        invariant forall id | id in ids && id in rows :: id in rest || rows[id] in fetched
        invariant DistinctIds(fetched, IdOf)
      {
        var id :| id in rest;
        rest := rest - {id};
        fetched := fetched + [rows[id]];
      }
    }

    /** The part of `findAll` after a cache miss. */
    method Query(q: Query) returns (page: ListPage)
      requires LikesAgree(rows, likes)
      ensures page == Answer(env, rows, q)
    {
      var p := CalculatePagination(q.page, q.limit);
      var excludedIds := env.parseIds(q.excludeIds);
      if q.seed == [] {
        // the database returns the page of the ordered listing itself
        var listed := env.newestFirst(Matching(env, rows, q, excludedIds));
        var citations := InOrder(SeededShuffle.Page(listed, p.page, p.limit), rows);
        return ListPage(citations, |listed|, p.page, p.limit, TotalPages(|listed|, p.limit));
      }
      var matchingIds := env.unordered(Matching(env, rows, q, excludedIds));
      if |matchingIds| == 0 && excludedIds != {} {
        matchingIds := env.unordered(Matching(env, rows, q, {}));
      }
      var shuffledIds := Shuffle(matchingIds, q.seed);
      var pageIds := SeededShuffle.Page(shuffledIds, p.page, p.limit);
      var fetched := FetchRows(pageIds);
      var ordered := Reorder(pageIds, fetched, IdOf);
      FetchedIsEnough(pageIds, fetched, rows);
      page := ListPage(ordered, |shuffledIds|, p.page, p.limit, TotalPages(|shuffledIds|, p.limit));
    }

    /** `like` */
    method Like(id: string, user: string, now: int) returns (r: Result<nat>)
      requires Valid()
      modifies this
      ensures Valid()
      ensures r == if user == "" then Err(NotAuthenticated) else if id !in old(rows) then Err(NotFound)
                   else Ok(|LikersOf(likes, id)|)
      ensures likes == if r.Ok? then old(likes) + {(user, id)} else old(likes)
      ensures r.Err? || (user, id) in old(likes) ==> rows == old(rows) && cache == old(cache)
      ensures r.Ok? && (user, id) !in old(likes) ==>
                && rows == old(rows)[id := old(rows)[id].(likesCount := r.value, updatedAt := now)]
                && cache == map[]
    {
      if user == "" {
        return Err(NotAuthenticated);
      }
      if id !in rows {
        return Err(NotFound);
      }
      if (user, id) in likes {
        return Ok(rows[id].likesCount);
      }
      ghost var before := likes;
      likes := likes + {(user, id)};
      var c := rows[id];
      rows := rows[id := c.(likesCount := c.likesCount + 1, updatedAt := now)];
      forall other ensures |LikersOf(likes, other)| == |LikersOf(before, other)| + if other == id then 1 else 0 {
        LikersAfterAdd(before, (user, id), other);
      }
      cache := cache - {DetailKey(id)};
      CitationsPatternCoversAll(cache);
      cache := WithoutPattern(cache, CITATIONS_PATTERN);
      r := Ok(rows[id].likesCount);
    }

    /** `unlike`; the clamp at zero never fires. */
    method Unlike(id: string, user: string, now: int) returns (r: Result<nat>)
      requires Valid()
      modifies this
      ensures Valid()
      ensures r == if user == "" then Err(NotAuthenticated) else if id !in old(rows) then Err(NotFound)
                   else Ok(|LikersOf(likes, id)|)
      ensures likes == if r.Ok? then old(likes) - {(user, id)} else old(likes)
      ensures r.Err? || (user, id) !in old(likes) ==> rows == old(rows) && cache == old(cache)
      ensures r.Ok? && (user, id) in old(likes) ==>
                && rows == old(rows)[id := old(rows)[id].(likesCount := r.value, updatedAt := now)]
                && cache == map[]
    {
      if user == "" {
        return Err(NotAuthenticated);
      }
      if id !in rows {
        return Err(NotFound);
      }
      if (user, id) !in likes {
        return Ok(rows[id].likesCount);
      }
      ghost var before := likes;
      likes := likes - {(user, id)};
      var c := rows[id];
      var newCount := Max(0, c.likesCount - 1);
      rows := rows[id := c.(likesCount := newCount, updatedAt := now)];
      forall other ensures |LikersOf(likes, other)| == |LikersOf(before, other)| - if other == id then 1 else 0 {
        LikersAfterRemoval(before, (user, id), other);
      }
      cache := cache - {DetailKey(id)};
      CitationsPatternCoversAll(cache);
      cache := WithoutPattern(cache, CITATIONS_PATTERN);
      r := Ok(rows[id].likesCount);
    }

    /**
      `incrementView`: only the detail of the row is invalidated.  The separate counter is returned
      where it is ahead of the column, which never happens.
     */
    method IncrementView(id: string, now: int) returns (r: Result<nat>)
      requires Valid()
      modifies this`rows, this`cache, this`viewKeys, this`changes
      ensures Valid()
      ensures id !in old(rows) ==> r == Err(NotFound) && rows == old(rows) && cache == old(cache) && changes == old(changes)
      ensures id in old(rows) ==>
                var c := old(rows)[id];
                && r == Ok(c.viewCount + 1)
                && rows == old(rows)[id := c.(viewCount := c.viewCount + 1, updatedAt := now)]
                && cache == old(cache) - {DetailKey(id)}
                && changes == old(changes) + [Viewed(id, now)]
    {
      hide Answer, DetailExact, ListExact, Since, LikersOf;
      if id !in rows {
        return Err(NotFound);
      }
      var redisViews := (if id in viewKeys then viewKeys[id] else 0) + 1;
      viewKeys := viewKeys[id := redisViews];
      CoherentAfterRemoval(env, rows, cache, changes, origins, DetailKey(id));
      CoherentAfterChange(env, rows, cache - {DetailKey(id)}, changes, origins, Viewed(id, now));
      var c := rows[id];
      rows := rows[id := c.(viewCount := c.viewCount + 1, updatedAt := now)];
      cache := cache - {DetailKey(id)};
      changes := changes + [Viewed(id, now)];
      r := Ok(if redisViews > rows[id].viewCount then redisViews else rows[id].viewCount);
    }

    /** `report`: nothing is invalidated. */
    method Report(id: string, now: int) returns (r: Result<()>)
      requires Valid()
      modifies this`rows, this`changes
      ensures Valid()
      ensures id !in old(rows) ==> r == Err(NotFound) && rows == old(rows) && changes == old(changes)
      ensures id in old(rows) ==>
                var c := old(rows)[id];
                && r == Ok(()) && rows == old(rows)[id := c.(reportCount := c.reportCount + 1, updatedAt := now)]
                && changes == old(changes) + [Reported(id, now)]
    {
      hide Answer, DetailExact, ListExact, Since, LikersOf;
      if id !in rows {
        return Err(NotFound);
      }
      CoherentAfterChange(env, rows, cache, changes, origins, Reported(id, now));
      var c := rows[id];
      rows := rows[id := c.(reportCount := c.reportCount + 1, updatedAt := now)];
      changes := changes + [Reported(id, now)];
      r := Ok(());
    }

    /** The end of the lifetime of a key, at any moment. */
    method Expire(key: Key)
      requires Valid()
      modifies this`cache
      ensures Valid() && cache == old(cache) - {key}
    {
      CoherentAfterRemoval(env, rows, cache, changes, origins, key);
      cache := cache - {key};
    }
  }

  // ---------- Stale answers ----------

  /** A reported citation is still read without the report. */
  method StaleDetail(service: CitationsService, id: string, content: Content, now: int) returns (seen: Citation)
    requires service.Valid() && id !in service.rows && id !in service.viewKeys
    modifies service
    ensures service.Valid() && id in service.rows
    ensures seen.reportCount == 0 && service.rows[id].reportCount == 1
  {
    var _ := service.Create(id, content, now);
    var _ := service.FindOne(id);
    var _ := service.Report(id, now + 1);
    var again := service.FindOne(id);
    seen := again.value;
  }

  /** After a view of a listed citation the list is answered as before, and so no longer as it should be. */
  method StaleList(service: CitationsService, q: Query, now: int) returns (page: ListPage, again: ListPage)
    requires service.Valid()
    modifies service
    ensures service.Valid()
    ensures page.data != [] ==> again == page && again != Answer(service.env, service.rows, q)
  {
    hide Answer, CitationsService.Valid, Views, Reports, TouchOne, Since, Grown, Entering, EndsFallback, Exclusion, PageTouched;
    page := service.FindAll(q);
    again := page;
    if page.data != [] {
      ghost var before, at := service.changes, service.origins;
      CachedSince(service, ListKey(q));
      FirstRowExists(service, q, page);
      var id := page.data[0].id;
      var _ := service.IncrementView(id, now);
      again := service.FindAll(q);
      ViewedSince(before, at, ListKey(q), Viewed(id, now));
    }
  }

  /** After an approval that the query lists, the list is answered without the new citation. */
  method StaleAfterApproval(service: CitationsService, q: Query, id: string, textMg: string, textFr: string,
                            meaning: string, region: Option<string>, now: int) returns (page: ListPage, again: ListPage)
    requires service.Valid() && id !in service.rows && id !in service.viewKeys
    requires Matches(service.env, q, service.env.parseIds(q.excludeIds), ApprovedCitation(id, textMg, textFr, meaning, region, now))
    modifies service
    ensures service.Valid() && again == page
    ensures again != Answer(service.env, service.rows, q) || (q.seed != [] && page.data == [])
  {
    hide Answer, CitationsService.Valid, Grown, Untouched, Matches, ApprovedCitation, Matching, PageTouched;
    page := service.FindAll(q);
    ghost var before := service.TableThen(ListKey(q));
    CachedSince(service, ListKey(q));
    NotYetStored(before, service.rows, service.ChangesSince(ListKey(q)), id);
    var c := service.PublishApproved(id, textMg, textFr, meaning, region, now);
    again := service.FindAll(q);
    assert id in Entering(service.env, before, service.rows, q, service.env.parseIds(q.excludeIds));
  }

  /** The rows of a cached page are stored. */
  lemma FirstRowExists(service: CitationsService, q: Query, page: ListPage)
    requires Grown(service.TableThen(ListKey(q)), service.rows, service.ChangesSince(ListKey(q)))
    requires page.data != [] && page == Answer(service.env, service.TableThen(ListKey(q)), q)
    ensures page.data[0].id in service.rows
  {
    hide Answer, Touched, PublishedIn;
    AnswerRows(service.env, service.TableThen(ListKey(q)), q);
  }

  /** A row that is not stored now was not stored before. */
  lemma NotYetStored(before: Table, rows: Table, changes: seq<Change>, id: string)
    requires Grown(before, rows, changes) && id !in rows
    ensures id !in before
  {
  }

  /** It is known since when an entry is cached. */
  lemma CachedSince(service: CitationsService, key: Key)
    requires service.Valid() && key in service.cache
    ensures key in service.origins && service.origins[key].at <= |service.changes|
  {
    hide EntryExact, HasListings;
  }

  lemma ViewedSince(changes: seq<Change>, origins: map<Key, Origin>, key: Key, t: Change)
    requires key in origins && origins[key].at <= |changes| && t.Viewed?
    ensures Views(Since(changes + [t], origins, key), t.id) > 0
  {
    hide Since;
    SinceSnoc(changes, origins, key, t);
    var since := Since(changes, origins, key) + [t];
    assert since[|since| - 1] == t;
  }
}
