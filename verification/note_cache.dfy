/** The client's optimistic single-note writes and batch delete
    (`useCreateNote`, `useUpdateNote`, `useDeleteNote`, `deleteMultiple`) and
    the local search filter (`useNotes`).  Each write snapshots the cache,
    applies its draft at once, and on failure puts the snapshot back. */
module NoteCache {
  import opened Wrappers
  import opened NoteTypes
  import Strings
  import ApiClient
  import Seqs

  /** The cached note list and the cached single-note queries, by id. */
  datatype QueryCache = QueryCache(list: Option<seq<Note>>, details: map<Id, Note>)

  /** Put a snapshot back when the mutation took one; otherwise keep what is
      cached. */
  function Rollback(current: Option<seq<Note>>, snapshot: Option<seq<Note>>): (r: Option<seq<Note>>)
    ensures snapshot.Some? ==> r == snapshot
    ensures snapshot.None? ==> r == current
  {
    if snapshot.Some? then snapshot else current
  }

  // ---- create ----

  /** The placeholder id: the `temp-` prefix followed by the creation time
      in milliseconds. */
  function TempId(millis: nat): Id {
    "temp-" + Strings.NatToString(millis)
  }

  predicate IsTemp(n: Note) {
    Strings.StartsWith(n.id, "temp-")
  }

  /** A note survives a successful create unless it is a placeholder. */
  function NotTemp(): Note -> bool {
    (n: Note) => !IsTemp(n)
  }

  datatype Draft = Draft(list: Option<seq<Note>>, snapshot: Option<seq<Note>>)

  /** `onMutate` of a create: a loaded list gets a placeholder note in front,
      at version 0, stamped `now`. */
  function BeginCreate(list: Option<seq<Note>>, title: string, content: string, millis: nat, now: Stamp): (r: Draft)
    ensures r.snapshot == list
    ensures list.None? ==> r.list == list
    ensures list.Some? ==>
              r.list.Some? && |r.list.value| == |list.value| + 1
              && r.list.value[1..] == list.value
              && var t := r.list.value[0];
                 IsTemp(t) && t.version == 0 && t.title == title && t.content == content
  {
    match list
    case None => Draft(list, list)
    case Some(prev) =>
      var placeholder := Note(TempId(millis), title, content, 0, Some(now), Some(now));
      assert Strings.StartsWith(placeholder.id, "temp-");
      Draft(Some([placeholder] + prev), list)
  }

  /** `onSuccess` of a create: drop every placeholder and put the server's
      note in front. */
  function CreateSucceeded(list: Option<seq<Note>>, created: Note): (r: Option<seq<Note>>)
    ensures r.Some? && |r.value| >= 1 && r.value[0] == created
    ensures list.None? ==> r == Some([created])
    ensures list.Some? ==> forall n :: n in r.value[1..] <==> n in list.value && !IsTemp(n)
    // The notes kept after it are the list's non-placeholders, in list order
    // and as often as they occur there.
    ensures list.Some? ==> r.value[1..] == Seqs.Filter(list.value, NotTemp())
  {
    match list
    case None => Some([created])
    case Some(prev) => Some([created] + Seqs.Filter(prev, NotTemp()))
  }

  /** A failed create restores exactly the list it started from. */
  lemma CreateRollback(list: Option<seq<Note>>, title: string, content: string, millis: nat, now: Stamp)
    ensures var d := BeginCreate(list, title, content, millis, now);
            Rollback(d.list, d.snapshot) == list
  {
  }

  // ---- update ----

  /** The variables of an update: the note id and its new title and content. */
  datatype UpdateVars = UpdateVars(id: Id, title: string, content: string)

  datatype UpdateDraft = UpdateDraft(cache: QueryCache, previousNote: Option<Note>, previousNotes: Option<seq<Note>>)

  /** Every entry with `id` replaced by `n`. */
  function ReplaceId(ns: seq<Note>, id: Id, n: Note): (r: seq<Note>)
    ensures |r| == |ns|
    ensures forall i :: 0 <= i < |ns| ==> r[i] == (if ns[i].id == id then n else ns[i])
  {
    seq(|ns|, i requires 0 <= i < |ns| => if ns[i].id == id then n else ns[i])
  }

  /** `onMutate` of an update: only when the single-note query is cached, the
      edited note replaces it and every list entry with that id. */
  function BeginUpdate(c: QueryCache, v: UpdateVars, now: Stamp): (r: UpdateDraft)
    ensures r.previousNotes == c.list
    ensures r.previousNote == (if v.id in c.details then Some(c.details[v.id]) else None)
    ensures v.id !in c.details ==> r.cache == c
    ensures v.id in c.details ==>
              var edited := c.details[v.id].(id := v.id, title := v.title, content := v.content, updatedAt := Some(now));
              r.cache.details == c.details[v.id := edited]
              && (c.list.Some? ==> r.cache.list == Some(ReplaceId(c.list.value, v.id, edited)))
              && (c.list.None? ==> r.cache.list.None?)
  {
    var previousNote := if v.id in c.details then Some(c.details[v.id]) else None;
    match previousNote
    case None => UpdateDraft(c, None, c.list)
    case Some(p) =>
      var edited := p.(id := v.id, title := v.title, content := v.content, updatedAt := Some(now));
      var list := if c.list.Some? then Some(ReplaceId(c.list.value, v.id, edited)) else c.list;
      UpdateDraft(QueryCache(list, c.details[v.id := edited]), previousNote, c.list)
  }

  /** `onError` of an update: put back whichever snapshots exist. */
  function UpdateFailed(c: QueryCache, id: Id, previousNote: Option<Note>, previousNotes: Option<seq<Note>>): (r: QueryCache)
    ensures r.list == Rollback(c.list, previousNotes)
    ensures previousNote.Some? ==> r.details == c.details[id := previousNote.value]
    ensures previousNote.None? ==> r.details == c.details
  {
    var details := if previousNote.Some? then c.details[id := previousNote.value] else c.details;
    QueryCache(Rollback(c.list, previousNotes), details)
  }

  /** `onSuccess` of an update: the server's note replaces the single-note
      query and every list entry with its id. */
  function UpdateSucceeded(c: QueryCache, saved: Note): (r: QueryCache)
    ensures r.details == c.details[saved.id := saved]
    ensures c.list.None? ==> r.list == Some([saved])
    ensures c.list.Some? ==> r.list == Some(ReplaceId(c.list.value, saved.id, saved))
  {
    var list := if c.list.None? then Some([saved]) else Some(ReplaceId(c.list.value, saved.id, saved));
    QueryCache(list, c.details[saved.id := saved])
  }

  /** A failed update restores exactly the cache it started from. */
  lemma UpdateRollback(c: QueryCache, v: UpdateVars, now: Stamp)
    ensures var d := BeginUpdate(c, v, now);
            UpdateFailed(d.cache, v.id, d.previousNote, d.previousNotes) == c
  {
    var d := BeginUpdate(c, v, now);
    if v.id in c.details {
      assert d.cache.details[v.id := c.details[v.id]] == c.details;
    }
  }

  // ---- delete ----

  /** A note survives a delete unless it carries the deleted id. */
  function OtherId(id: Id): Note -> bool {
    (n: Note) => n.id != id
  }

  /** `onMutate` of a delete: a loaded list loses every entry with `id`. */
  function BeginDelete(list: Option<seq<Note>>, id: Id): (r: Draft)
    ensures r.snapshot == list
    ensures list.None? ==> r.list.None?
    ensures list.Some? ==>
              r.list.Some? && forall n :: n in r.list.value <==> n in list.value && n.id != id
    // The kept entries stay in list order with their multiplicity.
    ensures list.Some? ==> r.list == Some(Seqs.Filter(list.value, OtherId(id)))
  {
    match list
    case None => Draft(None, None)
    case Some(prev) => Draft(Some(Seqs.Filter(prev, OtherId(id))), list)
  }

  /** `onSuccess` of a delete: the single-note query is dropped. */
  function DeleteSucceeded(c: QueryCache, id: Id): (r: QueryCache)
    ensures r.list == c.list
    ensures id !in r.details && forall k :: k in c.details && k != id ==> k in r.details && r.details[k] == c.details[k]
    ensures r.details.Keys == c.details.Keys - {id}
  {
    c.(details := c.details - {id})
  }

  /** A failed delete restores exactly the list it started from. */
  lemma DeleteRollback(list: Option<seq<Note>>, id: Id)
    ensures var d := BeginDelete(list, id);
            Rollback(d.list, d.snapshot) == list
  {
  }

  /** A delete that finds no entry with its id leaves the list as it was. */
  lemma DeleteAbsentIsIdentity(ns: seq<Note>, id: Id)
    requires forall n :: n in ns ==> n.id != id
    ensures BeginDelete(Some(ns), id).list == Some(ns)
  {
    Seqs.FilterAll(ns, OtherId(id));
  }

  // ---- batch delete ----

  /** The cache and the hook's error after a batch, and the error the
      returned promise rejects with, if any. */
  datatype BatchResult = BatchResult(cache: QueryCache, error: Option<string>, rejected: Option<ApiClient.ErrorValue>)

  /** A note survives the batch when its id is not one of those deleted. */
  function NotAmong(ids: seq<Id>): Note -> bool {
    (n: Note) => n.id !in ids
  }

  /** `deleteMultiple(ids)`: `failure` is the first rejected delete request,
      if any, and `prior` the error the hook already shows.  When every delete
      succeeds the list loses those ids (an unloaded list becomes empty) and
      their single-note queries are dropped; the hook never resets its error,
      so `prior` stays.  When one fails the cache is untouched, the message is
      recorded and the failure is thrown on to the caller. */
  function DeleteMultiple(c: QueryCache, ids: seq<Id>, failure: Option<ApiClient.ErrorValue>, prior: Option<string>): (r: BatchResult)
    ensures failure.Some? ==>
              r.cache == c && r.error == Some(ApiClient.ExtractErrorMessage(failure.value))
              && r.rejected == failure
    ensures failure.None? ==>
              r.error == prior && r.rejected.None? && r.cache.list.Some?
              && (forall n :: n in r.cache.list.value <==> n in c.list.GetOr([]) && n.id !in ids)
              && r.cache.list.value == Seqs.Filter(c.list.GetOr([]), NotAmong(ids))
              && (forall k :: k in r.cache.details <==> k in c.details && k !in ids)
              && (forall k :: k in r.cache.details ==> r.cache.details[k] == c.details[k])
  {
    match failure
    case Some(e) => BatchResult(c, Some(ApiClient.ExtractErrorMessage(e)), failure)
    case None =>
      var list := Seqs.Filter(c.list.GetOr([]), NotAmong(ids));
      BatchResult(QueryCache(Some(list), c.details - set k | k in ids), prior, None)
  }

  /** The message of a failed batch stays on show after a later batch
      succeeds: only a new failure replaces it. */
  lemma StaleBatchError(c: QueryCache, first: seq<Id>, second: seq<Id>, e: ApiClient.ErrorValue, prior: Option<string>)
    ensures var failed := DeleteMultiple(c, first, Some(e), prior);
            var later := DeleteMultiple(failed.cache, second, None, failed.error);
            later.error == Some(ApiClient.ExtractErrorMessage(e)) && later.rejected.None?
  {
  }

  /** The single deletes of `ids`, one after another, on the cached list. */
  function DeleteEach(list: Option<seq<Note>>, ids: seq<Id>): Option<seq<Note>>
    decreases |ids|
  {
    if |ids| == 0 then list else DeleteEach(BeginDelete(list, ids[0]).list, ids[1..])
  }

  /** On a loaded list a successful batch delete leaves the same list as
      deleting its ids one at a time. */
  lemma BatchIsDeletesInTurn(c: QueryCache, ids: seq<Id>)
    requires c.list.Some?
    ensures forall prior :: DeleteMultiple(c, ids, None, prior).cache.list == DeleteEach(c.list, ids)
  {
    DeletesInTurn(c.list.value, ids);
  }

  lemma {:induction false} DeletesInTurn(ns: seq<Note>, ids: seq<Id>)
    ensures DeleteEach(Some(ns), ids) == Some(Seqs.Filter(ns, NotAmong(ids)))
    decreases |ids|
  {
    if |ids| == 0 {
      Seqs.FilterAll(ns, NotAmong(ids));
    } else {
      var first := Seqs.Filter(ns, OtherId(ids[0]));
      assert DeleteEach(Some(ns), ids) == DeleteEach(Some(first), ids[1..]);
      DeletesInTurn(first, ids[1..]);
      NotAmongCons(ids);
      Seqs.FilterTwice(ns, OtherId(ids[0]), NotAmong(ids[1..]), NotAmong(ids));
    }
  }

  /** Missing from `ids` is differing from its first id and missing from the
      rest. */
  lemma NotAmongCons(ids: seq<Id>)
    requires |ids| > 0
    ensures forall n: Note :: NotAmong(ids)(n) == (OtherId(ids[0])(n) && NotAmong(ids[1..])(n))
  {
    assert ids == [ids[0]] + ids[1..];
  }

  // ---- search ----

  /** A note matches the search box when the query is empty or occurs in its
      lower-cased title or content. */
  predicate Matches(n: Note, query: string) {
    query == ""
    || Strings.Contains(Strings.ToLower(n.title), Strings.ToLower(query))
    || Strings.Contains(Strings.ToLower(n.content), Strings.ToLower(query))
  }

  /** The search test as a function of the note. */
  function MatchesQuery(query: string): Note -> bool {
    (n: Note) => Matches(n, query)
  }

  /** The notes `useNotes` returns: the loaded list filtered by the query, or
      nothing before the list is loaded. */
  function Visible(data: Option<seq<Note>>, query: string): (r: seq<Note>)
    ensures data.None? ==> r == []
    ensures forall n :: n in r <==> data.Some? && n in data.value && Matches(n, query)
    ensures data.Some? ==> |r| <= |data.value|
    // Shown in list order, each as often as it is cached.
    ensures data.Some? ==> r == Seqs.Filter(data.value, MatchesQuery(query))
  {
    match data
    case None => []
    case Some(ns) => Seqs.Filter(ns, MatchesQuery(query))
  }

  /** An empty search box shows the whole loaded list, in order. */
  lemma EmptyQueryShowsAll(ns: seq<Note>)
    ensures Visible(Some(ns), "") == ns
  {
    Seqs.FilterAll(ns, MatchesQuery(""));
  }

  /** `isEmpty`: not loading and nothing to show. */
  function IsEmpty(isLoading: bool, data: Option<seq<Note>>, query: string): (r: bool)
    ensures r <==> !isLoading && forall n :: data.Some? && n in data.value ==> !Matches(n, query)
  {
    var shown := Visible(data, query);
    assert |shown| > 0 ==> shown[0] in shown;
    !isLoading && |shown| == 0
  }
}
