/** The client's sync orchestrator (`useSyncNotes`): it snapshots the cached
    note list into a change batch, guards against a second sync while one is
    in flight, merges the server's answer back into the cache, keeps the
    conflict queue, resolves conflicts, and owns the auto-sync timer.  Each
    operation is a pure transition on the hook's state, taken at the moment
    its callback returns. */
module SyncClient {
  import opened Wrappers
  import opened NoteTypes
  import ApiClient
  import Seqs

  /** A handle returned by `setInterval`. */
  type TimerId = nat

  datatype ClientState = ClientState(
    notes: Option<seq<Note>>,     // the cached note list; None before it is loaded
    conflicts: seq<Conflict>,     // the conflict queue
    isSyncing: bool,
    error: Option<string>,
    timer: Option<TimerId>,       // the handle the hook keeps
    liveTimers: set<TimerId>)     // the intervals actually running

  /** The request a sync sends for one cached note. */
  function ToChange(n: Note): Change {
    Change(Some(n.id), Some(n.title), Some(n.content), Some(n.version))
  }

  /** The batch a sync sends: one change per cached note, in cache order,
      based on the cached version; an unloaded cache sends an empty batch. */
  function Snapshot(notes: Option<seq<Note>>): (r: seq<Change>)
    ensures notes.None? ==> r == []
    ensures notes.Some? ==> |r| == |notes.value|
    ensures notes.Some? ==> forall i :: 0 <= i < |r| ==>
              && r[i].id == Some(notes.value[i].id)
              && r[i].title == Some(notes.value[i].title)
              && r[i].content == Some(notes.value[i].content)
              && r[i].baseVersion == Some(notes.value[i].version)
  {
    match notes
    case None => []
    case Some(ns) => seq(|ns|, i requires 0 <= i < |ns| => ToChange(ns[i]))
  }

  /** Some applied entry reports note `id`. */
  predicate MentionsId(applied: seq<SyncedNote>, id: Id) {
    exists k :: 0 <= k < |applied| && applied[k].id == id
  }

  /** The entry a `Map` built from `applied` holds for `id`: the last one. */
  function LastApplied(applied: seq<SyncedNote>, id: Id): (r: Option<SyncedNote>)
    ensures r.None? <==> !MentionsId(applied, id)
    ensures r.Some? ==> exists k :: 0 <= k < |applied| && applied[k] == r.value && r.value.id == id
                          && forall m :: k < m < |applied| ==> applied[m].id != id
    decreases |applied|
  {
    if |applied| == 0 then None
    else if applied[|applied| - 1].id == id then Some(applied[|applied| - 1])
    else
      var r := LastApplied(applied[..|applied| - 1], id);
      assert forall k :: 0 <= k < |applied| - 1 ==> applied[..|applied| - 1][k] == applied[k];
      r
  }

  /** The `onSuccess` cache update: with a non-empty `applied` list, an
      unloaded cache becomes the applied notes and a loaded one has each
      entry replaced by the applied note with its id. */
  function MergeApplied(notes: Option<seq<Note>>, applied: seq<SyncedNote>): (r: Option<seq<Note>>)
    ensures |applied| == 0 ==> r == notes
    ensures |applied| > 0 && notes.None? ==>
              r.Some? && |r.value| == |applied|
              && forall i :: 0 <= i < |applied| ==> r.value[i] == FromSynced(applied[i])
    ensures notes.Some? ==> r.Some? && |r.value| == |notes.value|
    ensures notes.Some? ==> forall i :: 0 <= i < |notes.value| ==>
              && r.value[i].id == notes.value[i].id
              && (!MentionsId(applied, notes.value[i].id) ==> r.value[i] == notes.value[i])
              && (MentionsId(applied, notes.value[i].id) ==>
                    r.value[i] == FromSynced(LastApplied(applied, notes.value[i].id).value))
  {
    if |applied| == 0 then notes
    else match notes
      case None => Some(seq(|applied|, i requires 0 <= i < |applied| => FromSynced(applied[i])))
      case Some(ns) =>
        Some(seq(|ns|, i requires 0 <= i < |ns| =>
          match LastApplied(applied, ns[i].id)
          case Some(a) => FromSynced(a)
          case None => ns[i]))
  }

  datatype TriggerResult = TriggerResult(state: ClientState, request: Option<seq<Change>>)

  /** `syncNotes`: a trigger while a sync is in flight is dropped; otherwise
      the sync starts (`onMutate` sets the flag and clears the error) and the
      snapshot of the cache is sent. */
  function Trigger(s: ClientState): (r: TriggerResult)
    ensures s.isSyncing ==> r.state == s && r.request.None?
    ensures !s.isSyncing ==>
              r.state == s.(isSyncing := true, error := None)
              && r.request == Some(Snapshot(s.notes))
    ensures r.state.isSyncing
  {
    if s.isSyncing then TriggerResult(s, None)
    else TriggerResult(s.(isSyncing := true, error := None), Some(Snapshot(s.notes)))
  }

  /** `onSuccess`: merge the applied notes, replace the conflict queue by the
      response's conflicts, and clear the in-flight flag. */
  function ApplySuccess(s: ClientState, resp: SyncResponse): (r: ClientState)
    ensures r.notes == MergeApplied(s.notes, resp.applied)
    ensures r.conflicts == resp.conflicts
    ensures !r.isSyncing
    ensures r.error == s.error && r.timer == s.timer && r.liveTimers == s.liveTimers
  {
    s.(notes := MergeApplied(s.notes, resp.applied),
       conflicts := if |resp.conflicts| > 0 then resp.conflicts else [],
       isSyncing := false)
  }

  /** `onError`: record the message and clear the in-flight flag; the cache
      and the conflict queue are left as they were. */
  function ApplyError(s: ClientState, e: ApiClient.ErrorValue): (r: ClientState)
    ensures r.notes == s.notes && r.conflicts == s.conflicts
    ensures !r.isSyncing && r.error == Some(ApiClient.ExtractErrorMessage(e))
    ensures r.timer == s.timer && r.liveTimers == s.liveTimers
  {
    s.(error := Some(ApiClient.ExtractErrorMessage(e)), isSyncing := false)
  }

  /** The hook's timer handle names the only running interval, if any. */
  predicate TimersConsistent(s: ClientState) {
    s.liveTimers == (if s.timer.Some? then {s.timer.value} else {})
  }

  /** `stopAutoSync`: clear the interval the hook holds, if any. */
  function StopAutoSync(s: ClientState): (r: ClientState)
    ensures r.timer.None?
    ensures s.timer.Some? ==> r.liveTimers == s.liveTimers - {s.timer.value}
    ensures s.timer.None? ==> r == s
    ensures r.notes == s.notes && r.conflicts == s.conflicts && r.isSyncing == s.isSyncing
    ensures TimersConsistent(s) ==> TimersConsistent(r) && r.liveTimers == {}
  {
    match s.timer
    case Some(t) => s.(liveTimers := s.liveTimers - {t}, timer := None)
    case None => s
  }

  /** `startAutoSync`: stop the previous interval, then start a new one whose
      handle the environment supplies. */
  function StartAutoSync(s: ClientState, handle: TimerId): (r: ClientState)
    ensures r.timer == Some(handle) && handle in r.liveTimers
    ensures s.timer.Some? && s.timer.value != handle ==> s.timer.value !in r.liveTimers
    ensures TimersConsistent(s) ==> TimersConsistent(r) && r.liveTimers == {handle}
    ensures r.notes == s.notes && r.conflicts == s.conflicts && r.isSyncing == s.isSyncing
  {
    var stopped := StopAutoSync(s);
    stopped.(timer := Some(handle), liveTimers := stopped.liveTimers + {handle})
  }

  /** The interval firing: the same guarded trigger as a manual sync. */
  function Tick(s: ClientState): (r: TriggerResult)
    ensures s.isSyncing ==> r.state == s && r.request.None?
    ensures !s.isSyncing ==> r.request == Some(Snapshot(s.notes)) && r.state.isSyncing
    ensures r.state.notes == s.notes && r.state.conflicts == s.conflicts && r.state.timer == s.timer
  {
    Trigger(s)
  }

  /** A conflict stays queued unless it is about the resolved note. */
  function OtherConflict(id: Id): Conflict -> bool {
    (c: Conflict) => c.ConflictId() != Some(id)
  }

  /** The conflict queue without the entries for `id`, in order. */
  function RemoveConflicts(cs: seq<Conflict>, id: Id): (r: seq<Conflict>)
    ensures |r| <= |cs|
    ensures forall c :: c in r <==> c in cs && c.ConflictId() != Some(id)
    // Every other conflict stays as often as it was queued.
    ensures forall c: Conflict :: c.ConflictId() != Some(id) ==> multiset(r)[c] == multiset(cs)[c]
  {
    Seqs.FilterCounts(cs, OtherConflict(id));
    Seqs.Filter(cs, OtherConflict(id))
  }

  /** Removing from a concatenated queue removes from each part and keeps the
      parts in order, so the kept conflicts keep their queue order. */
  lemma RemoveConflictsKeepsOrder(a: seq<Conflict>, b: seq<Conflict>, id: Id)
    ensures RemoveConflicts(a + b, id) == RemoveConflicts(a, id) + RemoveConflicts(b, id)
  {
    Seqs.FilterAppend(a, b, OtherConflict(id));
  }

  /** `conflicts.find`: the first queued conflict for `id`. */
  function FindConflict(cs: seq<Conflict>, id: Id): (r: Option<Conflict>)
    ensures r.None? <==> forall c :: c in cs ==> c.ConflictId() != Some(id)
    ensures r.Some? ==> r.value in cs && r.value.ConflictId() == Some(id)
    // It is the first such conflict: none before it has the id.
    ensures r.Some? ==>
              exists k :: 0 <= k < |cs| && cs[k] == r.value
                          && forall m :: 0 <= m < k ==> cs[m].ConflictId() != Some(id)
  {
    if |cs| == 0 then None
    else if cs[0].ConflictId() == Some(id) then Some(cs[0])
    else
      var r := FindConflict(cs[1..], id);
      assert r.Some? ==> exists k :: 0 <= k < |cs| && cs[k] == r.value
                                     && forall m :: 0 <= m < k ==> cs[m].ConflictId() != Some(id) by {
        if r.Some? {
          var k :| 0 <= k < |cs[1..]| && cs[1..][k] == r.value
                   && forall m :: 0 <= m < k ==> cs[1..][m].ConflictId() != Some(id);
          assert cs[k + 1] == r.value;
          assert forall m :: 0 <= m < k + 1 ==> cs[m].ConflictId() != Some(id) by {
            forall m | 0 <= m < k + 1 ensures cs[m].ConflictId() != Some(id) {
              if m > 0 { assert cs[m] == cs[1..][m - 1]; }
            }
          }
        }
      }
      r
  }

  /** `notes.find`: the first cached note with `id`. */
  function FindNote(notes: seq<Note>, id: Id): (r: Option<Note>)
    ensures r.None? <==> forall n :: n in notes ==> n.id != id
    ensures r.Some? ==> r.value in notes && r.value.id == id
    // It is the first such note: none before it has the id.
    ensures r.Some? ==>
              exists k :: 0 <= k < |notes| && notes[k] == r.value
                          && forall m :: 0 <= m < k ==> notes[m].id != id
  {
    if |notes| == 0 then None
    else if notes[0].id == id then Some(notes[0])
    else
      var r := FindNote(notes[1..], id);
      assert r.Some? ==> exists k :: 0 <= k < |notes| && notes[k] == r.value
                                     && forall m :: 0 <= m < k ==> notes[m].id != id by {
        if r.Some? {
          var k :| 0 <= k < |notes[1..]| && notes[1..][k] == r.value
                   && forall m :: 0 <= m < k ==> notes[1..][m].id != id;
          assert notes[k + 1] == r.value;
          assert forall m :: 0 <= m < k + 1 ==> notes[m].id != id by {
            forall m | 0 <= m < k + 1 ensures notes[m].id != id {
              if m > 0 { assert notes[m] == notes[1..][m - 1]; }
            }
          }
        }
      }
      r
  }

  datatype Policy = Local | Server | Merge

  /** The separator the merge policy puts between local and server content. */
  const MergeSeparator := "\n\n--- Server Version ---\n"

  /** Every entry with `id` rewritten by `f`; the others untouched. */
  function MapId(notes: seq<Note>, id: Id, f: Note -> Note): (r: seq<Note>)
    ensures |r| == |notes|
    ensures forall i :: 0 <= i < |notes| ==> r[i] == (if notes[i].id == id then f(notes[i]) else notes[i])
  {
    seq(|notes|, i requires 0 <= i < |notes| => if notes[i].id == id then f(notes[i]) else notes[i])
  }

  datatype ResolveResult = ResolveResult(state: ClientState, request: Option<seq<Change>>)

  /** `resolveConflict(id, policy)`, with `now` the timestamp it writes. */
  function Resolve(s: ClientState, id: Id, policy: Policy, now: Stamp): (r: ResolveResult)
    // An id with no queued conflict changes nothing.
    ensures FindConflict(s.conflicts, id).None? ==> r == ResolveResult(s, None)
    // Otherwise exactly the conflicts with that id leave the queue.
    ensures FindConflict(s.conflicts, id).Some? ==>
              r.state.conflicts == RemoveConflicts(s.conflicts, id)
    // Only 'local' contacts the server, through the guarded trigger.
    ensures FindConflict(s.conflicts, id).Some? && policy == Local ==>
              r.request == Trigger(s).request && r.state.notes == s.notes && r.state.isSyncing
    ensures policy != Local ==> r.request.None? && r.state.isSyncing == s.isSyncing
    // Without server data, 'server' and 'merge' only dequeue.
    ensures FindConflict(s.conflicts, id).Some? && !FindConflict(s.conflicts, id).value.VersionConflict?
            && policy != Local ==>
              r.state == s.(conflicts := RemoveConflicts(s.conflicts, id))
    // 'server' takes the server's title, content and version for the entries
    // with that id; the others are untouched.
    ensures var c := FindConflict(s.conflicts, id);
            c.Some? && c.value.VersionConflict? && policy == Server ==>
              var ns := s.notes.GetOr([]);
              r.state.notes.Some? && |r.state.notes.value| == |ns|
              && forall i :: 0 <= i < |ns| ==>
                   var n := r.state.notes.value[i];
                   if ns[i].id == id then
                     n == ns[i].(title := c.value.serverData.title, content := c.value.serverData.content,
                                 version := c.value.serverVersion, updatedAt := Some(now))
                   else n == ns[i]
    // 'merge' appends the server content to the local content under a
    // separator, adopts the server version and keeps the local title.
    ensures var c := FindConflict(s.conflicts, id);
            c.Some? && c.value.VersionConflict? && policy == Merge
            && s.notes.Some? && FindNote(s.notes.value, id).Some? ==>
              var ns := s.notes.value;
              var local := FindNote(ns, id).value;
              r.state.notes.Some? && |r.state.notes.value| == |ns|
              && forall i :: 0 <= i < |ns| ==>
                   var n := r.state.notes.value[i];
                   if ns[i].id == id then
                     n == ns[i].(content := local.content + MergeSeparator + c.value.serverData.content,
                                 version := c.value.serverVersion, updatedAt := Some(now))
                   else n == ns[i]
    ensures var c := FindConflict(s.conflicts, id);
            c.Some? && policy == Merge && (s.notes.None? || FindNote(s.notes.value, id).None?) ==>
              r.state.notes == s.notes
  {
    match FindConflict(s.conflicts, id)
    case None => ResolveResult(s, None)
    case Some(c) =>
      var dequeue := (st: ClientState) => st.(conflicts := RemoveConflicts(st.conflicts, id));
      if policy == Server && c.VersionConflict? then
        var updated := MapId(s.notes.GetOr([]), id,
          (n: Note) => n.(title := c.serverData.title, content := c.serverData.content,
                  version := c.serverVersion, updatedAt := Some(now)));
        ResolveResult(dequeue(s.(notes := Some(updated))), None)
      else if policy == Local then
        var t := Trigger(s);
        ResolveResult(dequeue(t.state), t.request)
      else if policy == Merge && c.VersionConflict? then
        if s.notes.Some? && FindNote(s.notes.value, id).Some? then
          var merged := FindNote(s.notes.value, id).value.content + MergeSeparator + c.serverData.content;
          var updated := MapId(s.notes.value, id,
            (n: Note) => n.(content := merged, version := c.serverVersion, updatedAt := Some(now)));
          ResolveResult(dequeue(s.(notes := Some(updated))), None)
        else ResolveResult(dequeue(s), None)
      else ResolveResult(dequeue(s), None)
  }

  /** Two triggers with no answer between them send exactly one request. */
  lemma OneRequestInFlight(s: ClientState)
    requires !s.isSyncing
    ensures Trigger(s).request.Some?
    ensures Trigger(Trigger(s).state).request.None?
    ensures Trigger(Trigger(s).state).state == Trigger(s).state
  {
  }

  /** Any sequence of timer starts and stops keeps at most one interval
      running, the one the hook holds. */
  lemma {:induction false} AtMostOneInterval(s: ClientState, ops: seq<Option<TimerId>>)
    requires TimersConsistent(s)
    ensures TimersConsistent(RunTimerOps(s, ops)) && |RunTimerOps(s, ops).liveTimers| <= 1
    decreases |ops|
  {
    if |ops| > 0 {
      var next := if ops[0].Some? then StartAutoSync(s, ops[0].value) else StopAutoSync(s);
      AtMostOneInterval(next, ops[1..]);
    } else {
      assert s.liveTimers == {} || s.liveTimers == {s.timer.value};
    }
  }

  /** Apply start (`Some(handle)`) and stop (`None`) calls in order. */
  function RunTimerOps(s: ClientState, ops: seq<Option<TimerId>>): ClientState
    decreases |ops|
  {
    if |ops| == 0 then s
    else
      var next := if ops[0].Some? then StartAutoSync(s, ops[0].value) else StopAutoSync(s);
      RunTimerOps(next, ops[1..])
  }
}
