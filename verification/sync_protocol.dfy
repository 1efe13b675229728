/** Properties of the protocol as a whole: the client's snapshot fed to the
    server's handler, the answer merged back, and what each conflict
    resolution leads to on the next sync. */
module SyncProtocol {
  import opened Wrappers
  import opened NoteTypes
  import opened SyncServer
  import opened SyncClient
  import NoteCache
  import ApiClient

  /** Every cached note exists on the server for this owner at the cached
      version. */
  predicate InStep(store: Store, user: UserId, ns: seq<Note>) {
    forall i :: 0 <= i < |ns| ==>
      (user, ns[i].id) in store && store[(user, ns[i].id)].version == ns[i].version
  }

  predicate NonEmptyIds(ns: seq<Note>) {
    forall i :: 0 <= i < |ns| ==> ns[i].id != ""
  }

  /** The applied list the server answers an in-step snapshot with. */
  function Bumped(ns: seq<Note>): (r: seq<SyncedNote>)
    ensures |r| == |ns|
    ensures forall i :: 0 <= i < |ns| ==> r[i].id == ns[i].id
  {
    seq(|ns|, i requires 0 <= i < |ns| => SyncedNote(ns[i].id, ns[i].title, ns[i].content, ns[i].version + 1))
  }

  /** A snapshot of notes with non-empty ids never draws a "Missing required
      fields" conflict. */
  lemma SnapshotIsWellFormed(store: Store, user: UserId, ns: seq<Note>, i: int)
    requires NonEmptyIds(ns) && 0 <= i < |ns|
    ensures !Run(store, user, Snapshot(Some(ns))).outcomes[i].Rejected?
            || !Run(store, user, Snapshot(Some(ns))).outcomes[i].conflict.MissingFields?
  {
    RunAt(store, user, Snapshot(Some(ns)), i);
  }

  /** Some note of `ns` has id `id`. */
  predicate Among(ns: seq<Note>, id: Id) {
    exists i :: 0 <= i < |ns| && ns[i].id == id
  }

  /** The first change of an in-step snapshot is applied as an update. */
  lemma InStepHead(store: Store, user: UserId, ns: seq<Note>)
    requires |ns| > 0 && ns[0].id != "" && InStep(store, user, ns)
    ensures var n := ns[0];
            var first := Step(store, user, Snapshot(Some(ns))[0]);
            && first.outcome == Updated(SyncedNote(n.id, n.title, n.content, n.version + 1))
            && first.store == store[(user, n.id) := Record(n.title, n.content, n.version + 1)]
  {
  }

  /** What the rest of an in-step snapshot still satisfies once its first
      note has been updated. */
  lemma InStepRest(store: Store, user: UserId, ns: seq<Note>)
    requires |ns| > 0 && DistinctIds(ns) && NonEmptyIds(ns) && InStep(store, user, ns)
    ensures var n := ns[0];
            var after := store[(user, n.id) := Record(n.title, n.content, n.version + 1)];
            var rest := ns[1..];
            DistinctIds(rest) && NonEmptyIds(rest) && InStep(after, user, rest) && !Among(rest, n.id)
  {
    var rest := ns[1..];
    forall i | 0 <= i < |rest| ensures rest[i] == ns[i + 1] && rest[i].id != ns[0].id { }
  }

  /** One unfolding of the loop, seen through the two response lists. */
  lemma RunCons(store: Store, user: UserId, cs: seq<Change>)
    requires |cs| > 0
    ensures var first := Step(store, user, cs[0]);
            var tail := Run(first.store, user, cs[1..]);
            var r := Run(store, user, cs);
            && r.store == tail.store
            && Applied(r.outcomes)
               == (if first.outcome.IsApplied() then [first.outcome.note] else []) + Applied(tail.outcomes)
            && Conflicts(r.outcomes)
               == (if first.outcome.Rejected? then [first.outcome.conflict] else []) + Conflicts(tail.outcomes)
  {
    var first := Step(store, user, cs[0]);
    var tail := Run(first.store, user, cs[1..]);
    assert ([first.outcome] + tail.outcomes)[1..] == tail.outcomes;
  }

  /** The server applies every change of an in-step snapshot as an update:
      no conflicts, and each note reported at its version plus one with the
      cached title and content. */
  lemma {:induction false} InStepSnapshotApplies(store: Store, user: UserId, ns: seq<Note>)
    requires DistinctIds(ns) && NonEmptyIds(ns) && InStep(store, user, ns)
    ensures var r := Run(store, user, Snapshot(Some(ns)));
            Conflicts(r.outcomes) == [] && Applied(r.outcomes) == Bumped(ns)
    decreases |ns|
  {
    var cs := Snapshot(Some(ns));
    if |ns| == 0 {
      assert cs == [];
    } else {
      var n := ns[0];
      var rest := ns[1..];
      var after := store[(user, n.id) := Record(n.title, n.content, n.version + 1)];
      InStepHead(store, user, ns);
      InStepRest(store, user, ns);
      assert cs[1..] == Snapshot(Some(rest));
      InStepSnapshotApplies(after, user, rest);
      RunCons(store, user, cs);
      BumpedCons(ns);
      CombineApplied(Run(store, user, cs), Step(store, user, cs[0]), Run(after, user, cs[1..]),
                     SyncedNote(n.id, n.title, n.content, n.version + 1), Bumped(rest));
    }
  }

  /** Bumped unfolds one note at a time. */
  lemma BumpedCons(ns: seq<Note>)
    requires |ns| > 0
    ensures Bumped(ns) == [SyncedNote(ns[0].id, ns[0].title, ns[0].content, ns[0].version + 1)] + Bumped(ns[1..])
  {
  }

  /** An update in front of a conflict-free tail adds its note in front of
      the applied list and no conflict. */
  lemma CombineApplied(r: RunResult, first: StepResult, tail: RunResult, note: SyncedNote, rest: seq<SyncedNote>)
    requires first.outcome == Updated(note)
    requires Conflicts(tail.outcomes) == [] && Applied(tail.outcomes) == rest
    requires Applied(r.outcomes)
             == (if first.outcome.IsApplied() then [first.outcome.note] else []) + Applied(tail.outcomes)
    requires Conflicts(r.outcomes)
             == (if first.outcome.Rejected? then [first.outcome.conflict] else []) + Conflicts(tail.outcomes)
    ensures Conflicts(r.outcomes) == [] && Applied(r.outcomes) == [note] + rest
  {
  }

  /** Each note of `ns` is stored in `final` one version up with its cached
      title and content. */
  predicate StoresBumped(final: Store, user: UserId, ns: seq<Note>) {
    forall i :: 0 <= i < |ns| ==>
      (user, ns[i].id) in final
      && final[(user, ns[i].id)] == Record(ns[i].title, ns[i].content, ns[i].version + 1)
  }

  /** Every note of the owner that `ns` does not name is in `final` as it was
      in `store`. */
  ghost predicate KeepsOthers(store: Store, final: Store, user: UserId, ns: seq<Note>) {
    forall id :: !Among(ns, id) && (user, id) in store ==>
      (user, id) in final && final[(user, id)] == store[(user, id)]
  }

  /** The store of a run is the store its tail leaves after the first step. */
  lemma RunStoreCons(store: Store, user: UserId, cs: seq<Change>)
    requires |cs| > 0
    ensures Run(store, user, cs).store == Run(Step(store, user, cs[0]).store, user, cs[1..]).store
  {
  }

  /** After an in-step snapshot each of its notes is stored at its version
      plus one with the cached title and content, and no other note of the
      store is touched. */
  lemma {:induction false} InStepSnapshotStores(store: Store, user: UserId, ns: seq<Note>)
    requires DistinctIds(ns) && NonEmptyIds(ns) && InStep(store, user, ns)
    ensures var final := Run(store, user, Snapshot(Some(ns))).store;
            StoresBumped(final, user, ns) && KeepsOthers(store, final, user, ns)
    decreases |ns|
  {
    var cs := Snapshot(Some(ns));
    if |ns| == 0 {
      assert cs == [];
    } else {
      var n := ns[0];
      var rest := ns[1..];
      var after := store[(user, n.id) := Record(n.title, n.content, n.version + 1)];
      InStepHead(store, user, ns);
      InStepRest(store, user, ns);
      assert cs[1..] == Snapshot(Some(rest));
      InStepSnapshotStores(after, user, rest);
      RunStoreCons(store, user, cs);
      StoreAfterInStep(store, user, ns, Run(after, user, cs[1..]).store);
    }
  }

  /** The store facts of the inductive step, proved apart. */
  lemma StoreAfterInStep(store: Store, user: UserId, ns: seq<Note>, final: Store)
    requires |ns| > 0
    requires var n := ns[0];
             var after := store[(user, n.id) := Record(n.title, n.content, n.version + 1)];
             && !Among(ns[1..], n.id)
             && StoresBumped(final, user, ns[1..])
             && KeepsOthers(after, final, user, ns[1..])
    ensures StoresBumped(final, user, ns) && KeepsOthers(store, final, user, ns)
  {
    var rest := ns[1..];
    forall i | 0 <= i < |ns|
      ensures (user, ns[i].id) in final
              && final[(user, ns[i].id)] == Record(ns[i].title, ns[i].content, ns[i].version + 1)
    {
      if i > 0 {
        assert ns[i] == rest[i - 1];
      }
    }
    forall id | !Among(ns, id) && (user, id) in store
      ensures (user, id) in final && final[(user, id)] == store[(user, id)]
    {
      assert id != ns[0].id;
    }
  }

  /** Merging the in-step answer replaces every entry by its bumped copy. */
  lemma MergeBumped(ns: seq<Note>)
    requires DistinctIds(ns)
    ensures var m := MergeApplied(Some(ns), Bumped(ns));
            m.Some? && |m.value| == |ns|
            && forall i :: 0 <= i < |ns| ==>
                 m.value[i] == ns[i].(version := ns[i].version + 1, createdAt := None, updatedAt := None)
  {
    var b := Bumped(ns);
    if |b| > 0 {
      var m := MergeApplied(Some(ns), b).value;
      forall i | 0 <= i < |ns|
        ensures m[i] == ns[i].(version := ns[i].version + 1, createdAt := None, updatedAt := None)
      {
        assert MentionsId(b, ns[i].id) by { assert b[i].id == ns[i].id; }
        var last := LastApplied(b, ns[i].id).value;
        var k :| 0 <= k < |b| && b[k] == last && last.id == ns[i].id
                 && forall m :: k < m < |b| ==> b[m].id != ns[i].id;
        assert ns[k].id == ns[i].id;
        assert k == i;
        assert m[i] == FromSynced(b[i]);
      }
    }
  }

  /** A full sync cycle from a client in step with the server: one request,
      no conflicts, every cached note comes back one version up with its
      title and content, and the client is again in step with the store the
      server now holds. */
  lemma InStepCycle(store: Store, user: UserId, s: ClientState)
    requires !s.isSyncing && s.notes.Some?
    requires DistinctIds(s.notes.value) && NonEmptyIds(s.notes.value) && InStep(store, user, s.notes.value)
    ensures var t := Trigger(s);
            var h := HandleSync(store, user, t.request);
            var ns := s.notes.value;
            && h.response.Ok? && h.response.body.conflicts == []
            && var s' := ApplySuccess(t.state, h.response.body);
               && !s'.isSyncing && s'.conflicts == []
               && s'.notes.Some? && |s'.notes.value| == |ns|
               && (forall i :: 0 <= i < |ns| ==>
                     s'.notes.value[i] == ns[i].(version := ns[i].version + 1, createdAt := None, updatedAt := None))
               && InStep(h.store, user, s'.notes.value)
  {
    var ns := s.notes.value;
    InStepSnapshotApplies(store, user, ns);
    InStepSnapshotStores(store, user, ns);
    MergeBumped(ns);
  }

  /** The conflict the server reports for a cached note that fell behind. */
  predicate StaleNote(store: Store, user: UserId, n: Note) {
    n.id != "" && (user, n.id) in store && n.version < store[(user, n.id)].version
  }

  function StaleConflict(store: Store, user: UserId, n: Note): Conflict
    requires StaleNote(store, user, n)
  {
    Step(store, user, ToChange(n)).outcome.conflict
  }

  /** Resolving with 'server' makes the entry the server's note, so the next
      sync of it against the same store is accepted as an update that keeps
      the server's text. */
  lemma ServerWinsConverges(store: Store, user: UserId, s: ClientState, k: int, now: Stamp)
    requires s.notes.Some? && 0 <= k < |s.notes.value|
    requires var n := s.notes.value[k];
             StaleNote(store, user, n) && FindConflict(s.conflicts, n.id) == Some(StaleConflict(store, user, n))
    ensures var n := s.notes.value[k];
            var r := Resolve(s, n.id, Server, now).state;
            var stored := store[(user, n.id)];
            var next := Step(store, user, ToChange(r.notes.value[k]));
            && r.notes.value[k].title == stored.title && r.notes.value[k].content == stored.content
            && next.outcome.Updated?
            && next.store[(user, n.id)] == stored.(version := stored.version + 1)
  {
  }

  /** Resolving with 'merge' adopts the server version, so the next sync
      stores the combined content one version up. */
  lemma MergeConverges(store: Store, user: UserId, s: ClientState, k: int, now: Stamp)
    requires s.notes.Some? && 0 <= k < |s.notes.value|
    requires var n := s.notes.value[k];
             StaleNote(store, user, n) && FindConflict(s.conflicts, n.id) == Some(StaleConflict(store, user, n))
    ensures var n := s.notes.value[k];
            var local := FindNote(s.notes.value, n.id).value;
            var r := Resolve(s, n.id, Merge, now).state;
            var stored := store[(user, n.id)];
            var next := Step(store, user, ToChange(r.notes.value[k]));
            && next.outcome.Updated?
            && next.store[(user, n.id)]
               == Record(n.title, local.content + MergeSeparator + stored.content, stored.version + 1)
  {
    var n := s.notes.value[k];
    assert n in s.notes.value;
  }

  /** Resolving with 'local' re-sends the entry at its old base version, so
      against an unchanged store the retry meets the same conflict again. */
  lemma LocalRetryRepeatsConflict(store: Store, user: UserId, s: ClientState, k: int, now: Stamp)
    requires s.notes.Some? && 0 <= k < |s.notes.value| && !s.isSyncing
    requires var n := s.notes.value[k];
             StaleNote(store, user, n) && FindConflict(s.conflicts, n.id) == Some(StaleConflict(store, user, n))
    ensures var n := s.notes.value[k];
            var r := Resolve(s, n.id, Local, now);
            && r.request.Some? && |r.request.value| == |s.notes.value|
            && Step(store, user, r.request.value[k]).outcome == Rejected(StaleConflict(store, user, n))
  {
  }

  /** When the server's error body carries a truthy `message` (or, failing
      that, `error`), that text is what a failed sync and a failed batch
      delete record. */
  lemma ServerTextShown(s: ClientState, c: NoteCache.QueryCache, ids: seq<Id>, e: ApiClient.ErrorValue, prior: Option<string>)
    ensures var text := if ApiClient.BodyMessage(e).Some? then ApiClient.BodyMessage(e) else ApiClient.BodyError(e);
            text.Some? ==>
              ApplyError(s, e).error == text && NoteCache.DeleteMultiple(c, ids, Some(e), prior).error == text
  {
  }

  /** A sync whose answer is lost leaves the cache as it was, so the next
      trigger sends the very same batch again: every change the server applied
      the first time is replayed. */
  lemma LostResponseResendsBatch(s: ClientState, e: ApiClient.ErrorValue)
    requires !s.isSyncing
    ensures var first := Trigger(s);
            var again := Trigger(ApplyError(first.state, e));
            first.request.Some? && again.request == first.request
  {
  }
}
