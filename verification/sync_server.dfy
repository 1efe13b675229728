/** The server's `POST /notes/sync` handler: a sequential fold over the
    client's changes against the note store, one outcome per change. */
module SyncServer {
  import opened Wrappers
  import opened NoteTypes

  /** What the store holds for one note (timestamps are not modelled). */
  datatype Record = Record(title: string, content: string, version: int)

  /** The note table, addressed by owner and note id. */
  type Store = map<(UserId, Id), Record>

  /** The outcome of one change: an applied note (new or updated) or a
      conflict.  Together with the three kinds of conflict these are the five
      branches of the handler. */
  datatype Outcome =
    | Created(note: SyncedNote)
    | Updated(note: SyncedNote)
    | Rejected(conflict: Conflict)
  {
    predicate IsApplied() {
      Created? || Updated?
    }

    /** The `id` this outcome reports. */
    function OutcomeId(): Option<Id> {
      if IsApplied() then Some(note.id) else conflict.ConflictId()
    }
  }

  datatype StepResult = StepResult(store: Store, outcome: Outcome)

  /** JavaScript truthiness of the change's `id`: undefined and "" are falsy. */
  predicate FalsyId(id: Option<Id>) {
    id.None? || id.value == ""
  }

  /** The version a store holds for a key, 0 when the note does not exist. */
  function Version(store: Store, key: (UserId, Id)): int {
    if key in store then store[key].version else 0
  }

  /** The stored record as the `applied` list reports it. */
  function Report(id: Id, rec: Record): SyncedNote {
    SyncedNote(id, rec.title, rec.content, rec.version)
  }

  /** One iteration of the handler's loop: validate, look the note up, then
      create, update, or report a stale or ahead client. */
  function Step(store: Store, user: UserId, ch: Change): (r: StepResult)
    // Missing id or base version: a "Missing required fields" conflict with
    // a null server version, and nothing is stored.
    ensures (FalsyId(ch.id) || ch.baseVersion.None?) <==>
            (r.outcome.Rejected? && r.outcome.conflict.MissingFields?)
    ensures r.outcome.Rejected? && r.outcome.conflict.MissingFields? ==>
              r.outcome.conflict == MissingFields(ch.id, ch.baseVersion)
              && r.outcome.conflict.ServerVersion().None?
    // Every rejection leaves the store exactly as it was.
    ensures r.outcome.Rejected? ==> r.store == store
    // Every applied note is what is now stored under its key, and no other
    // note of any owner changes.
    ensures r.outcome.IsApplied() ==>
              ch.id == Some(r.outcome.note.id) && r.outcome.note.id != "" && ch.baseVersion.Some?
              && r.store == store[(user, r.outcome.note.id) := Record(r.outcome.note.title, r.outcome.note.content, r.outcome.note.version)]
    // A note unknown for this owner is created at version 1, with '' for a
    // missing title or content.
    ensures r.outcome.Created? <==>
              !FalsyId(ch.id) && ch.baseVersion.Some? && (user, ch.id.value) !in store
    ensures r.outcome.Created? ==>
              r.outcome.note.version == 1
              && r.outcome.note.title == ch.title.GetOr("")
              && r.outcome.note.content == ch.content.GetOr("")
    // A matching base version bumps the version by exactly one and replaces
    // only the fields the change defines.
    ensures r.outcome.Updated? <==>
              !FalsyId(ch.id) && ch.baseVersion.Some? && (user, ch.id.value) in store
              && ch.baseVersion.value == store[(user, ch.id.value)].version
    ensures r.outcome.Updated? ==>
              var prior := store[(user, ch.id.value)];
              r.outcome.note.version == prior.version + 1
              && r.outcome.note.title == ch.title.GetOr(prior.title)
              && r.outcome.note.content == ch.content.GetOr(prior.content)
    // A base version below the stored one is a version conflict carrying the
    // stored title and content.
    ensures r.outcome.Rejected? && r.outcome.conflict.VersionConflict? <==>
              !FalsyId(ch.id) && ch.baseVersion.Some? && (user, ch.id.value) in store
              && ch.baseVersion.value < store[(user, ch.id.value)].version
    ensures r.outcome.Rejected? && r.outcome.conflict.VersionConflict? ==>
              var prior := store[(user, ch.id.value)];
              r.outcome.conflict == VersionConflict(ch.id.value, ch.baseVersion.value, prior.version, ServerData(prior.title, prior.content))
    // A base version above the stored one is reported, never accepted.
    ensures r.outcome.Rejected? && r.outcome.conflict.ClientAhead? <==>
              !FalsyId(ch.id) && ch.baseVersion.Some? && (user, ch.id.value) in store
              && ch.baseVersion.value > store[(user, ch.id.value)].version
    ensures r.outcome.Rejected? && r.outcome.conflict.ClientAhead? ==>
              r.outcome.conflict == ClientAhead(ch.id.value, ch.baseVersion.value, store[(user, ch.id.value)].version)
    ensures r.outcome.OutcomeId() == ch.id
  {
    if FalsyId(ch.id) || ch.baseVersion.None? then
      StepResult(store, Rejected(MissingFields(ch.id, ch.baseVersion)))
    else
      var id, base := ch.id.value, ch.baseVersion.value;
      var key := (user, id);
      if key !in store then
        var rec := Record(ch.title.GetOr(""), ch.content.GetOr(""), 1);
        StepResult(store[key := rec], Created(Report(id, rec)))
      else
        var existing := store[key];
        if base == existing.version then
          var rec := Record(ch.title.GetOr(existing.title), ch.content.GetOr(existing.content), existing.version + 1);
          StepResult(store[key := rec], Updated(Report(id, rec)))
        else if base < existing.version then
          StepResult(store, Rejected(VersionConflict(id, base, existing.version, ServerData(existing.title, existing.content))))
        else
          StepResult(store, Rejected(ClientAhead(id, base, existing.version)))
  }

  datatype RunResult = RunResult(store: Store, outcomes: seq<Outcome>)

  /** The loop over `changes`, each change seeing the store left by the ones
      before it. */
  function Run(store: Store, user: UserId, cs: seq<Change>): (r: RunResult)
    ensures |r.outcomes| == |cs|
    decreases |cs|
  {
    if |cs| == 0 then RunResult(store, [])
    else
      var first := Step(store, user, cs[0]);
      var rest := Run(first.store, user, cs[1..]);
      RunResult(rest.store, [first.outcome] + rest.outcomes)
  }

  /** A batch only ever touches the notes of the user who sent it. */
  lemma {:induction false} RunKeepsOtherOwners(store: Store, user: UserId, cs: seq<Change>)
    ensures var r := Run(store, user, cs);
            && (forall k: (UserId, Id) :: k.0 != user ==> (k in r.store <==> k in store))
            && (forall k: (UserId, Id) :: k.0 != user && k in store ==> r.store[k] == store[k])
    decreases |cs|
  {
    if |cs| > 0 {
      RunKeepsOtherOwners(Step(store, user, cs[0]).store, user, cs[1..]);
    }
  }

  /** Outcome `i` reports the id of change `i`: the response follows the
      input order, one outcome per change. */
  lemma {:induction false} OutcomesFollowChanges(store: Store, user: UserId, cs: seq<Change>)
    ensures forall i :: 0 <= i < |cs| ==> Run(store, user, cs).outcomes[i].OutcomeId() == cs[i].id
    decreases |cs|
  {
    if |cs| > 0 {
      var first := Step(store, user, cs[0]);
      OutcomesFollowChanges(first.store, user, cs[1..]);
      var r := Run(store, user, cs);
      forall i | 0 <= i < |cs|
        ensures r.outcomes[i].OutcomeId() == cs[i].id
      {
        if i > 0 {
          assert r.outcomes[i] == Run(first.store, user, cs[1..]).outcomes[i - 1];
        }
      }
    }
  }

  /** The `applied` list: the applied outcomes, in input order. */
  function Applied(os: seq<Outcome>): (r: seq<SyncedNote>)
    ensures |r| <= |os|
    ensures forall n :: n in r <==> exists i :: 0 <= i < |os| && os[i].IsApplied() && os[i].note == n
  {
    if |os| == 0 then []
    else (if os[0].IsApplied() then [os[0].note] else []) + Applied(os[1..])
  }

  /** The `conflicts` list: the rejected outcomes, in input order. */
  function Conflicts(os: seq<Outcome>): (r: seq<Conflict>)
    ensures |r| <= |os|
    ensures forall c :: c in r <==> exists i :: 0 <= i < |os| && os[i].Rejected? && os[i].conflict == c
  {
    if |os| == 0 then []
    else (if os[0].Rejected? then [os[0].conflict] else []) + Conflicts(os[1..])
  }

  /** Every outcome lands in exactly one of the two lists. */
  lemma {:induction false} AppliedConflictsPartition(os: seq<Outcome>)
    ensures |Applied(os)| + |Conflicts(os)| == |os|
  {
    if |os| > 0 {
      AppliedConflictsPartition(os[1..]);
    }
  }

  /** Splitting the outcomes splits both response lists, in order; with the
      one-element case this fixes the order of `applied` and `conflicts`. */
  lemma {:induction false} AppliedAppend(a: seq<Outcome>, b: seq<Outcome>)
    ensures Applied(a + b) == Applied(a) + Applied(b)
    ensures Conflicts(a + b) == Conflicts(a) + Conflicts(b)
  {
    if |a| > 0 {
      assert (a + b)[1..] == a[1..] + b;
      AppliedAppend(a[1..], b);
    } else {
      assert a + b == b;
    }
  }

  /** The response of the handler. */
  datatype Response =
    | BadRequest(error: string)
    | Ok(body: SyncResponse)

  datatype HandlerResult = HandlerResult(store: Store, response: Response)

  /** `POST /notes/sync`.  `changes` is `None` when the body's `changes` field
      is missing, falsy or not an array. */
  function HandleSync(store: Store, user: UserId, changes: Option<seq<Change>>): (r: HandlerResult)
    ensures changes.None? <==> r.response.BadRequest?
    ensures changes.None? ==>
              r.store == store && r.response.error == "Changes array is required"
    ensures changes.Some? ==>
              |r.response.body.applied| + |r.response.body.conflicts| == |changes.value|
  {
    match changes
    case None => HandlerResult(store, BadRequest("Changes array is required"))
    case Some(cs) =>
      var run := Run(store, user, cs);
      AppliedConflictsPartition(run.outcomes);
      HandlerResult(run.store, Ok(SyncResponse(Applied(run.outcomes), Conflicts(run.outcomes))))
  }

  /** The handler's loop written as a loop: it appends to `applied` and
      `conflicts` as it goes and ends with the store and lists the fold
      describes. */
  method ProcessChanges(store: Store, user: UserId, cs: seq<Change>)
    returns (st: Store, applied: seq<SyncedNote>, conflicts: seq<Conflict>)
    ensures st == Run(store, user, cs).store
    ensures applied == Applied(Run(store, user, cs).outcomes)
    ensures conflicts == Conflicts(Run(store, user, cs).outcomes)
    ensures |applied| + |conflicts| == |cs|
  {
    st, applied, conflicts := store, [], [];
    var i := 0;
    while i < |cs|
      invariant 0 <= i <= |cs|
      invariant st == Run(store, user, cs[..i]).store
      invariant applied == Applied(Run(store, user, cs[..i]).outcomes)
      invariant conflicts == Conflicts(Run(store, user, cs[..i]).outcomes)
    {
      var step := Step(st, user, cs[i]);
      RunExtend(store, user, cs, i);
      if step.outcome.IsApplied() {
        applied := applied + [step.outcome.note];
      } else {
        conflicts := conflicts + [step.outcome.conflict];
      }
      st := step.store;
      i := i + 1;
    }
    assert cs[..i] == cs;
    AppliedConflictsPartition(Run(store, user, cs).outcomes);
  }

  /** One more change of the batch: the loop's state after `i + 1` changes
      is its state after `i` changes advanced by one step. */
  lemma RunExtend(store: Store, user: UserId, cs: seq<Change>, i: int)
    requires 0 <= i < |cs|
    ensures var prev := Run(store, user, cs[..i]);
            var step := Step(prev.store, user, cs[i]);
            var next := Run(store, user, cs[..i + 1]);
            && next.store == step.store
            && Applied(next.outcomes)
               == Applied(prev.outcomes) + (if step.outcome.IsApplied() then [step.outcome.note] else [])
            && Conflicts(next.outcomes)
               == Conflicts(prev.outcomes) + (if step.outcome.Rejected? then [step.outcome.conflict] else [])
  {
    var prev := Run(store, user, cs[..i]);
    var step := Step(prev.store, user, cs[i]);
    RunSnoc(store, user, cs[..i], cs[i]);
    assert cs[..i] + [cs[i]] == cs[..i + 1];
    AppliedAppend(prev.outcomes, [step.outcome]);
  }

  /** Running a batch and then one more change is running the longer batch. */
  lemma {:induction false} RunSnoc(store: Store, user: UserId, cs: seq<Change>, c: Change)
    ensures var r := Run(store, user, cs);
            var s := Step(r.store, user, c);
            Run(store, user, cs + [c]) == RunResult(s.store, r.outcomes + [s.outcome])
    decreases |cs|
  {
    if |cs| > 0 {
      assert (cs + [c])[1..] == cs[1..] + [c];
      RunSnoc(Step(store, user, cs[0]).store, user, cs[1..], c);
    }
  }

  /** Running `a + b` is running `a`, then `b` against the store `a` left. */
  lemma {:induction false} RunAppend(store: Store, user: UserId, a: seq<Change>, b: seq<Change>)
    ensures var ra := Run(store, user, a);
            var rb := Run(ra.store, user, b);
            Run(store, user, a + b) == RunResult(rb.store, ra.outcomes + rb.outcomes)
    decreases |a|
  {
    if |a| > 0 {
      var first := Step(store, user, a[0]);
      var tail := Run(first.store, user, a[1..]);
      assert Run(store, user, a) == RunResult(tail.store, [first.outcome] + tail.outcomes);
      assert (a + b)[0] == a[0] && (a + b)[1..] == a[1..] + b;
      RunAppend(first.store, user, a[1..], b);
      var rb := Run(tail.store, user, b);
      assert Run(store, user, a + b) == RunResult(rb.store, [first.outcome] + (tail.outcomes + rb.outcomes));
      assert [first.outcome] + (tail.outcomes + rb.outcomes) == ([first.outcome] + tail.outcomes) + rb.outcomes;
    } else {
      assert a + b == b;
    }
  }

  /** The outcome of change `j` is the step of that change against the store
      the changes before it left. */
  lemma RunAt(store: Store, user: UserId, cs: seq<Change>, j: int)
    requires 0 <= j < |cs|
    ensures Run(store, user, cs).outcomes[j] == Step(Run(store, user, cs[..j]).store, user, cs[j]).outcome
  {
    assert cs == cs[..j] + cs[j..];
    RunAppend(store, user, cs[..j], cs[j..]);
  }

  /** How many outcomes applied a change to note `id`. */
  function CountApplied(os: seq<Outcome>, id: Id): (n: nat)
    ensures n <= |os|
  {
    if |os| == 0 then 0
    else (if os[0].IsApplied() && os[0].note.id == id then 1 else 0) + CountApplied(os[1..], id)
  }

  /** Version accounting: every note of the syncing owner ends the batch at
      its prior version (0 when it did not exist) plus one per applied change to
      it; notes are never removed, and a note exists afterwards exactly when
      it existed before or some change to it was applied. */
  lemma {:induction false} VersionAccounting(store: Store, user: UserId, cs: seq<Change>, id: Id)
    ensures var r := Run(store, user, cs);
            Version(r.store, (user, id)) == Version(store, (user, id)) + CountApplied(r.outcomes, id)
            && ((user, id) in r.store <==> (user, id) in store || CountApplied(r.outcomes, id) > 0)
    decreases |cs|
  {
    if |cs| > 0 {
      var first := Step(store, user, cs[0]);
      VersionAccounting(first.store, user, cs[1..], id);
      var r := Run(store, user, cs);
      assert r.outcomes[1..] == Run(first.store, user, cs[1..]).outcomes;
    }
  }

  /** Versions never go down and notes never disappear during a batch. */
  lemma VersionMonotone(store: Store, user: UserId, cs: seq<Change>, key: (UserId, Id))
    ensures var r := Run(store, user, cs);
            (key in store ==> key in r.store) && Version(r.store, key) >= Version(store, key)
  {
    if key.0 == user {
      VersionAccounting(store, user, cs, key.1);
    } else {
      RunKeepsOtherOwners(store, user, cs);
    }
  }

  /** Replaying a change the server has just applied as an update, or as a
      create from a base version of at most 0, is detected as a version
      conflict against the version just stored; it is never applied a second
      time. */
  lemma ReplayAfterUpdate(store: Store, user: UserId, c: Change)
    requires var o := Step(store, user, c).outcome;
             o.Updated? || (o.Created? && c.baseVersion.value <= 0)
    ensures var s := Step(store, user, c);
            Step(s.store, user, c).outcome
              == Rejected(VersionConflict(c.id.value, c.baseVersion.value, s.outcome.note.version,
                                          ServerData(s.outcome.note.title, s.outcome.note.content)))
    ensures var s := Step(store, user, c);
            s.outcome.Updated? ==> s.outcome.note.version == c.baseVersion.value + 1
  {
  }

  /** A create is stored at version 1 whatever base version it carried, so a
      replay of it is caught only when that base version was at most 0: from
      base version 1 the replay is applied again as an update to version 2,
      and from a higher one it is reported as a client ahead of the server. */
  lemma ReplayAfterCreate(store: Store, user: UserId, c: Change)
    requires Step(store, user, c).outcome.Created?
    ensures var s := Step(store, user, c);
            var again := Step(s.store, user, c).outcome;
            && (c.baseVersion.value <= 0 ==> again.Rejected? && again.conflict.VersionConflict?)
            && (c.baseVersion.value == 1 ==> again.Updated? && again.note.version == 2)
            && (c.baseVersion.value >= 2 ==> again == Rejected(ClientAhead(c.id.value, c.baseVersion.value, 1)))
  {
  }

  /** A concrete replay that is applied twice: a note the client holds at
      version 1 but the server no longer has is created at version 1, and
      the same change sent again is taken as an update to version 2. */
  lemma CreateReplayAppliedTwice()
    ensures var c := Change(Some("n"), Some("t"), Some("x"), Some(1));
            var first := Step(map[], "u", c);
            && first.outcome == Created(SyncedNote("n", "t", "x", 1))
            && Step(first.store, "u", c).outcome == Updated(SyncedNote("n", "t", "x", 2))
  {
  }

  /** The version a create should store: one above the client's base
      version, and at least 1. */
  function CreateVersion(base: int): (v: int)
    ensures v >= 1 && v > base
    ensures base >= 0 ==> v == base + 1
  {
    if base >= 1 then base + 1 else 1
  }

  /** `Step` with the create corrected: a note unknown to the server is
      stored one version above the base version the client sent, so the
      stored version always moves past the base version of the change just
      applied. */
  function StepFixed(store: Store, user: UserId, ch: Change): (r: StepResult)
    // Every change that is not a create is handled exactly as before.
    ensures !Step(store, user, ch).outcome.Created? ==> r == Step(store, user, ch)
    // A create keeps its title and content and only its version changes.
    ensures Step(store, user, ch).outcome.Created? ==>
              var n := Step(store, user, ch).outcome.note;
              && r.outcome == Created(n.(version := CreateVersion(ch.baseVersion.value)))
              && r.store == store[(user, n.id) := Record(n.title, n.content, CreateVersion(ch.baseVersion.value))]
    // The intended property: whatever is applied ends above its base version.
    ensures r.outcome.IsApplied() ==> r.outcome.note.version > ch.baseVersion.value
  {
    if FalsyId(ch.id) || ch.baseVersion.None? then
      StepResult(store, Rejected(MissingFields(ch.id, ch.baseVersion)))
    else
      var id, base := ch.id.value, ch.baseVersion.value;
      var key := (user, id);
      if key !in store then
        var rec := Record(ch.title.GetOr(""), ch.content.GetOr(""), CreateVersion(base));
        StepResult(store[key := rec], Created(Report(id, rec)))
      else
        Step(store, user, ch)
  }

  /** With the corrected create, every applied change that is sent again
      meets a version conflict against the version it stored. */
  lemma ReplayFixed(store: Store, user: UserId, c: Change)
    requires StepFixed(store, user, c).outcome.IsApplied()
    ensures var s := StepFixed(store, user, c);
            StepFixed(s.store, user, c).outcome
              == Rejected(VersionConflict(c.id.value, c.baseVersion.value, s.outcome.note.version,
                                          ServerData(s.outcome.note.title, s.outcome.note.content)))
  {
    var s := StepFixed(store, user, c);
    assert (user, c.id.value) in s.store;
  }

  /** The store change `j` meets is the store change `i` left, carried
      through the changes between them. */
  lemma StoreBetween(store: Store, user: UserId, cs: seq<Change>, i: int, j: int)
    requires 0 <= i < j <= |cs|
    ensures Run(store, user, cs[..j]).store
            == Run(Step(Run(store, user, cs[..i]).store, user, cs[i]).store, user, cs[i + 1..j]).store
  {
    RunSnoc(store, user, cs[..i], cs[i]);
    assert cs[..i] + [cs[i]] == cs[..i + 1];
    assert cs[..j] == cs[..i + 1] + cs[i + 1..j];
    RunAppend(store, user, cs[..i + 1], cs[i + 1..j]);
  }

  /** The same holds inside one batch: a later repeat of a change that was
      applied as an update, or as a create from a base version of at most 0,
      meets a version conflict, whatever came between. */
  lemma ReplayWithinBatch(store: Store, user: UserId, cs: seq<Change>, i: int, j: int)
    requires 0 <= i < j < |cs| && cs[j] == cs[i]
    requires var o := Run(store, user, cs).outcomes[i];
             o.Updated? || (o.Created? && cs[i].baseVersion.Some? && cs[i].baseVersion.value <= 0)
    ensures Run(store, user, cs).outcomes[j].Rejected?
    ensures Run(store, user, cs).outcomes[j].conflict.VersionConflict?
  {
    var c := cs[i];
    RunAt(store, user, cs, i);
    RunAt(store, user, cs, j);
    var before := Run(store, user, cs[..i]).store;
    var after := Step(before, user, c).store;
    var key := (user, c.id.value);
    assert key in after && after[key].version > c.baseVersion.value;
    StoreBetween(store, user, cs, i, j);
    VersionMonotone(after, user, cs[i + 1..j], key);
    var meets := Run(store, user, cs[..j]).store;
    assert key in meets && meets[key].version > c.baseVersion.value;
  }

  datatype PutResult =
    | NotFound
    | Put(store: Store, note: Record)

  /** `PUT /notes/:id`: a falsy title or content keeps the stored value, and
      the version is left alone. */
  function HandlePut(store: Store, user: UserId, id: Id, title: Option<string>, content: Option<string>): (r: PutResult)
    ensures (user, id) !in store <==> r.NotFound?
    ensures r.Put? ==>
              var prior := store[(user, id)];
              && r.note.version == prior.version
              && r.note.title == (if title.Some? && title.value != "" then title.value else prior.title)
              && r.note.content == (if content.Some? && content.value != "" then content.value else prior.content)
              && r.store == store[(user, id) := r.note]
  {
    var key := (user, id);
    if key !in store then NotFound
    else
      var existing := store[key];
      var t := if title.Some? && title.value != "" then title.value else existing.title;
      var c := if content.Some? && content.value != "" then content.value else existing.content;
      var rec := Record(t, c, existing.version);
      Put(store[key := rec], rec)
  }

  /** The two write paths disagree on an empty title: the sync update stores
      it, the PUT handler keeps the prior one. */
  lemma EmptyTitleSyncVsPut(store: Store, user: UserId, id: Id, content: Option<string>)
    requires id != "" && (user, id) in store && store[(user, id)].title != ""
    ensures var v := store[(user, id)].version;
            var s := Step(store, user, Change(Some(id), Some(""), content, Some(v)));
            s.outcome.Updated? && s.store[(user, id)].title == ""
    ensures HandlePut(store, user, id, Some(""), content).note.title == store[(user, id)].title
  {
  }
}
