/** The pure helpers of the notes page: toggling and select-all on the
    selection, validating the create form, and the relative date label. */
module NotesPage {
  import opened Wrappers
  import opened NoteTypes
  import Strings

  /** `handleSelectNote`: flip one id's membership. */
  function ToggleSelection(selected: set<Id>, id: Id): (r: set<Id>)
    ensures id in r <==> id !in selected
    ensures forall x :: x != id ==> (x in r <==> x in selected)
  {
    if id in selected then selected - {id} else selected + {id}
  }

  /** Toggling the same id twice restores the selection. */
  lemma ToggleTwice(selected: set<Id>, id: Id)
    ensures ToggleSelection(ToggleSelection(selected, id), id) == selected
  {
  }

  /** The ids of the visible notes. */
  function Ids(visible: seq<Note>): (r: set<Id>)
    ensures forall id :: id in r <==> exists i :: 0 <= i < |visible| && visible[i].id == id
  {
    set i | 0 <= i < |visible| :: visible[i].id
  }

  /** `handleSelectAll`: when as many ids are selected as notes are shown the
      selection is cleared; otherwise it becomes exactly the shown ids. */
  function SelectAll(selected: set<Id>, visible: seq<Note>): (r: set<Id>)
    ensures |selected| == |visible| ==> r == {}
    ensures |selected| != |visible| ==>
              forall id :: id in r <==> exists i :: 0 <= i < |visible| && visible[i].id == id
  {
    if |selected| == |visible| then {} else Ids(visible)
  }

  /** With distinct ids there are as many ids as notes. */
  lemma {:induction false} IdsCount(visible: seq<Note>)
    requires DistinctIds(visible)
    ensures |Ids(visible)| == |visible|
    decreases |visible|
  {
    if |visible| > 0 {
      var rest := visible[1..];
      assert DistinctIds(rest) by {
        forall i, j | 0 <= i < j < |rest| ensures rest[i].id != rest[j].id {
          assert rest[i] == visible[i + 1] && rest[j] == visible[j + 1];
        }
      }
      IdsCount(rest);
      IdsCons(visible);
      assert visible[0].id !in Ids(rest) by {
        forall i | 0 <= i < |rest| ensures rest[i].id != visible[0].id {
          assert rest[i] == visible[i + 1];
        }
      }
    }
  }

  /** The ids of a list are its head's id plus the ids of its tail. */
  lemma IdsCons(visible: seq<Note>)
    requires |visible| > 0
    ensures Ids(visible) == Ids(visible[1..]) + {visible[0].id}
  {
    var rest := visible[1..];
    forall id
      ensures id in Ids(visible) <==> id in Ids(rest) + {visible[0].id}
    {
      if id in Ids(visible) && id != visible[0].id {
        var i :| 0 <= i < |visible| && visible[i].id == id;
        assert rest[i - 1].id == id;
      }
      if id in Ids(rest) {
        var i :| 0 <= i < |rest| && rest[i].id == id;
        assert visible[i + 1].id == id;
      }
    }
  }

  /** On a list with distinct ids, select-all from an empty selection
      selects every note, and pressing it again clears it. */
  lemma SelectAllTwice(visible: seq<Note>)
    requires DistinctIds(visible)
    ensures SelectAll({}, visible) == Ids(visible)
    ensures SelectAll(SelectAll({}, visible), visible) == {}
  {
    IdsCount(visible);
  }

  /** The note the create form submits. */
  datatype NewNote = NewNote(title: string, content: string)

  const DefaultTitle := "Untitled Note"

  /** `s` consists of white space only (the empty string included). */
  predicate Blank(s: string) {
    forall k :: 0 <= k < |s| ==> Strings.IsWhitespace(s[k])
  }

  /** `handleCreateNote`: nothing is submitted exactly when both fields are
      white space only; otherwise the trimmed content and the trimmed title,
      or the default title when that is empty. */
  function HandleCreate(title: string, content: string): (r: Option<NewNote>)
    ensures r.None? <==> Blank(title) && Blank(content)
    ensures r.Some? ==> r.value.content == Strings.Trim(content)
    ensures r.Some? && Blank(title) ==> r.value.title == DefaultTitle
    ensures r.Some? && !Blank(title) ==> r.value.title == Strings.Trim(title)
    ensures r.Some? ==> r.value.title != ""
  {
    Strings.TrimEmptyIff(title);
    Strings.TrimEmptyIff(content);
    var t, c := Strings.Trim(title), Strings.Trim(content);
    if t == "" && c == "" then None
    else Some(NewNote(if t == "" then DefaultTitle else t, c))
  }

  const MsPerMinute := 1000 * 60
  const MsPerHour := 1000 * 60 * 60
  const MsPerDay := 1000 * 60 * 60 * 24

  /** The relative label `formatDate` shows; `LocaleDate` is the external
      locale formatter's output. */
  datatype Label =
    | JustNow
    | MinutesAgo(minutes: int)
    | OneHourAgo
    | HoursAgo(hours: int)
    | Yesterday
    | DaysAgo(days: int)
    | LocaleDate

  /** The whole number of `unit`s in `diff`, rounded down as `Math.floor`
      does; Dafny's division by a positive divisor already rounds toward
      negative infinity. */
  function FloorDiv(diff: int, unit: int): (q: int)
    requires unit > 0
    ensures q * unit <= diff < (q + 1) * unit
  {
    diff / unit
  }

  /** `formatDate` for `diff = now - date` in milliseconds. */
  function FormatDate(diff: int): (r: Label)
    ensures var days, hours, minutes := FloorDiv(diff, MsPerDay), FloorDiv(diff, MsPerHour), FloorDiv(diff, MsPerMinute);
            && (days == 0 && hours == 0 ==> r == (if minutes <= 1 then JustNow else MinutesAgo(minutes)))
            && (days == 0 && hours >= 1 ==> r == (if hours == 1 then OneHourAgo else HoursAgo(hours)))
            && (days == 1 ==> r == Yesterday)
            && (days != 0 && days != 1 && days < 7 ==> r == DaysAgo(days))
            && (days >= 7 ==> r == LocaleDate)
  {
    var days := FloorDiv(diff, MsPerDay);
    if days == 0 then
      var hours := FloorDiv(diff, MsPerHour);
      if hours == 0 then
        var minutes := FloorDiv(diff, MsPerMinute);
        if minutes <= 1 then JustNow else MinutesAgo(minutes)
      else if hours == 1 then OneHourAgo else HoursAgo(hours)
    else if days == 1 then Yesterday
    else if days < 7 then DaysAgo(days)
    else LocaleDate
  }

  /** For a past date the numbers shown stay within their bucket: 2-59
      minutes, 2-23 hours, 2-6 days. */
  lemma LabelRanges(diff: int)
    requires diff >= 0
    ensures FormatDate(diff).MinutesAgo? ==> 2 <= FormatDate(diff).minutes <= 59
    ensures FormatDate(diff).HoursAgo? ==> 2 <= FormatDate(diff).hours <= 23
    ensures FormatDate(diff).DaysAgo? ==> 2 <= FormatDate(diff).days <= 6
    ensures FormatDate(diff) == JustNow <==> diff < 2 * MsPerMinute
    ensures FormatDate(diff) == LocaleDate <==> diff >= 7 * MsPerDay
  {
  }

  /** A date in the future (a clock ahead of this one) is labelled with a
      negative number of days. */
  lemma FutureDateLabel(diff: int)
    requires diff < 0
    ensures FormatDate(diff).DaysAgo? && FormatDate(diff).days < 0
  {
  }

  /** The text shown for a label; `locale` is the locale formatter's output. */
  function Render(l: Label, locale: string): (r: string)
    ensures l == JustNow ==> r == "Just now"
    ensures l.MinutesAgo? ==> r == Strings.IntToString(l.minutes) + " minutes ago"
    ensures l == OneHourAgo ==> r == "1 hour ago"
    ensures l.HoursAgo? ==> r == Strings.IntToString(l.hours) + " hours ago"
    ensures l == Yesterday ==> r == "Yesterday"
    ensures l.DaysAgo? ==> r == Strings.IntToString(l.days) + " days ago"
    ensures l == LocaleDate ==> r == locale
  {
    match l
    case JustNow => "Just now"
    case MinutesAgo(m) => Strings.IntToString(m) + " minutes ago"
    case OneHourAgo => "1 hour ago"
    case HoursAgo(h) => Strings.IntToString(h) + " hours ago"
    case Yesterday => "Yesterday"
    case DaysAgo(d) => Strings.IntToString(d) + " days ago"
    case LocaleDate => locale
  }
}
