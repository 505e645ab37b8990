/** The project page: the group being worked on and the day whose form is
    shown, with the transitions the page performs on them. */
module Project {
  import opened Wrappers
  import opened Values
  import opened Groups

  /** The page state once its group has loaded (`group`, `activeDay`). */
  datatype View = View(group: Group, activeDay: int)

  predicate ValidView(v: View)
  {
    ValidDay(v.activeDay)
  }

  /** Where loading the group leaves the page. */
  datatype Screen = Loaded(view: View) | BackHome

  /** Loading a group: on success the page shows it on its first incomplete
      day; on a failed request the page navigates back to the landing page. */
  function FetchGroup(response: Option<Group>): (r: Screen)
    ensures r.BackHome? <==> response.None?
    ensures r.Loaded? ==> r.view.group == response.value && ValidView(r.view)
    ensures r.Loaded? ==> forall d :: 1 <= d < r.view.activeDay ==> IsComplete(r.view.group, d)
    ensures r.Loaded? ==> !IsComplete(r.view.group, r.view.activeDay) || AllComplete(r.view.group)
    ensures r.Loaded? && AllComplete(r.view.group) ==> r.view.activeDay == DayCount
    ensures r.Loaded? ==> r.view.activeDay == ActiveDay(response.value)
  {
    match response
    case None => BackHome
    case Some(g) => Loaded(View(g, ActiveDay(g)))
  }

  /** `{...group[`day${day}`]}`: spreading a missing stage gives no fields,
      and spreading a present one copies it, so completion reads the same. */
  function Fields(g: Group, day: int): (r: Stage)
    requires ValidDay(day)
    ensures g.days[day - 1].None? ==> r == map[]
    ensures g.days[day - 1].Some? ==> r == g.days[day - 1].value
    ensures IsComplete(g, day) <==> CompletedKey in r && Truthy(r[CompletedKey])
  {
    match g.days[day - 1]
    case None => map[]
    case Some(m) => m
  }

  /** The identifying parts of a group agree. */
  predicate SameHeader(g: Group, h: Group)
  {
    g.id == h.id && g.groupName == h.groupName && g.members == h.members
  }

  /** Every stage except `day` is the same in both groups. */
  predicate OtherDaysKept(g: Group, h: Group, day: int)
  {
    forall i :: 0 <= i < DayCount && i != day - 1 ==> h.days[i] == g.days[i]
  }

  /** `after` is `before` with key `field` set to `value` and nothing else
      added, removed or changed. */
  predicate EditedOnly(before: Stage, after: Stage, field: string, value: Value)
  {
    && after.Keys == before.Keys + {field}
    && after[field] == value
    && forall k :: k in before && k != field ==> after[k] == before[k]
  }

  /** `{...prev, [`day${day}`]: stage}`. */
  function WithStage(g: Group, day: int, stage: Stage): (r: Group)
    requires ValidDay(day)
    ensures SameHeader(g, r) && OtherDaysKept(g, r, day)
    ensures r.days[day - 1] == Some(stage)
  {
    g.(days := g.days[day - 1 := Some(stage)])
  }

  /** Typing into a form field: one field of one stage takes the new value,
      everything else on the page stays as it was. */
  function UpdateDay(v: View, day: int, field: string, value: Value): (r: View)
    requires ValidDay(day)
    ensures r.activeDay == v.activeDay
    ensures SameHeader(v.group, r.group) && OtherDaysKept(v.group, r.group, day)
    ensures r.group.days[day - 1].Some?
    ensures EditedOnly(Fields(v.group, day), r.group.days[day - 1].value, field, value)
  {
    v.(group := WithStage(v.group, day, Fields(v.group, day)[field := value]))
  }

  /** The stage sent with the completion request: the current stage with
      `completed: true` added or overwritten. */
  function CompletionPayload(g: Group, day: int): (r: Stage)
    requires ValidDay(day)
    ensures EditedOnly(Fields(g, day), r, CompletedKey, Bool(true))
    ensures StageComplete(Some(r))
  {
    Fields(g, day)[CompletedKey := Bool(true)]
  }

  /** Completing a day. Only when the request succeeds is the completed stage
      installed locally and, below the last day, the next day opened. */
  function MarkComplete(v: View, day: int, putOk: bool): (r: View)
    requires ValidDay(day)
    ensures !putOk ==> r == v
    ensures putOk ==> SameHeader(v.group, r.group) && OtherDaysKept(v.group, r.group, day)
    ensures putOk ==> r.group.days[day - 1] == Some(CompletionPayload(v.group, day))
    ensures putOk ==> IsComplete(r.group, day)
    ensures putOk && day < DayCount ==> r.activeDay == day + 1
    ensures putOk && day == DayCount ==> r.activeDay == v.activeDay
    ensures ValidView(v) ==> ValidView(r)
  {
    if !putOk then v
    else
      var g := WithStage(v.group, day, CompletionPayload(v.group, day));
      View(g, if day < DayCount then day + 1 else v.activeDay)
  }

  /** Clicking a day in the navigation opens that day's form. */
  function SelectDay(v: View, day: int): (r: View)
    requires ValidDay(day)
    ensures ValidView(r) && r.group == v.group
    ensures r.activeDay == day
  {
    v.(activeDay := day)
  }

  /** Clicking the day a fresh load would open gives the page that load
      shows; clicking any tab leaves the progress of the group untouched. */
  lemma SelectDayMatchesLoad(v: View)
    ensures FetchGroup(Some(v.group)) == Loaded(SelectDay(v, ActiveDay(v.group)))
    ensures forall d :: 1 <= d <= DayCount ==>
              ActiveDay(SelectDay(v, d).group) == ActiveDay(v.group)
              && CompletedCount(SelectDay(v, d).group) == CompletedCount(v.group)
  {
  }

  /** Completion is an edit of the `completed` field to `true`. */
  lemma MarkCompleteIsEdit(v: View, day: int)
    requires ValidDay(day)
    ensures MarkComplete(v, day, true).group == UpdateDay(v, day, CompletedKey, Bool(true)).group
  {
  }

  /** Editing a field other than `completed` leaves every stage's completion,
      the active day a fresh load would pick, and the badge as they were. */
  lemma EditKeepsProgress(v: View, day: int, field: string, value: Value)
    requires ValidDay(day)
    requires field != CompletedKey
    ensures forall d :: 1 <= d <= DayCount ==>
              (IsComplete(UpdateDay(v, day, field, value).group, d) <==> IsComplete(v.group, d))
    ensures ActiveDay(UpdateDay(v, day, field, value).group) == ActiveDay(v.group)
    ensures CompletedCount(UpdateDay(v, day, field, value).group) == CompletedCount(v.group)
  {
    var h := UpdateDay(v, day, field, value).group;
    assert CompletedOf(h.days[day - 1]) == CompletedOf(v.group.days[day - 1]);
    SameProgress(h, v.group);
  }

  /** Typing twice into the same field keeps only the last value. */
  lemma EditLastWins(v: View, day: int, field: string, a: Value, b: Value)
    requires ValidDay(day)
    ensures UpdateDay(UpdateDay(v, day, field, a), day, field, b) == UpdateDay(v, day, field, b)
  {
    assert Fields(UpdateDay(v, day, field, a).group, day)[field := b] == Fields(v.group, day)[field := b];
  }

  /** Edits to two different days do not interfere. */
  lemma EditsOnDifferentDaysCommute(v: View, d1: int, f1: string, x1: Value,
                                    d2: int, f2: string, x2: Value)
    requires ValidDay(d1) && ValidDay(d2) && d1 != d2
    ensures UpdateDay(UpdateDay(v, d1, f1, x1), d2, f2, x2)
            == UpdateDay(UpdateDay(v, d2, f2, x2), d1, f1, x1)
  {
    var left := UpdateDay(UpdateDay(v, d1, f1, x1), d2, f2, x2);
    var right := UpdateDay(UpdateDay(v, d2, f2, x2), d1, f1, x1);
    assert left.group.days == right.group.days;
  }

  /** A successful completion adds its day to the completed ones and nothing
      else; the badge goes up by one unless the day was already complete. */
  lemma MarkCompleteCount(v: View, day: int)
    requires ValidDay(day)
    ensures CompletedDays(MarkComplete(v, day, true).group) == CompletedDays(v.group) + {day}
    ensures CompletedCount(MarkComplete(v, day, true).group)
            == CompletedCount(v.group) + (if IsComplete(v.group, day) then 0 else 1)
  {
    var h := MarkComplete(v, day, true).group;
    forall d | 1 <= d <= DayCount
      ensures IsComplete(h, d) <==> IsComplete(v.group, d) || d == day
    {
      if d != day {
        assert h.days[d - 1] == v.group.days[d - 1];
      }
    }
    assert CompletedDays(h) == CompletedDays(v.group) + {day};
    CountIsCompletedDays(h);
    CountIsCompletedDays(v.group);
  }

  /** After a successful completion a reload never lands on the completed
      day again, unless it is the last day and every day is complete. */
  lemma MarkCompleteMovesOn(v: View, day: int)
    requires ValidDay(day)
    ensures ActiveDay(MarkComplete(v, day, true).group) == day
            ==> day == DayCount && AllComplete(MarkComplete(v, day, true).group)
  {
  }

  /** Completing the same day twice gives the same group as completing it once. */
  lemma MarkCompleteIdempotent(v: View, day: int)
    requires ValidDay(day)
    ensures MarkComplete(MarkComplete(v, day, true), day, true).group == MarkComplete(v, day, true).group
  {
    var once := MarkComplete(v, day, true);
    assert CompletionPayload(once.group, day) == CompletionPayload(v.group, day);
  }

  /** The user actions on the page, with the outcome of any request. */
  datatype Event =
    | Edit(day: int, field: string, value: Value)
    | Complete(day: int, putOk: bool)
    | OpenTab(day: int)

  /** Every action names one of the five days, as the page's buttons and
      forms do. The form fields edited are never `completed`. */
  predicate PageEvent(e: Event)
  {
    ValidDay(e.day) && (e.Edit? ==> e.field != CompletedKey)
  }

  function Apply(v: View, e: Event): View
    requires PageEvent(e)
  {
    match e
    case Edit(day, field, value) => UpdateDay(v, day, field, value)
    case Complete(day, ok) => MarkComplete(v, day, ok)
    case OpenTab(day) => SelectDay(v, day)
  }

  /** The page after a sequence of actions. */
  function Run(v: View, es: seq<Event>): View
    requires forall i :: 0 <= i < |es| ==> PageEvent(es[i])
    decreases |es|
  {
    if |es| == 0 then v else Run(Apply(v, es[0]), es[1..])
  }

  /** One action keeps the active day among the five, keeps the group's
      identity, and never makes a completed stage incomplete. */
  lemma ApplyInvariants(v: View, e: Event)
    requires PageEvent(e)
    requires ValidView(v)
    ensures ValidView(Apply(v, e))
    ensures SameHeader(v.group, Apply(v, e).group)
    ensures forall d :: 1 <= d <= DayCount && IsComplete(v.group, d) ==> IsComplete(Apply(v, e).group, d)
  {
    if e.Edit? {
      EditKeepsProgress(v, e.day, e.field, e.value);
    }
  }

  /** Whatever the user does on the page, the active day stays one of the
      five, the group's identity never changes, and a completed stage never
      becomes incomplete. */
  lemma {:induction false} RunInvariants(v: View, es: seq<Event>)
    requires forall i :: 0 <= i < |es| ==> PageEvent(es[i])
    requires ValidView(v)
    ensures ValidView(Run(v, es))
    ensures SameHeader(v.group, Run(v, es).group)
    ensures forall d :: 1 <= d <= DayCount && IsComplete(v.group, d) ==> IsComplete(Run(v, es).group, d)
    decreases |es|
  {
    if |es| > 0 {
      var next := Apply(v, es[0]);
      ApplyInvariants(v, es[0]);
      RunInvariants(next, es[1..]);
      assert Run(v, es) == Run(next, es[1..]);
    }
  }
}
