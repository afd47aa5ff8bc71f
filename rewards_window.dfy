/**
 * The rewards window: the guard chain of "Añadir Recompensa", the three search
 * boxes over the joined reward listing, and the dialog that lists the bonuses
 * about to end. Combo boxes hand over the selected student's id or None, line
 * edits hand over their text.
 */
module RewardsWindow {
  import opened Common
  import opened Text
  import opened Calendar
  import opened Schema
  import opened Rows
  import opened Ledger
  import opened Store
  import opened Forms

  /** The warning `add_reward` shows, one per guard, in the order they are checked. */
  datatype AddRewardError =
    | StudentsNotSelected
    | SelfReferral
    | InvalidMonths
    | AlreadyRewarded
    | InvalidDate

  /** The arguments of the one `insert_reward` call an accepted form makes. */
  datatype RewardGrant = RewardGrant(recommenderId: int, newStudentId: int, months: int, dateAwarded: string)

  /** `months_text.isdigit() and int(months_text) in [1, 3, 6]`. */
  predicate ValidMonthsText(t: string)
  {
    IsDigits(t) && DigitsValue(t) in {1, 3, 6}
  }

  /** Both combos hold a student, and two different ones. */
  predicate DistinctStudents(recommender: Option<int>, newStudent: Option<int>)
  {
    recommender.Some? && newStudent.Some? && recommender.value != newStudent.value
  }

  /**
   * `add_reward`: each guard is checked only when the ones before it passed, and the
   * first one that fails decides the warning. An accepted form asks for a reward of
   * 1, 3 or 6 months, between two different students, for a new student who has none
   * yet, dated by the stripped date text, which parses as a date.
   */
  function AddReward(recommender: Option<int>, newStudent: Option<int>, monthsText: string,
                     dateText: string, rewards: seq<Reward>): (r: Result<RewardGrant, AddRewardError>)
    ensures r == Err(StudentsNotSelected) <==> recommender.None? || newStudent.None?
    ensures r == Err(SelfReferral) <==>
      recommender.Some? && newStudent.Some? && recommender.value == newStudent.value
    ensures r == Err(InvalidMonths) <==>
      DistinctStudents(recommender, newStudent) && !ValidMonthsText(Strip(monthsText))
    ensures r == Err(AlreadyRewarded) <==>
      DistinctStudents(recommender, newStudent) && ValidMonthsText(Strip(monthsText))
      && RewardAlreadyGranted(rewards, newStudent.value)
    ensures r == Err(InvalidDate) <==>
      DistinctStudents(recommender, newStudent) && ValidMonthsText(Strip(monthsText))
      && !RewardAlreadyGranted(rewards, newStudent.value) && ParseDate(Strip(dateText)).Err?
    ensures r.Ok? ==>
      r.value == RewardGrant(recommender.value, newStudent.value, DigitsValue(Strip(monthsText)), Strip(dateText))
      && r.value.recommenderId != r.value.newStudentId
      && r.value.months in {1, 3, 6}
      && !RewardAlreadyGranted(rewards, r.value.newStudentId)
      && ParseDate(r.value.dateAwarded).Ok?
  {
    var months := Strip(monthsText);
    if recommender.None? || newStudent.None? then Err(StudentsNotSelected)
    else if recommender.value == newStudent.value then Err(SelfReferral)
    else if !ValidMonthsText(months) then Err(InvalidMonths)
    else if RewardAlreadyGranted(rewards, newStudent.value) then Err(AlreadyRewarded)
    else
      var date := Strip(dateText);
      match ParseDate(date)
      case Err(_) => Err(InvalidDate)
      case Ok(_) => Ok(RewardGrant(recommender.value, newStudent.value, DigitsValue(months), date))
  }

  /** The row `insert_reward` appends for a grant. */
  function GrantRow(g: RewardGrant): Reward
  {
    RewardRow(g.recommenderId, g.newStudentId, g.months, g.dateAwarded)
  }

  /** Granting through the window keeps each new student rewarded at most once. */
  lemma AddRewardKeepsOneReward(recommender: Option<int>, newStudent: Option<int>, monthsText: string,
                                dateText: string, rewards: seq<Reward>)
    requires OneRewardPerNewStudent(rewards)
    requires AddReward(recommender, newStudent, monthsText, dateText, rewards).Ok?
    ensures OneRewardPerNewStudent(rewards + [GrantRow(AddReward(recommender, newStudent, monthsText, dateText, rewards).value)])
  {
    var g := AddReward(recommender, newStudent, monthsText, dateText, rewards).value;
    AppendKeepsOneReward(rewards, GrantRow(g));
  }

  /** Once a new student has been rewarded through the window, the window refuses any
      further reward for that student, whoever recommends and whatever the form says. */
  lemma SecondGrantRejected(recommender: Option<int>, newStudent: Option<int>, monthsText: string,
                            dateText: string, rewards: seq<Reward>,
                            recommender2: Option<int>, monthsText2: string, dateText2: string)
    requires AddReward(recommender, newStudent, monthsText, dateText, rewards).Ok?
    ensures var g := AddReward(recommender, newStudent, monthsText, dateText, rewards).value;
      var r2 := AddReward(recommender2, newStudent, monthsText2, dateText2, rewards + [GrantRow(g)]);
      r2.Err? && (DistinctStudents(recommender2, newStudent) && ValidMonthsText(Strip(monthsText2))
        ==> r2 == Err(AlreadyRewarded))
  {
    var g := AddReward(recommender, newStudent, monthsText, dateText, rewards).value;
    var after := rewards + [GrantRow(g)];
    assert after[|rewards|].newStudentId == newStudent.value;
  }

  /** Pressing "Añadir Recompensa" against the store: the store changes exactly when
      the form is accepted, by the one row of the grant. */
  method SubmitReward(db: Database, recommender: Option<int>, newStudent: Option<int>,
                      monthsText: string, dateText: string) returns (r: Result<RewardGrant, AddRewardError>)
    requires db.Valid()
    modifies db
    ensures db.Valid()
    ensures r == AddReward(recommender, newStudent, monthsText, dateText, old(db.rewards))
    ensures db.rewards == if r.Ok? then old(db.rewards) + [GrantRow(r.value)] else old(db.rewards)
    ensures db.students == old(db.students) && db.levels == old(db.levels)
  {
    r := AddReward(recommender, newStudent, monthsText, dateText, db.rewards);
    if r.Ok? {
      db.InsertReward(r.value.recommenderId, r.value.newStudentId, r.value.months, r.value.dateAwarded);
    }
  }

  // ---------------------------------------------------------------------------
  // The listing
  // ---------------------------------------------------------------------------

  /** The three search boxes, lower-cased, applied to one row of `fetch_rewards`. */
  function RewardFilter(recommenderFilter: string, newStudentFilter: string, rewardNameFilter: string)
    : RewardView -> bool
  {
    (v: RewardView) =>
      PassesFilter(v.recommender, recommenderFilter) && PassesFilter(v.newStudent, newStudentFilter)
      && PassesFilter(v.rewardName, rewardNameFilter)
  }

  /** `load_rewards`: the rows put in the table, in the order `fetch_rewards` gives them. */
  method LoadRewards(views: seq<RewardView>, recommenderText: string, newStudentText: string,
                     rewardNameText: string) returns (table: seq<RewardView>)
    ensures table == Filter(views, RewardFilter(Lower(recommenderText), Lower(newStudentText), Lower(rewardNameText)))
  {
    var fr, fn, fw := Lower(recommenderText), Lower(newStudentText), Lower(rewardNameText);
    table := [];
    var i := 0;
    while i < |views|
      invariant 0 <= i <= |views|
      invariant table == Filter(views[..i], RewardFilter(fr, fn, fw))
    {
      var v := views[i];
      assert views[..i + 1] == views[..i] + [v];
      FilterSnoc(views[..i], v, RewardFilter(fr, fn, fw));
      i := i + 1;
      if (fr != [] && !Contains(Lower(v.recommender), fr))
        || (fn != [] && !Contains(Lower(v.newStudent), fn))
        || (fw != [] && !Contains(Lower(v.rewardName), fw)) {
        continue;
      }
      table := table + [v];
    }
    assert views[..i] == views;
  }

  /** A reward is listed exactly when each non-empty search box occurs, ignoring case, in
      its field; with all boxes empty every reward is listed. */
  lemma LoadRewardsShows(views: seq<RewardView>, recommenderText: string, newStudentText: string,
                         rewardNameText: string)
    ensures var p := RewardFilter(Lower(recommenderText), Lower(newStudentText), Lower(rewardNameText));
      forall v :: v in Filter(views, p) <==> (v in views
        && (recommenderText == [] || Contains(Lower(v.recommender), Lower(recommenderText)))
        && (newStudentText == [] || Contains(Lower(v.newStudent), Lower(newStudentText)))
        && (rewardNameText == [] || Contains(Lower(v.rewardName), Lower(rewardNameText))))
    ensures recommenderText == [] && newStudentText == [] && rewardNameText == [] ==>
      Filter(views, RewardFilter(Lower(recommenderText), Lower(newStudentText), Lower(rewardNameText))) == views
  {
    var p := RewardFilter(Lower(recommenderText), Lower(newStudentText), Lower(rewardNameText));
    LowerEmpty(recommenderText);
    LowerEmpty(newStudentText);
    LowerEmpty(rewardNameText);
    forall v ensures v in Filter(views, p) <==> (v in views
      && (recommenderText == [] || Contains(Lower(v.recommender), Lower(recommenderText)))
      && (newStudentText == [] || Contains(Lower(v.newStudent), Lower(newStudentText)))
      && (rewardNameText == [] || Contains(Lower(v.rewardName), Lower(rewardNameText))))
    {
      FilterMembership(views, p, v);
    }
    if recommenderText == [] && newStudentText == [] && rewardNameText == [] {
      FilterAll(views, p);
    }
  }

  // ---------------------------------------------------------------------------
  // The expiring-bonus dialog
  // ---------------------------------------------------------------------------

  /** An information dialog: its title and its text. */
  datatype Dialog = Dialog(title: string, text: string)

  const NoAlerts := Dialog("Sin alertas", "No hay bonos que finalicen en los próximos 7 días.")
  const AlertsTitle := "Bonos por finalizar"
  const AlertsHeader := "Bonos que terminan pronto:\n\n"

  /** The line of one expiring bonus. */
  function AlertLine(a: Alert): string
  {
    a.name + " → termina el " + a.endDate + " (en " + IntToString(a.daysLeft) + " días)\n"
  }

  /** The lines of a list of bonuses, in list order. */
  function AlertLines(alerts: seq<Alert>): string
  {
    ConcatMap(alerts, AlertLine)
  }

  /** One line per bonus, in list order: the text is the lines of the bonuses before
      entry k, then the line of entry k, then the lines of those after it. */
  lemma OneLinePerAlert(alerts: seq<Alert>, k: int)
    requires 0 <= k < |alerts|
    ensures AlertLines(alerts) == AlertLines(alerts[..k]) + AlertLine(alerts[k]) + AlertLines(alerts[k + 1..])
  {
    ConcatMapAt(alerts, k, AlertLine);
  }

  /** `show_expiring_alerts`: the dialog for the scan's result; a ValueError raised by
      the scan escapes before any dialog is shown. */
  method ShowExpiringAlerts(expiring: Result<seq<Alert>, DateError>) returns (r: Result<Dialog, DateError>)
    ensures expiring.Err? ==> r == Err(expiring.error)
    ensures expiring == Ok([]) ==> r == Ok(NoAlerts)
    ensures expiring.Ok? && expiring.value != [] ==>
      r == Ok(Dialog(AlertsTitle, AlertsHeader + AlertLines(expiring.value)))
  {
    if expiring.Err? {
      return Err(expiring.error);
    }
    var alerts := expiring.value;
    if alerts == [] {
      return Ok(NoAlerts);
    }
    var message := AlertsHeader;
    var i := 0;
    while i < |alerts|
      invariant 0 <= i <= |alerts|
      invariant message == AlertsHeader + AlertLines(alerts[..i])
    {
      ConcatMapPrefix(alerts, i, AlertLine);
      var line := AlertLine(alerts[i]);
      AppendAssoc(AlertsHeader, AlertLines(alerts[..i]), line);
      message := message + line;
      i := i + 1;
    }
    assert alerts[..i] == alerts;
    return Ok(Dialog(AlertsTitle, message));
  }
}
