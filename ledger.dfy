/**
 * The referral-bonus ledger: the reward-table operations of the store that
 * carry logic (the symbolic reward name, the "already granted" count, the
 * active-bonus test, the expiring-bonus scan, the delete by name pair and the
 * joined listing). The clock is a parameter `now`, read once per call.
 */
module Ledger {
  import opened Common
  import opened Text
  import opened Calendar
  import opened Schema
  import opened Rows

  /** A bonus is listed when it ends within this many whole days. */
  const AlertWindowDays := 7

  // ---------------------------------------------------------------------------
  // Granting
  // ---------------------------------------------------------------------------

  /** The symbolic reward name `insert_reward` stores: one month is "Eire", three
      "Canada", six "USA", and any other count its decimal followed by " meses". */
  function RewardName(months: int): (name: string)
    ensures name == "Eire" <==> months == 1
    ensures name == "Canada" <==> months == 3
    ensures name == "USA" <==> months == 6
    ensures months != 1 && months != 3 && months != 6 ==>
      (|name| > 6 && name[|name| - 6..] == " meses" && IsDecimalOf(name[..|name| - 6], months))
  {
    if months == 1 then "Eire"
    else if months == 3 then "Canada"
    else if months == 6 then "USA"
    else
      var digits := IntToString(months);
      assert (digits + " meses")[..|digits|] == digits;
      digits + " meses"
  }

  /** The reward name determines the number of months. */
  lemma RewardNameInjective(a: int, b: int)
    requires RewardName(a) == RewardName(b)
    ensures a == b
  {
    if a != 1 && a != 3 && a != 6 && b != 1 && b != 3 && b != 6 {
      var n := RewardName(a);
      assert IsDecimalOf(n[..|n| - 6], a) && IsDecimalOf(n[..|n| - 6], b);
    }
  }

  /** The row `insert_reward(recommender, newStudent, months, date)` appends. */
  function RewardRow(recommenderId: int, newStudentId: int, months: int, dateAwarded: string): Reward
  {
    Reward(recommenderId, newStudentId, RewardName(months), months, dateAwarded)
  }

  /** `SELECT COUNT(*) FROM rewards WHERE new_student_id = ?`. */
  function CountByNewStudent(rewards: seq<Reward>, newStudentId: int): (c: nat)
    ensures c <= |rewards|
    ensures c == 0 <==> forall i :: 0 <= i < |rewards| ==> rewards[i].newStudentId != newStudentId
  {
    if rewards == [] then 0
    else
      var init := rewards[..|rewards| - 1];
      var c := CountByNewStudent(init, newStudentId);
      assert forall i :: 0 <= i < |init| ==> init[i] == rewards[i];
      c + (if rewards[|rewards| - 1].newStudentId == newStudentId then 1 else 0)
  }

  /** `reward_already_granted`: some reward names this student as the new student. */
  function RewardAlreadyGranted(rewards: seq<Reward>, newStudentId: int): (b: bool)
    ensures b <==> exists i :: 0 <= i < |rewards| && rewards[i].newStudentId == newStudentId
  {
    CountByNewStudent(rewards, newStudentId) > 0
  }

  /** The invariant the rewards window aims at: each new student is rewarded at most once. */
  predicate OneRewardPerNewStudent(rewards: seq<Reward>)
  {
    forall i, j :: 0 <= i < j < |rewards| ==> rewards[i].newStudentId != rewards[j].newStudentId
  }

  /** Appending a reward for a student who has none keeps one reward per new student,
      and the student then counts as rewarded. */
  lemma AppendKeepsOneReward(rewards: seq<Reward>, r: Reward)
    requires OneRewardPerNewStudent(rewards)
    requires !RewardAlreadyGranted(rewards, r.newStudentId)
    ensures OneRewardPerNewStudent(rewards + [r])
    ensures RewardAlreadyGranted(rewards + [r], r.newStudentId)
  {
    var s := rewards + [r];
    assert s[|rewards|] == r;
    forall i, j | 0 <= i < j < |s| ensures s[i].newStudentId != s[j].newStudentId {
      if j < |rewards| {
        assert s[i] == rewards[i] && s[j] == rewards[j];
      } else {
        assert s[i] == rewards[i];
      }
    }
  }

  // ---------------------------------------------------------------------------
  // The active-bonus test
  // ---------------------------------------------------------------------------

  /** Row `i` is the first reward whose recommender is `s`. */
  predicate IsFirstOf(rewards: seq<Reward>, s: int, i: int)
  {
    0 <= i < |rewards| && rewards[i].recommenderId == s
    && forall j :: 0 <= j < i ==> rewards[j].recommenderId != s
  }

  /** The row `fetchone()` returns for `WHERE recommender_id = ?`: the first in rowid order. */
  function FirstByRecommender(rewards: seq<Reward>, s: int): (r: Option<nat>)
    ensures r.None? <==> forall i :: 0 <= i < |rewards| ==> rewards[i].recommenderId != s
    ensures r.Some? ==> IsFirstOf(rewards, s, r.value)
  {
    if rewards == [] then None
    else if rewards[0].recommenderId == s then Some(0)
    else
      match FirstByRecommender(rewards[1..], s)
      case None => None
      case Some(k) => Some(k + 1)
  }

  /** `strptime(date_awarded, "%Y-%m-%d") + relativedelta(months=months)`: the midnight
      at which a bonus ends, or the ValueError that computing it raises. */
  function ExpiryOf(dateAwarded: string, months: int): (r: Result<Date, DateError>)
    ensures r.Ok? ==> ValidDate(r.value)
    ensures r.Ok? <==> ParseDate(dateAwarded).Ok? && AddMonths(ParseDate(dateAwarded).value, months).Ok?
  {
    match ParseDate(dateAwarded)
    case Err(e) => Err(e)
    case Ok(d) => AddMonths(d, months)
  }

  /**
   * `is_student_under_bonus(s)`: false when no reward has `s` as recommender;
   * otherwise only the first such row is read, and the result is whether the
   * current date is strictly before that row's expiry date. The comparison is
   * between instants, yet the time of day never changes the answer.
   */
  function IsStudentUnderBonus(rewards: seq<Reward>, s: int, now: Instant): (r: Result<bool, DateError>)
    ensures FirstByRecommender(rewards, s).None? ==> r == Ok(false)
    ensures FirstByRecommender(rewards, s).Some? ==>
      var row := rewards[FirstByRecommender(rewards, s).value];
      var end := ExpiryOf(row.dateAwarded, row.monthsRewarded);
      (r.Err? <==> end.Err?) && (r.Ok? ==> (r.value <==> Before(now.date, end.value)))
  {
    match FirstByRecommender(rewards, s)
    case None => Ok(false)
    case Some(i) =>
      var row := rewards[i];
      match ExpiryOf(row.dateAwarded, row.monthsRewarded)
      case Err(e) => Err(e)
      case Ok(end) =>
        EarlierThanMidnight(now, end);
        Ok(Earlier(now, Midnight(end)))
  }

  /** A recommender with no earlier reward, granted a bonus of at least one month dated
      today, is under bonus from that moment on, whatever the time of day. */
  lemma GrantTodayIsActive(rewards: seq<Reward>, s: int, newStudentId: int, months: int, now: Instant)
    requires months >= 1
    requires forall i :: 0 <= i < |rewards| ==> rewards[i].recommenderId != s
    requires AddMonths(now.date, months).Ok?
    ensures IsStudentUnderBonus(rewards + [RewardRow(s, newStudentId, months, FormatDate(now.date))], s, now)
      == Ok(true)
  {
    var row := RewardRow(s, newStudentId, months, FormatDate(now.date));
    var all := rewards + [row];
    assert IsFirstOf(all, s, |rewards|);
    ParseFormat(now.date);
    AddMonthsLater(now.date, months);
  }

  // ---------------------------------------------------------------------------
  // The expiring-bonus scan
  // ---------------------------------------------------------------------------

  /** A row of `SELECT s.name, r.date_awarded, r.months_rewarded FROM rewards r
      JOIN students s ON r.new_student_id = s.id`. */
  datatype BonusRow = BonusRow(name: string, dateAwarded: string, monthsRewarded: int)

  /** A tuple of the list `get_students_with_expiring_bonus` returns. */
  datatype Alert = Alert(name: string, endDate: string, daysLeft: int)

  /** The join rows for one reward: one when its new student exists, none otherwise. */
  function BonusRowOf(r: Reward, students: seq<Student>): seq<BonusRow>
  {
    match StudentById(students, r.newStudentId)
    case None => []
    case Some(st) => [BonusRow(st.name, r.dateAwarded, r.monthsRewarded)]
  }

  /** The join, in reward order. */
  function BonusRows(rewards: seq<Reward>, students: seq<Student>): (rows: seq<BonusRow>)
    ensures |rows| <= |rewards|
  {
    if rewards == [] then []
    else BonusRows(rewards[..|rewards| - 1], students) + BonusRowOf(rewards[|rewards| - 1], students)
  }

  /** Every reward whose new student exists yields its row, carrying that student's
      name, and every row comes from such a reward. */
  lemma {:induction false} BonusRowsJoin(rewards: seq<Reward>, students: seq<Student>)
    ensures forall i :: 0 <= i < |rewards| && StudentById(students, rewards[i].newStudentId).Some? ==>
      BonusRow(StudentById(students, rewards[i].newStudentId).value.name,
               rewards[i].dateAwarded, rewards[i].monthsRewarded) in BonusRows(rewards, students)
    ensures forall row :: row in BonusRows(rewards, students) ==>
      exists i :: 0 <= i < |rewards| && row in BonusRowOf(rewards[i], students)
  {
    if rewards != [] {
      var init := rewards[..|rewards| - 1];
      BonusRowsJoin(init, students);
      assert forall i :: 0 <= i < |init| ==> init[i] == rewards[i];
    }
  }

  /** What one join row contributes to `expiring_soon`: an alert when its bonus ends
      within 0..7 whole days of `now`, nothing otherwise, or the ValueError its date raises. */
  function RowAlert(row: BonusRow, now: Instant): (r: Result<Option<Alert>, DateError>)
    ensures r.Err? <==> ExpiryOf(row.dateAwarded, row.monthsRewarded).Err?
  {
    match ExpiryOf(row.dateAwarded, row.monthsRewarded)
    case Err(e) => Err(e)
    case Ok(end) =>
      var daysLeft := DaysBetween(Midnight(end), now);
      if 0 <= daysLeft <= AlertWindowDays then Ok(Some(Alert(row.name, FormatDate(end), daysLeft)))
      else Ok(None)
  }

  /** `RowAlert` at a fixed instant, as a function of the row. */
  function AlertAt(now: Instant): BonusRow -> Result<Option<Alert>, DateError>
  {
    row => RowAlert(row, now)
  }

  /** The whole list, in row order; the first row whose date cannot be used aborts it. */
  function ExpiringSoon(rows: seq<BonusRow>, now: Instant): Result<seq<Alert>, DateError>
  {
    Collect(rows, AlertAt(now))
  }

  /** `get_students_with_expiring_bonus`, with the clock as a parameter. */
  method GetStudentsWithExpiringBonus(rewards: seq<Reward>, students: seq<Student>, now: Instant)
    returns (r: Result<seq<Alert>, DateError>)
    ensures r == ExpiringSoon(BonusRows(rewards, students), now)
  {
    var rows := BonusRows(rewards, students);
    var expiringSoon: seq<Alert> := [];
    var i := 0;
    while i < |rows|
      invariant 0 <= i <= |rows|
      invariant Collect(rows[..i], AlertAt(now)) == Ok(expiringSoon)
    {
      CollectPrefix(rows, i, AlertAt(now));
      var row := rows[i];
      assert AlertAt(now)(row) == RowAlert(row, now);
      match ExpiryOf(row.dateAwarded, row.monthsRewarded) {
        case Err(e) =>
          CollectErrorPersists(rows, i + 1, AlertAt(now));
          return Err(e);
        case Ok(end) =>
          var daysLeft := DaysBetween(Midnight(end), now);
          if 0 <= daysLeft <= AlertWindowDays {
            expiringSoon := expiringSoon + [Alert(row.name, FormatDate(end), daysLeft)];
          }
      }
      i := i + 1;
    }
    assert rows[..i] == rows;
    return Ok(expiringSoon);
  }

  /** The scan succeeds exactly when every row's expiry can be computed. */
  lemma ExpiringSoonOk(rows: seq<BonusRow>, now: Instant)
    ensures ExpiringSoon(rows, now).Ok? <==>
      forall i :: 0 <= i < |rows| ==> ExpiryOf(rows[i].dateAwarded, rows[i].monthsRewarded).Ok?
  {
    var f := AlertAt(now);
    CollectOk(rows, f);
    assert forall i :: 0 <= i < |rows| ==> f(rows[i]) == RowAlert(rows[i], now);
  }

  /** A successful scan lists the alert of every row that has one, and only such alerts. */
  lemma ExpiringSoonExact(rows: seq<BonusRow>, now: Instant)
    requires ExpiringSoon(rows, now).Ok?
    ensures forall i :: 0 <= i < |rows| && RowAlert(rows[i], now).Ok? && RowAlert(rows[i], now).value.Some? ==>
      RowAlert(rows[i], now).value.value in ExpiringSoon(rows, now).value
    ensures forall a :: a in ExpiringSoon(rows, now).value ==>
      exists i :: 0 <= i < |rows| && RowAlert(rows[i], now) == Ok(Some(a))
  {
    var f := AlertAt(now);
    CollectExact(rows, f);
    assert forall i :: 0 <= i < |rows| ==> f(rows[i]) == RowAlert(rows[i], now);
  }

  /** Every listed bonus has between 0 and 7 days left and carries its printed end date. */
  lemma RowAlertMeaning(row: BonusRow, now: Instant)
    requires ExpiryOf(row.dateAwarded, row.monthsRewarded).Ok?
    ensures var end := ExpiryOf(row.dateAwarded, row.monthsRewarded).value;
      var k := Ordinal(end) - Ordinal(now.date);
      var daysLeft := k - (if now.micros == 0 then 0 else 1);
      RowAlert(row, now) == if 0 <= daysLeft <= AlertWindowDays
        then Ok(Some(Alert(row.name, FormatDate(end), daysLeft))) else Ok(None)
  {
    var end := ExpiryOf(row.dateAwarded, row.monthsRewarded).value;
    DaysUntilMidnight(end, now);
  }

  /** A bonus that ends today is listed, with 0 days left, only at exactly 00:00:00;
      at any later instant of the day its days left are -1 and it is not listed. */
  lemma EndsTodayListedOnlyAtMidnight(row: BonusRow, now: Instant)
    requires ExpiryOf(row.dateAwarded, row.monthsRewarded) == Ok(now.date)
    ensures DaysBetween(Midnight(now.date), now) == (if now.micros == 0 then 0 else -1)
    ensures RowAlert(row, now) ==
      if now.micros == 0 then Ok(Some(Alert(row.name, FormatDate(now.date), 0))) else Ok(None)
  {
    DaysUntilMidnight(now.date, now);
  }

  /** A bonus that ended on an earlier day is never listed. */
  lemma EndedEarlierNeverListed(row: BonusRow, now: Instant)
    requires ExpiryOf(row.dateAwarded, row.monthsRewarded).Ok?
    requires Before(ExpiryOf(row.dateAwarded, row.monthsRewarded).value, now.date)
    ensures RowAlert(row, now) == Ok(None)
  {
    var end := ExpiryOf(row.dateAwarded, row.monthsRewarded).value;
    DaysUntilMidnight(end, now);
    OrdinalOrder(end, now.date);
  }

  // ---------------------------------------------------------------------------
  // Deleting and listing
  // ---------------------------------------------------------------------------

  /** The rows `delete_reward` keeps once both subqueries found an id: those that do
      not match the WHERE clause. */
  function NotPair(recommenderId: int, newStudentId: int): Reward -> bool
  {
    (w: Reward) => !(w.recommenderId == recommenderId && w.newStudentId == newStudentId)
  }

  /** The rewards table after `delete_reward(recommenderName, newStudentName)`. A name
      that matches no student makes its subquery NULL, and `= NULL` matches no row. */
  function DeleteRewardRows(rewards: seq<Reward>, students: seq<Student>,
                            recommenderName: string, newStudentName: string): seq<Reward>
  {
    match (FirstIdByName(students, recommenderName), FirstIdByName(students, newStudentName))
    case (Some(a), Some(b)) => Filter(rewards, NotPair(a, b))
    case _ => rewards
  }

  /** `delete_reward` removes exactly the rewards of the pair of ids of the first
      students with those names, keeps every other row in order, and changes nothing
      when either name is unknown. */
  lemma DeleteRewardSpec(rewards: seq<Reward>, students: seq<Student>,
                         recommenderName: string, newStudentName: string)
    ensures var a := FirstIdByName(students, recommenderName);
      var b := FirstIdByName(students, newStudentName);
      var after := DeleteRewardRows(rewards, students, recommenderName, newStudentName);
      (a.None? || b.None? ==> after == rewards)
      && (a.Some? && b.Some? ==>
        (forall w :: w in after <==> w in rewards && !(w.recommenderId == a.value && w.newStudentId == b.value))
        && (forall c, d :: rewards == c + d ==> after == Filter(c, NotPair(a.value, b.value)) + Filter(d, NotPair(a.value, b.value))))
  {
    var a := FirstIdByName(students, recommenderName);
    var b := FirstIdByName(students, newStudentName);
    if a.Some? && b.Some? {
      var p := NotPair(a.value, b.value);
      forall w ensures w in Filter(rewards, p) <==> w in rewards && !(w.recommenderId == a.value && w.newStudentId == b.value) {
        FilterMembership(rewards, p, w);
        assert p(w) == !(w.recommenderId == a.value && w.newStudentId == b.value);
      }
      forall c, d | rewards == c + d ensures Filter(rewards, p) == Filter(c, p) + Filter(d, p) {
        FilterConcat(c, d, p);
      }
    }
  }

  /** A row of `fetch_rewards`: both student names joined in, the AUTOINCREMENT id left out. */
  datatype RewardView = RewardView(
    recommender: string,
    newStudent: string,
    monthsRewarded: int,
    dateAwarded: string,
    rewardName: string)

  /** The view rows of one reward: one when both of its students exist, none otherwise,
      since each inner join drops a reward whose student row is gone. */
  function RewardViewOf(r: Reward, students: seq<Student>): (vs: seq<RewardView>)
    ensures |vs| <= 1
    ensures |vs| == 1 <==>
      StudentById(students, r.recommenderId).Some? && StudentById(students, r.newStudentId).Some?
    ensures |vs| == 1 ==> vs[0] == RewardView(StudentById(students, r.recommenderId).value.name,
      StudentById(students, r.newStudentId).value.name, r.monthsRewarded, r.dateAwarded, r.rewardName)
  {
    match (StudentById(students, r.recommenderId), StudentById(students, r.newStudentId))
    case (Some(s1), Some(s2)) => [RewardView(s1.name, s2.name, r.monthsRewarded, r.dateAwarded, r.rewardName)]
    case _ => []
  }

  /** The join of one reward against a fixed student table. */
  function ViewsWith(students: seq<Student>): Reward -> seq<RewardView>
  {
    r => RewardViewOf(r, students)
  }

  /** `fetch_rewards`: rewards joined twice with students, in reward order. */
  function FetchRewards(rewards: seq<Reward>, students: seq<Student>): seq<RewardView>
  {
    ConcatMap(rewards, ViewsWith(students))
  }

  /** The listing is built reward by reward: listing two runs of rewards one after the
      other lists each run in turn, so the surviving rows keep the rewards' order. */
  lemma FetchRewardsConcat(a: seq<Reward>, b: seq<Reward>, students: seq<Student>)
    ensures FetchRewards(a + b, students) == FetchRewards(a, students) + FetchRewards(b, students)
  {
    ConcatMapConcat(a, b, ViewsWith(students));
  }

  /** For every reward table, orphaned or not: the listing has at most one row per
      reward, and a view is listed exactly when some reward with both students present
      yields it. A reward whose student was deleted contributes nothing. */
  lemma {:induction false} FetchRewardsJoin(rewards: seq<Reward>, students: seq<Student>)
    ensures |FetchRewards(rewards, students)| <= |rewards|
    ensures forall v :: v in FetchRewards(rewards, students) <==>
      exists i :: 0 <= i < |rewards| && v in RewardViewOf(rewards[i], students)
  {
    if rewards != [] {
      var init := rewards[..|rewards| - 1];
      var last := rewards[|rewards| - 1];
      FetchRewardsJoin(init, students);
      var prev := FetchRewards(init, students);
      assert FetchRewards(rewards, students) == prev + RewardViewOf(last, students);
      forall v ensures v in FetchRewards(rewards, students) <==>
        exists i :: 0 <= i < |rewards| && v in RewardViewOf(rewards[i], students)
      {
        if v in prev {
          var i :| 0 <= i < |init| && v in RewardViewOf(init[i], students);
          assert init[i] == rewards[i];
        } else if v in RewardViewOf(last, students) {
          assert rewards[|rewards| - 1] == last;
        }
        if exists i :: 0 <= i < |rewards| && v in RewardViewOf(rewards[i], students) {
          var i :| 0 <= i < |rewards| && v in RewardViewOf(rewards[i], students);
          if i < |init| {
            assert init[i] == rewards[i];
          }
        }
      }
    }
  }

  /** When every reward refers to existing students (no student was deleted under it),
      the listing has one row per reward, at the same position. */
  lemma {:induction false} FetchRewardsComplete(rewards: seq<Reward>, students: seq<Student>)
    requires forall i :: 0 <= i < |rewards| ==>
      StudentById(students, rewards[i].recommenderId).Some? && StudentById(students, rewards[i].newStudentId).Some?
    ensures |FetchRewards(rewards, students)| == |rewards|
    ensures forall i :: 0 <= i < |rewards| ==>
      [FetchRewards(rewards, students)[i]] == RewardViewOf(rewards[i], students)
  {
    if rewards != [] {
      var init := rewards[..|rewards| - 1];
      var last := rewards[|rewards| - 1];
      assert forall i :: 0 <= i < |init| ==> init[i] == rewards[i];
      FetchRewardsComplete(init, students);
      var prev := FetchRewards(init, students);
      var views := FetchRewards(rewards, students);
      assert |RewardViewOf(last, students)| == 1;
      assert views == prev + RewardViewOf(last, students);
      forall i | 0 <= i < |rewards| ensures [views[i]] == RewardViewOf(rewards[i], students) {
        if i < |init| {
          assert init[i] == rewards[i];
          assert views[i] == prev[i];
        }
      }
    }
  }
}
