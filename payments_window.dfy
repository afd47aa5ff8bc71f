/**
 * The payments window: the guards of "Añadir Pago" and "Editar Pago", the two
 * search boxes of the payment listing, and the student combo box whose first
 * entry is a placeholder carrying no id. The amount stays text: the guards only
 * look at its digits, and the conversion to a float is not part of this model.
 */
module PaymentsWindow {
  import opened Common
  import opened Text
  import opened Calendar
  import opened Schema
  import opened Rows
  import opened Ledger
  import opened Store
  import opened Forms

  /** The outcome of a refused form: the warning shown, or the ValueError that the
      bonus check raises on an unusable award date and that escapes the slot. */
  datatype PaymentError =
    | StudentNotSelected
    | PaymentNotSelected
    | MissingAmountOrDate
    | InvalidAmount
    | UnderBonus
    | Raised(error: DateError)

  /** The arguments of `insert_payment`, all stripped. */
  datatype PaymentInsert = PaymentInsert(studentId: int, amount: string, date: string, paymentMethod: string, notes: string)

  /** The arguments of `update_payment`, all stripped. */
  datatype PaymentUpdate = PaymentUpdate(paymentId: int, amount: string, date: string, paymentMethod: string, notes: string)

  // ---------------------------------------------------------------------------
  // The amount
  // ---------------------------------------------------------------------------

  /** The index of the first "." of `s`, if any. */
  function FirstDot(s: string): (k: Option<nat>)
    ensures k.None? <==> forall j :: 0 <= j < |s| ==> s[j] != '.'
    ensures k.Some? ==> k.value < |s| && s[k.value] == '.' && forall j :: 0 <= j < k.value ==> s[j] != '.'
  {
    if s == [] then None
    else if s[0] == '.' then Some(0)
    else match FirstDot(s[1..]) case None => None case Some(k) => Some(k + 1)
  }

  /** `s.replace('.', '', 1)`. */
  function RemoveFirstDot(s: string): (r: string)
    ensures FirstDot(s).None? ==> r == s
    ensures FirstDot(s).Some? ==> r == s[..FirstDot(s).value] + s[FirstDot(s).value + 1..]
  {
    match FirstDot(s)
    case None => s
    case Some(k) => s[..k] + s[k + 1..]
  }

  /** `amount.replace('.', '', 1).isdigit() and not float(amount) <= 0`. */
  predicate ValidAmount(amount: string)
  {
    IsDigits(RemoveFirstDot(amount)) && DigitsValue(RemoveFirstDot(amount)) > 0
  }

  /** Some character of `s` is a digit from 1 to 9. */
  predicate HasNonZeroDigit(s: string)
  {
    exists i :: 0 <= i < |s| && '1' <= s[i] <= '9'
  }

  /** `s` is digits, a dot, and digits, with at least one digit in all. */
  predicate IsDecimalText(s: string)
  {
    exists k :: 0 <= k < |s| && s[k] == '.' && AllDigits(s[..k]) && AllDigits(s[k + 1..]) && |s| > 1
  }

  /** For digits, a value above zero means a digit other than '0'. */
  lemma PositiveIffNonZeroDigit(s: string)
    requires AllDigits(s)
    ensures DigitsValue(s) > 0 <==> HasNonZeroDigit(s)
  {
    DigitsValuePositive(s);
    if DigitsValue(s) > 0 {
      var i :| 0 <= i < |s| && s[i] != '0';
      assert IsDigit(s[i]);
    }
  }

  /** Dropping the dot at `k` keeps exactly the other characters, in order. */
  lemma DropDotIndex(amount: string, k: int)
    requires 0 <= k < |amount|
    ensures var r := amount[..k] + amount[k + 1..];
      |r| == |amount| - 1
      && (forall j :: 0 <= j < k ==> r[j] == amount[j])
      && (forall j :: k <= j < |r| ==> r[j] == amount[j + 1])
  {
  }

  /** Digits left after dropping the first dot were digits on both sides of it. */
  lemma DropDotDigitsSides(amount: string, k: int)
    requires 0 <= k < |amount| && amount[k] == '.'
    requires IsDigits(amount[..k] + amount[k + 1..])
    ensures IsDecimalText(amount)
  {
    var r := amount[..k] + amount[k + 1..];
    DropDotIndex(amount, k);
    forall j | 0 <= j < k ensures IsDigit(amount[j]) {
      assert r[j] == amount[j];
    }
    forall j | k + 1 <= j < |amount| ensures IsDigit(amount[j]) {
      assert r[j - 1] == amount[j];
    }
    assert AllDigits(amount[..k]) && AllDigits(amount[k + 1..]);
  }

  /** Digits around the first dot leave digits once it is dropped. */
  lemma DropDotDigitsJoin(amount: string, k: int)
    requires FirstDot(amount) == Some(k)
    requires IsDecimalText(amount)
    ensures IsDigits(amount[..k] + amount[k + 1..])
  {
    var r := amount[..k] + amount[k + 1..];
    var m :| 0 <= m < |amount| && amount[m] == '.' && AllDigits(amount[..m]) && AllDigits(amount[m + 1..]) && |amount| > 1;
    forall j | 0 <= j < m ensures amount[j] != '.' {
      assert IsDigit(amount[..m][j]);
    }
    assert m == k;
    DropDotIndex(amount, k);
    forall j | 0 <= j < |r| ensures IsDigit(r[j]) {
      if j < k { assert r[j] == amount[..k][j]; } else { assert r[j] == amount[k + 1..][j - k]; }
    }
  }

  /** Dropping the first dot leaves digits exactly when the text is digits around it. */
  lemma DropDotDigits(amount: string, k: int)
    requires FirstDot(amount) == Some(k)
    ensures IsDigits(amount[..k] + amount[k + 1..]) <==> IsDecimalText(amount)
  {
    if IsDigits(amount[..k] + amount[k + 1..]) {
      DropDotDigitsSides(amount, k);
    }
    if IsDecimalText(amount) {
      DropDotDigitsJoin(amount, k);
    }
  }

  /** Dropping the dot neither adds nor removes a non-zero digit. */
  lemma DropDotNonZero(amount: string, k: int)
    requires 0 <= k < |amount| && amount[k] == '.'
    ensures HasNonZeroDigit(amount[..k] + amount[k + 1..]) <==> HasNonZeroDigit(amount)
  {
    var r := amount[..k] + amount[k + 1..];
    DropDotIndex(amount, k);
    if HasNonZeroDigit(r) {
      var i :| 0 <= i < |r| && '1' <= r[i] <= '9';
      if i < k { assert amount[i] == r[i]; } else { assert amount[i + 1] == r[i]; }
    }
    if HasNonZeroDigit(amount) {
      var i :| 0 <= i < |amount| && '1' <= amount[i] <= '9';
      if i < k { assert r[i] == amount[i]; } else { assert r[i - 1] == amount[i]; }
    }
  }

  /** An amount is accepted exactly when it is a run of digits, possibly with one dot
      somewhere, and some digit is not zero: its value is then above zero. */
  lemma ValidAmountMeaning(amount: string)
    ensures ValidAmount(amount) <==> (IsDigits(amount) || IsDecimalText(amount)) && HasNonZeroDigit(amount)
  {
    var r := RemoveFirstDot(amount);
    match FirstDot(amount)
    case None =>
      if IsDigits(r) {
        PositiveIffNonZeroDigit(r);
      }
      assert !IsDecimalText(amount);
    case Some(k) =>
      DropDotDigits(amount, k);
      DropDotNonZero(amount, k);
      assert !IsDigits(amount) by { assert !IsDigit(amount[k]); }
      if IsDigits(r) {
        PositiveIffNonZeroDigit(r);
      }
  }

  // ---------------------------------------------------------------------------
  // The guards
  // ---------------------------------------------------------------------------

  /** `if not student_id`: the placeholder carries None, and an id of 0 is refused too. */
  predicate StudentSelected(studentId: Option<int>)
  {
    studentId.Some? && studentId.value != 0
  }

  /** Amount and date present, and the amount positive. */
  predicate AmountAndDateValid(amountText: string, dateText: string)
  {
    !Blank(amountText) && !Blank(dateText) && ValidAmount(Strip(amountText))
  }

  /**
   * `add_payment`: a selected student, an amount and a date, a positive amount, and
   * no active bonus, checked in this order. A student under bonus never receives a
   * payment; when the bonus check itself raises, nothing is inserted either.
   */
  function AddPayment(studentId: Option<int>, amountText: string, dateText: string, methodText: string,
                      notesText: string, rewards: seq<Reward>, now: Instant): (r: Result<PaymentInsert, PaymentError>)
    ensures r == Err(StudentNotSelected) <==> !StudentSelected(studentId)
    ensures r == Err(MissingAmountOrDate) <==> StudentSelected(studentId) && (Blank(amountText) || Blank(dateText))
    ensures r == Err(InvalidAmount) <==>
      StudentSelected(studentId) && !Blank(amountText) && !Blank(dateText) && !ValidAmount(Strip(amountText))
    ensures r.Err? && r.error.Raised? <==>
      StudentSelected(studentId) && AmountAndDateValid(amountText, dateText)
      && IsStudentUnderBonus(rewards, studentId.value, now).Err?
    ensures r == Err(UnderBonus) <==>
      StudentSelected(studentId) && AmountAndDateValid(amountText, dateText)
      && IsStudentUnderBonus(rewards, studentId.value, now) == Ok(true)
    ensures r.Ok? ==> (StudentSelected(studentId) && AmountAndDateValid(amountText, dateText)
      && IsStudentUnderBonus(rewards, studentId.value, now) == Ok(false)
      && r.value == PaymentInsert(studentId.value, Strip(amountText), Strip(dateText), Strip(methodText), Strip(notesText)))
  {
    var amount, date := Strip(amountText), Strip(dateText);
    if !StudentSelected(studentId) then Err(StudentNotSelected)
    else if amount == [] || date == [] then Err(MissingAmountOrDate)
    else if !ValidAmount(amount) then Err(InvalidAmount)
    else
      match IsStudentUnderBonus(rewards, studentId.value, now)
      case Err(e) => Err(Raised(e))
      case Ok(true) => Err(UnderBonus)
      case Ok(false) => Ok(PaymentInsert(studentId.value, amount, date, Strip(methodText), Strip(notesText)))
  }

  /** An accepted payment goes to a student with no bonus running today: either the
      student recommended nobody, or the bonus of their first recommendation ended on
      or before today. */
  lemma NoPaymentDuringBonus(studentId: Option<int>, amountText: string, dateText: string, methodText: string,
                             notesText: string, rewards: seq<Reward>, now: Instant)
    requires AddPayment(studentId, amountText, dateText, methodText, notesText, rewards, now).Ok?
    ensures var s := studentId.value;
      FirstByRecommender(rewards, s).None?
      || (var row := rewards[FirstByRecommender(rewards, s).value];
          var end := ExpiryOf(row.dateAwarded, row.monthsRewarded);
          end.Ok? && !Before(now.date, end.value))
  {
  }

  /** A student who recommends someone for the first time is refused payments from the
      moment the reward is granted, dated today. */
  lemma NewRecommenderRefused(rewards: seq<Reward>, s: int, newStudentId: int, months: int,
                              amountText: string, dateText: string, methodText: string, notesText: string,
                              now: Instant)
    requires s != 0 && months >= 1 && AmountAndDateValid(amountText, dateText)
    requires forall i :: 0 <= i < |rewards| ==> rewards[i].recommenderId != s
    requires AddMonths(now.date, months).Ok?
    ensures AddPayment(Some(s), amountText, dateText, methodText, notesText,
      rewards + [RewardRow(s, newStudentId, months, FormatDate(now.date))], now) == Err(UnderBonus)
  {
    GrantTodayIsActive(rewards, s, newStudentId, months, now);
  }

  /** `edit_payment`: a selected row, then the same amount and date rules, and no bonus
      check. The row's id cell is the payment id. */
  function EditPayment(selected: Option<int>, amountText: string, dateText: string, methodText: string,
                       notesText: string): (r: Result<PaymentUpdate, PaymentError>)
    ensures r == Err(PaymentNotSelected) <==> selected.None?
    ensures r == Err(MissingAmountOrDate) <==> selected.Some? && (Blank(amountText) || Blank(dateText))
    ensures r == Err(InvalidAmount) <==>
      selected.Some? && !Blank(amountText) && !Blank(dateText) && !ValidAmount(Strip(amountText))
    ensures r.Ok? <==> selected.Some? && AmountAndDateValid(amountText, dateText)
    ensures r.Ok? ==>
      r.value == PaymentUpdate(selected.value, Strip(amountText), Strip(dateText), Strip(methodText), Strip(notesText))
  {
    var amount, date := Strip(amountText), Strip(dateText);
    if selected.None? then Err(PaymentNotSelected)
    else if amount == [] || date == [] then Err(MissingAmountOrDate)
    else if !ValidAmount(amount) then Err(InvalidAmount)
    else Ok(PaymentUpdate(selected.value, amount, date, Strip(methodText), Strip(notesText)))
  }

  /** Adding and editing apply the same amount and date rules: for a selected student
      without a running bonus, a form is accepted for an insert exactly when it is
      accepted for an update, and then with the same values. */
  lemma SameAmountRules(studentId: int, paymentId: int, amountText: string, dateText: string,
                        methodText: string, notesText: string, rewards: seq<Reward>, now: Instant)
    requires studentId != 0 && IsStudentUnderBonus(rewards, studentId, now) == Ok(false)
    ensures var a := AddPayment(Some(studentId), amountText, dateText, methodText, notesText, rewards, now);
      var e := EditPayment(Some(paymentId), amountText, dateText, methodText, notesText);
      (a.Ok? <==> e.Ok?) && (a.Err? ==> a.error == e.error)
      && (a.Ok? ==> (a.value.amount == e.value.amount && a.value.date == e.value.date
        && a.value.paymentMethod == e.value.paymentMethod && a.value.notes == e.value.notes))
  {
  }

  // ---------------------------------------------------------------------------
  // The listing and the combo box
  // ---------------------------------------------------------------------------

  /** A row of `fetch_payments`: id, student name, amount, date, method, notes. */
  datatype PaymentView = PaymentView(id: int, studentName: string, amount: string, date: string,
                                     paymentMethod: Option<string>, notes: Option<string>)

  /** `(payment[5] or "")`. */
  function NotesText(notes: Option<string>): string
  {
    if notes.Some? then notes.value else ""
  }

  /** The two search boxes, lower-cased, applied to one payment. */
  function PaymentFilter(studentFilter: string, notesFilter: string): PaymentView -> bool
  {
    (p: PaymentView) => PassesFilter(p.studentName, studentFilter) && PassesFilter(NotesText(p.notes), notesFilter)
  }

  /** `load_payments`: the rows put in the table, in the order `fetch_payments` gives them. */
  method LoadPayments(payments: seq<PaymentView>, studentText: string, notesText: string)
    returns (table: seq<PaymentView>)
    ensures table == Filter(payments, PaymentFilter(Lower(studentText), Lower(notesText)))
  {
    var studentFilter, notesFilter := Lower(studentText), Lower(notesText);
    table := [];
    var i := 0;
    while i < |payments|
      invariant 0 <= i <= |payments|
      invariant table == Filter(payments[..i], PaymentFilter(studentFilter, notesFilter))
    {
      var p := payments[i];
      assert payments[..i + 1] == payments[..i] + [p];
      FilterSnoc(payments[..i], p, PaymentFilter(studentFilter, notesFilter));
      i := i + 1;
      var studentName := Lower(p.studentName);
      var notes := Lower(NotesText(p.notes));
      if studentFilter != [] && !Contains(studentName, studentFilter) {
        continue;
      }
      if notesFilter != [] && !Contains(notes, notesFilter) {
        continue;
      }
      table := table + [p];
    }
    assert payments[..i] == payments;
  }

  /** A payment is listed exactly when each non-empty search box occurs, ignoring case,
      in its field; a payment without notes is hidden by any non-empty notes search. */
  lemma LoadPaymentsShows(payments: seq<PaymentView>, studentText: string, notesText: string)
    ensures forall p :: p in Filter(payments, PaymentFilter(Lower(studentText), Lower(notesText))) <==>
      (p in payments
       && (studentText == [] || Contains(Lower(p.studentName), Lower(studentText)))
       && (notesText == [] || Contains(Lower(NotesText(p.notes)), Lower(notesText))))
    ensures notesText != [] ==> forall p :: p in payments && p.notes.None? ==>
      p !in Filter(payments, PaymentFilter(Lower(studentText), Lower(notesText)))
  {
    var f := PaymentFilter(Lower(studentText), Lower(notesText));
    LowerEmpty(studentText);
    LowerEmpty(notesText);
    forall p ensures p in Filter(payments, f) <==>
      (p in payments
       && (studentText == [] || Contains(Lower(p.studentName), Lower(studentText)))
       && (notesText == [] || Contains(Lower(NotesText(p.notes)), Lower(notesText))))
    {
      FilterMembership(payments, f, p);
    }
  }

  /** An entry of the student combo box: its label and the data it carries. */
  datatype ComboItem = ComboItem(caption: string, data: Option<int>)

  const Placeholder := ComboItem("Selecciona alumno", None)

  /** `f"{student['name']} (ID: {student['id']})"`. */
  function StudentLabel(st: StudentView): string
  {
    st.name + " (ID: " + IntToString(st.id) + ")"
  }

  /** The entry of one student: its label, carrying the student's id. */
  function StudentItem(st: StudentView): ComboItem
  {
    ComboItem(StudentLabel(st), Some(st.id))
  }

  /** `load_students`: the placeholder, then one entry per student in listing order. */
  method LoadStudentCombo(students: seq<StudentView>) returns (items: seq<ComboItem>)
    ensures items == [Placeholder] + Map(students, StudentItem)
  {
    items := [Placeholder];
    var i := 0;
    while i < |students|
      invariant 0 <= i <= |students|
      invariant items == [Placeholder] + Map(students[..i], StudentItem)
    {
      MapPrefix(students, i, StudentItem);
      items := items + [ComboItem(StudentLabel(students[i]), Some(students[i].id))];
      i := i + 1;
    }
    assert students[..i] == students;
  }

  /** With the usual positive ids, the placeholder, and only it, fails the selection
      check of `add_payment`. */
  lemma PlaceholderOnlyRefused(students: seq<StudentView>, k: int)
    requires forall i :: 0 <= i < |students| ==> students[i].id >= 1
    requires 0 <= k <= |students|
    ensures var items := [Placeholder] + Map(students, StudentItem);
      !StudentSelected(items[k].data) <==> k == 0
  {
    var items := [Placeholder] + Map(students, StudentItem);
    if k > 0 {
      assert items[k] == StudentItem(students[k - 1]);
    }
  }
}
