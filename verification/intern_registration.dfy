/** The registration form of `src/components/AddInternForm.js`: it checks
    the required fields and the e-mail pattern, then looks the intern code
    up, then the e-mail, and inserts the row only when neither is taken. */
module InternRegistration {
  import opened Common
  import opened Rows
  import opened InternStore

  // ---------------------------------------------------------------------------
  // The e-mail pattern /^[^\s@]+@[^\s@]+\.[^\s@]+$/
  // ---------------------------------------------------------------------------

  /** `[^\s@]` */
  predicate PlainChar(c: char) {
    !IsJsWhitespace(c) && c != '@'
  }

  predicate Plain(s: string) {
    forall j | 0 <= j < |s| :: PlainChar(s[j])
  }

  /** The position of the first `c` in `s`, or `|s|`. */
  function IndexOf(s: string, c: char): (i: nat)
    ensures i <= |s|
    ensures i < |s| ==> s[i] == c
    ensures forall j | 0 <= j < i :: s[j] != c
  {
    if s == [] then 0
    else if s[0] == c then 0
    else 1 + IndexOf(s[1..], c)
  }

  /** A '.' with at least one character on each side. */
  predicate InnerDot(d: string) {
    exists k | 0 < k < |d| - 1 :: d[k] == '.'
  }

  /** The pattern checked by hand: split at the first '@'; before it a
      non-empty run of plain characters, after it plain characters with an
      inner '.'. */
  predicate ValidEmail(s: string) {
    var at := IndexOf(s, '@');
    0 < at < |s| && Plain(s[..at]) && Plain(s[at + 1..]) && InnerDot(s[at + 1..])
  }

  /** What the regular expression matches: `s` is `local@middle.last` with
      the three parts non-empty and made of plain characters (the middle and
      last parts may hold further dots). */
  ghost predicate PatternMatches(s: string) {
    exists at, dot | 0 < at && at + 1 < dot && dot + 1 < |s| ::
      s[at] == '@' && s[dot] == '.' && Plain(s[..at]) && Plain(s[at + 1..])
  }

  /** An '@' preceded only by plain characters is the first '@'. */
  lemma FirstAt(s: string, a: nat)
    requires a < |s| && s[a] == '@' && Plain(s[..a])
    ensures IndexOf(s, '@') == a
  {
  }

  lemma ValidEmailMatches(s: string)
    requires ValidEmail(s)
    ensures PatternMatches(s)
  {
    var at := IndexOf(s, '@');
    var d := s[at + 1..];
    var k :| 0 < k < |d| - 1 && d[k] == '.';
    assert s[at + 1 + k] == d[k];
    assert s[at] == '@' && s[at + 1 + k] == '.';
  }

  lemma MatchIsValidEmail(s: string)
    requires PatternMatches(s)
    ensures ValidEmail(s)
  {
    var a, dot :| 0 < a && a + 1 < dot && dot + 1 < |s|
                  && s[a] == '@' && s[dot] == '.' && Plain(s[..a]) && Plain(s[a + 1..]);
    FirstAt(s, a);
    var d := s[a + 1..];
    assert d[dot - a - 1] == '.';
  }

  /** The hand-written check accepts exactly the strings the pattern matches. */
  lemma ValidEmailIffPattern(s: string)
    ensures ValidEmail(s) <==> PatternMatches(s)
  {
    if ValidEmail(s) {
      ValidEmailMatches(s);
    }
    if PatternMatches(s) {
      MatchIsValidEmail(s);
    }
  }

  /** An accepted address holds no white space and exactly one '@'. */
  lemma ValidEmailShape(s: string)
    requires ValidEmail(s)
    ensures forall j | 0 <= j < |s| :: !IsJsWhitespace(s[j])
    ensures forall j | 0 <= j < |s| :: s[j] == '@' <==> j == IndexOf(s, '@')
  {
    var at := IndexOf(s, '@');
    forall j | 0 <= j < |s|
      ensures !IsJsWhitespace(s[j]) && (s[j] == '@' <==> j == at)
    {
      if j < at {
        assert s[j] == s[..at][j];
        assert PlainChar(s[..at][j]);
      } else if j > at {
        assert s[j] == s[at + 1..][j - at - 1];
        assert PlainChar(s[at + 1..][j - at - 1]);
      }
    }
  }

  /** Lower-case letters and dots are plain characters. */
  lemma LettersArePlain(s: string)
    requires forall j | 0 <= j < |s| :: 'a' <= s[j] <= 'z' || s[j] == '.'
    ensures Plain(s)
  {
  }

  /** Joining a non-empty plain local part and a plain domain with an inner
      dot by an '@' gives an address the pattern accepts. */
  lemma JoinedAddressIsValid(local: string, domain: string)
    requires local != [] && Plain(local) && Plain(domain) && InnerDot(domain)
    ensures ValidEmail(local + "@" + domain)
  {
    var s := local + "@" + domain;
    assert s[..|local|] == local;
    assert s[|local|] == '@';
    FirstAt(s, |local|);
    assert s[|local| + 1..] == domain;
  }

  /** A typical address passes. */
  lemma SampleAddressAccepted()
    ensures ValidEmail("ravi@dmrc.in")
  {
    var local, domain := "ravi", "dmrc.in";
    SamplePartsArePlain(local, domain);
    JoinedAddressIsValid(local, domain);
    assert local + "@" + domain == "ravi@dmrc.in";
  }

  lemma SamplePartsArePlain(local: string, domain: string)
    requires local == "ravi" && domain == "dmrc.in"
    ensures local != [] && Plain(local) && Plain(domain) && InnerDot(domain)
  {
    LettersArePlain(local);
    LettersArePlain(domain);
    assert domain[4] == '.';
  }

  /** An address without a dot after the '@' fails. */
  lemma SampleAddressRejected()
    ensures !ValidEmail("ravi@dmrc")
  {
    var s := "ravi@dmrc";
    assert IndexOf(s, '@') == 4;
    assert s[5..] == "dmrc";
    assert !InnerDot("dmrc");
  }

  // ---------------------------------------------------------------------------
  // validateForm
  // ---------------------------------------------------------------------------

  /** The form fields, as typed. */
  datatype NewIntern = NewIntern(internCode: string, name: string, email: string, department: string,
                                 phone: string, startDate: string)

  /** A fresh form: every field empty except the start date, which is today. */
  function BlankForm(today: string): (f: NewIntern)
    ensures f.internCode == "" && f.name == "" && f.email == "" && f.department == "" && f.phone == ""
    ensures f.startDate == today
  {
    NewIntern("", "", "", "", "", today)
  }

  predicate MissingRequired(f: NewIntern) {
    f.internCode == "" || f.name == "" || f.email == "" || f.department == ""
  }

  datatype FormCheck = MissingField | BadEmail | FormOk

  /** `validateForm()`: the required fields first, then the e-mail pattern. */
  function ValidateForm(f: NewIntern): (v: FormCheck)
    ensures v == MissingField <==> MissingRequired(f)
    ensures v == BadEmail <==> !MissingRequired(f) && !PatternMatches(f.email)
    ensures v == FormOk <==> !MissingRequired(f) && PatternMatches(f.email)
  {
    ValidEmailIffPattern(f.email);
    if MissingRequired(f) then MissingField
    else if !ValidEmail(f.email) then BadEmail
    else FormOk
  }

  /** The phone number and the start date are not checked. */
  lemma PhoneAndDateUnchecked(f: NewIntern, phone: string, startDate: string)
    ensures ValidateForm(f.(phone := phone, startDate := startDate)) == ValidateForm(f)
  {
  }

  // ---------------------------------------------------------------------------
  // handleSubmit
  // ---------------------------------------------------------------------------

  /** `{ ...formData, is_active: true }` with the id the database assigns:
      the phone is stored as typed and the end date is left empty. */
  function InsertedRow(f: NewIntern, newId: string): (row: InternRow)
    ensures row.id == newId && row.internCode == f.internCode && row.name == f.name
    ensures row.email == f.email && row.department == f.department && row.startDate == f.startDate
    ensures row.phone == Some(f.phone) && row.endDate == None && row.isActive
  {
    InternRow(newId, f.internCode, f.name, f.email, f.department, Some(f.phone), f.startDate, None, true)
  }

  /** Some row holds `v` in column `col`. */
  predicate Taken(rows: seq<InternRow>, col: Column, v: string) {
    exists i | 0 <= i < |rows| :: ColumnValue(rows[i], col) == v
  }

  /** On a unique column the `.single()` lookup finds a row exactly when
      the value is taken. */
  lemma FoundIffTaken(rows: seq<InternRow>, col: Column, v: string)
    requires ColumnUnique(rows, col)
    ensures Single(RowsWhere(rows, col, v), false).Found? <==> Taken(rows, col, v)
  {
    UniqueLookup(rows, col, v);
  }

  datatype SubmitOutcome = Invalid(check: FormCheck) | DuplicateCode | DuplicateEmail | Failed | Added

  /** The decision `handleSubmit` takes, step by step: validation, the
      intern-code lookup, the e-mail lookup, then the insert. */
  function Decide(f: NewIntern, rows: seq<InternRow>, newId: string,
                  codeLookupFails: bool, emailLookupFails: bool, insertFails: bool): (outcome: SubmitOutcome)
    ensures outcome == Added ==> !Taken(rows, CodeColumn, f.internCode) && !Taken(rows, EmailColumn, f.email)
  {
    if ValidateForm(f) != FormOk then Invalid(ValidateForm(f))
    else if codeLookupFails then Failed
    else if Taken(rows, CodeColumn, f.internCode) then DuplicateCode
    else if emailLookupFails then Failed
    else if Taken(rows, EmailColumn, f.email) then DuplicateEmail
    else if insertFails || Clashes(rows, InsertedRow(f, newId)) then Failed
    else Added
  }

  /** The checks run in order and each outcome names the first one that
      stops the submission: a taken code is reported before a taken e-mail,
      and the e-mail is looked up only once the code is free. */
  lemma DecisionOrder(f: NewIntern, rows: seq<InternRow>, newId: string,
                      codeLookupFails: bool, emailLookupFails: bool, insertFails: bool)
    ensures var outcome := Decide(f, rows, newId, codeLookupFails, emailLookupFails, insertFails);
            (outcome.Invalid? <==> ValidateForm(f) != FormOk)
            && (outcome == DuplicateCode <==>
                  ValidateForm(f) == FormOk && !codeLookupFails && Taken(rows, CodeColumn, f.internCode))
            && (outcome == DuplicateEmail <==>
                  ValidateForm(f) == FormOk && !codeLookupFails && !Taken(rows, CodeColumn, f.internCode)
                  && !emailLookupFails && Taken(rows, EmailColumn, f.email))
            && (outcome == Added <==>
                  ValidateForm(f) == FormOk && !codeLookupFails && !emailLookupFails
                  && !Taken(rows, CodeColumn, f.internCode) && !Taken(rows, EmailColumn, f.email)
                  && !insertFails && !Clashes(rows, InsertedRow(f, newId)))
  {
  }

  /** Once the code and the e-mail are free, the insert clashes only when
      the database assigns an id already in use. */
  lemma FreeCodeAndEmailClashOnlyOnId(f: NewIntern, rows: seq<InternRow>, newId: string)
    requires !Taken(rows, CodeColumn, f.internCode) && !Taken(rows, EmailColumn, f.email)
    ensures Clashes(rows, InsertedRow(f, newId)) <==> Taken(rows, IdColumn, newId)
  {
    if Clashes(rows, InsertedRow(f, newId)) {
      var i :| 0 <= i < |rows| && (rows[i].id == newId || rows[i].internCode == f.internCode || rows[i].email == f.email);
      assert ColumnValue(rows[i], IdColumn) == newId;
    }
    if Taken(rows, IdColumn, newId) {
      var i :| 0 <= i < |rows| && ColumnValue(rows[i], IdColumn) == newId;
      assert rows[i].id == newId;
    }
  }

  /** After a row is appended to a table with unique columns, looking its
      value up finds that row. */
  lemma AppendedRowIsFound(rows: seq<InternRow>, row: InternRow, col: Column)
    requires |rows| > 0 && rows[|rows| - 1] == row && ColumnUnique(rows, col)
    ensures Single(RowsWhere(rows, col, ColumnValue(row, col)), false) == Found(row)
  {
    var m := RowsWhere(rows, col, ColumnValue(row, col));
    UniqueColumnMatchesOnce(rows, col, ColumnValue(row, col));
    RowsWhereMembers(rows, col, ColumnValue(row, col));
    assert row in m;
  }

  class RegistrationForm {
    const directory: InternDirectory
    var form: NewIntern

    constructor (directory: InternDirectory, today: string)
      ensures this.directory == directory && form == BlankForm(today)
    {
      this.directory := directory;
      form := BlankForm(today);
    }

    method Edit(f: NewIntern)
      modifies this
      ensures form == f
    {
      form := f;
    }

    /** `handleSubmit`: validate, refuse a taken intern code, then a taken
        e-mail, insert, and reset the form. A lookup whose error is not
        "no rows" and a failed insert end in the generic failure. */
    method Submit(newId: string, today: string, codeLookupFails: bool, emailLookupFails: bool, insertFails: bool)
      returns (outcome: SubmitOutcome)
      requires directory.Valid()
      modifies this, directory
      ensures directory.Valid()
      ensures outcome == Decide(old(form), old(directory.rows), newId, codeLookupFails, emailLookupFails, insertFails)
      ensures outcome == Added ==>
                directory.rows == old(directory.rows) + [InsertedRow(old(form), newId)]
                && form == BlankForm(today)
      ensures outcome != Added ==> directory.rows == old(directory.rows) && form == old(form)
    {
      var f := form;
      var check := ValidateForm(f);
      if check != FormOk {
        return Invalid(check);
      }
      var byCode := directory.Find(CodeColumn, f.internCode, codeLookupFails);
      if byCode.LookupError? {
        return Failed;
      }
      FoundIffTaken(directory.rows, CodeColumn, f.internCode);
      if byCode.Found? {
        return DuplicateCode;
      }
      var byEmail := directory.Find(EmailColumn, f.email, emailLookupFails);
      if byEmail.LookupError? {
        return Failed;
      }
      FoundIffTaken(directory.rows, EmailColumn, f.email);
      if byEmail.Found? {
        return DuplicateEmail;
      }
      var row := InsertedRow(f, newId);
      var res := directory.Insert(row, insertFails);
      if res != Inserted {
        return Failed;
      }
      form := BlankForm(today);
      outcome := Added;
    }
  }
}
