/**
 * `ImportService`: reads a CSV file of employees line by line, parses each
 * data line and adds the result to the employee store, collecting one
 * diagnostic per rejected line instead of stopping.
 *
 * The file arrives as its lines (what `BufferedReader.readLine` returns, line
 * terminators removed), or as the message of the `IOException` that kept it
 * from being opened.
 */
module ImportService {
  import opened Wrappers
  import opened Text
  import opened Errors
  import opened Positions
  import opened Employees
  import opened EmployeeService

  /** `ImportSummary`: how many records were added and the diagnostics, in line order. */
  datatype ImportSummary = ImportSummary(importedCount: nat, errors: seq<string>)

  /** The store after an import together with its summary. */
  datatype ImportResult = ImportResult(store: Store, summary: ImportSummary)

  // ---------------------------------------------------------------------------
  // One line
  // ---------------------------------------------------------------------------

  /** Columns of a data line: firstName, lastName, email, company, position, salary. */
  const ColumnCount: nat := 6

  function ColumnCountMessage(found: nat): string {
    "Nieprawidłowa liczba kolumn (oczekiwano 6, otrzymano " + NatToString(found) + ")"
  }

  function PositionMessage(positionText: string): string {
    "Nieprawidłowe stanowisko: " + positionText
  }

  function SalaryFormatMessage(salaryText: string): string {
    "Nieprawidłowy format wynagrodzenia: " + salaryText
  }

  const NonPositiveSalaryMessage := "Wynagrodzenie musi być dodatnie"

  /** The position column matches one of the constant names ignoring case. */
  predicate NamesPosition(text: string, p: Position) {
    EqualsIgnoreCase(text, p.Name())
  }

  /** `parseCsvLine`: split on commas, trim every field, then check in order the
      column count, the position (its upper-cased text must be a constant
      name) and the salary (decimal text, strictly positive). The failure
      carries the message of the `IllegalArgumentException`; what each
      outcome means is `ParseCsvLineOutcomes`. */
  function ParseCsvLine(line: string): (r: Result<Employee, string>)
    ensures r.Success? ==> r.value.Valid() && r.value.salary > 0.0 && r.value.status == ACTIVE
  {
    var fields := JavaSplit(line, ',');
    if |fields| != ColumnCount then Failure(ColumnCountMessage(|fields|))
    else ParseFields(fields)
  }

  /** The checks after the column count, on the six untrimmed fields. */
  function ParseFields(fields: seq<string>): (r: Result<Employee, string>)
    requires |fields| == ColumnCount
    ensures r.Success? ==> r.value.Valid() && r.value.salary > 0.0 && r.value.status == ACTIVE
  {
    var firstName := Trim(fields[0]);
    var lastName := Trim(fields[1]);
    var email := Trim(fields[2]);
    var company := Trim(fields[3]);
    var positionText := Trim(fields[4]);
    var salaryText := Trim(fields[5]);
    match ValueOf(Upper(positionText))
    case None => Failure(PositionMessage(positionText))
    case Some(position) =>
      match ParseDecimal(salaryText)
      case None => Failure(SalaryFormatMessage(salaryText))
      case Some(salary) =>
        if salary <= 0.0 then Failure(NonPositiveSalaryMessage)
        else
          Success(NewEmployee(firstName + " " + lastName, email, company, position, salary).value)
  }

  /** The outcomes of `ParseCsvLine` in the order the checks run: a wrong
      column count wins over everything; then a position text that names no
      constant ignoring case; then salary text that is not a number; then a
      salary that is not positive. A line that passes all four checks is
      accepted, and the record takes its fields from the trimmed columns. */
  lemma ParseCsvLineOutcomes(line: string)
    ensures var fields := JavaSplit(line, ',');
      |fields| != ColumnCount ==> ParseCsvLine(line) == Failure(ColumnCountMessage(|fields|))
    ensures var fields := JavaSplit(line, ',');
      |fields| == ColumnCount && (forall p: Position :: !NamesPosition(Trim(fields[4]), p)) ==>
        ParseCsvLine(line) == Failure(PositionMessage(Trim(fields[4])))
    ensures var fields := JavaSplit(line, ',');
      |fields| == ColumnCount && (exists p: Position :: NamesPosition(Trim(fields[4]), p)) ==>
        && (ParseDecimal(Trim(fields[5])).None? ==>
              ParseCsvLine(line) == Failure(SalaryFormatMessage(Trim(fields[5]))))
        && (ParseDecimal(Trim(fields[5])).Some? && ParseDecimal(Trim(fields[5])).value <= 0.0 ==>
              ParseCsvLine(line) == Failure(NonPositiveSalaryMessage))
        && (ParseDecimal(Trim(fields[5])).Some? && ParseDecimal(Trim(fields[5])).value > 0.0 ==>
              ParseCsvLine(line).Success?)
    ensures ParseCsvLine(line).Success? ==>
      var fields := JavaSplit(line, ',');
      var e := ParseCsvLine(line).value;
      && |fields| == ColumnCount
      && e.fullName == Trim(fields[0]) + " " + Trim(fields[1])
      && e.email == Trim(fields[2])
      && e.companyName == Trim(fields[3])
      && NamesPosition(Trim(fields[4]), e.position)
      && ParseDecimal(Trim(fields[5])) == Some(e.salary)
  {
    var fields := JavaSplit(line, ',');
    if |fields| == ColumnCount {
      PositionLookupIgnoresCase(Trim(fields[4]));
    }
  }

  /** `Position.valueOf(text.toUpperCase())` finds exactly the constant whose
      name equals `text` ignoring case. */
  lemma PositionLookupIgnoresCase(text: string)
    ensures ValueOf(Upper(text)).Some? <==> exists p: Position :: NamesPosition(text, p)
    ensures ValueOf(Upper(text)).Some? ==> NamesPosition(text, ValueOf(Upper(text)).value)
  {
    forall p: Position
      ensures Upper(text) == p.Name() <==> NamesPosition(text, p)
    {
      NameHasNoLowerCase(p);
      UpperMatchIffEqualsIgnoreCase(text, p.Name());
    }
    if exists p: Position :: NamesPosition(text, p) {
      var p: Position :| NamesPosition(text, p);
      assert Upper(text) == p.Name();
      ValueOfName(p);
    }
  }

  /** The data line a CSV export would write for these values. */
  function CsvLine(first: string, last: string, email: string, company: string,
                   position: Position, salary: nat): string {
    Join([first, last, email, company, position.Name(), NatToString(salary)], ',')
  }

  /** Comma-free, already trimmed text: a field that survives `split` and `trim` unchanged. */
  predicate PlainField(s: string) {
    ',' !in s && IsTrimmed(s)
  }

  /** Writing a record as a line and parsing it back gives the record. */
  lemma ParseCsvLineOfCsvLine(first: string, last: string, email: string,
                              company: string, position: Position, salary: nat)
    requires PlainField(first) && PlainField(last) && PlainField(email) && PlainField(company)
    requires salary > 0
    ensures ParseCsvLine(CsvLine(first, last, email, company, position, salary))
         == Success(Employee(first + " " + last, email, company, position, salary as real, ACTIVE))
  {
    CsvLineSplits(first, last, email, company, position, salary);
    ParseFieldsOfPlain(first, last, email, company, position, salary);
  }

  /** The field checks accept the six plain fields of a written line. */
  lemma ParseFieldsOfPlain(first: string, last: string, email: string,
                           company: string, position: Position, salary: nat)
    requires PlainField(first) && PlainField(last) && PlainField(email) && PlainField(company)
    requires salary > 0
    ensures ParseFields([first, last, email, company, position.Name(), NatToString(salary)])
         == Success(Employee(first + " " + last, email, company, position, salary as real, ACTIVE))
  {
    var fields := [first, last, email, company, position.Name(), NatToString(salary)];
    PlainFieldsParse(fields, first, last, email, company, position, salary);
  }

  lemma PlainFieldsParse(fields: seq<string>, first: string, last: string, email: string,
                         company: string, position: Position, salary: nat)
    requires PlainField(first) && PlainField(last) && PlainField(email) && PlainField(company)
    requires salary > 0
    requires |fields| == ColumnCount
    requires fields[0] == first && fields[1] == last && fields[2] == email && fields[3] == company
    requires fields[4] == position.Name() && fields[5] == NatToString(salary)
    ensures ParseFields(fields)
         == Success(Employee(first + " " + last, email, company, position, salary as real, ACTIVE))
  {
    PositionTextRoundTrip(position);
    SalaryTextRoundTrip(salary);
    TrimOfPlain(first);
    TrimOfPlain(last);
    TrimOfPlain(email);
    TrimOfPlain(company);
    ParseFieldsAccepts(fields, position, salary as real);
  }

  lemma TrimOfPlain(s: string)
    requires PlainField(s)
    ensures Trim(s) == s
  {
  }

  /** Fields whose position and salary pass both checks make a record of the trimmed texts. */
  lemma ParseFieldsAccepts(fields: seq<string>, position: Position, salary: real)
    requires |fields| == ColumnCount
    requires ValueOf(Upper(Trim(fields[4]))) == Some(position)
    requires ParseDecimal(Trim(fields[5])) == Some(salary) && salary > 0.0
    ensures ParseFields(fields)
         == Success(Employee(Trim(fields[0]) + " " + Trim(fields[1]), Trim(fields[2]), Trim(fields[3]),
                             position, salary, ACTIVE))
  {
  }

  /** The six fields of a written line come back from `split`. */
  lemma CsvLineSplits(first: string, last: string, email: string,
                      company: string, position: Position, salary: nat)
    requires PlainField(first) && PlainField(last) && PlainField(email) && PlainField(company)
    ensures JavaSplit(CsvLine(first, last, email, company, position, salary), ',')
         == [first, last, email, company, position.Name(), NatToString(salary)]
  {
    var salaryText := NatToString(salary);
    var fields := [first, last, email, company, position.Name(), salaryText];
    assert ',' !in salaryText by {
      assert forall i :: 0 <= i < |salaryText| ==> IsDigit(salaryText[i]);
    }
    assert ',' !in position.Name() && salaryText != "";
    assert forall i :: 0 <= i < |fields| ==> ',' !in fields[i] by {
      assert fields[0] == first && fields[1] == last && fields[2] == email && fields[3] == company;
      assert fields[4] == position.Name() && fields[5] == salaryText;
    }
    JavaSplitOfJoin(fields, ',');
  }

  /** A written salary has no comma, survives `trim` and parses back to its value. */
  lemma SalaryTextRoundTrip(salary: nat)
    ensures ',' !in NatToString(salary)
    ensures Trim(NatToString(salary)) == NatToString(salary)
    ensures ParseDecimal(NatToString(salary)) == Some(salary as real)
  {
    assert AllDigits(NatToString(salary));
    ParseDecimalOfNatToString(salary);
  }

  /** A written position name survives `trim` and `toUpperCase` and names its constant. */
  lemma PositionTextRoundTrip(position: Position)
    ensures Trim(position.Name()) == position.Name()
    ensures ValueOf(Upper(position.Name())) == Some(position)
  {
    assert IsTrimmed(position.Name());
    NameHasNoLowerCase(position);
    UpperOfUpperCase(position.Name());
    ValueOfName(position);
  }

  // ---------------------------------------------------------------------------
  // The file
  // ---------------------------------------------------------------------------

  /** The diagnostic for a rejected line. */
  function LineError(lineNumber: nat, cause: string): string {
    "Linia " + NatToString(lineNumber) + ": " + cause
  }

  function ReadErrorMessage(cause: string): string {
    "Błąd odczytu pliku: " + cause
  }

  /** Number of data lines that are not blank. */
  function NonBlankCount(rows: seq<string>): nat
    decreases |rows|
  {
    if |rows| == 0 then 0
    else NonBlankCount(rows[..|rows| - 1]) + (if IsBlank(rows[|rows| - 1]) then 0 else 1)
  }

  /** Every record a parse produced satisfies the class invariant. */
  predicate ParsedRecordsValid(parsed: seq<Result<Employee, string>>) {
    forall i :: 0 <= i < |parsed| && parsed[i].Success? ==> parsed[i].value.Valid()
  }

  /** `parseCsvLine` on every data line, in order. */
  function ParseAll(rows: seq<string>): (parsed: seq<Result<Employee, string>>)
    ensures |parsed| == |rows|
    ensures forall i :: 0 <= i < |rows| ==> parsed[i] == ParseCsvLine(rows[i])
    ensures ParsedRecordsValid(parsed)
  {
    seq(|rows|, i requires 0 <= i < |rows| => ParseCsvLine(rows[i]))
  }

  /** The old records stay in front and one record is appended per import. */
  predicate Extends(st: Store, r: ImportResult) {
    && |r.store.entries| == |st.entries| + r.summary.importedCount
    && r.store.entries[..|st.entries|] == st.entries
  }

  /** Every non-blank line that failed to parse is reported with its number and cause. */
  predicate ReportsFailures(rows: seq<string>, parsed: seq<Result<Employee, string>>, first: nat,
                            errors: seq<string>)
    requires |parsed| == |rows|
  {
    forall i :: 0 <= i < |rows| && !IsBlank(rows[i]) && parsed[i].Failure? ==>
      LineError(first + i, parsed[i].error) in errors
  }

  /** Every non-blank line that parsed has its email in the store. */
  predicate StoresParsedEmails(rows: seq<string>, parsed: seq<Result<Employee, string>>, st: Store)
    requires |parsed| == |rows|
  {
    forall i :: 0 <= i < |rows| && !IsBlank(rows[i]) && parsed[i].Success? ==>
      HasEmail(st, parsed[i].value.email)
  }

  /** `e` is what some non-blank line parsed to. */
  predicate FromSomeRow(rows: seq<string>, parsed: seq<Result<Employee, string>>, e: Employee)
    requires |parsed| == |rows|
  {
    exists i :: 0 <= i < |rows| && !IsBlank(rows[i]) && parsed[i] == Success(e)
  }

  /** Every record from position `from` on is what some line parsed to. */
  predicate AppendedFromRows(rows: seq<string>, parsed: seq<Result<Employee, string>>,
                             entries: seq<Employee>, from: nat)
    requires |parsed| == |rows|
  {
    forall j :: from <= j < |entries| ==> FromSomeRow(rows, parsed, entries[j])
  }

  /** What holds after the loop has seen the data lines `rows` (numbered from
      `first`, parsed to `parsed`) starting from store `st`: the old records
      are kept in front and one record is appended per import; every
      non-blank line is either imported or reported; each line that failed to
      parse is reported; each parsed line's email is now in the store; and
      each appended record is what some line parsed to. */
  predicate ImportInvariant(st: Store, rows: seq<string>, parsed: seq<Result<Employee, string>>,
                            first: nat, r: ImportResult)
    requires |parsed| == |rows|
  {
    && Extends(st, r)
    && r.summary.importedCount + |r.summary.errors| == NonBlankCount(rows)
    && ReportsFailures(rows, parsed, first, r.summary.errors)
    && StoresParsedEmails(rows, parsed, r.store)
    && AppendedFromRows(rows, parsed, r.store.entries, |st.entries|)
  }

  /** The `while` loop over the data lines `rows`, numbered from `first`,
      where `parsed[i]` is what `parseCsvLine` made of `rows[i]`. */
  function ImportRows(st: Store, rows: seq<string>, parsed: seq<Result<Employee, string>>,
                      first: nat): (r: ImportResult)
    requires Valid(st) && |parsed| == |rows| && ParsedRecordsValid(parsed)
    ensures Valid(r.store)
    ensures ImportInvariant(st, rows, parsed, first, r)
    decreases |rows|
  {
    if |rows| == 0 then ImportResult(st, ImportSummary(0, []))
    else
      var n := |rows| - 1;
      var last := parsed[n];
      assert last.Success? ==> last.value.Valid();
      assert ParsedRecordsValid(parsed[..n]) by {
        assert forall i :: 0 <= i < n ==> parsed[..n][i] == parsed[i];
      }
      var prev := ImportRows(st, rows[..n], parsed[..n], first);
      ImportRowsStep(st, rows, parsed, first, prev);
      ImportLine(prev, rows[n], last, first + |rows| - 1)
  }

  /** The body of the loop for one line and its parse: a blank line is
      skipped, a parse failure or a taken email becomes a diagnostic, any
      other record is added. */
  function ImportLine(prev: ImportResult, line: string, parsed: Result<Employee, string>,
                      lineNumber: nat): (r: ImportResult)
    requires Valid(prev.store) && (parsed.Success? ==> parsed.value.Valid())
    ensures Valid(r.store)
    ensures IsBlank(line) ==> r == prev
    ensures !IsBlank(line) && parsed.Failure? ==>
      r == prev.(summary := prev.summary.(errors := prev.summary.errors + [LineError(lineNumber, parsed.error)]))
    ensures !IsBlank(line) && parsed.Success? && HasEmail(prev.store, parsed.value.email) ==>
      r == prev.(summary := prev.summary.(errors := prev.summary.errors
                   + [LineError(lineNumber, Message(DuplicateEmail(parsed.value.email)))]))
    ensures !IsBlank(line) && parsed.Success? && !HasEmail(prev.store, parsed.value.email) ==>
      && r.store.entries == prev.store.entries + [parsed.value]
      && r.summary == prev.summary.(importedCount := prev.summary.importedCount + 1)
  {
    if IsBlank(line) then prev
    else
      match parsed
      case Failure(cause) =>
        prev.(summary := prev.summary.(errors := prev.summary.errors + [LineError(lineNumber, cause)]))
      case Success(e) =>
        match AddEmployee(prev.store, e)
        case Failure(err) =>
          prev.(summary := prev.summary.(errors := prev.summary.errors + [LineError(lineNumber, Message(err))]))
        case Success(next) =>
          ImportResult(next, prev.summary.(importedCount := prev.summary.importedCount + 1))
  }

  /** A line only ever appends: to the store when imported, to the errors when not. */
  lemma ImportLineGrows(prev: ImportResult, line: string, parsed: Result<Employee, string>, lineNumber: nat)
    requires Valid(prev.store) && (parsed.Success? ==> parsed.value.Valid())
    ensures var r := ImportLine(prev, line, parsed, lineNumber);
      && prev.store.entries <= r.store.entries
      && prev.summary.errors <= r.summary.errors
      && |r.store.entries| - |prev.store.entries| == r.summary.importedCount - prev.summary.importedCount
      && r.summary.importedCount + |r.summary.errors|
           == prev.summary.importedCount + |prev.summary.errors| + (if IsBlank(line) then 0 else 1)
      && (!IsBlank(line) && parsed.Failure? ==> LineError(lineNumber, parsed.error) in r.summary.errors)
      && (r.store.entries != prev.store.entries ==>
            !IsBlank(line) && parsed.Success? && r.store.entries == prev.store.entries + [parsed.value])
  {
  }

  /** The loop invariant survives one more line. */
  lemma ImportRowsStep(st: Store, rows: seq<string>, parsed: seq<Result<Employee, string>>,
                       first: nat, prev: ImportResult)
    requires |parsed| == |rows| > 0 && ParsedRecordsValid(parsed) && Valid(prev.store)
    requires ImportInvariant(st, rows[..|rows| - 1], parsed[..|rows| - 1], first, prev)
    ensures ImportInvariant(st, rows, parsed, first,
                            ImportLine(prev, rows[|rows| - 1], parsed[|rows| - 1], first + |rows| - 1))
  {
    StepCounts(st, rows, parsed, first, prev);
    StepRecords(st, rows, parsed, first, prev);
  }

  /** One more line keeps the old records in front and every line accounted for. */
  lemma StepCounts(st: Store, rows: seq<string>, parsed: seq<Result<Employee, string>>,
                   first: nat, prev: ImportResult)
    requires |parsed| == |rows| > 0 && ParsedRecordsValid(parsed) && Valid(prev.store)
    requires Extends(st, prev)
    requires prev.summary.importedCount + |prev.summary.errors| == NonBlankCount(rows[..|rows| - 1])
    requires ReportsFailures(rows[..|rows| - 1], parsed[..|rows| - 1], first, prev.summary.errors)
    ensures var r := ImportLine(prev, rows[|rows| - 1], parsed[|rows| - 1], first + |rows| - 1);
      && Extends(st, r)
      && r.summary.importedCount + |r.summary.errors| == NonBlankCount(rows)
      && ReportsFailures(rows, parsed, first, r.summary.errors)
  {
    var n := |rows| - 1;
    var r := ImportLine(prev, rows[n], parsed[n], first + n);
    ImportLineGrows(prev, rows[n], parsed[n], first + n);
    assert r.store.entries[..|st.entries|] == prev.store.entries[..|st.entries|];
    StepReports(rows, parsed, first, prev.summary.errors, r.summary.errors);
  }

  /** One more line: every failed parse so far, and this one, is reported. */
  lemma StepReports(rows: seq<string>, parsed: seq<Result<Employee, string>>, first: nat,
                    before: seq<string>, after: seq<string>)
    requires |parsed| == |rows| > 0
    requires ReportsFailures(rows[..|rows| - 1], parsed[..|rows| - 1], first, before)
    requires before <= after
    requires !IsBlank(rows[|rows| - 1]) && parsed[|rows| - 1].Failure? ==>
      LineError(first + |rows| - 1, parsed[|rows| - 1].error) in after
    ensures ReportsFailures(rows, parsed, first, after)
  {
    var n := |rows| - 1;
    forall i | 0 <= i < |rows| && !IsBlank(rows[i]) && parsed[i].Failure?
      ensures LineError(first + i, parsed[i].error) in after
    {
      if i < n {
        assert rows[..n][i] == rows[i] && parsed[..n][i] == parsed[i];
      }
    }
  }

  /** One more line keeps every parsed email stored and every appended record traced to a line. */
  lemma StepRecords(st: Store, rows: seq<string>, parsed: seq<Result<Employee, string>>,
                    first: nat, prev: ImportResult)
    requires |parsed| == |rows| > 0 && ParsedRecordsValid(parsed) && Valid(prev.store)
    requires StoresParsedEmails(rows[..|rows| - 1], parsed[..|rows| - 1], prev.store)
    requires AppendedFromRows(rows[..|rows| - 1], parsed[..|rows| - 1], prev.store.entries, |st.entries|)
    ensures var r := ImportLine(prev, rows[|rows| - 1], parsed[|rows| - 1], first + |rows| - 1);
      && StoresParsedEmails(rows, parsed, r.store)
      && AppendedFromRows(rows, parsed, r.store.entries, |st.entries|)
  {
    var n := |rows| - 1;
    var r := ImportLine(prev, rows[n], parsed[n], first + n);
    ImportLineGrows(prev, rows[n], parsed[n], first + n);
    StepEmails(rows, parsed, prev, first + n);
    StepOrigins(rows, parsed, prev.store.entries, r.store.entries, |st.entries|);
  }

  /** Appending records never loses an email. */
  lemma HasEmailGrows(a: Store, b: Store, email: string)
    requires a.entries <= b.entries
    requires HasEmail(a, email)
    ensures HasEmail(b, email)
  {
    var k :| 0 <= k < |a.entries| && EqualsIgnoreCase(a.entries[k].email, email);
    assert b.entries[k] == a.entries[k];
  }

  /** After a line that parses, its email is in the store: added, or already there. */
  lemma ParsedEmailStored(prev: ImportResult, line: string, e: Employee, lineNumber: nat)
    requires Valid(prev.store) && e.Valid() && !IsBlank(line)
    ensures HasEmail(ImportLine(prev, line, Success(e), lineNumber).store, e.email)
  {
    var r := ImportLine(prev, line, Success(e), lineNumber);
    if !HasEmail(prev.store, e.email) {
      assert r.store.entries[|r.store.entries| - 1] == e;
      EqualsIgnoreCaseIsEquivalence(e.email, e.email, e.email);
    }
  }

  /** One more line: every parsed email so far, and this one, is in the store. */
  lemma StepEmails(rows: seq<string>, parsed: seq<Result<Employee, string>>, prev: ImportResult,
                   lineNumber: nat)
    requires |parsed| == |rows| > 0 && ParsedRecordsValid(parsed) && Valid(prev.store)
    requires StoresParsedEmails(rows[..|rows| - 1], parsed[..|rows| - 1], prev.store)
    ensures StoresParsedEmails(rows, parsed, ImportLine(prev, rows[|rows| - 1], parsed[|rows| - 1], lineNumber).store)
  {
    var n := |rows| - 1;
    var r := ImportLine(prev, rows[n], parsed[n], lineNumber);
    ImportLineGrows(prev, rows[n], parsed[n], lineNumber);
    forall i | 0 <= i < |rows| && !IsBlank(rows[i]) && parsed[i].Success?
      ensures HasEmail(r.store, parsed[i].value.email)
    {
      if i < n {
        assert rows[..n][i] == rows[i] && parsed[..n][i] == parsed[i];
        HasEmailGrows(prev.store, r.store, parsed[i].value.email);
      } else {
        ParsedEmailStored(prev, rows[n], parsed[n].value, lineNumber);
      }
    }
  }

  /** One more line: every appended record still comes from a parsed line. */
  lemma StepOrigins(rows: seq<string>, parsed: seq<Result<Employee, string>>,
                    before: seq<Employee>, after: seq<Employee>, from: nat)
    requires |parsed| == |rows| > 0
    requires AppendedFromRows(rows[..|rows| - 1], parsed[..|rows| - 1], before, from)
    requires before <= after
    requires after != before ==>
      && !IsBlank(rows[|rows| - 1]) && parsed[|rows| - 1].Success?
      && after == before + [parsed[|rows| - 1].value]
    ensures AppendedFromRows(rows, parsed, after, from)
  {
    var n := |rows| - 1;
    forall j | from <= j < |after|
      ensures FromSomeRow(rows, parsed, after[j])
    {
      if j < |before| {
        assert after[j] == before[j];
        assert FromSomeRow(rows[..n], parsed[..n], before[j]);
        var i :| 0 <= i < n && !IsBlank(rows[..n][i]) && parsed[..n][i] == Success(before[j]);
        assert rows[..n][i] == rows[i] && parsed[..n][i] == parsed[i];
      } else {
        assert parsed[n] == Success(after[j]);
      }
    }
  }

  /** `importFromCsv`: the first line is the header and is skipped; data lines
      are numbered from 2. A file that cannot be opened gives a single
      diagnostic and leaves the store alone. */
  function ImportFromCsv(st: Store, file: Result<seq<string>, string>): (r: ImportResult)
    requires Valid(st)
    ensures Valid(r.store)
    ensures |r.store.entries| == |st.entries| + r.summary.importedCount
    ensures r.store.entries[..|st.entries|] == st.entries
    ensures file.Failure? ==> r == ImportResult(st, ImportSummary(0, [ReadErrorMessage(file.error)]))
    ensures file.Success? && |file.value| == 0 ==> r == ImportResult(st, ImportSummary(0, []))
    ensures file.Success? && |file.value| > 0 ==>
      ImportedFromLines(st, file.value, ParseAll(file.value[1..]), r)
    ensures file.Success? && |file.value| > 0 ==>
      var fs := Fates(st, file.value[1..], ParseAll(file.value[1..]), 2);
      && r.store.entries == st.entries + AddedRecords(fs)
      && r.summary == ImportSummary(|AddedRecords(fs)|, Diagnostics(fs))
  {
    match file
    case Failure(cause) => ImportResult(st, ImportSummary(0, [ReadErrorMessage(cause)]))
    case Success(lines) =>
      if |lines| == 0 then ImportResult(st, ImportSummary(0, []))
      else
        var parsed := ParseAll(lines[1..]);
        var r := ImportRows(st, lines[1..], parsed, 2);
        ReadBackByLineNumber(st, lines, parsed, r);
        ImportRowsFollowsFates(st, lines[1..], parsed, 2);
        r
  }

  /** After importing `lines` (header first) into `st`, where `parsed[i - 1]` is
      what line `i` parsed to: every non-blank data line is either imported
      or reported; a line that fails to parse is reported under its 1-based
      line number with the parse error; a line that parses has its email in
      the store; and each added record is what some non-blank data line
      parsed to. */
  predicate ImportedFromLines(st: Store, lines: seq<string>, parsed: seq<Result<Employee, string>>,
                              r: ImportResult)
    requires |lines| == |parsed| + 1
  {
    && r.summary.importedCount + |r.summary.errors| == NonBlankCount(lines[1..])
    && (forall i :: 1 <= i < |lines| && !IsBlank(lines[i]) && parsed[i - 1].Failure? ==>
          LineError(i + 1, parsed[i - 1].error) in r.summary.errors)
    && (forall i :: 1 <= i < |lines| && !IsBlank(lines[i]) && parsed[i - 1].Success? ==>
          HasEmail(r.store, parsed[i - 1].value.email))
    && (forall j :: |st.entries| <= j < |r.store.entries| ==>
          exists i :: 1 <= i < |lines| && !IsBlank(lines[i]) && parsed[i - 1] == Success(r.store.entries[j]))
  }

  /** The loop's invariant over the data lines, read back in terms of the
      file's own line numbers. */
  lemma ReadBackByLineNumber(st: Store, lines: seq<string>, parsed: seq<Result<Employee, string>>,
                             r: ImportResult)
    requires |lines| == |parsed| + 1
    requires ImportInvariant(st, lines[1..], parsed, 2, r)
    ensures ImportedFromLines(st, lines, parsed, r)
  {
    var rows := lines[1..];
    assert forall i :: 1 <= i < |lines| ==> lines[i] == rows[i - 1];
    forall j | |st.entries| <= j < |r.store.entries|
      ensures exists i :: 1 <= i < |lines| && !IsBlank(lines[i]) && parsed[i - 1] == Success(r.store.entries[j])
    {
      assert FromSomeRow(rows, parsed, r.store.entries[j]);
      var k :| 0 <= k < |rows| && !IsBlank(rows[k]) && parsed[k] == Success(r.store.entries[j]);
      assert lines[k + 1] == rows[k];
    }
  }

  // ---------------------------------------------------------------------------
  // What becomes of each line, decided line by line
  // ---------------------------------------------------------------------------

  /** What the import does with one data line. */
  datatype LineFate = Skipped | Added(record: Employee) | Reported(diagnostic: string)

  /** A non-blank data line before position `i` parsed to a record whose
      email equals `email` ignoring case. */
  predicate EmailSeenBefore(rows: seq<string>, parsed: seq<Result<Employee, string>>, i: nat, email: string)
    requires |parsed| == |rows| && i <= |rows|
  {
    exists j :: 0 <= j < i && !IsBlank(rows[j]) && parsed[j].Success?
      && EqualsIgnoreCase(parsed[j].value.email, email)
  }

  /** The fate of data line `i` (numbered `first + i`), decided from the
      starting store, that line and the lines before it, without running the
      loop: a blank line is skipped; a line that does not parse is reported
      with the parse error; a record whose email, ignoring case, is in the
      starting store or on an earlier line that parsed is reported as a
      duplicate; any other record is added. */
  function FateOf(st: Store, rows: seq<string>, parsed: seq<Result<Employee, string>>,
                  first: nat, i: nat): LineFate
    requires |parsed| == |rows| && i < |rows|
  {
    if IsBlank(rows[i]) then Skipped
    else match parsed[i]
      case Failure(cause) => Reported(LineError(first + i, cause))
      case Success(e) =>
        if HasEmail(st, e.email) || EmailSeenBefore(rows, parsed, i, e.email)
        then Reported(LineError(first + i, Message(DuplicateEmail(e.email))))
        else Added(e)
  }

  /** The fate of every data line, in file order. */
  function Fates(st: Store, rows: seq<string>, parsed: seq<Result<Employee, string>>,
                 first: nat): (fs: seq<LineFate>)
    requires |parsed| == |rows|
    ensures |fs| == |rows|
    ensures forall i :: 0 <= i < |rows| ==> fs[i] == FateOf(st, rows, parsed, first, i)
  {
    seq(|rows|, i requires 0 <= i < |rows| => FateOf(st, rows, parsed, first, i))
  }

  /** The added records, in file order. */
  function AddedRecords(fs: seq<LineFate>): seq<Employee>
    decreases |fs|
  {
    if |fs| == 0 then []
    else AddedRecords(fs[..|fs| - 1]) + (if fs[|fs| - 1].Added? then [fs[|fs| - 1].record] else [])
  }

  /** The diagnostics, in file order. */
  function Diagnostics(fs: seq<LineFate>): seq<string>
    decreases |fs|
  {
    if |fs| == 0 then []
    else Diagnostics(fs[..|fs| - 1]) + (if fs[|fs| - 1].Reported? then [fs[|fs| - 1].diagnostic] else [])
  }

  /** The import loop does exactly what the line-by-line fates say: the added
      records are appended in file order, the count is their number, and the
      diagnostics are those of the reported lines, in file order. */
  lemma {:induction false} ImportRowsFollowsFates(st: Store, rows: seq<string>,
                                                  parsed: seq<Result<Employee, string>>, first: nat)
    requires Valid(st) && |parsed| == |rows| && ParsedRecordsValid(parsed)
    ensures var fs := Fates(st, rows, parsed, first);
      var r := ImportRows(st, rows, parsed, first);
      && r.store.entries == st.entries + AddedRecords(fs)
      && r.summary == ImportSummary(|AddedRecords(fs)|, Diagnostics(fs))
    decreases |rows|
  {
    if |rows| > 0 {
      var n := |rows| - 1;
      var fs := Fates(st, rows, parsed, first);
      assert ParsedRecordsValid(parsed[..n]) by {
        assert forall i :: 0 <= i < n ==> parsed[..n][i] == parsed[i];
      }
      FatesOfPrefix(st, rows, parsed, first, n);
      ImportRowsFollowsFates(st, rows[..n], parsed[..n], first);
      var prev := ImportRows(st, rows[..n], parsed[..n], first);
      assert prev.store.entries == st.entries + AddedRecords(fs[..n]);
      assert prev.summary == ImportSummary(|AddedRecords(fs[..n])|, Diagnostics(fs[..n]));
      LastLineFollowsFate(st, rows, parsed, first, prev);
    }
  }

  /** The last line does to the store and summary built from the earlier
      lines' fates what its own fate says. */
  lemma LastLineFollowsFate(st: Store, rows: seq<string>, parsed: seq<Result<Employee, string>>,
                            first: nat, prev: ImportResult)
    requires |parsed| == |rows| > 0 && ParsedRecordsValid(parsed) && Valid(prev.store)
    requires var fs := Fates(st, rows, parsed, first)[..|rows| - 1];
      && prev.store.entries == st.entries + AddedRecords(fs)
      && prev.summary == ImportSummary(|AddedRecords(fs)|, Diagnostics(fs))
    ensures var fs := Fates(st, rows, parsed, first);
      var r := ImportLine(prev, rows[|rows| - 1], parsed[|rows| - 1], first + |rows| - 1);
      && r.store.entries == st.entries + AddedRecords(fs)
      && r.summary == ImportSummary(|AddedRecords(fs)|, Diagnostics(fs))
  {
    var n := |rows| - 1;
    var fs := Fates(st, rows, parsed, first);
    var f := fs[n];
    assert fs[..|fs| - 1] == fs[..n];
    assert AddedRecords(fs) == AddedRecords(fs[..n]) + (if f.Added? then [f.record] else []);
    assert Diagnostics(fs) == Diagnostics(fs[..n]) + (if f.Reported? then [f.diagnostic] else []);
    if !IsBlank(rows[n]) && parsed[n].Success? {
      var e := parsed[n].value;
      KnownEmailsSoFar(st, rows, parsed, first, n, e.email);
      if HasEmail(prev.store, e.email) {
        assert f == Reported(LineError(first + n, Message(DuplicateEmail(e.email))));
      } else {
        assert f == Added(e);
      }
    }
  }

  /** The fates of the first `n` lines do not depend on the lines after them. */
  lemma FatesOfPrefix(st: Store, rows: seq<string>, parsed: seq<Result<Employee, string>>, first: nat, n: nat)
    requires |parsed| == |rows| && n <= |rows|
    ensures Fates(st, rows[..n], parsed[..n], first) == Fates(st, rows, parsed, first)[..n]
  {
    var rs, ps := rows[..n], parsed[..n];
    assert forall j :: 0 <= j < n ==> rs[j] == rows[j] && ps[j] == parsed[j];
    forall i | 0 <= i < n
      ensures FateOf(st, rs, ps, first, i) == FateOf(st, rows, parsed, first, i)
    {
      if !IsBlank(rows[i]) && parsed[i].Success? {
        var email := parsed[i].value.email;
        assert EmailSeenBefore(rs, ps, i, email) == EmailSeenBefore(rows, parsed, i, email);
      }
    }
  }

  /** An added record is the fate of some line. */
  lemma {:induction false} AddedRecordsMembers(fs: seq<LineFate>, x: Employee)
    ensures x in AddedRecords(fs) <==> exists k :: 0 <= k < |fs| && fs[k] == Added(x)
    decreases |fs|
  {
    if |fs| > 0 {
      var n := |fs| - 1;
      AddedRecordsMembers(fs[..n], x);
      assert forall k :: 0 <= k < n ==> fs[..n][k] == fs[k];
    }
  }

  /** A store extended by some records has an email exactly when the store or one of the records has it. */
  lemma HasEmailOfAppended(st: Store, more: seq<Employee>, email: string)
    ensures HasEmail(Store(st.entries + more), email) <==>
      HasEmail(st, email) || exists x :: x in more && EqualsIgnoreCase(x.email, email)
  {
    var all := st.entries + more;
    if HasEmail(Store(all), email) {
      var i :| 0 <= i < |all| && EqualsIgnoreCase(all[i].email, email);
      if i >= |st.entries| {
        assert all[i] == more[i - |st.entries|];
      }
    }
    if exists x :: x in more && EqualsIgnoreCase(x.email, email) {
      var x :| x in more && EqualsIgnoreCase(x.email, email);
      var k :| 0 <= k < |more| && more[k] == x;
      assert all[|st.entries| + k] == x;
    }
    if HasEmail(st, email) {
      var i :| 0 <= i < |st.entries| && EqualsIgnoreCase(st.entries[i].email, email);
      assert all[i] == st.entries[i];
    }
  }

  /** Before line `n` is processed, the store knows an email exactly when the
      starting store did or an earlier line that parsed carried it. */
  lemma KnownEmailsSoFar(st: Store, rows: seq<string>, parsed: seq<Result<Employee, string>>,
                         first: nat, n: nat, email: string)
    requires |parsed| == |rows| && n <= |rows|
    ensures HasEmail(Store(st.entries + AddedRecords(Fates(st, rows, parsed, first)[..n])), email) <==>
      HasEmail(st, email) || EmailSeenBefore(rows, parsed, n, email)
  {
    var fs := Fates(st, rows, parsed, first)[..n];
    var added := AddedRecords(fs);
    HasEmailOfAppended(st, added, email);
    AddedEmailsSeen(st, rows, parsed, first, n, email);
    if EmailSeenBefore(rows, parsed, n, email) && !HasEmail(st, email) {
      var j :| 0 <= j < n && !IsBlank(rows[j]) && parsed[j].Success?
        && EqualsIgnoreCase(parsed[j].value.email, email);
      SeenEmailKnown(st, rows, parsed, first, j, email);
      var k :| 0 <= k <= j && AddedWithEmail(st, rows, parsed, first, k, email);
      var x := FateOf(st, rows, parsed, first, k).record;
      assert fs[k] == Added(x);
      AddedRecordsMembers(fs, x);
    }
  }

  /** Every record added before line `n` came from an earlier line that parsed. */
  lemma AddedEmailsSeen(st: Store, rows: seq<string>, parsed: seq<Result<Employee, string>>,
                        first: nat, n: nat, email: string)
    requires |parsed| == |rows| && n <= |rows|
    ensures forall x :: x in AddedRecords(Fates(st, rows, parsed, first)[..n]) && EqualsIgnoreCase(x.email, email) ==>
      EmailSeenBefore(rows, parsed, n, email)
  {
    var fs := Fates(st, rows, parsed, first)[..n];
    forall x | x in AddedRecords(fs) && EqualsIgnoreCase(x.email, email)
      ensures EmailSeenBefore(rows, parsed, n, email)
    {
      AddedRecordsMembers(fs, x);
      var k :| 0 <= k < |fs| && fs[k] == Added(x);
      assert FateOf(st, rows, parsed, first, k) == Added(x);
      assert parsed[k] == Success(x);
    }
  }

  /** Line `k` was added and its email equals `email` ignoring case. */
  predicate AddedWithEmail(st: Store, rows: seq<string>, parsed: seq<Result<Employee, string>>,
                           first: nat, k: nat, email: string)
    requires |parsed| == |rows|
  {
    k < |rows| && FateOf(st, rows, parsed, first, k).Added?
    && EqualsIgnoreCase(FateOf(st, rows, parsed, first, k).record.email, email)
  }

  /** An email on a line that parsed is in the starting store or on a line
      at or before it that was added. */
  lemma {:induction false} SeenEmailKnown(st: Store, rows: seq<string>, parsed: seq<Result<Employee, string>>,
                                          first: nat, j: nat, email: string)
    requires |parsed| == |rows| && j < |rows|
    requires !IsBlank(rows[j]) && parsed[j].Success? && EqualsIgnoreCase(parsed[j].value.email, email)
    ensures HasEmail(st, email) || exists k :: 0 <= k <= j && AddedWithEmail(st, rows, parsed, first, k, email)
    decreases j
  {
    var e := parsed[j].value;
    if HasEmail(st, e.email) {
      var i :| 0 <= i < |st.entries| && EqualsIgnoreCase(st.entries[i].email, e.email);
      EqualsIgnoreCaseIsEquivalence(st.entries[i].email, e.email, email);
    } else if EmailSeenBefore(rows, parsed, j, e.email) {
      var i :| 0 <= i < j && !IsBlank(rows[i]) && parsed[i].Success?
        && EqualsIgnoreCase(parsed[i].value.email, e.email);
      EqualsIgnoreCaseIsEquivalence(parsed[i].value.email, e.email, email);
      SeenEmailKnown(st, rows, parsed, first, i, email);
    } else {
      assert AddedWithEmail(st, rows, parsed, first, j, email);
    }
  }

  /** Lines whose emails are all stored already add nothing: each one that
      parses is turned away as a duplicate. */
  lemma {:induction false} ImportRowsOfKnownEmails(st: Store, rows: seq<string>,
                                                   parsed: seq<Result<Employee, string>>, first: nat)
    requires Valid(st) && |parsed| == |rows| && ParsedRecordsValid(parsed)
    requires StoresParsedEmails(rows, parsed, st)
    ensures ImportRows(st, rows, parsed, first).store == st
    ensures ImportRows(st, rows, parsed, first).summary.importedCount == 0
    decreases |rows|
  {
    if |rows| > 0 {
      var n := |rows| - 1;
      assert forall i :: 0 <= i < n ==> rows[..n][i] == rows[i] && parsed[..n][i] == parsed[i];
      ImportRowsOfKnownEmails(st, rows[..n], parsed[..n], first);
    }
  }

  /** Importing the same file a second time adds no record. */
  lemma ImportTwiceAddsNothing(st: Store, file: Result<seq<string>, string>)
    requires Valid(st)
    ensures var once := ImportFromCsv(st, file);
      var twice := ImportFromCsv(once.store, file);
      twice.store == once.store && twice.summary.importedCount == 0
  {
    var once := ImportFromCsv(st, file);
    if file.Success? && |file.value| > 0 {
      var lines := file.value;
      var parsed := ParseAll(lines[1..]);
      assert forall i :: 0 <= i < |lines| - 1 ==> lines[1..][i] == lines[i + 1];
      ImportRowsOfKnownEmails(once.store, lines[1..], parsed, 2);
    }
  }
}
