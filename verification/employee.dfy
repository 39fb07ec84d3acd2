/** The employee record: an immutable value here, where Java mutates fields in place. */
module Employees {
  import opened Wrappers
  import opened Text
  import opened Errors
  import opened Positions

  datatype EmploymentStatus = ACTIVE | ON_LEAVE | TERMINATED

  /** `EmploymentStatus.values()` */
  const AllStatuses: seq<EmploymentStatus> := [ACTIVE, ON_LEAVE, TERMINATED]

  datatype Employee = Employee(
    fullName: string,
    email: string,
    companyName: string,
    position: Position,
    salary: real,
    status: EmploymentStatus)
  {
    /** The class invariant the constructor and `setSalary` enforce. */
    predicate Valid() {
      salary >= 0.0
    }
  }

  const NegativeSalaryMessage := "Salary cannot be negative"

  /** `new Employee(fullName, email, companyName, position, salary)` */
  function NewEmployee(fullName: string, email: string, companyName: string,
                       position: Position, salary: real): (r: Result<Employee, Error>)
    ensures r.Success? <==> salary >= 0.0
    ensures r.Success? ==> r.value.Valid()
    ensures r.Success? ==> r.value.status == ACTIVE
    ensures r.Success? ==>
      && r.value.fullName == fullName && r.value.email == email
      && r.value.companyName == companyName && r.value.position == position
      && r.value.salary == salary
    ensures r.Failure? ==> r.error == IllegalArgument(NegativeSalaryMessage)
  {
    if salary < 0.0 then Failure(IllegalArgument(NegativeSalaryMessage))
    else Success(Employee(fullName, email, companyName, position, salary, ACTIVE))
  }

  /** `setSalary`: rejects a negative salary and leaves the record as it was. */
  function SetSalary(e: Employee, salary: real): (r: Result<Employee, Error>)
    requires e.Valid()
    ensures r.Success? <==> salary >= 0.0
    ensures r.Success? ==> r.value.Valid() && r.value.salary == salary
    ensures r.Success? ==>
      && r.value.fullName == e.fullName && r.value.email == e.email
      && r.value.companyName == e.companyName && r.value.position == e.position
      && r.value.status == e.status
    ensures r.Failure? ==> r.error == IllegalArgument(NegativeSalaryMessage)
  {
    if salary < 0.0 then Failure(IllegalArgument(NegativeSalaryMessage))
    else Success(e.(salary := salary))
  }

  /** `setFullName` */
  function SetFullName(e: Employee, fullName: string): (r: Employee)
    ensures r.fullName == fullName
    ensures r.email == e.email && r.companyName == e.companyName && r.position == e.position
    ensures r.salary == e.salary && r.status == e.status
  {
    e.(fullName := fullName)
  }

  /** `setCompanyName` */
  function SetCompanyName(e: Employee, companyName: string): (r: Employee)
    ensures r.companyName == companyName
    ensures r.fullName == e.fullName && r.email == e.email && r.position == e.position
    ensures r.salary == e.salary && r.status == e.status
  {
    e.(companyName := companyName)
  }

  /** `setPosition` */
  function SetPosition(e: Employee, position: Position): (r: Employee)
    ensures r.position == position
    ensures r.fullName == e.fullName && r.email == e.email && r.companyName == e.companyName
    ensures r.salary == e.salary && r.status == e.status
  {
    e.(position := position)
  }

  /** `setStatus` */
  function SetStatus(e: Employee, status: EmploymentStatus): (r: Employee)
    ensures r.status == status
    ensures r.fullName == e.fullName && r.email == e.email && r.companyName == e.companyName
    ensures r.position == e.position && r.salary == e.salary
  {
    e.(status := status)
  }

  /** `getLastName()`: `fullName.trim().split("\\s+")`, last part. After `trim`
      the text neither starts nor ends with `\s`, so the last part is the
      longest whitespace-free suffix, and the whole (possibly empty) text when
      it has no whitespace. */
  function LastName(e: Employee): (r: string)
    ensures var t := Trim(e.fullName);
      && |r| <= |t| && r == t[|t| - |r|..]
      && (forall i :: 0 <= i < |r| ==> !IsRegexSpace(r[i]))
      && (|r| < |t| ==> IsRegexSpace(t[|t| - |r| - 1]))
      && (|r| == 0 <==> |t| == 0)
  {
    var t := Trim(e.fullName);
    LastTokenOfTrimmed(t);
    LastToken(t)
  }

  /** A one-token name (trimmed, no whitespace) is its own last name. */
  lemma LastNameOfOneToken(e: Employee)
    requires IsTrimmed(e.fullName)
    requires forall i :: 0 <= i < |e.fullName| ==> !IsRegexSpace(e.fullName[i])
    ensures LastName(e) == e.fullName
  {
  }

  /** "First Last" with a whitespace-free, non-blank last part has last name "Last". */
  lemma LastNameOfTwoParts(e: Employee, first: string, last: string)
    requires e.fullName == first + " " + last
    requires IsTrimmed(first + " " + last) && |last| > 0
    requires forall i :: 0 <= i < |last| ==> !IsRegexSpace(last[i])
    ensures LastName(e) == last
  {
    var t := first + " " + last;
    assert Trim(e.fullName) == t;
    assert forall i :: |first| + 1 <= i < |t| ==> t[i] == last[i - |first| - 1];
    LastTokenAfterSpace(t, |first| + 1);
    assert t[|first| + 1..] == last;
  }

  /** `equals`: two employees are equal when their emails match ignoring case. */
  predicate SameEmployee(a: Employee, b: Employee) {
    EqualsIgnoreCase(a.email, b.email)
  }

  /** The lower-cased email: what `hashCode()` is computed from, and the key
      the employee service files the record under. */
  function EmailKey(e: Employee): string {
    Lower(e.email)
  }

  /** `equals` is an equivalence that looks only at the email, and it agrees
      with `hashCode` in both directions. */
  lemma EqualsAgreesWithHashCode(a: Employee, b: Employee, c: Employee)
    ensures SameEmployee(a, b) <==> EmailKey(a) == EmailKey(b)
    ensures SameEmployee(a, a)
    ensures SameEmployee(a, b) ==> SameEmployee(b, a)
    ensures SameEmployee(a, b) && SameEmployee(b, c) ==> SameEmployee(a, c)
    ensures a.email == b.email ==> SameEmployee(a, b)
  {
    EqualsIgnoreCaseIffSameLower(a.email, b.email);
    EqualsIgnoreCaseIsEquivalence(a.email, b.email, c.email);
  }
}
