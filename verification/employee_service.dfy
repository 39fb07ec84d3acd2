/**
 * `EmployeeService`: an insertion-ordered map from lower-cased email to
 * employee, modelled as the sequence of its values in iteration order. Every
 * operation is a pure function; the mutating ones return the new store.
 */
module EmployeeService {
  import opened Wrappers
  import opened Text
  import opened Errors
  import opened Positions
  import opened Employees
  import opened Seqs

  /** The `LinkedHashMap<String, Employee>`'s values in iteration order; the
      key of each value is its `EmailKey`. */
  datatype Store = Store(entries: seq<Employee>)

  /** Keys are unique (a map) and every record satisfies the class invariant. */
  predicate Valid(st: Store) {
    && (forall i :: 0 <= i < |st.entries| ==> st.entries[i].Valid())
    && (forall i, j :: 0 <= i < j < |st.entries| ==> EmailKey(st.entries[i]) != EmailKey(st.entries[j]))
  }

  const EmptyStore := Store([])

  /** Some record's email equals `email` ignoring case. */
  predicate HasEmail(st: Store, email: string) {
    exists i :: 0 <= i < |st.entries| && EqualsIgnoreCase(st.entries[i].email, email)
  }

  /** Position of the record filed under `key`, if any. */
  function IndexOfKey(s: seq<Employee>, key: string): (r: Option<nat>)
    ensures r.Some? ==> r.value < |s| && EmailKey(s[r.value]) == key
    ensures r.None? <==> forall i :: 0 <= i < |s| ==> EmailKey(s[i]) != key
    decreases |s|
  {
    if |s| == 0 then None
    else if EmailKey(s[|s| - 1]) == key then Some(|s| - 1)
    else IndexOfKey(s[..|s| - 1], key)
  }

  /** Looking up the lower-cased email finds a record exactly when some email
      matches ignoring case. */
  lemma KeyLookupMatchesIgnoringCase(st: Store, email: string)
    ensures IndexOfKey(st.entries, Lower(email)).Some? <==> HasEmail(st, email)
    ensures IndexOfKey(st.entries, Lower(email)).Some? ==>
      EqualsIgnoreCase(st.entries[IndexOfKey(st.entries, Lower(email)).value].email, email)
  {
    forall i | 0 <= i < |st.entries|
      ensures EmailKey(st.entries[i]) == Lower(email) <==> EqualsIgnoreCase(st.entries[i].email, email)
    {
      EqualsIgnoreCaseIffSameLower(st.entries[i].email, email);
    }
  }

  /** In a valid store at most one record matches a given email. */
  lemma AtMostOneMatch(st: Store, email: string, i: int, j: int)
    requires Valid(st)
    requires 0 <= i < |st.entries| && 0 <= j < |st.entries|
    requires EqualsIgnoreCase(st.entries[i].email, email)
    requires EqualsIgnoreCase(st.entries[j].email, email)
    ensures i == j
  {
    EqualsIgnoreCaseIffSameLower(st.entries[i].email, email);
    EqualsIgnoreCaseIffSameLower(st.entries[j].email, email);
  }

  // ---------------------------------------------------------------------------
  // Mutations
  // ---------------------------------------------------------------------------

  /** `addEmployee`: a duplicate email (ignoring case) is rejected and the store
      stays as it was; otherwise the record is appended at the end. */
  function AddEmployee(st: Store, e: Employee): (r: Result<Store, Error>)
    requires Valid(st) && e.Valid()
    ensures r.Failure? <==> HasEmail(st, e.email)
    ensures r.Failure? ==> r.error == DuplicateEmail(e.email)
    ensures r.Success? ==> r.value.entries == st.entries + [e]
    ensures r.Success? ==> Valid(r.value) && |r.value.entries| == |st.entries| + 1
  {
    KeyLookupMatchesIgnoringCase(st, e.email);
    if IndexOfKey(st.entries, EmailKey(e)).Some? then Failure(DuplicateEmail(e.email))
    else Success(Store(st.entries + [e]))
  }

  /** `updateEmployee(email, updated)` */
  function UpdateEmployee(st: Store, email: string, updated: Employee): (r: Result<Store, Error>)
    requires Valid(st) && updated.Valid()
    ensures !HasEmail(st, email) ==> r == Failure(EmployeeNotFound(email))
    // same email ignoring case: replaced in place
    ensures HasEmail(st, email) && EqualsIgnoreCase(email, updated.email) ==>
      && r.Success?
      && forall i :: 0 <= i < |st.entries| && EqualsIgnoreCase(st.entries[i].email, email) ==>
           r.value.entries == st.entries[i := updated]
    // renamed onto an email already taken: rejected
    ensures HasEmail(st, email) && !EqualsIgnoreCase(email, updated.email) && HasEmail(st, updated.email) ==>
      r == Failure(DuplicateEmail(updated.email))
    // renamed onto a free email: old entry removed, new one appended
    ensures HasEmail(st, email) && !EqualsIgnoreCase(email, updated.email) && !HasEmail(st, updated.email) ==>
      && r.Success?
      && forall i :: 0 <= i < |st.entries| && EqualsIgnoreCase(st.entries[i].email, email) ==>
           r.value.entries == st.entries[..i] + st.entries[i + 1..] + [updated]
    ensures r.Success? ==> Valid(r.value) && |r.value.entries| == |st.entries|
  {
    KeyLookupMatchesIgnoringCase(st, email);
    match IndexOfKey(st.entries, Lower(email))
    case None => Failure(EmployeeNotFound(email))
    case Some(i) =>
      OnlyMatch(st, email, i);
      if EqualsIgnoreCase(email, updated.email) then
        EqualsIgnoreCaseIffSameLower(email, updated.email);
        ReplaceKeepsValid(st, i, updated);
        Success(Store(st.entries[i := updated]))
      else
        KeyLookupMatchesIgnoringCase(st, updated.email);
        if IndexOfKey(st.entries, EmailKey(updated)).Some? then
          Failure(DuplicateEmail(updated.email))
        else
          MoveToEndKeepsValid(st, i, updated);
          Success(Store(st.entries[..i] + st.entries[i + 1..] + [updated]))
  }

  /** The record at `i` is the only one matching `email`. */
  lemma OnlyMatch(st: Store, email: string, i: nat)
    requires Valid(st) && i < |st.entries| && EqualsIgnoreCase(st.entries[i].email, email)
    ensures forall j :: 0 <= j < |st.entries| && EqualsIgnoreCase(st.entries[j].email, email) ==> j == i
  {
    forall j | 0 <= j < |st.entries| && EqualsIgnoreCase(st.entries[j].email, email)
      ensures j == i
    {
      AtMostOneMatch(st, email, i, j);
    }
  }

  /** Replacing a record by one under the same key keeps the store valid. */
  lemma ReplaceKeepsValid(st: Store, i: nat, updated: Employee)
    requires Valid(st) && updated.Valid()
    requires i < |st.entries| && EmailKey(updated) == EmailKey(st.entries[i])
    ensures Valid(Store(st.entries[i := updated]))
  {
  }

  /** Dropping the record at `i` and appending one under a key no record has
      keeps the store valid and its size. */
  lemma MoveToEndKeepsValid(st: Store, i: nat, updated: Employee)
    requires Valid(st) && updated.Valid() && i < |st.entries|
    requires forall j :: 0 <= j < |st.entries| ==> EmailKey(st.entries[j]) != EmailKey(updated)
    ensures Valid(Store(st.entries[..i] + st.entries[i + 1..] + [updated]))
  {
    var rest := st.entries[..i] + st.entries[i + 1..];
    assert forall j :: 0 <= j < |rest| ==> rest[j] == st.entries[if j < i then j else j + 1];
    var s := rest + [updated];
    assert forall j :: 0 <= j < |rest| ==> s[j] == rest[j];
  }

  /** `deleteEmployee(email)` */
  function DeleteEmployee(st: Store, email: string): (r: Result<Store, Error>)
    requires Valid(st)
    ensures r.Failure? <==> !HasEmail(st, email)
    ensures r.Failure? ==> r.error == EmployeeNotFound(email)
    ensures r.Success? ==>
      forall i :: 0 <= i < |st.entries| && EqualsIgnoreCase(st.entries[i].email, email) ==>
        r.value.entries == st.entries[..i] + st.entries[i + 1..]
    ensures r.Success? ==>
      forall e :: e in r.value.entries <==> e in st.entries && !EqualsIgnoreCase(e.email, email)
    ensures r.Success? ==> Valid(r.value) && |r.value.entries| == |st.entries| - 1
  {
    KeyLookupMatchesIgnoringCase(st, email);
    match IndexOfKey(st.entries, Lower(email))
    case None => Failure(EmployeeNotFound(email))
    case Some(i) =>
      RemoveMatching(st, email, i);
      Success(Store(st.entries[..i] + st.entries[i + 1..]))
  }

  /** Dropping the record at `i`, the one matching `email`, drops exactly the
      records matching `email` and keeps the store valid. */
  lemma RemoveMatching(st: Store, email: string, i: nat)
    requires Valid(st)
    requires i < |st.entries| && EqualsIgnoreCase(st.entries[i].email, email)
    ensures var rest := st.entries[..i] + st.entries[i + 1..];
      && Valid(Store(rest))
      && forall e :: e in rest <==> e in st.entries && !EqualsIgnoreCase(e.email, email)
  {
    var rest := st.entries[..i] + st.entries[i + 1..];
    RemoveAtIndexing(st.entries, i, rest);
    OnlyMatch(st, email, i);
    forall e | e in rest
      ensures e in st.entries && !EqualsIgnoreCase(e.email, email)
    {
      var j :| 0 <= j < |rest| && rest[j] == e;
    }
    forall e | e in st.entries && !EqualsIgnoreCase(e.email, email)
      ensures e in rest
    {
      var j :| 0 <= j < |st.entries| && st.entries[j] == e;
      assert rest[if j < i then j else j - 1] == e;
    }
  }

  /** `updateEmployeeStatus(email, status)`: only that record's status changes. */
  function UpdateEmployeeStatus(st: Store, email: string, status: EmploymentStatus): (r: Result<Store, Error>)
    requires Valid(st)
    ensures r.Failure? <==> !HasEmail(st, email)
    ensures r.Failure? ==> r.error == EmployeeNotFound(email)
    ensures r.Success? ==> |r.value.entries| == |st.entries|
    ensures r.Success? ==>
      forall i :: 0 <= i < |st.entries| ==>
        r.value.entries[i] ==
          (if EqualsIgnoreCase(st.entries[i].email, email) then SetStatus(st.entries[i], status)
           else st.entries[i])
    ensures r.Success? ==> Valid(r.value)
  {
    KeyLookupMatchesIgnoringCase(st, email);
    match IndexOfKey(st.entries, Lower(email))
    case None => Failure(EmployeeNotFound(email))
    case Some(i) =>
      forall j | 0 <= j < |st.entries|
        ensures EqualsIgnoreCase(st.entries[j].email, email) <==> j == i
      {
        EqualsIgnoreCaseIffSameLower(st.entries[j].email, email);
      }
      Success(Store(st.entries[i := SetStatus(st.entries[i], status)]))
  }

  // ---------------------------------------------------------------------------
  // Lookups and filters
  // ---------------------------------------------------------------------------

  /** `findByEmail(email)`: case-insensitive; empty when absent. */
  function FindByEmail(st: Store, email: string): (r: Option<Employee>)
    requires Valid(st)
    ensures r.None? <==> !HasEmail(st, email)
    ensures r.Some? ==> r.value in st.entries && EqualsIgnoreCase(r.value.email, email)
    ensures r.Some? ==>
      forall i :: 0 <= i < |st.entries| && EqualsIgnoreCase(st.entries[i].email, email) ==>
        st.entries[i] == r.value
  {
    KeyLookupMatchesIgnoringCase(st, email);
    match IndexOfKey(st.entries, Lower(email))
    case None => None
    case Some(i) =>
      forall j | 0 <= j < |st.entries| && EqualsIgnoreCase(st.entries[j].email, email)
        ensures j == i
      {
        AtMostOneMatch(st, email, i, j);
      }
      Some(st.entries[i])
  }

  /** `getByEmail(email)`: the same lookup, throwing when absent. */
  function GetByEmail(st: Store, email: string): (r: Result<Employee, Error>)
    requires Valid(st)
    ensures r.Failure? <==> !HasEmail(st, email)
    ensures r.Failure? ==> r.error == EmployeeNotFound(email)
    ensures r.Success? ==> FindByEmail(st, email) == Some(r.value)
  {
    match FindByEmail(st, email)
    case None => Failure(EmployeeNotFound(email))
    case Some(e) => Success(e)
  }

  /** `findByCompany(name)`: case-insensitive match on the company, store order. */
  function FindByCompany(st: Store, companyName: string): (r: seq<Employee>)
    ensures forall e :: e in r <==> e in st.entries && EqualsIgnoreCase(e.companyName, companyName)
    ensures IsSubsequence(r, st.entries)
  {
    Filter(st.entries, (e: Employee) => EqualsIgnoreCase(e.companyName, companyName))
  }

  /** `findByStatus(status)`, store order. */
  function FindByStatus(st: Store, status: EmploymentStatus): (r: seq<Employee>)
    ensures forall e :: e in r <==> e in st.entries && e.status == status
    ensures IsSubsequence(r, st.entries)
  {
    Filter(st.entries, (e: Employee) => e.status == status)
  }

  /** `validateSalaryConsistency()`: the records paid below their position's
      base salary, store order. */
  function ValidateSalaryConsistency(st: Store): (r: seq<Employee>)
    ensures forall e :: e in r <==> e in st.entries && e.salary < e.position.BaseSalary()
    ensures IsSubsequence(r, st.entries)
  {
    Filter(st.entries, (e: Employee) => e.salary < e.position.BaseSalary())
  }

  // ---------------------------------------------------------------------------
  // Aggregates
  // ---------------------------------------------------------------------------

  function SumSalaries(s: seq<Employee>): real
    decreases |s|
  {
    if |s| == 0 then 0.0 else SumSalaries(s[..|s| - 1]) + s[|s| - 1].salary
  }

  /** `getAverageSalary()`: empty for an empty store, otherwise the mean. */
  function AverageSalary(st: Store): (r: Option<real>)
    ensures r.None? <==> |st.entries| == 0
    ensures r.Some? ==> r.value * (|st.entries| as real) == SumSalaries(st.entries)
  {
    if |st.entries| == 0 then None
    else Some(SumSalaries(st.entries) / (|st.entries| as real))
  }

  /** Index `Stream.max` returns: it folds left keeping the accumulated
      element unless the next one is strictly larger, so the first maximum wins. */
  function TopIndex(s: seq<Employee>): (k: nat)
    requires |s| > 0
    ensures k < |s|
    ensures forall j :: 0 <= j < |s| ==> s[j].salary <= s[k].salary
    ensures forall j :: 0 <= j < k ==> s[j].salary < s[k].salary
    decreases |s|
  {
    if |s| == 1 then 0
    else
      var k := TopIndex(s[..|s| - 1]);
      if s[k].salary >= s[|s| - 1].salary then k else |s| - 1
  }

  /** `getTopEarner()`: empty for an empty store, otherwise the first record
      holding the maximum salary. */
  function TopEarner(st: Store): (r: Option<Employee>)
    ensures r.None? <==> |st.entries| == 0
    ensures r.Some? ==>
      exists k :: 0 <= k < |st.entries| && st.entries[k] == r.value
        && (forall j :: 0 <= j < |st.entries| ==> st.entries[j].salary <= r.value.salary)
        && (forall j :: 0 <= j < k ==> st.entries[j].salary < r.value.salary)
  {
    if |st.entries| == 0 then None else Some(st.entries[TopIndex(st.entries)])
  }

  lemma {:induction false} SumSalariesBounds(s: seq<Employee>, top: real)
    requires forall j :: 0 <= j < |s| ==> 0.0 <= s[j].salary <= top
    ensures 0.0 <= SumSalaries(s) <= (|s| as real) * top
    decreases |s|
  {
    if |s| > 0 {
      SumSalariesBounds(s[..|s| - 1], top);
    }
  }

  /** The average of a non-empty store lies between 0 and the top earner's salary. */
  lemma AverageWithinTopSalary(st: Store)
    requires Valid(st) && |st.entries| > 0
    ensures 0.0 <= AverageSalary(st).value <= TopEarner(st).value.salary
  {
    var s := st.entries;
    var top := s[TopIndex(s)].salary;
    assert forall j :: 0 <= j < |s| ==> 0.0 <= s[j].salary <= top by {
      assert forall j :: 0 <= j < |s| ==> s[j].Valid();
    }
    MeanWithin(s, top, SumSalaries(s) / (|s| as real));
  }

  /** A mean of salaries in [0, top] lies in [0, top]. */
  lemma MeanWithin(s: seq<Employee>, top: real, q: real)
    requires |s| > 0 && forall j :: 0 <= j < |s| ==> 0.0 <= s[j].salary <= top
    requires q == SumSalaries(s) / (|s| as real)
    ensures 0.0 <= q <= top
  {
    SumSalariesBounds(s, top);
    QuotientBound(SumSalaries(s), |s| as real, top, q);
  }

  /** A non-negative sum of `n` values, none above `top`, has its quotient by `n` in [0, top]. */
  lemma QuotientBound(sum: real, n: real, top: real, q: real)
    requires n > 0.0 && 0.0 <= sum <= n * top && q * n == sum
    ensures 0.0 <= q <= top
  {
  }

  /** The key `getEmployeesSortedByLastName` compares: lower-cased last name,
      then lower-cased full name. */
  predicate SortKeyLeq(a: Employee, b: Employee) {
    var la, lb := Lower(LastName(a)), Lower(LastName(b));
    StrLess(la, lb) || (la == lb && StrLeq(Lower(a.fullName), Lower(b.fullName)))
  }

  lemma SortKeyTotal(a: Employee, b: Employee)
    ensures SortKeyLeq(a, b) || SortKeyLeq(b, a)
  {
    StrLeqTotal(Lower(LastName(a)), Lower(LastName(b)));
    StrLeqTotal(Lower(a.fullName), Lower(b.fullName));
  }

  /** The comparator is transitive. */
  lemma SortKeyTransitive(a: Employee, b: Employee, c: Employee)
    ensures SortKeyLeq(a, b) && SortKeyLeq(b, c) ==> SortKeyLeq(a, c)
  {
    var la, lb, lc := Lower(LastName(a)), Lower(LastName(b)), Lower(LastName(c));
    StrLeqTransitive(la, lb, lc);
    StrLeqAntisymmetric(la, lb);
    StrLeqTransitive(Lower(a.fullName), Lower(b.fullName), Lower(c.fullName));
  }

  /** Two records share both sort keys. */
  predicate SameSortKey(a: Employee, b: Employee) {
    Lower(LastName(a)) == Lower(LastName(b)) && Lower(a.fullName) == Lower(b.fullName)
  }

  /** The records that share `a`'s sort keys. */
  function SortKeyClass(a: Employee): Employee -> bool {
    x => SameSortKey(x, a)
  }

  /** Records sort equal exactly when they share both keys. */
  lemma SortKeyTieIsSameKey(a: Employee, b: Employee)
    ensures SortKeyLeq(a, b) && SortKeyLeq(b, a) <==> SameSortKey(a, b)
  {
    KeyPairTie(Lower(LastName(a)), Lower(a.fullName), Lower(LastName(b)), Lower(b.fullName));
  }

  /** The two-key order on plain strings ties exactly on equal keys. */
  lemma KeyPairTie(la: string, fa: string, lb: string, fb: string)
    ensures (StrLess(la, lb) || (la == lb && StrLeq(fa, fb)))
         && (StrLess(lb, la) || (lb == la && StrLeq(fb, fa)))
       <==> la == lb && fa == fb
  {
    StrLeqAntisymmetric(la, lb);
    StrLeqAntisymmetric(fa, fb);
    StrLeqTotal(fa, fa);
  }

  /** `getEmployeesSortedByLastName()`: a permutation of the store ordered by
      (lower-cased last name, lower-cased full name); `sorted` is stable, so
      records sharing both keys stay in store order. */
  function SortedByLastName(st: Store): (r: seq<Employee>)
    ensures multiset(r) == multiset(st.entries)
    ensures forall i :: 0 < i < |r| ==> SortKeyLeq(r[i - 1], r[i])
    ensures forall i, j :: 0 <= i < j < |r| ==> SortKeyLeq(r[i], r[j])
    ensures forall a :: Filter(r, SortKeyClass(a)) == Filter(st.entries, SortKeyClass(a))
  {
    forall a, b
      ensures SortKeyLeq(a, b) || SortKeyLeq(b, a)
    {
      SortKeyTotal(a, b);
    }
    forall a, b, c
      ensures SortKeyLeq(a, b) && SortKeyLeq(b, c) ==> SortKeyLeq(a, c)
    {
      SortKeyTransitive(a, b, c);
    }
    SortedByPairwise(SortBy(st.entries, SortKeyLeq), SortKeyLeq);
    forall a
      ensures Filter(SortBy(st.entries, SortKeyLeq), SortKeyClass(a)) == Filter(st.entries, SortKeyClass(a))
    {
      forall x, y | SortKeyClass(a)(x) && SortKeyClass(a)(y)
        ensures SortKeyLeq(x, y)
      {
        SortKeyTieIsSameKey(x, y);
      }
      SortByKeepsTiedOrder(st.entries, SortKeyLeq, SortKeyClass(a));
    }
    SortBy(st.entries, SortKeyLeq)
  }

  function PositionOf(e: Employee): Position { e.position }
  function StatusOf(e: Employee): EmploymentStatus { e.status }
  function CompanyOf(e: Employee): string { e.companyName }

  /** `groupByPosition()`: one list per position that occurs, store order. */
  function GroupByPosition(st: Store): (m: map<Position, seq<Employee>>)
    ensures forall p :: p in m <==> exists i :: 0 <= i < |st.entries| && st.entries[i].position == p
    ensures forall p :: p in m ==>
      && |m[p]| > 0
      && IsSubsequence(m[p], st.entries)
      && forall e :: e in m[p] <==> e in st.entries && e.position == p
  {
    GroupBy(st.entries, PositionOf)
  }

  /** `countByPosition()`: counts per position, zero counts omitted. */
  function CountByPosition(st: Store): (m: map<Position, nat>)
    ensures forall p :: p in m <==> exists i :: 0 <= i < |st.entries| && st.entries[i].position == p
    ensures forall p :: p in m ==> m[p] == CountOf(st.entries, PositionOf, p) && m[p] > 0
  {
    CountBy(st.entries, PositionOf)
  }

  /** `countByStatus()`: counts per status, zero counts omitted. */
  function CountByStatus(st: Store): (m: map<EmploymentStatus, nat>)
    ensures forall s :: s in m <==> exists i :: 0 <= i < |st.entries| && st.entries[i].status == s
    ensures forall s :: s in m ==> m[s] == CountOf(st.entries, StatusOf, s) && m[s] > 0
  {
    CountBy(st.entries, StatusOf)
  }

  /** Each position's count is the size of its group. */
  lemma CountByPositionMatchesGroups(st: Store)
    ensures CountByPosition(st).Keys == GroupByPosition(st).Keys
    ensures forall p :: p in CountByPosition(st) ==> CountByPosition(st)[p] == |GroupByPosition(st)[p]|
  {
    forall p | p in CountByPosition(st)
      ensures CountByPosition(st)[p] == |GroupByPosition(st)[p]|
    {
      MembersCount(st.entries, PositionOf, p);
    }
  }

  /** The position counts add up to the store size. */
  lemma CountByPositionSumsToSize(st: Store)
    ensures SumOver(CountByPosition(st), AllPositions) == |st.entries|
  {
    PositionTable();
    CountsSumToLength(st.entries, PositionOf, AllPositions);
  }

  /** The status counts add up to the store size. */
  lemma CountByStatusSumsToSize(st: Store)
    ensures SumOver(CountByStatus(st), AllStatuses) == |st.entries|
  {
    forall i | 0 <= i < |st.entries|
      ensures StatusOf(st.entries[i]) in AllStatuses
    {
      match st.entries[i].status
      case ACTIVE => assert AllStatuses[0] == ACTIVE;
      case ON_LEAVE => assert AllStatuses[1] == ON_LEAVE;
      case TERMINATED => assert AllStatuses[2] == TERMINATED;
    }
    CountsSumToLength(st.entries, StatusOf, AllStatuses);
  }

  /** `CompanyStatistics`, derived per company on demand. */
  datatype CompanyStatistics = CompanyStatistics(
    employeeCount: nat,
    averageSalary: real,
    highestPaidEmployeeName: string)

  /** The per-group collector: size, `average().orElse(0.0)` and the name of
      `max(...)`, `orElse("")`. */
  function StatisticsOf(g: seq<Employee>): CompanyStatistics {
    CompanyStatistics(
      |g|,
      match AverageSalary(Store(g)) case Some(a) => a case None => 0.0,
      match TopEarner(Store(g)) case Some(e) => e.fullName case None => "")
  }

  /** Some member of company `c` is called `name` and earns at least as much
      as every other member of `c`. */
  predicate IsHighestPaidIn(s: seq<Employee>, c: string, name: string) {
    exists i :: 0 <= i < |s| && s[i].companyName == c && s[i].fullName == name
      && forall j :: 0 <= j < |s| && s[j].companyName == c ==> s[j].salary <= s[i].salary
  }

  /** What the statistics of one company's group say about the store. */
  lemma CompanyStatisticsFacts(s: seq<Employee>, c: string)
    requires exists i :: 0 <= i < |s| && s[i].companyName == c
    ensures var g := Members(s, CompanyOf, c);
      && |g| > 0
      && StatisticsOf(g).employeeCount == CountOf(s, CompanyOf, c)
      && StatisticsOf(g).averageSalary == SumSalaries(g) / (|g| as real)
      && IsHighestPaidIn(s, c, StatisticsOf(g).highestPaidEmployeeName)
      && StatisticsOf(g).highestPaidEmployeeName == TopEarner(Store(g)).value.fullName
  {
    var g := Members(s, CompanyOf, c);
    MembersCount(s, CompanyOf, c);
    var i :| 0 <= i < |s| && s[i].companyName == c;
    assert s[i] in g;
    var top := TopEarner(Store(g)).value;
    assert top in s;
    var k :| 0 <= k < |s| && s[k] == top;
    forall j | 0 <= j < |s| && s[j].companyName == c
      ensures s[j].salary <= top.salary
    {
      assert s[j] in g;
    }
  }

  /** `m` holds one entry per company name occurring in `s` (compared
      case-sensitively), each with the size of the company's group, its mean
      salary and the name of its highest-paid member, the first in store
      order on ties, as `TopEarner` picks it. */
  ghost predicate DescribesCompanies(s: seq<Employee>, m: map<string, CompanyStatistics>) {
    && (forall c :: c in m <==> exists i :: 0 <= i < |s| && s[i].companyName == c)
    && (forall c :: c in m ==>
          && m[c].employeeCount == CountOf(s, CompanyOf, c) > 0
          && m[c].averageSalary == SumSalaries(Members(s, CompanyOf, c)) / (m[c].employeeCount as real))
    && (forall c :: c in m ==> IsHighestPaidIn(s, c, m[c].highestPaidEmployeeName))
    && (forall c :: c in m ==>
          m[c].highestPaidEmployeeName == TopEarner(Store(Members(s, CompanyOf, c))).value.fullName)
  }

  /** `getCompanyStatistics()`: the store grouped by company name, each group
      reduced to its size, mean salary and the name of its first highest-paid
      member. */
  function GetCompanyStatistics(st: Store): (m: map<string, CompanyStatistics>)
    ensures DescribesCompanies(st.entries, m)
  {
    var groups := GroupBy(st.entries, CompanyOf);
    var m := map c | c in groups :: StatisticsOf(groups[c]);
    StatisticsOfGroups(st.entries, groups, m);
    m
  }

  /** Reducing each company's group to its statistics describes the companies. */
  lemma StatisticsOfGroups(s: seq<Employee>, groups: map<string, seq<Employee>>, m: map<string, CompanyStatistics>)
    requires groups == GroupBy(s, CompanyOf)
    requires forall c :: c in m <==> c in groups
    requires forall c :: c in m ==> m[c] == StatisticsOf(groups[c])
    ensures DescribesCompanies(s, m)
  {
    forall c | c in m
      ensures && m[c].employeeCount == CountOf(s, CompanyOf, c) > 0
              && m[c].averageSalary == SumSalaries(Members(s, CompanyOf, c)) / (m[c].employeeCount as real)
              && IsHighestPaidIn(s, c, m[c].highestPaidEmployeeName)
              && m[c].highestPaidEmployeeName == TopEarner(Store(Members(s, CompanyOf, c))).value.fullName
    {
      CompanyStatisticsFacts(s, c);
    }
  }
}
