# Employee management core, modelled in Dafny

This project models the service layer of a small employee-management
application:

- `EmployeeService`: an in-memory store of employees keyed by lower-cased
  email, with lookups, filters, sorting, grouping and aggregate statistics.
- `ImportService`: the CSV importer that reads a file line by line, parses
  each data line into an `Employee` and adds it, collecting one diagnostic
  per rejected line.
- `FileStorageService`: upload validation, where photos and files are
  stored, and the in-memory registry of each employee's documents.
- The value types they use: `Employee`, `Position`, `EmployeeDocument`
  and `ImportSummary`.

Everything is pure functions over immutable values. An exception the Java
code throws becomes a `Failure` (or `Fail`) carrying an `Errors.Error`.
The store is a sequence of records in insertion order, which is what the
`LinkedHashMap` iterates. The byte store, the clock and UUIDs are not
modelled: each arrives as a parameter (`written`, `blobDeleted`, `now`,
`id`). The file being imported arrives as its lines, or as the message
of the exception that stopped it from being opened.

Modules: `Wrappers` (Option/Result/Outcome), `Errors`, `Text` (the
`java.lang.String` and `Double` behaviour the services rely on),
`Positions`, `Employees`, `Seqs` (filtering, grouping, counting and stable
sorting), `EmployeeService`, `ImportService` and `FileStorage`.

## Model

Source paths are relative to the repository root. Each row names the member whose contract states the property; lemmas relate several operations.

| member | source | states |
|---|---|---|
| Positions.PositionTable | src/main/java/com/techcorp/model/Position.java:4-8 | Exactly five positions, each listed once, with base salaries 25000, 18000, 12000, 8000 and 3000 and levels 1 to 5 in declaration order. |
| Positions.LevelOrdersBaseSalary | src/main/java/com/techcorp/model/Position.java:4-24 | The level identifies the position, and a lower level number means a strictly higher base salary. |
| Positions.ValueOf | src/main/java/com/techcorp/model/Position.java:3-8 | `valueOf` finds a position exactly when some constant's name equals the text, case-sensitively. |
| Employees.NewEmployee | src/main/java/com/techcorp/model/Employee.java:13-23 | Construction fails with "Salary cannot be negative" exactly when the salary is negative. Otherwise the record keeps every argument, starts ACTIVE and satisfies the salary invariant. |
| Employees.SetSalary | src/main/java/com/techcorp/model/Employee.java:57-62 | A negative salary is rejected with the same message. Zero or more is accepted, and only the salary changes. |
| Employees.SetFullName | src/main/java/com/techcorp/model/Employee.java:29-31 | Only the full name changes. |
| Employees.SetCompanyName | src/main/java/com/techcorp/model/Employee.java:41-43 | Only the company changes. |
| Employees.SetPosition | src/main/java/com/techcorp/model/Employee.java:49-51 | Only the position changes. |
| Employees.SetStatus | src/main/java/com/techcorp/model/Employee.java:68-70 | Only the status changes. |
| Employees.LastName | src/main/java/com/techcorp/model/Employee.java:72-75 | The last name is a suffix of the trimmed full name that contains no `\s` character. Either a `\s` character comes right before it, or it is the whole trimmed name. It is empty only for a blank name. |
| Employees.LastNameOfOneToken | src/main/java/com/techcorp/model/Employee.java:72-75 | A trimmed name without whitespace is its own last name. |
| Employees.LastNameOfTwoParts | src/main/java/com/techcorp/model/Employee.java:72-75 | For "first last" with a whitespace-free, non-empty last part, the last name is that part. |
| Employees.EqualsAgreesWithHashCode | src/main/java/com/techcorp/model/Employee.java:77-88 | `equals` (emails equal ignoring case) is an equivalence, holds exactly when the lower-cased emails used by `hashCode` agree, and holds for equal emails. |
| Text.EqualsIgnoreCaseIffSameLower | src/main/java/com/techcorp/service/EmployeeService.java:29-30 | Comparing emails with `equalsIgnoreCase` and comparing their `toLowerCase` keys give the same answer. |
| Text.JavaSplitOfJoin | src/main/java/com/techcorp/service/ImportService.java:54 | `split` on comma-free fields joined by commas returns the fields, provided the last one is non-empty. |
| Text.ParseDecimalOfNatToString | src/main/java/com/techcorp/service/ImportService.java:76 | Printed digits parse back to the same number. |
| Text.Trim | src/main/java/com/techcorp/service/ImportService.java:60-65 | `trim` gives the part of the input left after dropping a blank prefix and a blank suffix (blank: every character at or below U+0020). The result neither starts nor ends with such a character, so it is the largest such part. It is empty exactly for blank input, and already-trimmed text is unchanged. |
| Seqs.SortByKeepsTiedOrder | src/main/java/com/techcorp/service/EmployeeService.java:51 | Sorting is stable: within any class of elements that sort equal, the order is the input order. |
| Seqs.SortedByPairwise | src/main/java/com/techcorp/service/EmployeeService.java:51 | Under a transitive comparator, a list whose neighbours are in order is in order for every pair. |
| Seqs.CountsSumToLength | src/main/java/com/techcorp/service/EmployeeService.java:58-60 | Summed over every possible key, the counts of `groupingBy(counting())` add up to the number of elements. |
| EmployeeService.AddEmployee | src/main/java/com/techcorp/service/EmployeeService.java:27-34 | Adding fails with DuplicateEmail exactly when a stored email equals the new one ignoring case. Otherwise the record is appended and the store stays valid (unique keys, valid records). |
| EmployeeService.UpdateEmployee | src/main/java/com/techcorp/service/EmployeeService.java:115-129 | An unknown email fails with NotFound. A new email already taken by another record fails with DuplicateEmail. The same email (ignoring case) replaces the record in place. A new free email removes the old record and appends the updated one. The store stays valid in every case. |
| EmployeeService.DeleteEmployee | src/main/java/com/techcorp/service/EmployeeService.java:131-134 | An unknown email fails with NotFound. Otherwise exactly the matching record is removed and the rest keep their order. |
| EmployeeService.UpdateEmployeeStatus | src/main/java/com/techcorp/service/EmployeeService.java:136-139 | An unknown email fails with NotFound. Otherwise only the matching record's status changes. |
| EmployeeService.FindByEmail | src/main/java/com/techcorp/service/EmployeeService.java:105-108 | The result is empty exactly when no stored email equals the query ignoring case. Otherwise it is the unique record that matches. |
| EmployeeService.GetByEmail | src/main/java/com/techcorp/service/EmployeeService.java:110-113 | It agrees with `FindByEmail`, and fails with NotFound exactly when the email is absent. |
| EmployeeService.FindByCompany | src/main/java/com/techcorp/service/EmployeeService.java:40-45 | The result is the order-preserving subsequence of records whose company equals the query ignoring case. |
| EmployeeService.FindByStatus | src/main/java/com/techcorp/service/EmployeeService.java:141-146 | The result is the order-preserving subsequence of records with that status. |
| EmployeeService.ValidateSalaryConsistency | src/main/java/com/techcorp/service/EmployeeService.java:74-78 | The result holds exactly the records paid below their position's base salary, in store order. |
| EmployeeService.AverageSalary | src/main/java/com/techcorp/service/EmployeeService.java:62-64 | The result is empty exactly for an empty store. Otherwise, times the store size, it gives the sum of salaries. |
| EmployeeService.TopEarner | src/main/java/com/techcorp/service/EmployeeService.java:66-68 | The result is empty exactly for an empty store. Otherwise it is the first record whose salary is the maximum. |
| EmployeeService.AverageWithinTopSalary | src/main/java/com/techcorp/service/EmployeeService.java:62-68 | In a non-empty store the average lies between 0 and the top earner's salary. |
| EmployeeService.SortKeyTieIsSameKey | src/main/java/com/techcorp/service/EmployeeService.java:48-50 | Two records compare equal under the comparator exactly when their lower-cased last names and lower-cased full names are equal. |
| EmployeeService.SortKeyTransitive | src/main/java/com/techcorp/service/EmployeeService.java:48-50 | The comparator is transitive: `compareTo` on strings is transitive and antisymmetric. |
| EmployeeService.SortedByLastName | src/main/java/com/techcorp/service/EmployeeService.java:47-52 | The result is a permutation of the store. Every record sorts no later than every record after it, by lower-cased last name and then lower-cased full name. Records that share both keys keep their store order. |
| EmployeeService.GroupByPosition | src/main/java/com/techcorp/service/EmployeeService.java:54-56 | Each position that occurs gets a non-empty list: exactly its records, in store order. Absent positions get no key. |
| EmployeeService.CountByPosition | src/main/java/com/techcorp/service/EmployeeService.java:58-60 | Each position that occurs gets its number of records. Positions with zero records get no key. |
| EmployeeService.CountByPositionMatchesGroups | src/main/java/com/techcorp/service/EmployeeService.java:54-60 | The counts and the groups have the same keys, and each count is its group's size. |
| EmployeeService.CountByPositionSumsToSize | src/main/java/com/techcorp/service/EmployeeService.java:58-72 | The counts per position add up to `size()`. |
| EmployeeService.CountByStatus | src/main/java/com/techcorp/service/EmployeeService.java:148-150 | Each status that occurs gets its number of records. Statuses with zero records get no key. |
| EmployeeService.CountByStatusSumsToSize | src/main/java/com/techcorp/service/EmployeeService.java:148-150 | The counts per status add up to the store size. |
| EmployeeService.CompanyStatisticsFacts | src/main/java/com/techcorp/service/EmployeeService.java:86-99 | For a company that occurs, its statistics give the number of its records and their mean salary, and name a member whose salary no other member of that company exceeds. On ties it is the first such member in store order, the one `TopEarner` picks. |
| EmployeeService.GetCompanyStatistics | src/main/java/com/techcorp/service/EmployeeService.java:80-103 | There is one entry per company name that occurs, compared case-sensitively. Each entry holds the group's size, mean salary and the name of a highest-paid member. On ties it is the first in store order, as `maxBy` keeps the first maximum. |
| ImportService.ParseCsvLine | src/main/java/com/techcorp/service/ImportService.java:53-86 | A parsed record has a positive salary, satisfies the salary invariant and starts ACTIVE. |
| ImportService.ParseCsvLineOutcomes | src/main/java/com/techcorp/service/ImportService.java:53-86 | The failures come in check order: column count, then position, then salary format, then a non-positive salary, each with its message. A line that passes all four checks is accepted, and the record is built from the trimmed columns. |
| ImportService.PositionLookupIgnoresCase | src/main/java/com/techcorp/service/ImportService.java:67-72 | Upper-casing and then `valueOf` finds a position exactly when the text names a constant ignoring case, and it finds that constant. |
| ImportService.ParseCsvLineOfCsvLine | src/main/java/com/techcorp/service/ImportService.java:53-86 | Writing plain values as a CSV line and parsing it gives back the record they describe. |
| ImportService.ImportFromCsv | src/main/java/com/techcorp/service/ImportService.java:20-51 | A file that cannot be opened gives one "Błąd odczytu pliku: …" diagnostic and no change. An empty file changes nothing. Otherwise the header is skipped, and the store, count and diagnostics are exactly what `Fates` says for the data lines numbered from 2: the added records are appended in file order, and the diagnostics of the rejected non-blank lines come in line order. |
| ImportService.ImportRowsFollowsFates | src/main/java/com/techcorp/service/ImportService.java:31-45 | The import loop agrees with a line-by-line definition. A blank line is skipped. A line that does not parse is reported as "Linia N: " plus the parse error. A record whose email, ignoring case, is in the starting store or on an earlier line that parsed is reported as "Linia N: Pracownik z emailem '…' już istnieje". Every other record is added. |
| ImportService.ImportRowsOfKnownEmails | src/main/java/com/techcorp/service/ImportService.java:38-44 | Lines whose emails are all stored already add nothing. |
| ImportService.ImportTwiceAddsNothing | src/main/java/com/techcorp/service/ImportService.java:20-51 | Importing the same file again leaves the store unchanged and counts zero imports. |
| FileStorage.ValidateFile | src/main/java/com/techcorp/service/FileStorageService.java:137-169 | The checks run in order: a missing or empty file, then a size over 10 MiB, then the sub-path's suffix rule on the lower-cased original name (a null name counts as ""). A file passes exactly when none of them fires. |
| FileStorage.SuffixAcceptedCases | src/main/java/com/techcorp/service/FileStorageService.java:152-166 | The suffix table (imports: .csv or .xml; documents: .pdf, .doc, .docx or .txt; any other sub-path: anything) agrees with the chain of `endsWith` checks. |
| FileStorage.SuffixRuleIgnoresCase | src/main/java/com/techcorp/service/FileStorageService.java:149-150 | Names equal ignoring case are accepted or rejected alike. |
| FileStorage.StoreFile | src/main/java/com/techcorp/service/FileStorageService.java:53-66 | A validation failure is returned as is. A failed write becomes "Failed to store file". Otherwise the file lands in the sub-path under the name of the id, "_" and the original name ("null" for a null name). |
| FileStorage.StoredNameRoundTrip | src/main/java/com/techcorp/service/FileStorageService.java:59 | For an underscore-free id, the stored name splits back into the id and the original name. |
| FileStorage.StorePhoto | src/main/java/com/techcorp/service/FileStorageService.java:104-117 | The checks run in order: a missing or empty photo, then a content type other than JPEG or PNG (ignoring case), then a size over 2 MiB. An accepted photo passes the general validation and is stored under "photos/" plus the lower-cased email. |
| FileStorage.PhotoFolderIgnoresCase | src/main/java/com/techcorp/service/FileStorageService.java:115 | Two emails share a photo folder exactly when they are equal ignoring case. |
| FileStorage.PhotoTypeIsLowerMatch | src/main/java/com/techcorp/service/FileStorageService.java:108-111 | The content-type check is the lower-cased type being "image/jpeg" or "image/png". |
| FileStorage.FileNameOf | src/main/java/com/techcorp/service/FileStorageService.java:121 | The file name is a separator-free piece of the path. It starts the path or follows a `/`, and only separators come after it. It is empty only for a path made of separators. |
| FileStorage.FileNameIgnoresTrailingSeparator | src/main/java/com/techcorp/service/FileStorageService.java:121 | A trailing `/` does not change the file name, as path normalisation drops it. |
| FileStorage.FileNameOfStoredPath | src/main/java/com/techcorp/service/FileStorageService.java:59-62 | For a non-empty name without `/`, the file name of a stored location is the name `storeFile` chose. |
| FileStorage.ListDocuments | src/main/java/com/techcorp/service/FileStorageService.java:126-128 | The list is empty for an email with nothing filed. |
| FileStorage.ListDocumentsIgnoresCase | src/main/java/com/techcorp/service/FileStorageService.java:126-128 | Emails equal ignoring case list the same documents. |
| FileStorage.RegisterDocument | src/main/java/com/techcorp/service/FileStorageService.java:119-124 | The new document carries the id, the email as given, the file name of the stored path, the original name, the type and the clock reading. It is appended to the email's list, and every other email's list is unchanged. |
| FileStorage.GetDocument | src/main/java/com/techcorp/service/FileStorageService.java:130-135 | The lookup succeeds exactly when the email's list holds the id, and returns the first such document. Otherwise it fails with "Document not found: " plus the id. |
| FileStorage.DeleteDocument | src/main/java/com/techcorp/service/FileStorageService.java:94-102 | An unknown id fails with "Document not found: " followed by the id. A failed blob delete fails with "Failed to delete file" and keeps the metadata. Otherwise only that email's list changes. |
| FileStorage.DeleteRemovesFoundDocument | src/main/java/com/techcorp/service/FileStorageService.java:94-102 | A successful delete removes exactly the document `getDocument` finds: one fewer element, the same multiset minus that document, and the rest in order. |
| FileStorage.GetAfterRegister | src/main/java/com/techcorp/service/FileStorageService.java:119-135 | A document registered under a fresh id is what `getDocument` returns for that id. |
| FileStorage.DeleteUndoesRegister | src/main/java/com/techcorp/service/FileStorageService.java:94-124 | Deleting a document just registered under a fresh id restores every email's listing. |

## Left out

- Text.ParseDecimal: it accepts only plain decimal text: an optional sign, digits with an optional point, and an optional `f`/`F`/`d`/`D` suffix. `Double.parseDouble` also accepts exponents (`1e5`), hexadecimal (`0x1p3`), `NaN` and `Infinity`. For such text, Java imports the row when the value is positive or NaN, since NaN passes both `salary <= 0` and the constructor check. It rejects the row with "Wynagrodzenie musi być dodatnie" when the value is zero or negative (`-1e5`, `-0x1p3`, `-Infinity`). The model reports a salary-format error for all of these.
- Salaries are `real`, not `double`. Rounding, underflow, `-0.0`, `NaN` and `Infinity` are not modelled. For example, a long `0.000…1` parses to a positive value in the model, but Java rounds it to 0.0 and rejects it as non-positive.
- Text.Lower, Text.Upper, Text.EqualsIgnoreCase: only ASCII letters change case. Java's `toLowerCase`/`toUpperCase` consult Unicode and the default locale, where the agreement proved by `EqualsIgnoreCaseIffSameLower` can fail (e.g. the Turkish dotless i).
- Strings are sequences of Unicode scalar values, not UTF-16 code units, so `compareTo` (`Text.StrLeq`) can order surrogate pairs differently.
- Null arguments are not modelled: `addEmployee(null)`, `findByCompany(null)`, `findByEmail(null)`, a null `subPath`, and the null checks in the `Employee` constructor and setters all throw `NullPointerException` in Java. The model's types cannot hold null.
- Aliasing: Java setters mutate a stored `Employee` in place, so `updateEmployeeStatus` and any caller holding a reference change the store. The model replaces records by value.
- ImportService.ImportFromCsv: only a failure to open the file is modelled. An `IOException` partway through a read keeps the rows processed so far and appends the read-error diagnostic; the model always sees the whole file.
- FileStorage.StoreFile: the stored location is `folder + "/" + name`, relative to the uploads directory. Java returns the absolute, normalised path, and the directory creation and byte copy are reduced to the `written` flag.
- FileStorage.RegisterDocument: for a stored path made only of separators, Java's `getFileName()` is null and the call throws `NullPointerException`; the model registers a document with an empty file name. Its only caller passes a path returned by `storeFile`, which always ends in a non-empty file name.
- Concurrency: the `ConcurrentHashMap` and synchronised lists of the document registry are modelled as a plain map of sequences.
- `getAllEmployees()` and `size()` have no functions of their own: they are the store's sequence and its length.
- `EmploymentStatus` is modelled as ACTIVE, ON_LEAVE and TERMINATED, and `DocumentType` as CONTRACT, ID, CERTIFICATE and OTHER. Their source files are not part of this model, and only equality is used.
- `loadAsResource`, `deleteFile` (reduced to the `blobDeleted` flag), `getReportsDir`, the constructor's directory creation, `importFromXml`, the controllers, `ApiService` and `ReportGeneratorService` are not modelled.
- The clock (`LocalDateTime.now()`) is a `nat` reading, and UUIDs are a caller-supplied `id`.

Three behaviours of the code that the model keeps as they are:
- the importer trims every field of a data line, not only the position and salary;
- a failed blob delete aborts `deleteDocument` and leaves the document's metadata in place;
- an update that changes the email moves the record to the end of the iteration order, because it is removed from the `LinkedHashMap` and put back.
