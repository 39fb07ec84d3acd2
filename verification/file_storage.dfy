/**
 * `FileStorageService`: the accept/reject rules for uploads, where an
 * accepted upload is stored, and the in-memory registry of each employee's
 * documents.
 *
 * The byte store is not modelled: whether writing or deleting a blob
 * succeeded arrives as a boolean, and the fresh UUID and the clock reading
 * arrive as parameters.
 */
module FileStorage {
  import opened Wrappers
  import opened Text
  import opened Errors
  import opened Seqs

  // ---------------------------------------------------------------------------
  // Validation
  // ---------------------------------------------------------------------------

  /** What the service reads from a `MultipartFile`; `None` stands for a null
      original name or content type. */
  datatype Upload = Upload(size: nat, originalName: Option<string>, contentType: Option<string>)

  /** 10 MiB, the ceiling for every stored file. */
  const MaxFileSize: nat := 10 * 1024 * 1024

  /** 2 MiB, the ceiling for photos. */
  const MaxPhotoSize: nat := 2 * 1024 * 1024

  const EmptyFileMessage := "File is empty"
  const FileTooLargeMessage := "File exceeds max allowed size of 10MB"
  const ImportSuffixMessage := "Only CSV or XML files are allowed for import"
  const DocumentSuffixMessage := "Document extension not allowed"
  const StoreFailedMessage := "Failed to store file"
  const PhotoEmptyMessage := "Photo is empty"
  const PhotoTypeMessage := "Only JPG and PNG photos are allowed"
  const PhotoTooLargeMessage := "Photo exceeds max size 2MB"
  const DeleteFailedMessage := "Failed to delete file"

  function DocumentNotFoundMessage(documentId: string): string {
    "Document not found: " + documentId
  }

  /** The original name as validation sees it: a null name counts as empty. */
  function NameOrEmpty(f: Upload): string {
    match f.originalName
    case None => ""
    case Some(n) => n
  }

  /** The suffixes a sub-path admits, `None` when any name is admitted. This
      table is the reference the chain of checks in `ValidateFile` is proved
      against. */
  function AllowedSuffixes(subPath: string): Option<seq<string>> {
    if StartsWith(subPath, "imports") then Some([".csv", ".xml"])
    else if StartsWith(subPath, "documents") then Some([".pdf", ".doc", ".docx", ".txt"])
    else None
  }

  /** The lower-cased `name` ends in one of the suffixes `subPath` admits. */
  predicate SuffixAccepted(subPath: string, name: string) {
    match AllowedSuffixes(subPath)
    case None => true
    case Some(suffixes) => exists k :: 0 <= k < |suffixes| && EndsWith(Lower(name), suffixes[k])
  }

  /** The suffix table written out as the checks `validateFile` makes. */
  lemma SuffixAcceptedCases(subPath: string, name: string)
    ensures var lower := Lower(name);
      SuffixAccepted(subPath, name) <==>
        if StartsWith(subPath, "imports") then EndsWith(lower, ".csv") || EndsWith(lower, ".xml")
        else if StartsWith(subPath, "documents") then
          EndsWith(lower, ".pdf") || EndsWith(lower, ".doc") || EndsWith(lower, ".docx") || EndsWith(lower, ".txt")
        else true
  {
    var lower := Lower(name);
    if StartsWith(subPath, "imports") {
      var sfx := [".csv", ".xml"];
      assert EndsWith(lower, ".csv") ==> EndsWith(lower, sfx[0]);
      assert EndsWith(lower, ".xml") ==> EndsWith(lower, sfx[1]);
    } else if StartsWith(subPath, "documents") {
      var sfx := [".pdf", ".doc", ".docx", ".txt"];
      assert EndsWith(lower, ".pdf") ==> EndsWith(lower, sfx[0]);
      assert EndsWith(lower, ".doc") ==> EndsWith(lower, sfx[1]);
      assert EndsWith(lower, ".docx") ==> EndsWith(lower, sfx[2]);
      assert EndsWith(lower, ".txt") ==> EndsWith(lower, sfx[3]);
    }
  }

  /** `validateFile`: a missing or empty file, then one over 10 MiB, then a name
      whose lower-cased suffix the sub-path does not admit, is rejected. */
  function ValidateFile(file: Option<Upload>, subPath: string): (r: Outcome<Error>)
    ensures r.Pass? <==>
      file.Some? && 0 < file.value.size <= MaxFileSize && SuffixAccepted(subPath, NameOrEmpty(file.value))
    ensures file.None? || file.value.size == 0 ==> r == Fail(InvalidFile(EmptyFileMessage))
    ensures file.Some? && file.value.size > MaxFileSize ==> r == Fail(InvalidFile(FileTooLargeMessage))
    ensures file.Some? && 0 < file.value.size <= MaxFileSize && !SuffixAccepted(subPath, NameOrEmpty(file.value)) ==>
      r == Fail(InvalidFile(if StartsWith(subPath, "imports") then ImportSuffixMessage else DocumentSuffixMessage))
  {
    if file.None? || file.value.size == 0 then Fail(InvalidFile(EmptyFileMessage))
    else if file.value.size > MaxFileSize then Fail(InvalidFile(FileTooLargeMessage))
    else
      var lower := Lower(NameOrEmpty(file.value));
      SuffixAcceptedCases(subPath, NameOrEmpty(file.value));
      if StartsWith(subPath, "imports") then
        if !(EndsWith(lower, ".csv") || EndsWith(lower, ".xml")) then Fail(InvalidFile(ImportSuffixMessage))
        else Pass
      else if StartsWith(subPath, "documents") then
        if !(EndsWith(lower, ".pdf") || EndsWith(lower, ".doc") || EndsWith(lower, ".docx") || EndsWith(lower, ".txt"))
        then Fail(InvalidFile(DocumentSuffixMessage))
        else Pass
      else Pass
  }

  /** The suffix rule looks only at the name ignoring case. */
  lemma SuffixRuleIgnoresCase(subPath: string, a: string, b: string)
    requires EqualsIgnoreCase(a, b)
    ensures SuffixAccepted(subPath, a) <==> SuffixAccepted(subPath, b)
  {
    EqualsIgnoreCaseIffSameLower(a, b);
  }

  // ---------------------------------------------------------------------------
  // Storing
  // ---------------------------------------------------------------------------

  /** Where a stored file went: the sub-path below the uploads directory and
      the name inside it. */
  datatype StoredFile = StoredFile(folder: string, fileName: string)

  /** The location text `storeFile` returns, relative to the uploads directory. */
  function StoredPath(f: StoredFile): string {
    f.folder + "/" + f.fileName
  }

  /** The original name as string concatenation renders it: a null name is "null". */
  function NameText(f: Upload): string {
    match f.originalName
    case None => "null"
    case Some(n) => n
  }

  /** `storeFile`: validation first; then the write, whose failure (`written`
      false) becomes a storage error; the stored name is the fresh `id`, an
      underscore and the original name. */
  function StoreFile(file: Option<Upload>, subPath: string, id: string, written: bool): (r: Result<StoredFile, Error>)
    ensures r.Success? <==> ValidateFile(file, subPath).Pass? && written
    ensures ValidateFile(file, subPath).Fail? ==> r == Failure(ValidateFile(file, subPath).error)
    ensures ValidateFile(file, subPath).Pass? && !written ==> r == Failure(StorageFailure(StoreFailedMessage))
    ensures r.Success? ==>
      && r.value.folder == subPath
      && StartsWith(r.value.fileName, id + "_")
      && r.value.fileName[|id| + 1..] == NameText(file.value)
  {
    match ValidateFile(file, subPath)
    case Fail(e) => Failure(e)
    case Pass =>
      if !written then Failure(StorageFailure(StoreFailedMessage))
      else Success(StoredFile(subPath, id + "_" + NameText(file.value)))
  }

  /** Index of the first `c` in `s`, or `|s|` when there is none. */
  function FirstIndexOf(s: string, c: char): (k: nat)
    ensures k <= |s|
    ensures forall i :: 0 <= i < k ==> s[i] != c
    ensures k < |s| ==> s[k] == c
    decreases |s|
  {
    if |s| == 0 then 0
    else if s[0] == c then 0
    else
      var k := FirstIndexOf(s[1..], c);
      assert forall i :: 1 <= i < k + 1 ==> s[i] == s[1..][i - 1];
      k + 1
  }

  /** A stored name read back as (id, original name): split at the first underscore. */
  function SplitStoredName(fileName: string): (string, string) {
    var k := FirstIndexOf(fileName, '_');
    if k == |fileName| then (fileName, "") else (fileName[..k], fileName[k + 1..])
  }

  /** An underscore-free id (a UUID is one) and the original name can be read
      back from the name `storeFile` gave the file. */
  lemma StoredNameRoundTrip(file: Option<Upload>, subPath: string, id: string, written: bool)
    requires forall i :: 0 <= i < |id| ==> id[i] != '_'
    requires StoreFile(file, subPath, id, written).Success?
    ensures SplitStoredName(StoreFile(file, subPath, id, written).value.fileName) == (id, NameText(file.value))
  {
    var name := StoreFile(file, subPath, id, written).value.fileName;
    assert name[..|id| + 1] == id + "_";
    assert forall i :: 0 <= i < |id| ==> name[i] == id[i];
    assert name[|id|] == '_';
    assert FirstIndexOf(name, '_') == |id|;
    assert name[..|id|] == id;
  }

  /** The content type is `image/jpeg` or `image/png`, ignoring case. */
  predicate IsPhotoType(contentType: Option<string>) {
    contentType.Some? && (EqualsIgnoreCase(contentType.value, "image/jpeg") || EqualsIgnoreCase(contentType.value, "image/png"))
  }

  /** The folder for an employee's photos, keyed by the lower-cased email. */
  function PhotoFolder(email: string): string {
    "photos/" + Lower(email)
  }

  /** `storePhoto`: in this order a missing or empty file, a content type other
      than JPEG or PNG, and a file over 2 MiB are rejected; an accepted photo
      always passes the general validation and is stored in the owner's photo
      folder. */
  function StorePhoto(file: Option<Upload>, email: string, id: string, written: bool): (r: Result<StoredFile, Error>)
    ensures file.None? || file.value.size == 0 ==> r == Failure(InvalidFile(PhotoEmptyMessage))
    ensures file.Some? && file.value.size > 0 && !IsPhotoType(file.value.contentType) ==>
      r == Failure(InvalidFile(PhotoTypeMessage))
    ensures file.Some? && file.value.size > MaxPhotoSize && IsPhotoType(file.value.contentType) ==>
      r == Failure(InvalidFile(PhotoTooLargeMessage))
    ensures r.Success? <==>
      file.Some? && 0 < file.value.size <= MaxPhotoSize && IsPhotoType(file.value.contentType) && written
    ensures file.Some? && 0 < file.value.size <= MaxPhotoSize && IsPhotoType(file.value.contentType) && !written ==>
      r == Failure(StorageFailure(StoreFailedMessage))
    ensures r.Success? ==> r.value.folder == PhotoFolder(email)
  {
    if file.None? || file.value.size == 0 then Failure(InvalidFile(PhotoEmptyMessage))
    else if !IsPhotoType(file.value.contentType) then Failure(InvalidFile(PhotoTypeMessage))
    else if file.value.size > MaxPhotoSize then Failure(InvalidFile(PhotoTooLargeMessage))
    else
      PhotoFolderUnrestricted(email);
      StoreFile(file, PhotoFolder(email), id, written)
  }

  /** A photo folder admits any name: it starts neither with `imports` nor with `documents`. */
  lemma PhotoFolderUnrestricted(email: string)
    ensures AllowedSuffixes(PhotoFolder(email)).None?
  {
    var p := PhotoFolder(email);
    assert p[0] == 'p';
  }

  /** Two emails share a photo folder exactly when they are equal ignoring case. */
  lemma PhotoFolderIgnoresCase(a: string, b: string)
    ensures PhotoFolder(a) == PhotoFolder(b) <==> EqualsIgnoreCase(a, b)
  {
    EqualsIgnoreCaseIffSameLower(a, b);
    if PhotoFolder(a) == PhotoFolder(b) {
      assert Lower(a) == PhotoFolder(a)[7..];
      assert Lower(b) == PhotoFolder(b)[7..];
    }
  }

  /** The photo check is the lower-cased content type being one of the two names. */
  lemma PhotoTypeIsLowerMatch(contentType: string)
    ensures IsPhotoType(Some(contentType)) <==> Lower(contentType) in {"image/jpeg", "image/png"}
  {
    EqualsIgnoreCaseIffSameLower(contentType, "image/jpeg");
    EqualsIgnoreCaseIffSameLower(contentType, "image/png");
    LowerOfLowerCase("image/jpeg");
    LowerOfLowerCase("image/png");
  }

  lemma LowerOfLowerCase(s: string)
    requires forall i :: 0 <= i < |s| ==> !IsUpperAscii(s[i])
    ensures Lower(s) == s
  {
  }

  // ---------------------------------------------------------------------------
  // The document registry
  // ---------------------------------------------------------------------------

  datatype DocumentType = CONTRACT | ID | CERTIFICATE | OTHER

  /** `EmployeeDocument`; `uploadDate` is the clock reading at registration. */
  datatype EmployeeDocument = EmployeeDocument(
    id: string,
    employeeEmail: string,
    fileName: string,
    originalFileName: string,
    fileType: DocumentType,
    uploadDate: nat,
    filePath: string)

  /** Lower-cased email to that employee's documents, in registration order. */
  type Registry = map<string, seq<EmployeeDocument>>

  /** The registry after `registerDocument` together with the new document. */
  datatype Registration = Registration(registry: Registry, document: EmployeeDocument)

  predicate IsSeparator(c: char) { c == '/' }

  predicate IsNotSeparator(c: char) { c != '/' }

  /** `name` sits in `path` at `k`, right after a separator or at the start,
      and only separators follow it. */
  predicate NameAt(path: string, k: nat, name: string) {
    && k + |name| <= |path| && path[k..k + |name|] == name
    && (k > 0 ==> path[k - 1] == '/')
    && (forall i :: k + |name| <= i < |path| ==> path[i] == '/')
  }

  /** `Paths.get(path).getFileName()`: the last `/`-separated name, trailing
      separators ignored, as path normalisation drops them. */
  function FileNameOf(path: string): (r: string)
    ensures forall i :: 0 <= i < |r| ==> r[i] != '/'
    ensures exists k: nat :: NameAt(path, k, r)
    ensures |r| == 0 ==> forall i :: 0 <= i < |path| ==> path[i] == '/'
  {
    var hi := RunStart(path, IsNotSeparator, |path|);
    var lo := RunStart(path, IsSeparator, hi);
    assert NameAt(path, lo, path[lo..hi]);
    path[lo..hi]
  }

  /** A trailing separator does not change the file name. */
  lemma FileNameIgnoresTrailingSeparator(path: string)
    ensures FileNameOf(path + "/") == FileNameOf(path)
  {
    var p := path + "/";
    assert p[..|path|] == path[..|path|];
    assert RunStart(p, IsNotSeparator, |p|) == RunStart(p, IsNotSeparator, |path|);
    RunStartOfPrefix(path, p, IsNotSeparator, |path|);
    var hi := RunStart(path, IsNotSeparator, |path|);
    assert p[..hi] == path[..hi];
    RunStartOfPrefix(path, p, IsSeparator, hi);
    var lo := RunStart(path, IsSeparator, hi);
    assert p[lo..hi] == path[lo..hi];
  }

  /** The file name of a stored location is the name `storeFile` chose, when that name has no `/`. */
  lemma FileNameOfStoredPath(f: StoredFile)
    requires forall i :: 0 <= i < |f.fileName| ==> f.fileName[i] != '/'
    requires |f.fileName| > 0
    ensures FileNameOf(StoredPath(f)) == f.fileName
  {
    var p := StoredPath(f);
    var m := |f.folder| + 1;
    assert p[m - 1] == '/';
    assert forall i :: m <= i < |p| ==> p[i] == f.fileName[i - m];
    assert p[|p| - 1] != '/';
    assert RunStart(p, IsNotSeparator, |p|) == |p|;
    assert RunStart(p, IsSeparator, |p|) == m;
    assert p[m..] == f.fileName;
  }

  /** `listDocuments`: the documents filed under the email ignoring case, none when nothing was filed. */
  function ListDocuments(reg: Registry, email: string): (r: seq<EmployeeDocument>)
    ensures Lower(email) !in reg ==> r == []
  {
    if Lower(email) in reg then reg[Lower(email)] else []
  }

  /** Listing does not distinguish emails that differ only in case. */
  lemma ListDocumentsIgnoresCase(reg: Registry, a: string, b: string)
    requires EqualsIgnoreCase(a, b)
    ensures ListDocuments(reg, a) == ListDocuments(reg, b)
  {
    EqualsIgnoreCaseIffSameLower(a, b);
  }

  /** `registerDocument` with the fresh `id` and clock reading `now`: the new
      document keeps the email as given and names the last component of the
      stored location; it goes at the end of the list filed under the
      lower-cased email, and every other list stays as it was. */
  function RegisterDocument(reg: Registry, email: string, storedPath: string, originalFilename: string,
                            fileType: DocumentType, id: string, now: nat): (r: Registration)
    ensures r.document.id == id && r.document.employeeEmail == email
    ensures r.document.fileName == FileNameOf(storedPath) && r.document.filePath == storedPath
    ensures r.document.originalFileName == originalFilename && r.document.fileType == fileType
    ensures r.document.uploadDate == now
    ensures ListDocuments(r.registry, email) == ListDocuments(reg, email) + [r.document]
    ensures forall e :: Lower(e) != Lower(email) ==> ListDocuments(r.registry, e) == ListDocuments(reg, e)
  {
    var doc := EmployeeDocument(id, email, FileNameOf(storedPath), originalFilename, fileType, now, storedPath);
    var reg' := reg[Lower(email) := ListDocuments(reg, email) + [doc]];
    assert ListDocuments(reg', email) == ListDocuments(reg, email) + [doc];
    assert forall e :: Lower(e) != Lower(email) ==> ListDocuments(reg', e) == ListDocuments(reg, e);
    Registration(reg', doc)
  }

  /** Index of the first document with the given id, or `|docs|` when there is none. */
  function IndexOfId(docs: seq<EmployeeDocument>, documentId: string): (k: nat)
    ensures k <= |docs|
    ensures forall j :: 0 <= j < k ==> docs[j].id != documentId
    ensures k < |docs| ==> docs[k].id == documentId
    decreases |docs|
  {
    if |docs| == 0 then 0
    else if docs[0].id == documentId then 0
    else
      var k := IndexOfId(docs[1..], documentId);
      assert forall j :: 1 <= j < k + 1 ==> docs[j] == docs[1..][j - 1];
      k + 1
  }

  /** Some document filed under the email carries the id. */
  predicate HasDocument(reg: Registry, email: string, documentId: string) {
    exists j :: 0 <= j < |ListDocuments(reg, email)| && ListDocuments(reg, email)[j].id == documentId
  }

  /** `getDocument`: the first document with the id among those filed under the email. */
  function GetDocument(reg: Registry, email: string, documentId: string): (r: Result<EmployeeDocument, Error>)
    ensures r.Success? <==> HasDocument(reg, email, documentId)
    ensures r.Success? ==>
      var docs := ListDocuments(reg, email);
      && r.value.id == documentId
      && exists k :: 0 <= k < |docs| && docs[k] == r.value && forall j :: 0 <= j < k ==> docs[j].id != documentId
    ensures r.Failure? ==> r.error == FileMissing(DocumentNotFoundMessage(documentId))
  {
    var docs := ListDocuments(reg, email);
    var k := IndexOfId(docs, documentId);
    if k == |docs| then Failure(FileMissing(DocumentNotFoundMessage(documentId)))
    else Success(docs[k])
  }

  /** `deleteDocument`: an unknown id is an error and changes nothing; otherwise
      the blob is deleted first, and only when that succeeded (`blobDeleted`)
      is the document taken out of its list (`DeleteRemovesFoundDocument`);
      every other list is left alone. */
  function DeleteDocument(reg: Registry, email: string, documentId: string, blobDeleted: bool): (r: Result<Registry, Error>)
    ensures r.Success? <==> HasDocument(reg, email, documentId) && blobDeleted
    ensures !HasDocument(reg, email, documentId) ==> r == Failure(FileMissing(DocumentNotFoundMessage(documentId)))
    ensures HasDocument(reg, email, documentId) && !blobDeleted ==> r == Failure(StorageFailure(DeleteFailedMessage))
    ensures r.Success? ==>
      forall e :: Lower(e) != Lower(email) ==> ListDocuments(r.value, e) == ListDocuments(reg, e)
  {
    var docs := ListDocuments(reg, email);
    var k := IndexOfId(docs, documentId);
    if k == |docs| then Failure(FileMissing(DocumentNotFoundMessage(documentId)))
    else if !blobDeleted then Failure(StorageFailure(DeleteFailedMessage))
    else Success(reg[Lower(email) := docs[..k] + docs[k + 1..]])
  }

  /** A successful delete takes exactly the document `getDocument` finds out of
      the email's list and keeps the rest in order. */
  lemma DeleteRemovesFoundDocument(reg: Registry, email: string, documentId: string)
    requires HasDocument(reg, email, documentId)
    ensures var before := ListDocuments(reg, email);
      var after := ListDocuments(DeleteDocument(reg, email, documentId, true).value, email);
      && |after| == |before| - 1
      && multiset(after) == multiset(before) - multiset{GetDocument(reg, email, documentId).value}
      && IsSubsequence(after, before)
  {
    var docs := ListDocuments(reg, email);
    RemoveAtFacts(docs, IndexOfId(docs, documentId));
  }

  /** A document registered under a fresh id is what `getDocument` returns for that id. */
  lemma GetAfterRegister(reg: Registry, email: string, storedPath: string, originalFilename: string,
                         fileType: DocumentType, id: string, now: nat)
    requires !HasDocument(reg, email, id)
    ensures var reg' := RegisterDocument(reg, email, storedPath, originalFilename, fileType, id, now);
      GetDocument(reg'.registry, email, id) == Success(reg'.document)
  {
    var reg' := RegisterDocument(reg, email, storedPath, originalFilename, fileType, id, now);
    var docs := ListDocuments(reg, email);
    assert ListDocuments(reg'.registry, email)[|docs|] == reg'.document;
    assert IndexOfId(ListDocuments(reg'.registry, email), id) == |docs|;
  }

  /** Deleting a document just registered under a fresh id lists, for every
      email, exactly what was listed before the registration. */
  lemma DeleteUndoesRegister(reg: Registry, email: string, storedPath: string, originalFilename: string,
                             fileType: DocumentType, id: string, now: nat)
    requires !HasDocument(reg, email, id)
    ensures var reg' := RegisterDocument(reg, email, storedPath, originalFilename, fileType, id, now).registry;
      var r := DeleteDocument(reg', email, id, true);
      && r.Success?
      && forall e :: ListDocuments(r.value, e) == ListDocuments(reg, e)
  {
    var reg' := RegisterDocument(reg, email, storedPath, originalFilename, fileType, id, now).registry;
    DeleteOfRegistered(reg, email, storedPath, originalFilename, fileType, id, now);
    var r := DeleteDocument(reg', email, id, true);
    forall e
      ensures ListDocuments(r.value, e) == ListDocuments(reg, e)
    {
      if Lower(e) == Lower(email) {
        assert ListDocuments(r.value, e) == ListDocuments(r.value, email);
        assert ListDocuments(reg, e) == ListDocuments(reg, email);
      }
    }
  }

  /** The delete takes the registered document off the end of the list again. */
  lemma DeleteOfRegistered(reg: Registry, email: string, storedPath: string, originalFilename: string,
                           fileType: DocumentType, id: string, now: nat)
    requires !HasDocument(reg, email, id)
    ensures var reg' := RegisterDocument(reg, email, storedPath, originalFilename, fileType, id, now).registry;
      var r := DeleteDocument(reg', email, id, true);
      r.Success? && ListDocuments(r.value, email) == ListDocuments(reg, email)
  {
    var reg' := RegisterDocument(reg, email, storedPath, originalFilename, fileType, id, now).registry;
    var docs := ListDocuments(reg, email);
    var d := RegisterDocument(reg, email, storedPath, originalFilename, fileType, id, now).document;
    var docs' := ListDocuments(reg', email);
    assert docs' == docs + [d];
    IndexOfIdAtEnd(docs, d);
    DeleteAt(reg', email, id, |docs|);
    assert docs'[..|docs|] + docs'[|docs| + 1..] == docs;
  }

  /** A successful delete files, under the email, the list without the found position. */
  lemma DeleteAt(reg: Registry, email: string, documentId: string, k: nat)
    requires k < |ListDocuments(reg, email)| && IndexOfId(ListDocuments(reg, email), documentId) == k
    ensures var docs := ListDocuments(reg, email);
      var r := DeleteDocument(reg, email, documentId, true);
      r.Success? && ListDocuments(r.value, email) == docs[..k] + docs[k + 1..]
  {
  }

  /** An id that only the appended document carries is found at the end. */
  lemma IndexOfIdAtEnd(docs: seq<EmployeeDocument>, d: EmployeeDocument)
    requires forall j :: 0 <= j < |docs| ==> docs[j].id != d.id
    ensures IndexOfId(docs + [d], d.id) == |docs|
  {
    var s := docs + [d];
    assert s[|docs|] == d;
    assert forall j :: 0 <= j < |docs| ==> s[j] == docs[j];
  }
}
