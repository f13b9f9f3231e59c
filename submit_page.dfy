/**
 * The upload page's state machine (frontend/src/pages/Submit.jsx): the
 * validation state that a chosen file fills in, the extension and size
 * checks, the submit handler's gate and the submit button's `disabled`
 * predicate.  The spreadsheet reader, the sign-in service and the server
 * are inputs: the first sheet (or `None` when the workbook cannot be
 * read), whether a user is signed in, and what the server answers.
 */
module UploadPage {
  import opened Wrappers
  import opened JsText
  import opened UploadSchema
  import opened UploadRows

  /** `MAX_SIZE_MB * 1024 * 1024`, with `MAX_SIZE_MB` = 10. */
  const MaxSizeBytes: int := 10 * 1024 * 1024

  const BadExtensionMessage: string := "Please upload an Excel file (.xlsx or .xls)."
  const TooLargeMessage: string := "File too large. Max size is 10 MB."
  const UnreadableMessage: string := "Could not read the Excel file. Please re-download the template and try again."

  /** The chosen file: its name and its size in bytes. */
  datatype UploadFile = UploadFile(name: string, size: int)

  /**
   * The first sheet of the workbook as the reader delivers it: its name,
   * the text of its first row's cells (empty when the sheet has no rows)
   * and its data rows keyed by header text.
   */
  datatype Sheet = Sheet(name: string, headerCells: seq<string>, rows: seq<Row>)

  /** `headerInfo` */
  datatype HeaderInfo = HeaderInfo(headers: seq<string>, missing: seq<string>, extra: seq<string>, sheetName: string)

  /** Everything a chosen file determines: the validation part of the page state. */
  datatype Validation = Validation(
    headerInfo: HeaderInfo,
    previewRows: seq<Row>,
    rowIssues: seq<Issue>,
    dupeIds: seq<int>,
    localFileError: string)

  /** The validation state `resetValidation` restores, with a file error. */
  function Reset(localFileError: string): Validation {
    Validation(HeaderInfo([], [], [], ""), [], [], [], localFileError)
  }

  /** `(f.name.split(".").pop() || "").toLowerCase()` */
  function Extension(name: string): string {
    var pieces := Split(name, '.');
    JsLower(pieces[|pieces| - 1])
  }

  /** The extension is the lower-cased text after the last dot, or the whole name without a dot. */
  lemma ExtensionIsLastPiece(name: string)
    ensures forall base, e :: name == base + ['.'] + e && '.' !in e ==> Extension(name) == JsLower(e)
    ensures '.' !in name ==> Extension(name) == JsLower(name)
  {
    forall base, e | name == base + ['.'] + e && '.' !in e
      ensures Extension(name) == JsLower(e)
    {
      SplitLast(base, '.', e);
    }
  }

  /** The file checks, in order: the extension, then the size. */
  function FileError(f: UploadFile): (r: Option<string>)
    ensures r == None <==> Extension(f.name) in ["xlsx", "xls"] && f.size <= MaxSizeBytes
  {
    if Extension(f.name) !in ["xlsx", "xls"] then Some(BadExtensionMessage)
    else if f.size > MaxSizeBytes then Some(TooLargeMessage)
    else None
  }

  /** `jsonRows.map(...)` as a value. */
  function RemapAll(required: seq<string>, headers: seq<string>, rows: seq<Row>): (recs: seq<Row>)
    ensures |recs| == |rows|
  {
    seq(|rows|, k requires 0 <= k < |rows| => Remapped(required, headers, rows[k]))
  }

  /** What `parseAndValidateExcel` leaves in the validation state. */
  function Validate(f: UploadFile, sheet: Option<Sheet>): Validation {
    if FileError(f).Some? then Reset(FileError(f).value)
    else if sheet.None? then Reset(UnreadableMessage)
    else SheetValidation(sheet.value)
  }

  /** The validation state for a sheet that was read. */
  function SheetValidation(sh: Sheet): Validation {
    var headers := TrimAll(sh.headerCells);
    var incomingNorm := NormAll(headers);
    var recs := RemapAll(RequiredColumns, headers, sh.rows);
    Validation(
      HeaderInfo(headers, Missing(RequiredColumns, incomingNorm), Extra(RequiredColumns, headers), sh.name),
      Preview(recs), IssuesOf(ProblemLists(recs)), DupeIds(recs), "")
  }

  /** A file the checks refuse leaves the rest of the validation state reset, whatever the sheet. */
  lemma RefusedFileLeavesReset(f: UploadFile, sheet: Option<Sheet>)
    ensures Extension(f.name) !in ["xlsx", "xls"] ==> Validate(f, sheet) == Reset(BadExtensionMessage)
    ensures Extension(f.name) in ["xlsx", "xls"] && f.size > MaxSizeBytes
            ==> Validate(f, sheet) == Reset(TooLargeMessage)
    ensures FileError(f) == None && sheet == None ==> Validate(f, sheet) == Reset(UnreadableMessage)
    ensures Validate(f, sheet).localFileError != "" ==> Validate(f, sheet) == Reset(Validate(f, sheet).localFileError)
  {
  }

  /**
   * A readable, accepted file leaves the page unblocked exactly when every
   * template column has a header cell that normalises like it, every record
   * passes every check and no integer ID is carried twice.
   */
  lemma CleanValidation(f: UploadFile, sh: Sheet)
    requires FileError(f) == None
    ensures var recs := RemapAll(RequiredColumns, TrimAll(sh.headerCells), sh.rows);
            !Blocked(false, Validate(f, Some(sh)))
            <==> AllColumnsMatched(RequiredColumns, sh.headerCells)
                 && AllRecordsValid(recs)
                 && forall v :: !Repeated(IntegerIds(recs), v)
  {
    var headers := TrimAll(sh.headerCells);
    var recs := RemapAll(RequiredColumns, headers, sh.rows);
    RequiredColumnsDistinct();
    NoneMissingIff(RequiredColumns, headers);
    MatchedAfterTrim(RequiredColumns, sh.headerCells);
    NoIssuesIff(recs);
    NoDupesIff(recs);
  }

  /** The preview shows the first five remapped records, in order. */
  lemma PreviewIsFirstRecords(f: UploadFile, sh: Sheet)
    requires FileError(f) == None
    ensures var recs := RemapAll(RequiredColumns, TrimAll(sh.headerCells), sh.rows);
            var p := Validate(f, Some(sh)).previewRows;
            |p| == (if |sh.rows| < 5 then |sh.rows| else 5)
            && forall k :: 0 <= k < |p| ==> p[k] == Remapped(RequiredColumns, TrimAll(sh.headerCells), sh.rows[k])
  {
  }

  /** What stops a submission, in the order the handler tests it. */
  datatype SubmitError =
    | NotLoggedIn
    | LocalFileError(message: string)
    | NoFile
    | MissingColumns(columns: seq<string>)
    | RowIssues(count: nat)
    | DuplicateIds(shown: seq<int>, more: bool)
    | Rejected(message: string)
    | ServerUnreachable

  /** How the request went, when it is sent. */
  datatype ServerOutcome = Accepted | Refused(message: string) | Unreachable

  /** The checks of `handleSubmit` before the request: the first that holds is the error. */
  function Gate(loggedIn: bool, localFileError: string, file: Option<UploadFile>,
                missing: seq<string>, rowIssues: seq<Issue>, dupeIds: seq<int>): (r: Option<SubmitError>)
    ensures r == None <==> loggedIn && localFileError == "" && file.Some?
                           && missing == [] && rowIssues == [] && dupeIds == []
  {
    if !loggedIn then Some(NotLoggedIn)
    else if localFileError != "" then Some(LocalFileError(localFileError))
    else if file.None? then Some(NoFile)
    else if |missing| > 0 then Some(MissingColumns(missing))
    else if |rowIssues| > 0 then Some(RowIssues(|rowIssues|))
    else if |dupeIds| > 0 then Some(DuplicateIds(dupeIds[..if |dupeIds| < 5 then |dupeIds| else 5], |dupeIds| > 5))
    else None
  }

  /** The submit button's `disabled` condition, over the page state it reads. */
  predicate Blocked(loading: bool, v: Validation) {
    loading || v.localFileError != "" || |v.headerInfo.missing| > 0 || |v.rowIssues| > 0 || |v.dupeIds| > 0
  }

  /**
   * The button is disabled, when no request is running, exactly when the
   * handler would stop a signed-in user who has chosen a file.
   */
  lemma DisabledMatchesGate(v: Validation, f: UploadFile)
    ensures Blocked(false, v)
            <==> Gate(true, v.localFileError, Some(f), v.headerInfo.missing, v.rowIssues, v.dupeIds).Some?
  {
  }

  /** A refused file stops the submission with its own message once the user is signed in. */
  lemma RefusedFileStopsSubmit(f: UploadFile, sheet: Option<Sheet>, loggedIn: bool)
    requires FileError(f).Some?
    ensures var v := Validate(f, sheet);
            Gate(loggedIn, v.localFileError, Some(f), v.headerInfo.missing, v.rowIssues, v.dupeIds)
            == Some(if loggedIn then LocalFileError(FileError(f).value) else NotLoggedIn)
  {
    assert FileError(f).value != "";
  }

  /**
   * The second half of `parseAndValidateExcel`: trims the header row,
   * compares it with the required columns, remaps and checks every row.
   */
  method CheckSheet(sh: Sheet) returns (v: Validation)
    ensures v == SheetValidation(sh)
  {
    var headers := TrimAll(sh.headerCells);
    var incomingNorm := NormAll(headers);
    var missing := Missing(RequiredColumns, incomingNorm);
    var extra := Extra(RequiredColumns, headers);
    var remapped := RemapRows(RequiredColumns, headers, sh.rows);
    assert remapped == RemapAll(RequiredColumns, headers, sh.rows);
    var issues, dupes := ValidateRows(remapped);
    v := Validation(HeaderInfo(headers, missing, extra, sh.name), Preview(remapped), issues, Distinct(dupes), "");
  }

  /** The upload page. */
  class SubmitPage {
    var file: Option<UploadFile>
    var validation: Validation
    var error: Option<SubmitError>
    var loading: bool
    var success: bool

    /** The page as first rendered. */
    constructor ()
      ensures file == None && validation == Reset("") && error == None && !loading && !success
    {
      file := None;
      validation := Reset("");
      error := None;
      loading := false;
      success := false;
    }

    /** `disabled={...}` on the submit button. */
    predicate SubmitDisabled()
      reads this
    {
      Blocked(loading, validation)
    }

    /** `resetValidation`: clears the header, preview, issue, duplicate and file-error state. */
    method ResetValidation()
      modifies this
      ensures validation == Reset("")
      ensures file == old(file) && error == old(error) && loading == old(loading) && success == old(success)
    {
      validation := Reset("");
    }

    /** `parseAndValidateExcel(f)`: fills the validation state from the chosen file. */
    method ParseAndValidate(f: UploadFile, sheet: Option<Sheet>)
      modifies this
      ensures validation == Validate(f, sheet)
      ensures file == old(file) && error == old(error) && loading == old(loading) && success == old(success)
    {
      ResetValidation();
      var ext := Extension(f.name);
      assert (ext in ["xlsx", "xls"]) == (ext == "xlsx" || ext == "xls");
      if ext != "xlsx" && ext != "xls" {
        validation := validation.(localFileError := BadExtensionMessage);
        return;
      }
      if f.size > MaxSizeBytes {
        validation := validation.(localFileError := TooLargeMessage);
        return;
      }
      if sheet.None? {
        validation := validation.(localFileError := UnreadableMessage);
        return;
      }
      validation := CheckSheet(sheet.value);
    }

    /** `onFileChange`: records the chosen file and validates it, or resets when none is chosen. */
    method OnFileChange(f: Option<UploadFile>, sheet: Option<Sheet>)
      modifies this
      ensures file == f
      ensures validation == if f.Some? then Validate(f.value, sheet) else Reset("")
      ensures error == old(error) && loading == old(loading) && success == old(success)
    {
      file := f;
      if f.Some? {
        ParseAndValidate(f.value, sheet);
      } else {
        ResetValidation();
      }
    }

    /**
     * `handleSubmit`: runs the gate and, only when it passes, sends the
     * request; `sent` says whether it was sent.
     */
    method HandleSubmit(loggedIn: bool, outcome: ServerOutcome) returns (sent: bool)
      modifies this
      ensures var gate := old(Gate(loggedIn, validation.localFileError, file,
                                   validation.headerInfo.missing, validation.rowIssues, validation.dupeIds));
              && (sent <==> gate == None)
              && (!sent ==> error == gate && file == old(file) && validation == old(validation))
      ensures sent && outcome.Accepted? ==> error == None && success && file == None && validation == Reset("")
      ensures sent && outcome.Refused? ==>
                error == Some(Rejected(if outcome.message == "" then "Submission failed" else outcome.message))
                && !success && file == old(file) && validation == old(validation)
      ensures sent && outcome.Unreachable? ==>
                error == Some(ServerUnreachable) && !success && file == old(file) && validation == old(validation)
      ensures !sent ==> !success
      ensures !loading
    {
      loading := true;
      success := false;
      error := None;
      var gate := Gate(loggedIn, validation.localFileError, file,
                       validation.headerInfo.missing, validation.rowIssues, validation.dupeIds);
      if gate.Some? {
        error := gate;
        loading := false;
        return false;
      }
      sent := true;
      match outcome {
        case Accepted =>
          success := true;
          file := None;
          ResetValidation();
        case Refused(message) =>
          error := Some(Rejected(if message == "" then "Submission failed" else message));
        case Unreachable =>
          error := Some(ServerUnreachable);
      }
      loading := false;
    }
  }
}
