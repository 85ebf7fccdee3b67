/** The report and exit status of the validator's entry point, `main`
    (authenticator/auther.py:98-132), with the file I/O and the printing
    left out. */
module Report {
  import opened Wrappers
  import opened Document
  import opened Validator
  import opened QrCode

  /** The report file's content: `es_valido`, `codigo_qr_limpio` and
      `errores`. */
  datatype Report = Report(isValid: bool, cleanedQr: Option<string>, errors: seq<string>)

  /** The report (authenticator/auther.py:106-110): the error lines are
      kept only for an invalid document. */
  function BuildReport(isValid: bool, errors: seq<string>, qr: Option<string>): (r: Report)
    ensures r.isValid == isValid && r.cleanedQr == qr
    ensures isValid ==> r.errors == []
    ensures !isValid ==> r.errors == errors
  {
    Report(isValid, qr, if isValid then [] else errors)
  }

  /** The process exit status (authenticator/auther.py:123-132): 0 for an
      approved document, 1 for a rejected one. */
  function ExitStatus(isValid: bool): (code: int)
    ensures code == 0 || code == 1
    ensures code == 0 <==> isValid
  {
    if isValid then 0 else 1
  }

  /** Validation, QR clean-up and report assembly for one loaded record:
      the report is valid exactly when the rules hold, lists the error lines
      exactly when it is not, and carries the cleaned code whatever the
      verdict. */
  method RunValidation(data: LoadedRecord, config: Config) returns (report: Report, exitCode: int)
    ensures report.isValid <==> IsValid(data, config)
    ensures report.errors == [] <==> report.isValid
    ensures !report.isValid ==>
      var k := |MissingHashes(data, config)|;
      && |report.errors| == k + |TextErrors(data, config)|
      && report.errors[k..] == Messages(TextErrors(data, config))
      && forall h :: h in MissingHashes(data, config) ==> Message(MissingImage(h)) in report.errors[..k]
    ensures report.cleanedQr == CleanQrCode(data.images)
    ensures exitCode == 0 <==> report.isValid
    ensures exitCode == 0 || exitCode == 1
  {
    var isValid, failures := Validate(data, config);
    var qr := CleanQrCode(data.images);
    var lines := Messages(failures);
    report := BuildReport(isValid, lines, qr);
    exitCode := ExitStatus(isValid);
    MessagesSplit(failures, |MissingHashes(data, config)|);
  }
}
