/** `handleFileUpload` (App.js lines 64-106): the checks an upload must pass
    before `calculateStats` runs on the parsed rows. The parser is not part
    of this model: its result is an input. */
module Upload {
  import opened Lists
  import opened Cells
  import opened Text
  import opened Analyzer

  /** 10 MiB: `10 * 1024 * 1024`. */
  const MaxFileSize: nat := 10 * 1024 * 1024

  datatype FileInfo = FileInfo(name: string, size: nat)

  /** What the parser's `complete` or `error` callback receives: the rows
      and the header fields, or the error's message. */
  datatype ParseResult =
    | Parsed(data: seq<Row>, fields: seq<string>)
    | ParseError(message: string)

  datatype UploadError = NotCsv | TooLarge | ParseFailed(message: string) | EmptyCsv

  datatype Outcome =
    | NoFile
    | Rejected(error: UploadError)
    | Analyzed(data: seq<Row>, headers: seq<string>, statistics: map<string, ColumnStats>)

  /** The text `setError` receives for each rejection. */
  function ErrorMessage(e: UploadError): string {
    match e
    case NotCsv => "Please upload a valid CSV file"
    case TooLarge => "File is too large. Maximun size is 10MB"
    case ParseFailed(message) => "Error processing CSV: " + message
    case EmptyCsv => "CSV file is empty"
  }

  /** `String.prototype.endsWith`, case-sensitive. */
  predicate EndsWith(s: string, suffix: string) {
    |suffix| <= |s| && s[|s| - |suffix|..] == suffix
  }

  /** The checks on the chosen file (lines 69-77), in the order the source
      makes them: the extension first, then the size. */
  function CheckFile(file: FileInfo): (r: Option<UploadError>)
    ensures r == None <==> EndsWith(file.name, ".csv") && file.size <= MaxFileSize
    ensures r == Some(NotCsv) <==> !EndsWith(file.name, ".csv")
    ensures r == Some(TooLarge) <==> EndsWith(file.name, ".csv") && file.size > MaxFileSize
  {
    if !EndsWith(file.name, ".csv") then Some(NotCsv)
    else if file.size > MaxFileSize then Some(TooLarge)
    else None
  }

  /** Upload handling: no file leaves everything as it was; a file that
      fails a check, a parser error and an empty parse are rejected; only a
      `.csv` file of at most 10 MiB that parses to at least one row is
      analysed, and then with the statistics of every header. */
  method HandleFileUpload(file: Option<FileInfo>, parse: ParseResult) returns (outcome: Outcome)
    ensures outcome == NoFile <==> file == None
    ensures outcome == Rejected(NotCsv) <==> file.Some? && !EndsWith(file.value.name, ".csv")
    ensures outcome == Rejected(TooLarge) <==>
      file.Some? && EndsWith(file.value.name, ".csv") && file.value.size > MaxFileSize
    ensures outcome == Rejected(EmptyCsv) <==>
      file.Some? && CheckFile(file.value) == None && parse.Parsed? && parse.data == []
    ensures outcome.Rejected? && outcome.error.ParseFailed? <==>
      file.Some? && CheckFile(file.value) == None && parse.ParseError?
    ensures outcome.Rejected? && outcome.error.ParseFailed? ==> outcome.error.message == parse.message
    ensures outcome.Analyzed? <==>
      file.Some? && CheckFile(file.value) == None && parse.Parsed? && parse.data != []
    ensures outcome.Analyzed? ==>
      && outcome.data == parse.data && outcome.headers == parse.fields
      && outcome.statistics.Keys == Elements(parse.fields)
      && forall h :: h in outcome.statistics ==>
           outcome.statistics[h] == Summarize(Collect(parse.data, h))
  {
    if file == None {
      return NoFile;
    }
    var check := CheckFile(file.value);
    if check.Some? {
      return Rejected(check.value);
    }
    match parse
    case ParseError(message) =>
      outcome := Rejected(ParseFailed(message));
    case Parsed(data, fields) =>
      if |data| == 0 {
        outcome := Rejected(EmptyCsv);
      } else {
        var statistics := CalculateStats(data, fields);
        outcome := Analyzed(data, fields, statistics);
      }
  }
}
