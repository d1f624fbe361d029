/** The state of the schedule-parser component and its three transitions:
    choosing a file, starting a parse, and the parse ending in a schedule
    or an error message. The network, the file read and `JSON.parse` are
    not modelled; what they produce arrives as an `Outcome` and a parser
    function. */
module ScheduleParser {
  import opened Wrappers
  import opened ResponseUnwrap

  /** One row of the extracted schedule, as the completion's JSON gives it. */
  datatype ShiftEntry = ShiftEntry(
    date: string,
    weekday: string,
    startTime: string,
    endTime: string,
    duration: Option<string>,
    notes: Option<string>)

  /** The object `JSON.parse` returns. */
  datatype ParsedSchedule = ParsedSchedule(employeeName: Option<string>, shifts: seq<ShiftEntry>)

  /** The selected file: its name and its media type. */
  datatype File = File(name: string, mediaType: string)

  /** How the asynchronous part of a parse ended, before any JSON is parsed. */
  datatype Outcome =
    | ReadFailed                       // the file reader failed; it rejects with an event, not an Error
    | Threw(message: string)           // a step threw an Error: the request failed or timed out, or the body was not JSON
    | HttpNotOk(statusText: string)    // the service answered with a status that is not ok
    | Responded(content: Option<string>) // `choices[0].message.content`, None when absent

  /** What `JSON.parse` does with the unwrapped text. */
  datatype JsonParse = Parsed(value: ParsedSchedule) | SyntaxError(message: string)

  const PdfMediaType := "application/pdf"
  const InvalidFileMessage := "Please select a valid PDF file"
  const NoResponseMessage := "No response from AI"
  const HttpFailurePrefix := "Failed to parse PDF: "
  /** Shown when the value thrown is not an Error. */
  const FallbackMessage := "Failed to parse PDF. Please try again."

  /** JavaScript truthiness of the completion content. */
  predicate HasContent(content: Option<string>)
  {
    content.Some? && content.value != ""
  }

  /** The try/catch of a parse: the schedule it yields, or the message of
      what it threw. */
  function Settle(outcome: Outcome, parse: string -> JsonParse): (r: Result<ParsedSchedule, string>)
    ensures r.Ok? <==>
      outcome.Responded? && HasContent(outcome.content) && parse(Unwrap(outcome.content.value)).Parsed?
    ensures r.Ok? ==> parse(Unwrap(outcome.content.value)) == Parsed(r.value)
    ensures outcome == ReadFailed ==> r == Err(FallbackMessage)
    ensures outcome.Threw? ==> r == Err(outcome.message)
    ensures outcome.HttpNotOk? ==> r == Err(HttpFailurePrefix + outcome.statusText)
    ensures outcome.Responded? && !HasContent(outcome.content) ==> r == Err(NoResponseMessage)
    ensures outcome.Responded? && HasContent(outcome.content) && parse(Unwrap(outcome.content.value)).SyntaxError? ==>
              r == Err(parse(Unwrap(outcome.content.value)).message)
  {
    match outcome
    case ReadFailed => Err(FallbackMessage)
    case Threw(message) => Err(message)
    case HttpNotOk(statusText) => Err(HttpFailurePrefix + statusText)
    case Responded(content) =>
      if !HasContent(content) then Err(NoResponseMessage)
      else
        match parse(Unwrap(content.value))
        case Parsed(v) => Ok(v)
        case SyntaxError(message) => Err(message)
  }

  /** The component's four state slots. */
  class ShiftScheduleParser {
    var file: Option<File>
    var loading: bool
    var schedule: Option<ParsedSchedule>
    var error: Option<string>

    /** While a parse is in flight there is no schedule. */
    ghost predicate Valid()
      reads this
    {
      loading ==> schedule.None?
    }

    /** The parse button is enabled. */
    predicate ButtonEnabled()
      reads this
    {
      file.Some? && !loading
    }

    /** The schedule card is shown: a schedule with at least one shift. */
    predicate ScheduleVisible()
      reads this
    {
      schedule.Some? && |schedule.value.shifts| > 0
    }

    constructor ()
      ensures Valid()
      ensures file == None && !loading && schedule == None && error == None
      ensures !ButtonEnabled() && !ScheduleVisible()
    {
      file := None;
      loading := false;
      schedule := None;
      error := None;
    }

    /** The file input changed; `selected` is its first file, if any. */
    method SelectFile(selected: Option<File>)
      requires Valid()
      modifies this
      ensures Valid()
      ensures var accepted := selected.Some? && selected.value.mediaType == PdfMediaType;
        (accepted ==> file == selected && error == None) &&
        (!accepted ==> file == None && error == Some(InvalidFileMessage)) &&
        (ButtonEnabled() <==> accepted && !loading)
      ensures loading == old(loading) && schedule == old(schedule)
    {
      if selected.Some? && selected.value.mediaType == PdfMediaType {
        file := selected;
        error := None;
      } else {
        error := Some(InvalidFileMessage);
        file := None;
      }
    }

    /** The start of a parse: without a file nothing happens; otherwise the
        old result and error are cleared and loading begins. */
    method StartParse()
      requires Valid()
      modifies this
      ensures Valid()
      ensures old(file).None? ==>
        loading == old(loading) && schedule == old(schedule) && error == old(error)
      ensures old(file).Some? ==> loading && error == None && schedule == None
      ensures file == old(file)
      ensures old(file).Some? ==> !ButtonEnabled() && !ScheduleVisible()
    {
      if file.None? {
        return;
      }
      loading := true;
      error := None;
      schedule := None;
    }

    /** The end of a parse that was started: the schedule on success, the
        thrown message otherwise; loading ends either way. */
    method FinishParse(outcome: Outcome, parse: string -> JsonParse)
      requires Valid() && loading
      modifies this
      ensures Valid()
      ensures !loading && file == old(file)
      ensures match Settle(outcome, parse)
        case Ok(v) => schedule == Some(v) && error == old(error)
        case Err(m) => schedule == None && error == Some(m)
      ensures ButtonEnabled() <==> file.Some?
      ensures ScheduleVisible() <==> Settle(outcome, parse).Ok? && |Settle(outcome, parse).value.shifts| > 0
    {
      match Settle(outcome, parse) {
        case Ok(v) => schedule := Some(v);
        case Err(m) => error := Some(m);
      }
      loading := false;
    }

    /** A whole parse with no other event in between: the start, then the end. */
    method ParseSchedule(outcome: Outcome, parse: string -> JsonParse)
      requires Valid()
      modifies this
      ensures Valid()
      ensures file == old(file)
      ensures old(file).None? ==>
        loading == old(loading) && schedule == old(schedule) && error == old(error)
      ensures old(file).Some? ==> !loading && ButtonEnabled()
      ensures old(file).Some? ==>
        (match Settle(outcome, parse)
         case Ok(v) => schedule == Some(v) && error == None
         case Err(m) => schedule == None && error == Some(m))
    {
      StartParse();
      if file.Some? {
        FinishParse(outcome, parse);
      }
    }
  }

  /** After a successful parse, choosing a file that is not a PDF shows the
      error while the old schedule stays on screen: the file handler never
      clears the schedule. */
  method RejectedFileKeepsSchedule(entry: ShiftEntry, pdf: File, other: File)
    returns (p: ShiftScheduleParser)
    requires pdf.mediaType == PdfMediaType && other.mediaType != PdfMediaType
    ensures p.ScheduleVisible() && p.error == Some(InvalidFileMessage) && p.file == None
  {
    var schedule := ParsedSchedule(None, [entry]);
    p := new ShiftScheduleParser();
    p.SelectFile(Some(pdf));
    p.ParseSchedule(Responded(Some("{}")), _ => Parsed(schedule));
    assert Settle(Responded(Some("{}")), _ => Parsed(schedule)) == Ok(schedule);
    p.SelectFile(Some(other));
  }

  /** The file input stays usable while a parse is in flight. Choosing a
      file that is not a PDF then, and the parse succeeding afterwards,
      leaves the schedule shown together with the error, and the button
      disabled. */
  method RejectionDuringParseKeepsError(entry: ShiftEntry, pdf: File, other: File)
    returns (p: ShiftScheduleParser)
    requires pdf.mediaType == PdfMediaType && other.mediaType != PdfMediaType
    ensures p.ScheduleVisible() && p.error == Some(InvalidFileMessage) && !p.ButtonEnabled()
  {
    var schedule := ParsedSchedule(None, [entry]);
    p := new ShiftScheduleParser();
    p.SelectFile(Some(pdf));
    p.StartParse();
    p.SelectFile(Some(other));
    assert Settle(Responded(Some("{}")), _ => Parsed(schedule)) == Ok(schedule);
    p.FinishParse(Responded(Some("{}")), _ => Parsed(schedule));
  }
}
