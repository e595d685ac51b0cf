/** The application shell (App.tsx): it resolves each file's MIME type, reads
    the batch, asks the service for scenarios, and moves between its
    lifecycle states; three cells hold the state, the document and the error. */
module Application {
  import opened Wrappers
  import opened Text
  import opened Types
  import Upload
  import Gemini

  /** The one message every failure of a submission shows. */
  const GenericErrorMessage: string :=
    "Failed to generate scenarios. Please try again or ensure your API key is valid."

  // ---- reading files ----

  /** The MIME type sent for a file: a `.md` name forces Markdown, otherwise a
      `.pdf` name forces PDF, otherwise the declared type, or plain text when
      none is declared. */
  function ResolveMimeType(name: string, declared: string): (r: string)
    ensures r != ""
  {
    if EndsWith(name, ".md") then "text/markdown"
    else if EndsWith(name, ".pdf") then "application/pdf"
    else if declared == "" then "text/plain"
    else declared
  }

  /** The extension wins over whatever type is declared, not only over a
      missing one; any other name keeps its declared type, or is plain text
      when none is declared, and a `.markdown` name is one of those. */
  lemma ExtensionOverridesDeclared(name: string, declared: string)
    ensures EndsWith(name, ".md") ==> ResolveMimeType(name, declared) == "text/markdown"
    ensures !EndsWith(name, ".md") && EndsWith(name, ".pdf") ==>
              ResolveMimeType(name, declared) == "application/pdf"
    ensures !EndsWith(name, ".md") && !EndsWith(name, ".pdf") ==>
              ResolveMimeType(name, declared) == (if declared == "" then "text/plain" else declared)
    ensures EndsWith(name, ".markdown") ==>
              ResolveMimeType(name, declared) == (if declared == "" then "text/plain" else declared)
  {
    if EndsWith(name, ".markdown") {
      MarkdownNameIsNeitherMdNorPdf(name);
    }
  }

  /** A name ending in `.markdown` ends neither in `.md` nor in `.pdf`. */
  lemma MarkdownNameIsNeitherMdNorPdf(name: string)
    requires EndsWith(name, ".markdown")
    ensures !EndsWith(name, ".md") && !EndsWith(name, ".pdf")
  {
    var n := |name|;
    assert name[n - 9..] == ".markdown";
    assert name[n - 3..] == name[n - 9..][6..];
    assert name[n - 4..] == name[n - 9..][5..];
  }

  /** Every file the upload check lets through, except a `.markdown` file with
      an unlisted declared type, is sent with one of the three listed types. */
  lemma {:induction false} AcceptedFileMime(f: File)
    requires Upload.TypeAccepted(f) && !EndsWith(f.name, ".markdown")
    ensures ResolveMimeType(f.name, f.mimeType) in Upload.ValidTypes
  {
  }

  /** Any `.markdown` file passes the upload type check, and one with a
      declared type is sent with exactly that type, listed or not. */
  lemma MarkdownNameKeepsDeclaredType(f: File)
    requires EndsWith(f.name, ".markdown") && f.mimeType != ""
    ensures Upload.TypeAccepted(f)
    ensures ResolveMimeType(f.name, f.mimeType) == f.mimeType
  {
    MarkdownNameIsNeitherMdNorPdf(f.name);
  }

  /** What the browser's file reader does with a file: a data URL, or an error. */
  datatype ReadResult = Loaded(dataUrl: string) | ReadFailed

  /** `readFileAsBase64`: the reader's data URL with the resolved MIME type,
      or the error naming the file. */
  function ReadFileAsBase64(f: File, reader: File -> ReadResult): (r: Result<Gemini.FileInput, Failure>)
    ensures r.Ok? <==> reader(f).Loaded?
    ensures r.Ok? ==> r.value.data == reader(f).dataUrl && r.value.mimeType != ""
    ensures r.Err? ==> r.error.message == "Failed to read file: " + f.name
  {
    match reader(f)
    case Loaded(d) => Ok(Gemini.FileInput(d, ResolveMimeType(f.name, f.mimeType)))
    case ReadFailed => Err(Failure("Failed to read file: " + f.name))
  }

  /** `Promise.all` over the reads, taken in order and stopping at the first failure. */
  function ReadAll(files: seq<File>, reader: File -> ReadResult): (r: Result<seq<Gemini.FileInput>, Failure>)
    ensures r.Ok? ==> |r.value| == |files|
  {
    if files == [] then Ok([])
    else match ReadFileAsBase64(files[0], reader)
      case Err(e) => Err(e)
      case Ok(input) =>
        match ReadAll(files[1..], reader)
        case Err(e) => Err(e)
        case Ok(inputs) => Ok([input] + inputs)
  }

  /** The batch reads successfully exactly when every file does, and then
      yields one input per file, in order, with the reader's data and the
      resolved MIME type. */
  lemma {:induction false} ReadAllIff(files: seq<File>, reader: File -> ReadResult)
    ensures ReadAll(files, reader).Ok? <==> forall i :: 0 <= i < |files| ==> reader(files[i]).Loaded?
    ensures ReadAll(files, reader).Ok? ==>
              var inputs := ReadAll(files, reader).value;
              |inputs| == |files| &&
              forall i :: 0 <= i < |files| ==>
                inputs[i] == Gemini.FileInput(reader(files[i]).dataUrl, ResolveMimeType(files[i].name, files[i].mimeType))
    decreases |files|
  {
    if files != [] {
      ReadAllIff(files[1..], reader);
      assert forall i :: 0 < i < |files| ==> files[i] == files[1..][i - 1];
    }
  }

  /** The whole asynchronous body of `handleFilesSelect` before its state
      updates: read all files, then generate. */
  function RunPipeline(files: seq<File>, reader: File -> ReadResult, service: Gemini.Request -> Gemini.Reply): (r: Result<string, Failure>)
    ensures r.Ok? ==> r.value != ""
  {
    match ReadAll(files, reader)
    case Err(e) => Err(e)
    case Ok(inputs) => Gemini.GenerateScenariosFromNotes(inputs, service)
  }

  /** When a read fails the service is never consulted: any two services give
      the same outcome. */
  lemma ReadFailureSkipsService(files: seq<File>, reader: File -> ReadResult,
                                s1: Gemini.Request -> Gemini.Reply, s2: Gemini.Request -> Gemini.Reply)
    requires exists i :: 0 <= i < |files| && reader(files[i]).ReadFailed?
    ensures RunPipeline(files, reader, s1) == RunPipeline(files, reader, s2)
    ensures RunPipeline(files, reader, s1).Err?
  {
    ReadAllIff(files, reader);
  }

  /** When every read succeeds the service sees exactly the request built from
      the read files, and a non-empty answer is the outcome, unchanged. */
  lemma {:induction false} PipelineSuccess(files: seq<File>, reader: File -> ReadResult,
                                           service: Gemini.Request -> Gemini.Reply, t: string)
    requires forall i :: 0 <= i < |files| ==> reader(files[i]).Loaded?
    ensures ReadAll(files, reader).Ok?
    ensures RunPipeline(files, reader, service) == Ok(t) <==>
            service(Gemini.BuildRequest(ReadAll(files, reader).value)) == Gemini.Answered(Some(t)) && t != ""
  {
    ReadAllIff(files, reader);
    Gemini.GenerateOkIff(ReadAll(files, reader).value, service, t);
  }

  // ---- the lifecycle ----

  /** The three state cells, as one value. */
  datatype Session = Session(appState: AppState, content: Option<GeneratedContent>, error: Option<string>)

  const Initial: Session := Session(Idle, None, None)

  /** The cells agree with the state: an error exactly in `Error`, and it is
      the generic message; a document exactly in `Success`; never `Uploading`. */
  ghost predicate Consistent(s: Session) {
    && s.appState != Uploading
    && s.error == (if s.appState == Error then Some(GenericErrorMessage) else None)
    && (s.content.Some? <==> s.appState == Success)
  }

  /** The start of `handleFilesSelect`: entering `Generating` clears the error, and nothing else. */
  function OnSubmit(s: Session): (t: Session)
    ensures t.appState == Generating && t.error == None && t.content == s.content
  {
    s.(appState := Generating, error := None)
  }

  /** The end of `handleFilesSelect`: a document moves to `Success`; any failure, whatever its
      message, moves to `Error` with the generic message. */
  function OnSettle(s: Session, outcome: Result<string, Failure>): (t: Session)
    ensures outcome.Ok? ==> t == s.(appState := Success, content := Some(GeneratedContent(outcome.value)))
    ensures outcome.Err? ==> t == s.(appState := Error, error := Some(GenericErrorMessage))
  {
    match outcome
    case Ok(markdown) => s.(content := Some(GeneratedContent(markdown)), appState := Success)
    case Err(_) => s.(error := Some(GenericErrorMessage), appState := Error)
  }

  /** `handleReset`: back to the start, from anywhere. */
  function OnReset(s: Session): (t: Session)
    ensures t == Initial
  {
    Session(Idle, None, None)
  }

  /** `isInteractive`: the states whose screen shows the header and ambient background. */
  predicate IsInteractive(state: AppState)
    ensures IsInteractive(state) <==> state != Success && state != Uploading
  {
    var listed := [Idle, Generating, Error];
    assert listed[0] == Idle && listed[1] == Generating && listed[2] == Error;
    assert state.Idle? || state.Uploading? || state.Generating? || state.Success? || state.Error?;
    state in listed
  }

  // ---- which view is on screen: the guards of the view switch ----

  predicate ShowsUpload(s: Session) { s.appState == Idle }
  predicate ShowsLoading(s: Session) { s.appState == Generating }
  predicate ShowsError(s: Session) { s.appState == Error }
  predicate ShowsResult(s: Session) { s.appState == Success && s.content.Some? }

  /** The user- and service-driven events. */
  datatype Event = Submitted | Settled(outcome: Result<string, Failure>) | ResetClicked

  /** An event can happen only through the view on screen: files are chosen
      in the upload view, a request settles while loading (one is in flight
      exactly then), reset is offered by the error view and the result view. */
  predicate Enabled(s: Session, e: Event)
    ensures Enabled(s, e) ==> s.appState != Uploading
  {
    match e
    case Submitted => ShowsUpload(s)
    case Settled(_) => ShowsLoading(s)
    case ResetClicked => ShowsError(s) || ShowsResult(s)
  }

  function Step(s: Session, e: Event): (t: Session)
    ensures t.appState != Uploading
    ensures e.Submitted? ==> t.appState == Generating
    ensures e.ResetClicked? ==> t == Initial
  {
    match e
    case Submitted => OnSubmit(s)
    case Settled(outcome) => OnSettle(s, outcome)
    case ResetClicked => OnReset(s)
  }

  predicate EnabledTrace(s: Session, events: seq<Event>)
    decreases |events|
  {
    events == [] || (Enabled(s, events[0]) && EnabledTrace(Step(s, events[0]), events[1..]))
  }

  function Replay(s: Session, events: seq<Event>): Session
    decreases |events|
  {
    if events == [] then s else Replay(Step(s, events[0]), events[1..])
  }

  /** One enabled event keeps the cells consistent. */
  lemma StepConsistent(s: Session, e: Event)
    requires Consistent(s) && Enabled(s, e)
    ensures Consistent(Step(s, e))
  {
  }

  /** Every run of enabled events from a consistent session, in particular
      from the initial one, stays consistent: so `Uploading` is never entered,
      an error is shown exactly in `Error` and a document exactly in `Success`. */
  lemma {:induction false} ReplayConsistent(s: Session, events: seq<Event>)
    requires Consistent(s) && EnabledTrace(s, events)
    ensures Consistent(Replay(s, events))
    decreases |events|
  {
    if events != [] {
      StepConsistent(s, events[0]);
      ReplayConsistent(Step(s, events[0]), events[1..]);
    }
  }

  /** In a consistent session exactly one of the four views is on screen. */
  lemma ExactlyOneView(s: Session)
    requires Consistent(s)
    ensures ShowsUpload(s) || ShowsLoading(s) || ShowsError(s) || ShowsResult(s)
    ensures !(ShowsUpload(s) && ShowsLoading(s)) && !(ShowsUpload(s) && ShowsError(s))
    ensures !(ShowsUpload(s) && ShowsResult(s)) && !(ShowsLoading(s) && ShowsError(s))
    ensures !(ShowsLoading(s) && ShowsResult(s)) && !(ShowsError(s) && ShowsResult(s))
  {
  }

  /** Only reset returns to `Idle` from another state; `Generating` is left
      only for `Success` or `Error`; and only a submission enters `Generating`. */
  lemma TransitionTable(s: Session, e: Event)
    requires Consistent(s) && Enabled(s, e)
    ensures s.appState != Idle && Step(s, e).appState == Idle ==> e == ResetClicked
    ensures s.appState == Generating ==> Step(s, e).appState in {Success, Error}
    ensures s.appState != Generating && Step(s, e).appState == Generating ==> e == Submitted
  {
  }

  /** Read errors and generation errors look the same to the user. */
  lemma FailuresLookAlike(s: Session, e1: Failure, e2: Failure)
    ensures OnSettle(s, Err(e1)) == OnSettle(s, Err(e2))
  {
  }

  /** The component's state cells. */
  class App {
    var appState: AppState
    var content: Option<GeneratedContent>
    var error: Option<string>

    function Snapshot(): Session
      reads this
    {
      Session(appState, content, error)
    }

    constructor ()
      ensures Snapshot() == Initial
    {
      appState := Idle;
      content := None;
      error := None;
    }

    /** The synchronous start of `handleFilesSelect`, before anything is read. */
    method StartGeneration()
      modifies this
      ensures Snapshot() == OnSubmit(old(Snapshot()))
      ensures appState == Generating && error == None && content == old(content)
    {
      appState := Generating;
      error := None;
    }

    /** The end of `handleFilesSelect`, once the reads and the request settle. */
    method CompleteGeneration(outcome: Result<string, Failure>)
      modifies this
      ensures Snapshot() == OnSettle(old(Snapshot()), outcome)
    {
      match outcome
      case Ok(markdown) =>
        content := Some(GeneratedContent(markdown));
        appState := Success;
      case Err(_) =>
        error := Some(GenericErrorMessage);
        appState := Error;
    }

    /** `handleFilesSelect` as a whole: started from the upload view, it ends
        in `Success` with the exact generated text or in `Error` with the
        generic message, and the cells stay consistent. */
    method HandleFilesSelect(files: seq<File>, reader: File -> ReadResult, service: Gemini.Request -> Gemini.Reply)
      modifies this
      ensures Snapshot() == OnSettle(OnSubmit(old(Snapshot())), RunPipeline(files, reader, service))
      ensures old(Consistent(Snapshot())) && old(appState) == Idle ==> Consistent(Snapshot())
    {
      StartGeneration();
      var outcome := RunPipeline(files, reader, service);
      CompleteGeneration(outcome);
    }

    /** `handleReset`: `Idle`, no document, no error. */
    method HandleReset()
      modifies this
      ensures Snapshot() == OnReset(old(Snapshot()))
      ensures appState == Idle && content == None && error == None
    {
      appState := Idle;
      content := None;
      error := None;
    }
  }
}
