/** Request assembly and response handling of the generation service
    (services/geminiService.ts). The remote call itself is a parameter: a
    function from the request to what the service answers or throws. */
module Gemini {
  import opened Wrappers
  import opened Text
  import opened Types

  /** A file as read by the application: its data URL (or bare base64) and
      its resolved MIME type. */
  datatype FileInput = FileInput(data: string, mimeType: string)

  /** One part of the request's content: inline file data, or text. */
  datatype Part = InlineData(mimeType: string, data: string) | TextPart(text: string)

  /** The system instruction is a fixed prompt whose wording is opaque here. */
  datatype SystemPrompt = ScenarioSystemInstruction

  datatype Config = Config(systemInstruction: SystemPrompt, temperature: real)

  datatype Request = Request(parts: seq<Part>, config: Config)

  /** What the service call yields: a response whose `text` may be missing,
      or a thrown error. */
  datatype Reply = Answered(text: Option<string>) | Threw(failure: Failure)

  const TrailingInstruction: string :=
    "Generate a comprehensive set of application-based scenario questions and answers based on these documents. The data given is crucial and any crucial data loss in making scenarios is fatal. You must adhere strictly to the formatting rules in the system instruction (Headers, Blockquotes for context, Horizontal Rules)."

  const Temperature: real := 0.7

  const NoContentMessage: string := "No content generated."

  // ---- stripping the data-URL header: `replace(/^data:(.*,)?/, '')` ----

  /** Index of the first line terminator of `s`, or `|s|`: how far `.`
      can reach from the start. */
  function LineLength(s: string): (n: nat)
    ensures n <= |s|
    ensures forall i :: 0 <= i < n ==> !IsLineTerminator(s[i])
    ensures n < |s| ==> IsLineTerminator(s[n])
  {
    if s == [] || IsLineTerminator(s[0]) then 0 else 1 + LineLength(s[1..])
  }

  /** Index of the last comma of `s`, if it has one. */
  function LastComma(s: string): (k: Option<nat>)
    ensures k.Some? ==> k.value < |s| && s[k.value] == ','
                        && forall j :: k.value < j < |s| ==> s[j] != ','
    ensures k.None? ==> forall j :: 0 <= j < |s| ==> s[j] != ','
  {
    if s == [] then None
    else if s[|s| - 1] == ',' then Some(|s| - 1)
    else LastComma(s[..|s| - 1])
  }

  /** Removes a leading `data:` and, when the first line has a comma after
      it, everything up to and including the last such comma (the greedy
      `.*` inside the optional group). Input without the prefix is returned
      as it is. */
  function StripDataHeader(s: string): (r: string)
    ensures |r| <= |s| && r == s[|s| - |r|..]
    ensures !StartsWith(s, "data:") ==> r == s
  {
    if !StartsWith(s, "data:") then s
    else
      var rest := s[5..];
      match LastComma(rest[..LineLength(rest)])
      case Some(k) => rest[k + 1..]
      case None => rest
  }

  /** Data that does not start with `data:` passes unchanged; data that does
      loses at least that prefix. */
  lemma StripWithoutPrefix(s: string)
    ensures !StartsWith(s, "data:") ==> StripDataHeader(s) == s
    ensures StartsWith(s, "data:") ==> |StripDataHeader(s)| <= |s| - 5
  {
  }

  /** For `data:` + a header without line terminators + `,` + a body without
      commas, exactly the body remains, whatever commas the header holds. */
  lemma StripHeaderBody(h: string, b: string)
    requires forall i :: 0 <= i < |h| ==> !IsLineTerminator(h[i])
    requires forall i :: 0 <= i < |b| ==> b[i] != ','
    ensures StripDataHeader("data:" + h + "," + b) == b
  {
    var s := "data:" + h + "," + b;
    assert StartsWith(s, "data:");
    var rest := s[5..];
    assert rest == h + "," + b;
    var n := LineLength(rest);
    assert n > |h| by {
      assert forall i :: 0 <= i <= |h| ==> !IsLineTerminator(rest[i]);
    }
    var line := rest[..n];
    assert line[|h|] == ',';
    var k := LastComma(line);
    assert k == Some(|h|) by {
      assert forall j :: |h| < j < n ==> line[j] == b[j - |h| - 1];
    }
    assert rest[|h| + 1..] == b;
  }

  predicate IsBase64Char(c: char) {
    ('A' <= c <= 'Z') || ('a' <= c <= 'z') || ('0' <= c <= '9') || c == '+' || c == '/' || c == '='
  }

  /** What a file reader produces: `data:<type>;base64,<payload>`. */
  function DataUrl(mimeType: string, payload: string): string {
    "data:" + mimeType + ";base64," + payload
  }

  /** The round trip of a read file: stripping the header of a data URL whose
      type has no line terminator gives back its base64 payload, which itself
      no longer starts with `data:`. */
  lemma StripDataUrl(mimeType: string, payload: string)
    requires forall i :: 0 <= i < |mimeType| ==> !IsLineTerminator(mimeType[i])
    requires forall i :: 0 <= i < |payload| ==> IsBase64Char(payload[i])
    ensures StripDataHeader(DataUrl(mimeType, payload)) == payload
    ensures !StartsWith(payload, "data:")
  {
    var h := mimeType + ";base64";
    assert DataUrl(mimeType, payload) == "data:" + h + "," + payload;
    StripHeaderBody(h, payload);
    assert |payload| >= 5 ==> IsBase64Char(payload[4]) && payload[..5][4] == payload[4];
    assert "data:"[4] == ':' && !IsBase64Char(':');
  }

  /** A data string can still start with `data:` after stripping: the regex
      removes one header only. */
  lemma StripLeavesSecondHeader()
    ensures StripDataHeader("data:,data:x") == "data:x"
  {
    assert "data:,data:x" == "data:" + "" + "," + "data:x";
    StripHeaderBody("", "data:x");
  }

  // ---- request assembly ----

  function FilePart(f: FileInput): Part {
    InlineData(f.mimeType, StripDataHeader(f.data))
  }

  /** One inline part per file, in order. */
  function FileParts(files: seq<FileInput>): (parts: seq<Part>)
    ensures |parts| == |files|
    ensures forall i :: 0 <= i < |parts| ==> parts[i].InlineData?
  {
    if files == [] then [] else [FilePart(files[0])] + FileParts(files[1..])
  }

  /** The request sent for `files`: the file parts, then the fixed trailing
      instruction; the fixed system instruction at temperature 0.7. */
  function BuildRequest(files: seq<FileInput>): (req: Request)
    ensures |req.parts| == |files| + 1
    ensures req.parts[|files|] == TextPart(TrailingInstruction)
    ensures forall i :: 0 <= i < |files| ==> req.parts[i].InlineData?
  {
    Request(FileParts(files) + [TextPart(TrailingInstruction)],
            Config(ScenarioSystemInstruction, Temperature))
  }

  lemma {:induction false} FilePartsAt(files: seq<FileInput>)
    ensures |FileParts(files)| == |files|
    ensures forall i :: 0 <= i < |files| ==>
              FileParts(files)[i] == InlineData(files[i].mimeType, StripDataHeader(files[i].data))
    decreases |files|
  {
    if files != [] {
      FilePartsAt(files[1..]);
      forall i | 0 <= i < |files|
        ensures FileParts(files)[i] == InlineData(files[i].mimeType, StripDataHeader(files[i].data))
      {
        if i > 0 { assert FileParts(files)[i] == FileParts(files[1..])[i - 1]; }
      }
    }
  }

  /** The request has one part more than there are files: part `i` carries
      file `i`'s MIME type and stripped data, the last part is the trailing
      instruction, and the configuration never varies. */
  lemma RequestLayout(files: seq<FileInput>)
    ensures var req := BuildRequest(files);
            && |req.parts| == |files| + 1
            && (forall i :: 0 <= i < |files| ==>
                  req.parts[i] == InlineData(files[i].mimeType, StripDataHeader(files[i].data)))
            && req.parts[|files|] == TextPart(TrailingInstruction)
            && req.config == Config(ScenarioSystemInstruction, 0.7)
  {
    FilePartsAt(files);
  }

  /** The files carried by the inline parts of a request, in order. */
  function InlineFiles(parts: seq<Part>): seq<FileInput> {
    if parts == [] then []
    else match parts[0]
      case InlineData(m, d) => [FileInput(d, m)] + InlineFiles(parts[1..])
      case TextPart(_) => InlineFiles(parts[1..])
  }

  /** Each file with its data header stripped. */
  function Cleaned(files: seq<FileInput>): seq<FileInput> {
    if files == [] then [] else [FileInput(StripDataHeader(files[0].data), files[0].mimeType)] + Cleaned(files[1..])
  }

  lemma {:induction false} InlineFilesOfFileParts(files: seq<FileInput>, tail: seq<Part>)
    ensures InlineFiles(FileParts(files) + tail) == Cleaned(files) + InlineFiles(tail)
    decreases |files|
  {
    if files != [] {
      var rest := FileParts(files[1..]) + tail;
      var all := FileParts(files) + tail;
      assert all == [FilePart(files[0])] + rest;
      assert all[0] == InlineData(files[0].mimeType, StripDataHeader(files[0].data));
      assert all[1..] == rest;
      InlineFilesOfFileParts(files[1..], tail);
      var head := FileInput(StripDataHeader(files[0].data), files[0].mimeType);
      assert InlineFiles(all) == [head] + InlineFiles(rest);
      assert Cleaned(files) == [head] + Cleaned(files[1..]);
      assert [head] + (Cleaned(files[1..]) + InlineFiles(tail)) == ([head] + Cleaned(files[1..])) + InlineFiles(tail);
    } else {
      assert FileParts(files) + tail == tail;
    }
  }

  /** Reading the files back out of a request gives them with their headers
      stripped; files without a `data:` header come back exactly. */
  lemma {:induction false} RequestRecoversFiles(files: seq<FileInput>)
    ensures InlineFiles(BuildRequest(files).parts) == Cleaned(files)
    ensures (forall i :: 0 <= i < |files| ==> !StartsWith(files[i].data, "data:")) ==>
              InlineFiles(BuildRequest(files).parts) == files
  {
    InlineFilesOfFileParts(files, [TextPart(TrailingInstruction)]);
    assert InlineFiles([TextPart(TrailingInstruction)]) == [];
    if forall i :: 0 <= i < |files| ==> !StartsWith(files[i].data, "data:") {
      CleanedUnheaded(files);
    }
  }

  lemma {:induction false} CleanedUnheaded(files: seq<FileInput>)
    requires forall i :: 0 <= i < |files| ==> !StartsWith(files[i].data, "data:")
    ensures Cleaned(files) == files
    decreases |files|
  {
    if files != [] {
      assert !StartsWith(files[0].data, "data:");
      CleanedUnheaded(files[1..]);
    }
  }

  // ---- response handling ----

  /** What `generateScenariosFromNotes` resolves or rejects with, given the
      service's answer to the built request. */
  function GenerateScenariosFromNotes(files: seq<FileInput>, service: Request -> Reply): (r: Result<string, Failure>)
    ensures r.Ok? ==> r.value != ""
    ensures service(BuildRequest(files)).Threw? ==> r == Err(service(BuildRequest(files)).failure)
  {
    match service(BuildRequest(files))
    case Threw(e) => Err(e)
    case Answered(text) =>
      if text.None? || text.value == "" then Err(Failure(NoContentMessage)) else Ok(text.value)
  }

  /** Success is exactly a non-empty response text, returned unchanged. */
  lemma GenerateOkIff(files: seq<FileInput>, service: Request -> Reply, t: string)
    ensures GenerateScenariosFromNotes(files, service) == Ok(t) <==>
            service(BuildRequest(files)) == Answered(Some(t)) && t != ""
  {
  }

  /** A missing or empty text is the "No content generated." error. */
  lemma EmptyResponseFails(files: seq<FileInput>, service: Request -> Reply)
    requires service(BuildRequest(files)) in {Answered(None), Answered(Some(""))}
    ensures GenerateScenariosFromNotes(files, service) == Err(Failure("No content generated."))
  {
  }

  /** An error thrown by the service is rethrown as it is. */
  lemma ServiceErrorPropagates(files: seq<FileInput>, service: Request -> Reply, e: Failure)
    requires service(BuildRequest(files)) == Threw(e)
    ensures GenerateScenariosFromNotes(files, service) == Err(e)
  {
  }
}
