# AnecdoteLM client core, modelled in Dafny

AnecdoteLM is a browser client: the user uploads study notes (PDF, Markdown or
plain text), the client sends them to a hosted generative model together with
a fixed instruction, and shows the returned Markdown "scenario challenge"
document, which can be downloaded as a `.md` file or printed. This project
models the client's own logic:

- `Upload` (upload.dfy): the upload component's batch validator. It checks
  each file in order, type first and size second, and fails fast: either one
  error message is set and nothing is handed on, or the whole unchanged batch
  is handed to the `onFilesSelect` callback once. The class `FileUpload` holds
  the component's state cells. The callback is a log of the batches it
  received.
- `Application` (application.dfy): MIME type resolution for read files, the
  read-then-generate pipeline, and the lifecycle state machine. The
  `Session` value mirrors the three state cells `appState`, `content` and
  `error`. It comes with pure transitions, a consistency invariant kept by
  every run of events the screen allows, and the class `App` whose methods
  update the cells.
- `Gemini` (gemini.dfy): request assembly. It builds one inline part per file
  with the `data:` header stripped as the regular expression
  `/^data:(.*,)?/` does, then adds the fixed trailing text part and the fixed
  configuration. It also turns the service's answer into text or an error.
  The remote call is a function parameter.
- `Results` (results.dfy): export naming. The trimmed download name and the
  untrimmed title differ. The download payload and the print document are
  returned as values.
- `Loading` (loading.dfy): the loading-message cycler, a counter modulo the
  six loading messages.
- Support modules: `Wrappers` (Option, Result), `Text` (the JavaScript
  `startsWith`, `endsWith` and `trim`, with its exact white-space set),
  `Types` (types.ts plus the browser `File` and a thrown error) and
  `Constants` (the loading messages).

## Model

| member | source | states |
|---|---|---|
| `Text.TrimEnd` | components/ResultView.tsx:40 | the result is the longest prefix not ending in white space; everything dropped is white space |
| `Text.Trim` | components/ResultView.tsx:40 | the result is a slice of the input; only white space lies outside it and neither of its ends is white space |
| `Text.TrimEmptyIff` | components/ResultView.tsx:40 | trimming gives the empty string exactly when every character is white space |
| `Text.TrimUntrimmedIsIdentity` | components/ResultView.tsx:40 | a string with no white space at either end is unchanged by trimming |
| `Text.TrimIdempotent` | components/ResultView.tsx:40 | trimming twice is the same as trimming once |
| `Upload.Rejection` | components/FileUpload.tsx:35-45 | the per-file check of the loop body: no rejection exactly when both the type and the size check pass; a refused type, whatever the size, gets the invalid-type message; an accepted type over 20 MiB gets the too-large message naming that file |
| `Upload.FirstRejection` | components/FileUpload.tsx:34-48 | the message the fail-fast loop stops with: whenever there is one, it is the rejection of a file of the batch |
| `Upload.Validate` | components/FileUpload.tsx:29-50 | the outcome of a validation: no files exactly for the empty list; an accepted batch is the input itself; a rejection carries the message of a file of the batch |
| `Upload.RejectionNoneIff` | components/FileUpload.tsx:31-45 | a file passes exactly when its declared type is `application/pdf`, `text/markdown` or `text/plain`, or its name ends in `.md` or `.markdown`, and its size is at most 20·1024·1024 |
| `Upload.TypeCheckedBeforeSize` | components/FileUpload.tsx:37-45 | an oversized file of a refused type is reported as "Invalid file type" |
| `Upload.SizeBoundary` | components/FileUpload.tsx:42-43 | exactly 20971520 bytes passes; 20971521 bytes is rejected with the too-large message for that file's name |
| `Upload.TooLargeMessageNamesFile` | components/FileUpload.tsx:43 | the too-large message contains the file name, quoted, right after `File ` |
| `Upload.FirstRejectionIsFirstFailing` | components/FileUpload.tsx:34-48 | there is no rejection exactly when every file passes; otherwise the reported message belongs to a failing file and every file before it passes |
| `Upload.FirstRejectionSkip` | components/FileUpload.tsx:34-47 | files that pass, at the front of the batch, do not change which rejection is reported |
| `Upload.AcceptedIff` | components/FileUpload.tsx:29-50 | a batch is accepted exactly when it is non-empty and every file passes; what is accepted is the input batch itself, same files in the same order |
| `Upload.OneBadFileRejectsBatch` | components/FileUpload.tsx:34-50 | one failing file anywhere rejects the batch with the message of a failing file at or before it, all files before which pass, and nothing is handed on |
| `Upload.EmptySelection` | components/FileUpload.tsx:26-29 | an empty list leaves no error and hands nothing on |
| `Upload.ErrorXorDelivery` | components/FileUpload.tsx:26-50 | for a non-empty batch, an error is set exactly when nothing is handed on |
| `Upload.FileUpload.constructor` | components/FileUpload.tsx:10-11 | the component starts with no highlight, no error and no delivered batch |
| `Upload.FileUpload.ValidateAndProcessFiles` | components/FileUpload.tsx:25-51 | the error is cleared and then is exactly the first file's rejection, if any; the callback log grows by the whole batch when it is accepted and by nothing otherwise |
| `Upload.FileUpload.HandleDrop` | components/FileUpload.tsx:53-61 | a drop always clears the highlight; while disabled, or with no files, nothing else changes; otherwise the files are validated |
| `Upload.FileUpload.HandleInputChange` | components/FileUpload.tsx:63-67 | a non-empty selection is validated; a missing or empty one changes nothing |
| `Upload.FileUpload.HandleDragOver` | components/FileUpload.tsx:13-17 | dragging over the zone sets the highlight unless disabled |
| `Upload.FileUpload.HandleDragLeave` | components/FileUpload.tsx:19-23 | leaving the zone clears the highlight unless disabled |
| `Gemini.LineLength` | services/geminiService.ts:22 | how far `.` reaches: the first line terminator, or the end |
| `Gemini.LastComma` | services/geminiService.ts:22 | the position of the last comma, where the greedy `(.*,)` group stops; none when there is no comma |
| `Gemini.StripDataHeader` | services/geminiService.ts:22 | the `replace(/^data:(.*,)?/, '')` rule: the result is a suffix of the input, and input without the `data:` prefix is unchanged |
| `Gemini.StripWithoutPrefix` | services/geminiService.ts:22 | data not starting with `data:` passes unchanged; data starting with it loses at least those five characters |
| `Gemini.StripHeaderBody` | services/geminiService.ts:22 | `data:` + a single-line header + `,` + a body without commas strips to exactly the body, whatever commas the header holds |
| `Gemini.StripDataUrl` | services/geminiService.ts:22 | a reader's `data:<type>;base64,<payload>` strips back to its base64 payload, and the stripped data does not start with `data:` |
| `Gemini.StripLeavesSecondHeader` | services/geminiService.ts:22 | only one header is removed: `data:,data:x` strips to `data:x` |
| `Gemini.FileParts` | services/geminiService.ts:19-24 | the `files.map`: one part per file, each an inline-data part |
| `Gemini.BuildRequest` | services/geminiService.ts:19-39 | the request: one part more than there are files, inline parts first, the fixed trailing text last |
| `Gemini.FilePartsAt` | services/geminiService.ts:19-24 | one inline part per file, in input order, with the file's MIME type and its stripped data |
| `Gemini.RequestLayout` | services/geminiService.ts:19-39 | the request has one part more than there are files: the file parts first, then the fixed trailing text; the configuration is the fixed system instruction at temperature 0.7 |
| `Gemini.InlineFilesOfFileParts` | services/geminiService.ts:19-30 | reading the inline parts back gives the files with their headers stripped, in order, followed by whatever inline parts come after |
| `Gemini.RequestRecoversFiles` | services/geminiService.ts:19-34 | the files can be read back out of the request, headers stripped; files without a `data:` header come back exactly |
| `Gemini.CleanedUnheaded` | services/geminiService.ts:22 | stripping leaves a batch without `data:` headers unchanged |
| `Gemini.GenerateScenariosFromNotes` | services/geminiService.ts:9-51 | a successful call never yields empty text, and an error the service throws is the error the call fails with |
| `Gemini.GenerateOkIff` | services/geminiService.ts:42-46 | the call succeeds with text `t` exactly when the service answers the built request with a non-empty `t`, which is returned unchanged |
| `Gemini.EmptyResponseFails` | services/geminiService.ts:42-44 | a missing or empty response text fails with "No content generated." |
| `Gemini.ServiceErrorPropagates` | services/geminiService.ts:47-50 | an error thrown by the service is rethrown as it is |
| `Application.ResolveMimeType` | App.tsx:18-22 | the resolved MIME type is never empty |
| `Application.ExtensionOverridesDeclared` | App.tsx:18-22 | for every name and declared type: a name ending in `.md` gives `text/markdown`; otherwise a name ending in `.pdf` gives `application/pdf`; any name ending in neither gives the declared type, or `text/plain` when none is declared; in particular so does a name ending in `.markdown` |
| `Application.MarkdownNameIsNeitherMdNorPdf` | App.tsx:20-21 | a name ending in `.markdown` ends neither in `.md` nor in `.pdf`, so neither override applies to it |
| `Application.AcceptedFileMime` | App.tsx:18-22 | a file that passes the upload type check, unless its name ends in `.markdown`, is sent with one of the three listed types |
| `Application.MarkdownNameKeepsDeclaredType` | App.tsx:18-22 | every `.markdown` file passes the upload type check, and one with a non-empty declared type is sent with exactly that type, listed or not |
| `Application.ReadFileAsBase64` | App.tsx:14-32 | a read succeeds exactly when the reader loads the file, with the reader's data and a non-empty MIME type; a failure is `Failed to read file: ` and the file name |
| `Application.ReadAll` | App.tsx:39 | a successful batch read gives as many inputs as files |
| `Application.RunPipeline` | App.tsx:38-40 | a successful read-then-generate run never yields empty text |
| `Application.ReadAllIff` | App.tsx:14-39 | the batch reads successfully exactly when every file does, and then gives one input per file, in order, with the reader's data and the resolved type |
| `Application.ReadFailureSkipsService` | App.tsx:38-40 | when a read fails, the outcome is an error and does not depend on the service: no request is made |
| `Application.PipelineSuccess` | App.tsx:38-42 | when every read succeeds, the outcome is text `t` exactly when the service answers the request built from the read files with a non-empty `t` |
| `Application.OnSubmit` | App.tsx:35-36 | submitting moves to `Generating` and clears the error, keeping the content |
| `Application.OnSettle` | App.tsx:40-48 | success stores exactly the returned text and moves to `Success`; any failure stores the generic message and moves to `Error` |
| `Application.OnReset` | App.tsx:52-56 | reset from any state gives `Idle` with no content and no error |
| `Application.IsInteractive` | App.tsx:58 | the interactive states are exactly those other than `Success` and the unused `Uploading` |
| `Application.Enabled` | App.tsx:91-119 | which event the view on screen allows; none is allowed in the unused `Uploading` state |
| `Application.Step` | App.tsx:34-56 | one event's transition: it never enters `Uploading`; a submission enters `Generating`; a reset gives the initial cells |
| `Application.StepConsistent` | App.tsx:34-56 | an event the screen allows keeps the cells consistent with the state |
| `Application.ReplayConsistent` | App.tsx:9-11 | from the initial cells, every run of allowed events keeps `error` set exactly in `Error`, always with the generic message, keeps `content` set exactly in `Success`, and never enters `Uploading` |
| `Application.ExactlyOneView` | App.tsx:91-120 | in a consistent state exactly one of the upload, loading, error and result views is on screen |
| `Application.TransitionTable` | App.tsx:91-119 | only reset returns to `Idle` from another state; `Generating` is left only for `Success` or `Error`; only a submission enters `Generating` |
| `Application.FailuresLookAlike` | App.tsx:45-48 | a read failure and a generation failure leave the same state |
| `Application.App.constructor` | App.tsx:9-11 | the cells start as `Idle`, no content, no error |
| `Application.App.StartGeneration` | App.tsx:35-36 | the state becomes `Generating` and the error is cleared before anything is read |
| `Application.App.CompleteGeneration` | App.tsx:40-48 | the cells take the settled transition for the outcome |
| `Application.App.HandleFilesSelect` | App.tsx:34-50 | the cells end as submission followed by settlement of the pipeline's outcome; started in `Idle` from consistent cells, they stay consistent |
| `Application.App.HandleReset` | App.tsx:52-56 | the cells become `Idle`, no content, no error |
| `Results.SafeFilename` | components/ResultView.tsx:40 | the trimmed name, or `anecdote-scenarios` when that is empty: never empty, and one of the two |
| `Results.DownloadName` | components/ResultView.tsx:45 | the saved name ends in `.md` after a non-empty base |
| `Results.Title` | components/ResultView.tsx:68 | the name, or `Anecdote Scenarios` when it is empty: never empty, and the untrimmed name whenever that is non-empty |
| `Results.DownloadNameRules` | components/ResultView.tsx:40-45 | the download name is the trimmed name plus `.md` when that is non-empty, else `anecdote-scenarios.md`; its base is never empty and has no white space at its ends |
| `Results.BlankNameDownloadsDefault` | components/ResultView.tsx:40 | a blank or white-space-only name downloads as `anecdote-scenarios.md` |
| `Results.TitleRules` | components/ResultView.tsx:68-73 | the title is the name if it is non-empty, untrimmed, and `Anecdote Scenarios` otherwise |
| `Results.TitleAndDownloadDiffer` | components/ResultView.tsx:35-45 | a name of spaces is kept as the title yet downloads under the default; ` notes ` downloads as `notes.md` but is titled ` notes ` |
| `Results.DefaultsAgree` | components/ResultView.tsx:31-40 | the starting name downloads as `anecdote-scenarios.md` and is its own title |
| `Results.ResultView.constructor` | components/ResultView.tsx:31 | the file name starts as `anecdote-scenarios` |
| `Results.ResultView.SetFilename` | components/ResultView.tsx:107 | the input's value becomes the file name |
| `Results.ResultView.DocumentTitle` | components/ResultView.tsx:35 | the page title is never empty, and it is the file name whenever that is non-empty |
| `Results.ResultView.HandleDownloadMarkdown` | components/ResultView.tsx:39-50 | the saved file holds exactly the raw Markdown as `text/markdown` under the safe name; nothing changes, so repeated downloads are identical |
| `Results.ResultView.HandlePrint` | components/ResultView.tsx:52-86 | nothing happens without a rendered document; a blocked window gives the alert and nothing else; otherwise the print document has the same title in `<title>` and `<h1>`, then the rendered HTML; the view is not changed |
| `Loading.NextIndex` | components/LoadingState.tsx:10 | a tick stays below the message count, moving to the next index and wrapping to 0 after the last |
| `Loading.IndexAfter` | components/LoadingState.tsx:6-10 | the index after any number of ticks from 0 is in bounds |
| `Loading.IndexAfterIsModulo` | components/LoadingState.tsx:6-10 | after `n` ticks the index is `n` modulo the number of messages (6) |
| `Loading.CycleReturns` | components/LoadingState.tsx:10 | as many ticks as there are messages bring the index back to where it was |
| `Loading.EachMessageOncePerCycle` | components/LoadingState.tsx:10 | in any run of as many consecutive ticks as there are messages, every message is shown, each exactly once |
| `Loading.LoadingState.constructor` | components/LoadingState.tsx:6 | the index starts at 0, within bounds |
| `Loading.LoadingState.Tick` | components/LoadingState.tsx:9-11 | a tick sets the index to its successor modulo the message count and keeps it in bounds |
| `Loading.LoadingState.CurrentMessage` | components/LoadingState.tsx:28 | the lookup is in bounds under the index invariant and yields one of the loading messages |

## Behaviours that differ from what one might expect

Each of these is how the code behaves, and the model follows it.

- MIME resolution: the extension is not a fallback for a missing declared
  type. A `.md` or `.pdf` name replaces any declared type
  (`Application.ExtensionOverridesDeclared`).
- Validation errors stay inside the upload component, which then never calls
  the application. A read error carries the file name, but the application
  discards it and shows the one generic message, as for any generation error
  (`Application.FailuresLookAlike`).
- Stripped data can still start with `data:`: the regular expression removes
  one header only (`Gemini.StripLeavesSecondHeader`). For a real reader
  result, which has a base64 payload, the prefix does not remain
  (`Gemini.StripDataUrl`).
- The export name is not part of the application's cells. Each `ResultView`
  is built for one document and starts with the default name
  (`Results.ResultView.constructor`).

## Left out

- The generative-model SDK call, the API key and the model id (services/geminiService.ts:13, 16, 26): a network call. The model replaces it with a `service` function from the built request to an answer with optional text, or to a thrown error.
- `FileReader.readAsDataURL` and base64 encoding (App.tsx:15-30): browser I/O. A `reader` function gives each file's data URL or a read failure. Base64 is only described by its alphabet.
- The `Promise.all` fan-out (App.tsx:39): concurrent reads become a sequential map that stops at the first failure. Which failure is reported first is not modelled; the application replaces every failure with the same message anyway.
- `console.error` logging (App.tsx:46, services/geminiService.ts:48): no behaviour.
- Blob, object URLs and the anchor click of the download (components/ResultView.tsx:41-49): the download is a returned `Download` value.
- `window.open`, `document.write`, the print stylesheet, the script that calls `window.print` after 500 ms, and focus (components/ResultView.tsx:56-85): the host surface. The print window is a returned `PrintDocument` with its title, heading and body. Its HTML text, including the fact that the file name is inserted without escaping, is not modelled.
- The `document.title` effect and its restoration of the previous title (components/ResultView.tsx:33-37): only the title value (`DocumentTitle`) is modelled.
- The 2500 ms `setInterval` timer and its cleanup (components/LoadingState.tsx:9-12): each timer firing is a call to `Tick`.
- Rendering: ReactMarkdown, JSX layout and styling. The rendered HTML of the document is an opaque input to `HandlePrint`.
- The prompt texts (constants.ts:1-40): the system instruction is an opaque token `ScenarioSystemInstruction`. The trailing instruction is kept verbatim.
- Cancellation or staleness of in-flight requests: the screen offers no reset while `Generating`. So `Settled` is the only event allowed there, and each submission settles once.
- Unmounting the result view on reset, which is what discards a customised export name (App.tsx:118-119): no `ResultView` is tied to the `Success` state or to `App.HandleReset`.
- The `disabled` property of the upload component: the application never sets it. It is a constructor parameter of `FileUpload`.
- JavaScript strings are UTF-16 code units; Dafny characters are Unicode scalar values. Lone surrogates are not modelled.
