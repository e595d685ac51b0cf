/** The shared vocabulary of the client: the lifecycle states, the generated
    document, a file as the browser hands it over, and a thrown error. */
module Types {

  /** The five lifecycle states. `Uploading` is declared but no handler enters it. */
  datatype AppState = Idle | Uploading | Generating | Success | Error

  /** The document the service produced: its Markdown text, kept verbatim. */
  datatype GeneratedContent = GeneratedContent(rawMarkdown: string)

  /** A browser `File`: its name, its declared MIME type (possibly empty) and
      its size in bytes. Its bytes are reached only through a reader. */
  datatype File = File(name: string, mimeType: string, size: nat)

  /** A thrown JavaScript `Error`, identified by its message. */
  datatype Failure = Failure(message: string)
}
