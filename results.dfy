/** The result view (components/ResultView.tsx): the document on screen, an
    editable file name, a Markdown download and a print export. The browser's
    download and print surfaces become returned values. */
module Results {
  import opened Wrappers
  import opened Text
  import opened Types

  const DefaultFilename: string := "anecdote-scenarios"
  const DefaultTitle: string := "Anecdote Scenarios"
  const PopupBlockedMessage: string := "Pop-up blocked. Please allow popups to save as PDF."

  /** `filename.trim() || 'anecdote-scenarios'`. */
  function SafeFilename(filename: string): (r: string)
    ensures r != ""
    ensures r == Trim(filename) || r == "anecdote-scenarios"
  {
    if Trim(filename) != "" then Trim(filename) else DefaultFilename
  }

  /** The name the Markdown file is saved under. */
  function DownloadName(filename: string): (r: string)
    ensures |r| > 3 && EndsWith(r, ".md")
  {
    SafeFilename(filename) + ".md"
  }

  /** `filename || 'Anecdote Scenarios'`: the page, print-window and heading
      title, not trimmed. */
  function Title(filename: string): (r: string)
    ensures r != ""
    ensures r == filename || filename == ""
  {
    if filename != "" then filename else DefaultTitle
  }

  /** The download name is the trimmed name plus `.md` when that is non-empty,
      and `anecdote-scenarios.md` otherwise; its base is never empty and never
      begins or ends with white space. */
  lemma DownloadNameRules(filename: string)
    ensures Trim(filename) != "" ==> DownloadName(filename) == Trim(filename) + ".md"
    ensures Trim(filename) == "" ==> DownloadName(filename) == "anecdote-scenarios.md"
    ensures var base := SafeFilename(filename);
            base != "" && !IsTrimmable(base[0]) && !IsTrimmable(base[|base| - 1])
    ensures EndsWith(DownloadName(filename), ".md")
  {
    var d := DownloadName(filename);
    assert d[|d| - 3..] == ".md";
  }

  /** A blank or white-space-only name downloads under the default name. */
  lemma {:induction false} BlankNameDownloadsDefault(filename: string)
    requires forall i :: 0 <= i < |filename| ==> IsTrimmable(filename[i])
    ensures DownloadName(filename) == "anecdote-scenarios.md"
  {
    TrimEmptyIff(filename);
  }

  /** The title is the name exactly when the name is non-empty. */
  lemma TitleRules(filename: string)
    ensures filename != "" ==> Title(filename) == filename
    ensures filename == "" ==> Title(filename) == "Anecdote Scenarios"
    ensures Title(filename) != ""
  {
  }

  /** Trimming applies to the download name and not to the title: a name of
      spaces is kept as the title yet downloads under the default name. */
  lemma TitleAndDownloadDiffer()
    ensures Title("  ") == "  "
    ensures DownloadName("  ") == "anecdote-scenarios.md"
    ensures DownloadName(" notes ") == "notes.md" && Title(" notes ") == " notes "
  {
    BlankNameDownloadsDefault("  ");
    assert LeadingCount(" notes ") == 1 by {
      assert LeadingCount(" notes "[1..]) == 0;
    }
    assert " notes "[1..] == "notes ";
    assert TrimEnd("notes ") == "notes" by {
      assert "notes "[..5] == "notes";
    }
  }

  /** The starting name is already clean: it downloads as itself and is its
      own title. */
  lemma DefaultsAgree()
    ensures DownloadName(DefaultFilename) == "anecdote-scenarios.md"
    ensures Title(DefaultFilename) == "anecdote-scenarios"
  {
    TrimUntrimmedIsIdentity(DefaultFilename);
  }

  /** A file handed to the browser's save surface. */
  datatype Download = Download(name: string, mediaType: string, payload: string)

  /** The print document: its `<title>`, its leading `<h1>`, and the rendered
      HTML of the document on screen after them. */
  datatype PrintDocument = PrintDocument(title: string, heading: string, bodyHtml: string)

  /** What a print request does: nothing, an alert, or a written print window. */
  datatype PrintEffect = NoEffect | Alert(message: string) | Printed(doc: PrintDocument)

  class ResultView {
    const content: GeneratedContent
    var filename: string

    constructor (content: GeneratedContent)
      ensures this.content == content && filename == "anecdote-scenarios"
    {
      this.content := content;
      filename := DefaultFilename;
    }

    /** The name input's change handler. */
    method SetFilename(value: string)
      modifies this`filename
      ensures filename == value
    {
      filename := value;
    }

    /** The title the page shows while this view is open. */
    function DocumentTitle(): (t: string)
      reads this
      ensures t != ""
      ensures filename != "" ==> t == filename
    {
      Title(filename)
    }

    /** `handleDownloadMarkdown`: saves the raw Markdown, byte for byte, under
        the safe name; it changes nothing, so saving twice saves the same file. */
    method HandleDownloadMarkdown() returns (d: Download)
      ensures d.payload == content.rawMarkdown
      ensures d.mediaType == "text/markdown"
      ensures d.name == DownloadName(filename)
    {
      var safeFilename := if Trim(filename) != "" then Trim(filename) else DefaultFilename;
      d := Download(safeFilename + ".md", "text/markdown", content.rawMarkdown);
    }

    /** `handlePrint`: nothing without a rendered document on screen; an alert
        and nothing written when the window is blocked; otherwise a document
        whose title and heading are the same untrimmed title, followed by the
        rendered HTML. It changes nothing of the view. */
    method HandlePrint(renderedHtml: Option<string>, windowOpens: bool) returns (effect: PrintEffect)
      ensures effect == NoEffect <==> renderedHtml.None?
      ensures effect.Alert? <==> renderedHtml.Some? && !windowOpens
      ensures effect.Alert? ==> effect.message == "Pop-up blocked. Please allow popups to save as PDF."
      ensures effect.Printed? ==> effect.doc.title == effect.doc.heading == Title(filename)
                                  && effect.doc.bodyHtml == renderedHtml.value
    {
      if renderedHtml.None? {
        return NoEffect;
      }
      if !windowOpens {
        return Alert(PopupBlockedMessage);
      }
      var title := if filename != "" then filename else DefaultTitle;
      effect := Printed(PrintDocument(title, title, renderedHtml.value));
    }
  }
}
