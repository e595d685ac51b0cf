/** The upload component (components/FileUpload.tsx): a drop zone and a file
    input that validate a batch of files and hand it to the application in one
    piece, or show one error message and hand nothing on. */
module Upload {
  import opened Wrappers
  import opened Text
  import opened Types

  /** The size limit, 20 MiB, inclusive. */
  const MaxFileSize: nat := 20 * 1024 * 1024

  /** The declared MIME types accepted as they are. */
  const ValidTypes: seq<string> := ["application/pdf", "text/markdown", "text/plain"]

  const InvalidTypeMessage: string :=
    "Invalid file type. Please upload PDF or Markdown (.md) files."

  function TooLargeMessage(name: string): string {
    "File \"" + name + "\" is too large. Max 20MB."
  }

  predicate IsMarkdownName(name: string) {
    EndsWith(name, ".md") || EndsWith(name, ".markdown")
  }

  /** The type check: a whitelisted declared type, or a Markdown file name. */
  predicate TypeAccepted(f: File) {
    f.mimeType in ValidTypes || IsMarkdownName(f.name)
  }

  predicate SizeAccepted(f: File) {
    f.size <= MaxFileSize
  }

  /** The message a single file is rejected with, if any; the type check is
      made before the size check. */
  function Rejection(f: File): (r: Option<string>)
    ensures r.None? <==> TypeAccepted(f) && SizeAccepted(f)
    ensures !TypeAccepted(f) ==> r == Some(InvalidTypeMessage)
    ensures TypeAccepted(f) && !SizeAccepted(f) ==> r == Some(TooLargeMessage(f.name))
  {
    if !TypeAccepted(f) then Some(InvalidTypeMessage)
    else if !SizeAccepted(f) then Some(TooLargeMessage(f.name))
    else None
  }

  /** The message of the first file of the batch that is rejected, if any. */
  function FirstRejection(files: seq<File>): (r: Option<string>)
    ensures r.Some? ==> exists i :: 0 <= i < |files| && Rejection(files[i]) == r
  {
    if files == [] then None
    else if Rejection(files[0]).Some? then Rejection(files[0])
    else FirstRejection(files[1..])
  }

  /** What validating a batch amounts to. */
  datatype Verdict = NoFiles | Rejected(message: string) | Accepted(files: seq<File>)

  function Validate(files: seq<File>): (v: Verdict)
    ensures v.NoFiles? <==> files == []
    ensures v.Accepted? ==> v.files == files
    ensures v.Rejected? ==> exists i :: 0 <= i < |files| && Rejection(files[i]) == Some(v.message)
  {
    if files == [] then NoFiles
    else match FirstRejection(files)
      case Some(m) => Rejected(m)
      case None => Accepted(files)
  }

  /** The error text a validation leaves behind. */
  function ErrorAfter(files: seq<File>): Option<string> {
    if Validate(files).Rejected? then Some(Validate(files).message) else None
  }

  /** The batches a validation hands on: the accepted batch, or nothing. */
  function Delivered(files: seq<File>): seq<seq<File>> {
    if Validate(files).Accepted? then [Validate(files).files] else []
  }

  // ---- properties of the validator ----

  /** A file passes exactly when it has an accepted type and at most 20 MiB. */
  lemma RejectionNoneIff(f: File)
    ensures Rejection(f) == None <==>
            (f.mimeType in ValidTypes || IsMarkdownName(f.name)) && f.size <= 20 * 1024 * 1024
  {
  }

  /** The type check wins over the size check: an oversized file of a refused
      type is reported as an invalid type. */
  lemma TypeCheckedBeforeSize(f: File)
    requires !TypeAccepted(f) && f.size > MaxFileSize
    ensures Rejection(f) == Some(InvalidTypeMessage)
  {
  }

  /** The size limit is inclusive: exactly 20 MiB passes, one byte more is
      rejected with a message that names the file. */
  lemma SizeBoundary(name: string, mimeType: string)
    requires TypeAccepted(File(name, mimeType, 0))
    ensures Rejection(File(name, mimeType, 20971520)) == None
    ensures Rejection(File(name, mimeType, 20971521)) == Some(TooLargeMessage(name))
  {
  }

  /** The too-large message embeds the file name, quoted, after `File `. */
  lemma TooLargeMessageNamesFile(name: string)
    ensures var m := TooLargeMessage(name);
            |m| > |name| + 6 && m[6..6 + |name|] == name && m[..6] == "File \""
  {
  }

  /** The first rejection is the rejection of some file, every file before
      which passes; and there is none exactly when every file passes. */
  lemma {:induction false} FirstRejectionIsFirstFailing(files: seq<File>)
    ensures FirstRejection(files) == None <==> forall i :: 0 <= i < |files| ==> Rejection(files[i]) == None
    ensures FirstRejection(files).Some? ==>
              exists k :: 0 <= k < |files| && Rejection(files[k]) == FirstRejection(files)
                          && forall i :: 0 <= i < k ==> Rejection(files[i]) == None
    decreases |files|
  {
    if files != [] {
      FirstRejectionIsFirstFailing(files[1..]);
      if Rejection(files[0]).None? && FirstRejection(files).Some? {
        var k :| 0 <= k < |files| - 1 && Rejection(files[1..][k]) == FirstRejection(files[1..])
                 && forall i :: 0 <= i < k ==> Rejection(files[1..][i]) == None;
        assert Rejection(files[k + 1]) == FirstRejection(files);
        forall i | 0 <= i < k + 1 ensures Rejection(files[i]) == None {
          if i > 0 { assert files[i] == files[1..][i - 1]; }
        }
      }
      if Rejection(files[0]).None? && forall i :: 0 <= i < |files| - 1 ==> Rejection(files[1..][i]) == None {
        forall i | 0 <= i < |files| ensures Rejection(files[i]) == None {
          if i > 0 { assert files[i] == files[1..][i - 1]; }
        }
      }
    }
  }

  /** A batch is accepted exactly when it is non-empty and every file in it
      passes both checks; the batch is never partially accepted, and what is
      accepted is the batch itself, same files in the same order. */
  lemma AcceptedIff(files: seq<File>)
    ensures Validate(files).Accepted? <==>
            files != [] && forall i :: 0 <= i < |files| ==> Rejection(files[i]) == None
    ensures Validate(files).Accepted? ==> Validate(files).files == files
  {
    FirstRejectionIsFirstFailing(files);
  }

  /** One refused file anywhere rejects the whole batch, with the message of
      the first refused file, at or before it, and nothing is handed on. */
  lemma {:induction false} OneBadFileRejectsBatch(files: seq<File>, k: nat)
    requires k < |files| && Rejection(files[k]).Some?
    ensures Validate(files).Rejected?
    ensures exists j :: 0 <= j <= k && Rejection(files[j]) == Some(Validate(files).message)
                        && forall i :: 0 <= i < j ==> Rejection(files[i]).None?
    ensures Delivered(files) == []
  {
    FirstRejectionIsFirstFailing(files);
  }

  /** An empty selection leaves no error and hands nothing on. */
  lemma EmptySelection()
    ensures ErrorAfter([]) == None && Delivered([]) == []
  {
  }

  /** A validation leaves an error exactly when it hands nothing on for a
      non-empty batch: error text and delivery never occur together. */
  lemma {:induction false} ErrorXorDelivery(files: seq<File>)
    requires files != []
    ensures ErrorAfter(files).Some? <==> Delivered(files) == []
  {
  }

  /** The validator's loop leaves the prefix it has accepted so far: skipping
      files that pass does not change the first rejection. */
  lemma {:induction false} FirstRejectionSkip(files: seq<File>, i: nat)
    requires i <= |files|
    requires forall j :: 0 <= j < i ==> Rejection(files[j]) == None
    ensures FirstRejection(files) == FirstRejection(files[i..])
    decreases i
  {
    if i > 0 {
      assert files[1..][i - 1..] == files[i..];
      forall j | 0 <= j < i - 1 ensures Rejection(files[1..][j]) == None {
        assert files[1..][j] == files[j + 1];
      }
      FirstRejectionSkip(files[1..], i - 1);
    }
  }

  /** The component's mutable part: the drag highlight, the error text, and
      the batches passed to the `onFilesSelect` callback, in call order. */
  class FileUpload {
    const disabled: bool
    var isDragging: bool
    var error: Option<string>
    var submitted: seq<seq<File>>

    constructor (disabled: bool)
      ensures this.disabled == disabled
      ensures !isDragging && error == None && submitted == []
    {
      this.disabled := disabled;
      isDragging := false;
      error := None;
      submitted := [];
    }

    /** Clears the error, then walks the files in order; the first file that
        fails a check sets the error and ends the walk; if none fails the
        collected files are handed on, once. */
    method ValidateAndProcessFiles(files: seq<File>)
      modifies this`error, this`submitted
      ensures error == ErrorAfter(files)
      ensures submitted == old(submitted) + Delivered(files)
    {
      error := None;
      if |files| == 0 {
        return;
      }
      var validFiles: seq<File> := [];
      for i := 0 to |files|
        invariant validFiles == files[..i]
        invariant forall j :: 0 <= j < i ==> Rejection(files[j]) == None
        invariant error == None && submitted == old(submitted)
      {
        var file := files[i];
        var isMarkdown := EndsWith(file.name, ".md") || EndsWith(file.name, ".markdown");
        if file.mimeType !in ValidTypes && !isMarkdown {
          FirstRejectionSkip(files, i);
          error := Some(InvalidTypeMessage);
          return;
        }
        if file.size > 20 * 1024 * 1024 {
          FirstRejectionSkip(files, i);
          error := Some(TooLargeMessage(file.name));
          return;
        }
        validFiles := validFiles + [file];
      }
      assert validFiles == files;
      FirstRejectionIsFirstFailing(files);
      submitted := submitted + [validFiles];
    }

    /** A drop clears the highlight; it is ignored while disabled, and a drop
        without files validates nothing. */
    method HandleDrop(dropped: Option<seq<File>>)
      modifies this`isDragging, this`error, this`submitted
      ensures !isDragging
      ensures disabled || dropped.None? || dropped.value == [] ==>
                error == old(error) && submitted == old(submitted)
      ensures !disabled && dropped.Some? && dropped.value != [] ==>
                error == ErrorAfter(dropped.value) && submitted == old(submitted) + Delivered(dropped.value)
    {
      isDragging := false;
      if disabled {
        return;
      }
      if dropped.Some? && |dropped.value| > 0 {
        ValidateAndProcessFiles(dropped.value);
      }
    }

    /** A file-input change validates a non-empty selection. The handler
        itself does not look at `disabled`: the input element is disabled
        instead. */
    method HandleInputChange(selected: Option<seq<File>>)
      modifies this`error, this`submitted
      ensures selected.None? || selected.value == [] ==>
                error == old(error) && submitted == old(submitted)
      ensures selected.Some? && selected.value != [] ==>
                error == ErrorAfter(selected.value) && submitted == old(submitted) + Delivered(selected.value)
    {
      if selected.Some? && |selected.value| > 0 {
        ValidateAndProcessFiles(selected.value);
      }
    }

    /** Dragging over the zone lights it up unless disabled. */
    method HandleDragOver()
      modifies this`isDragging
      ensures isDragging == (old(isDragging) || !disabled)
    {
      if disabled {
        return;
      }
      isDragging := true;
    }

    /** Leaving the zone clears the highlight unless disabled. */
    method HandleDragLeave()
      modifies this`isDragging
      ensures isDragging == (old(isDragging) && disabled)
    {
      if disabled {
        return;
      }
      isDragging := false;
    }
  }
}
