/** The two decisions of frontend/src/components/MessageInput.jsx: which
    attachments are accepted (`handleFileChange`) and what a send submits
    (`handleSendMessage`). Dafny strings are sequences of Unicode scalar
    values where JavaScript strings are UTF-16 code units; the two agree
    here because every character the model inspects (the MIME keywords and
    the whitespace set of `trim`) lies in the Basic Multilingual Plane. Only
    the string operations the component uses are defined. */
module MessageInput {
  import opened Base
  import opened Models

  /** 10 MB, the attachment limit. */
  const MaxFileSize: nat := 10 * 1024 * 1024

  /** 5 MB, above which a PDF draws a slow-upload warning. */
  const SlowPdfSize: nat := 5 * 1024 * 1024

  /** `e.target.files[0]`: size in bytes and MIME type. */
  datatype SelectedFile = SelectedFile(size: nat, mime: string, name: string)

  /** The outcome of choosing a file. `Threw` is a handler that stopped on
      an exception: no preview is set and the input is not cleared. */
  datatype FileCheck = TooLarge | Unsupported | Accepted(kind: FileKind, slowWarning: bool) | Threw

  /** `String.prototype.startsWith`. */
  predicate StartsWith(s: string, prefix: string) {
    |prefix| <= |s| && s[..|prefix|] == prefix
  }

  /** `sub` occurs in `s` at position `i`. */
  predicate WindowAt(s: string, sub: string, i: int) {
    0 <= i && i + |sub| <= |s| && s[i..i + |sub|] == sub
  }

  /** Some window of `s` spells `sub`. */
  ghost predicate Contains(s: string, sub: string) {
    exists i :: WindowAt(s, sub, i)
  }

  /** `String.prototype.indexOf`: the first position of `sub`, or -1. */
  function IndexOf(s: string, sub: string): (r: int)
    ensures r >= -1
    ensures r >= 0 ==> WindowAt(s, sub, r)
    decreases |s|
  {
    if StartsWith(s, sub) then 0
    else if |s| == 0 then -1
    else
      var j := IndexOf(s[1..], sub);
      if j < 0 then -1 else j + 1
  }

  /** `String.prototype.includes`. */
  predicate Includes(s: string, sub: string) {
    IndexOf(s, sub) >= 0
  }

  /** The keywords that mark a document type. */
  predicate DocumentLike(mime: string) {
    Includes(mime, "pdf") || Includes(mime, "document") || Includes(mime, "sheet") || Includes(mime, "text")
  }

  /** `handleFileChange` after a file was chosen, as written: the size limit
      first, then the MIME prefixes in priority order, then the document
      keywords. The slow-PDF branch calls `toast.warning`, which the
      react-hot-toast `toast` object does not have, so the call throws before
      the file is read. */
  function ClassifyAsWritten(f: SelectedFile): FileCheck {
    if f.size > MaxFileSize then TooLarge
    else if StartsWith(f.mime, "image/") then Accepted(Image, false)
    else if StartsWith(f.mime, "video/") then Accepted(Video, false)
    else if StartsWith(f.mime, "audio/") then Accepted(Audio, false)
    else if DocumentLike(f.mime) then
      if Includes(f.mime, "pdf") && f.size > SlowPdfSize then Threw else Accepted(Document, false)
    else Unsupported
  }

  /** `handleFileChange` as intended: the same decisions, with the slow-PDF
      branch warning and then accepting the document. */
  function Classify(f: SelectedFile): FileCheck {
    if f.size > MaxFileSize then TooLarge
    else if StartsWith(f.mime, "image/") then Accepted(Image, false)
    else if StartsWith(f.mime, "video/") then Accepted(Video, false)
    else if StartsWith(f.mime, "audio/") then Accepted(Audio, false)
    else if DocumentLike(f.mime) then Accepted(Document, Includes(f.mime, "pdf") && f.size > SlowPdfSize)
    else Unsupported
  }

  /** `handleFileChange` as written: nothing happens when no file was
      chosen, otherwise the chosen file is classified. */
  function HandleFileChange(file: Option<SelectedFile>): (r: Option<FileCheck>)
    ensures r.None? <==> file.None?
  {
    if file.None? then None else Some(ClassifyAsWritten(file.value))
  }

  // ---------------------------------------------------------------------
  // Trimming and sending
  // ---------------------------------------------------------------------

  /** The characters `String.prototype.trim` removes: ECMAScript WhiteSpace
      and LineTerminator. */
  predicate IsJsSpace(c: char) {
    || c == ' ' || c == '\t' || c == '\n' || c == '\r' || c == '\U{000B}' || c == '\U{000C}'
    || c == '\U{00A0}' || c == '\U{1680}' || ('\U{2000}' <= c <= '\U{200A}')
    || c == '\U{2028}' || c == '\U{2029}' || c == '\U{202F}' || c == '\U{205F}'
    || c == '\U{3000}' || c == '\U{FEFF}'
  }

  function TrimStart(s: string): string
    decreases |s|
  {
    if |s| > 0 && IsJsSpace(s[0]) then TrimStart(s[1..]) else s
  }

  function TrimEnd(s: string): string
    decreases |s|
  {
    if |s| > 0 && IsJsSpace(s[|s| - 1]) then TrimEnd(s[..|s| - 1]) else s
  }

  /** `String.prototype.trim`. */
  function Trim(s: string): string {
    TrimEnd(TrimStart(s))
  }

  /** The attachment chosen earlier, as read by the `FileReader`. */
  datatype FilePreview = FilePreview(url: string, kind: FileKind, name: string)

  /** What `sendMessage` is given. */
  datatype Payload = Payload(text: string, file: Option<string>, fileType: Option<FileKind>, fileName: Option<string>)

  /** `handleSendMessage`: nothing is sent for blank text without an
      attachment; otherwise the trimmed text and the attachment go out. The
      second size check reads `filePreview.size`, which the preview never
      has, so it never fires and is not modelled. */
  function HandleSendMessage(text: string, preview: Option<FilePreview>): Option<Payload> {
    if Trim(text) == "" && preview.None? then None
    else
      Some(Payload(Trim(text),
                   if preview.Some? then Some(preview.value.url) else None,
                   if preview.Some? then Some(preview.value.kind) else None,
                   if preview.Some? then Some(preview.value.name) else None))
  }

  // ---------------------------------------------------------------------
  // Properties
  // ---------------------------------------------------------------------

  /** `indexOf` finds a window exactly when one exists. */
  lemma {:induction false} IndexOfContains(s: string, sub: string)
    ensures IndexOf(s, sub) >= 0 <==> Contains(s, sub)
    decreases |s|
  {
    if IndexOf(s, sub) >= 0 {
      assert WindowAt(s, sub, IndexOf(s, sub));
    } else if Contains(s, sub) {
      var i :| WindowAt(s, sub, i);
      assert !StartsWith(s, sub);
      assert i > 0;
      var t := s[1..];
      assert IndexOf(t, sub) < 0;
      assert t[i - 1..i - 1 + |sub|] == s[i..i + |sub|];
      assert WindowAt(t, sub, i - 1);
      IndexOfContains(t, sub);
    }
  }

  /** An oversized file is refused whatever its type. */
  lemma SizeCheckedFirst(f: SelectedFile)
    ensures f.size > MaxFileSize ==> Classify(f) == TooLarge
    ensures f.size <= MaxFileSize ==> Classify(f) != TooLarge
  {
  }

  /** Below the limit: an `image/`, `video/` or `audio/` prefix decides the
      kind in that priority order; failing those, a type containing pdf,
      document, sheet or text is a document; anything else is unsupported.
      A slow-upload warning comes exactly with a PDF-like document over 5 MB. */
  lemma ClassifySpec(f: SelectedFile)
    requires f.size <= MaxFileSize
    ensures var r := Classify(f);
      var prefixed := StartsWith(f.mime, "image/") || StartsWith(f.mime, "video/") || StartsWith(f.mime, "audio/");
      var keyword := Contains(f.mime, "pdf") || Contains(f.mime, "document") || Contains(f.mime, "sheet") || Contains(f.mime, "text");
      && (r == Accepted(Image, false) <==> StartsWith(f.mime, "image/"))
      && (r == Accepted(Video, false) <==> !StartsWith(f.mime, "image/") && StartsWith(f.mime, "video/"))
      && (r == Accepted(Audio, false) <==> !StartsWith(f.mime, "image/") && !StartsWith(f.mime, "video/") && StartsWith(f.mime, "audio/"))
      && (r.Accepted? && r.kind == Document <==> !prefixed && keyword)
      && (r == Unsupported <==> !prefixed && !keyword)
      && (r.Accepted? ==> (r.slowWarning <==> r.kind == Document && Contains(f.mime, "pdf") && f.size > SlowPdfSize))
      && !r.Threw?
  {
    IndexOfContains(f.mime, "pdf");
    IndexOfContains(f.mime, "document");
    IndexOfContains(f.mime, "sheet");
    IndexOfContains(f.mime, "text");
  }

  /** The handler as written agrees with the intended one except on a
      PDF-like document over 5 MB, where it throws instead of warning and
      accepting. */
  lemma ClassifyAsWrittenSpec(f: SelectedFile)
    ensures ClassifyAsWritten(f) == Threw <==> Classify(f) == Accepted(Document, true)
    ensures ClassifyAsWritten(f) != Threw ==> ClassifyAsWritten(f) == Classify(f)
  {
  }

  /** A 6 MB `application/pdf` file: the handler as written throws, where
      the intended one attaches the document with a slow-upload warning. */
  /** The handler decides as the corrected classification does, except
      that it throws exactly where that one would accept a slow PDF with a
      warning. */
  lemma HandleFileChangeSpec(file: Option<SelectedFile>)
    ensures var r := HandleFileChange(file);
      && (file.None? ==> r.None?)
      && (file.Some? ==>
            && (r == Some(Threw) <==> Classify(file.value) == Accepted(Document, true))
            && (r != Some(Threw) ==> r == Some(Classify(file.value))))
  {
    if file.Some? {
      ClassifyAsWrittenSpec(file.value);
    }
  }

  lemma SlowPdfAsWritten()
    ensures var f := SelectedFile(6 * 1024 * 1024, "application/pdf", "report.pdf");
      ClassifyAsWritten(f) == Threw && Classify(f) == Accepted(Document, true)
  {
    var f := SelectedFile(6 * 1024 * 1024, "application/pdf", "report.pdf");
    assert WindowAt(f.mime, "pdf", 12);
    IndexOfContains(f.mime, "pdf");
    assert Includes(f.mime, "pdf");
    assert DocumentLike(f.mime);
    CharDiffers(f.mime, "image/", 0);
    CharDiffers(f.mime, "video/", 0);
    CharDiffers(f.mime, "audio/", 1);
  }

  /** A string that differs from `prefix` at one of its positions does not
      start with it. */
  lemma CharDiffers(s: string, prefix: string, k: nat)
    requires k < |s| && k < |prefix| && s[k] != prefix[k]
    ensures !StartsWith(s, prefix)
  {
  }

  lemma {:induction false} TrimStartSpec(s: string)
    ensures var r := TrimStart(s);
      && |r| <= |s| && r == s[|s| - |r|..]
      && (forall k :: 0 <= k < |s| - |r| ==> IsJsSpace(s[k]))
      && (r != [] ==> !IsJsSpace(r[0]))
    decreases |s|
  {
    if |s| > 0 && IsJsSpace(s[0]) {
      TrimStartSpec(s[1..]);
      var r := TrimStart(s);
      assert r == s[1..][|s| - 1 - |r|..];
      forall k | 0 <= k < |s| - |r| ensures IsJsSpace(s[k]) {
        if k > 0 {
          assert s[k] == s[1..][k - 1];
        }
      }
    }
  }

  lemma {:induction false} TrimEndSpec(s: string)
    ensures var r := TrimEnd(s);
      && |r| <= |s| && r == s[..|r|]
      && (forall k :: |r| <= k < |s| ==> IsJsSpace(s[k]))
      && (r != [] ==> !IsJsSpace(r[|r| - 1]))
    decreases |s|
  {
    if |s| > 0 && IsJsSpace(s[|s| - 1]) {
      TrimEndSpec(s[..|s| - 1]);
      var r := TrimEnd(s);
      assert r == s[..|s| - 1][..|r|];
      forall k | |r| <= k < |s| ensures IsJsSpace(s[k]) {
        if k < |s| - 1 {
          assert s[k] == s[..|s| - 1][k];
        }
      }
    }
  }

  /** `trim` returns the slice of the input between its leading and trailing
      whitespace, and the result neither starts nor ends with whitespace. */
  lemma TrimSpec(s: string)
    ensures |Trim(s)| <= |TrimStart(s)| <= |s|
    ensures Trim(s) == s[|s| - |TrimStart(s)|..|s| - |TrimStart(s)| + |Trim(s)|]
    ensures forall k :: 0 <= k < |s| - |TrimStart(s)| ==> IsJsSpace(s[k])
    ensures forall k :: |s| - |TrimStart(s)| + |Trim(s)| <= k < |s| ==> IsJsSpace(s[k])
    ensures Trim(s) != [] ==> !IsJsSpace(Trim(s)[0]) && !IsJsSpace(Trim(s)[|Trim(s)| - 1])
  {
    var a := TrimStart(s);
    TrimStartSpec(s);
    TrimEndSpec(a);
    var t := TrimEnd(a);
    var i := |s| - |a|;
    assert a == s[i..];
    assert t == a[..|t|];
    assert t == s[i..i + |t|];
    forall k | i + |t| <= k < |s| ensures IsJsSpace(s[k]) {
      assert s[k] == a[k - i];
    }
  }

  /** `trim` gives the empty string exactly for all-whitespace input. */
  lemma TrimBlank(s: string)
    ensures Trim(s) == [] <==> forall k :: 0 <= k < |s| ==> IsJsSpace(s[k])
  {
    TrimSpec(s);
    var t := Trim(s);
    var i := |s| - |TrimStart(s)|;
    if t != [] {
      assert s[i] == t[0];
    }
  }

  /** Trimming twice is trimming once. */
  lemma TrimIdempotent(s: string)
    ensures Trim(Trim(s)) == Trim(s)
  {
    TrimSpec(s);
    var t := Trim(s);
    if t != [] {
      assert TrimStart(t) == t;
      assert TrimEnd(t) == t;
    }
  }

  /** A send happens unless the text is all whitespace and no file is
      attached; what is sent is the trimmed text and the attachment's URL,
      kind and name. */
  lemma HandleSendMessageSpec(text: string, preview: Option<FilePreview>)
    ensures var r := HandleSendMessage(text, preview);
      && (r.None? <==> (forall k :: 0 <= k < |text| ==> IsJsSpace(text[k])) && preview.None?)
      && (r.Some? ==>
            && r.value.text == Trim(text)
            && (r.value.text != [] ==> !IsJsSpace(r.value.text[0]) && !IsJsSpace(r.value.text[|r.value.text| - 1]))
            && (preview.Some? ==> r.value.file == Some(preview.value.url) && r.value.fileType == Some(preview.value.kind)
                                  && r.value.fileName == Some(preview.value.name))
            && (preview.None? ==> r.value.file.None? && r.value.fileType.None? && r.value.fileName.None?))
  {
    TrimSpec(text);
    TrimBlank(text);
  }
}
