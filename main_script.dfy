/** The page script of the multi-tool: the files chosen on each tab, how a new
    batch of files is accepted or ignored, removing one file, the icon shown
    beside a file name, and the HTML escaping of file names. */
module MainScript {
  import opened Wrappers
  import opened JsText
  import opened Sequences
  import Utils

  /** The tabs of the page, each with its own file list. */
  datatype Tab = Split | Merge | Edit | Convert | PdfToImages | Compress | Protect

  /** A chosen file, known here by its name. */
  datatype FileEntry = FileEntry(name: string)

  /** Every tab but "convert" takes PDF files only. */
  predicate PdfOnly(tab: Tab) {
    tab != Convert
  }

  /** A name that ends in `.pdf`, in any mix of cases. */
  predicate IsPdfName(name: string) {
    EndsWith(ToLowerAscii(name), ".pdf")
  }

  /** `files.filter(...)` with the `.pdf` test: the PDF files, in the order
      they were chosen. */
  function PdfFiles(files: seq<FileEntry>): (r: seq<FileEntry>)
    ensures |r| <= |files|
    ensures forall f :: f in r <==> f in files && IsPdfName(f.name)
    ensures |r| == |files| <==> forall f :: f in files ==> IsPdfName(f.name)
    decreases |files|
  {
    if files == [] then []
    else
      var rest := PdfFiles(files[1..]);
      assert files == [files[0]] + files[1..];
      if IsPdfName(files[0].name) then [files[0]] + rest else rest
  }

  /** Filtering a batch in two parts filters each part and keeps them in
      order. */
  lemma {:induction false} PdfFilesAppend(a: seq<FileEntry>, b: seq<FileEntry>)
    ensures PdfFiles(a + b) == PdfFiles(a) + PdfFiles(b)
    decreases |a|
  {
    if a != [] {
      assert (a + b)[1..] == a[1..] + b;
      PdfFilesAppend(a[1..], b);
    } else {
      assert a + b == b;
    }
  }

  /** Filtering again changes nothing. */
  lemma {:induction false} PdfFilesIdempotent(files: seq<FileEntry>)
    ensures PdfFiles(PdfFiles(files)) == PdfFiles(files)
    decreases |files|
  {
    if files != [] {
      PdfFilesIdempotent(files[1..]);
      var rest := PdfFiles(files[1..]);
      if IsPdfName(files[0].name) {
        assert ([files[0]] + rest)[1..] == rest;
      }
    }
  }

  /** The files of a batch that a tab takes: the PDF files on a PDF-only tab
      (all files on the others), and on the edit tab only the first of
      them. */
  function Accepted(files: seq<FileEntry>, tab: Tab): (r: seq<FileEntry>)
    ensures PdfOnly(tab) ==> forall f :: f in r ==> f in files && IsPdfName(f.name)
    ensures tab == Convert ==> r == files
    ensures tab != Edit ==> forall f :: f in files && (IsPdfName(f.name) || !PdfOnly(tab)) ==> f in r
    ensures tab == Edit ==> |r| <= 1 && (r == [] <==> PdfFiles(files) == [])
    ensures tab == Edit && r != [] ==> r[0] == PdfFiles(files)[0]
  {
    var filtered := if PdfOnly(tab) then PdfFiles(files) else files;
    if tab == Edit && |filtered| > 1 then [filtered[0]] else filtered
  }

  /** The number of files the warning reports as ignored. */
  function IgnoredCount(files: seq<FileEntry>, tab: Tab): (n: nat)
    ensures n == 0 <==> !PdfOnly(tab) || forall f :: f in files ==> IsPdfName(f.name)
  {
    if PdfOnly(tab) then |files| - |PdfFiles(files)| else 0
  }

  /** The file list of every tab. */
  class FileLists {
    var currentFiles: map<Tab, seq<FileEntry>>

    ghost predicate Valid()
      reads this
    {
      forall tab: Tab :: tab in currentFiles
    }

    constructor ()
      ensures Valid() && forall tab: Tab :: currentFiles[tab] == []
    {
      var lists := map[Split := [], Merge := [], Edit := [], Convert := [],
                       PdfToImages := [], Compress := [], Protect := []];
      forall tab: Tab ensures tab in lists && lists[tab] == [] {
        match tab {
          case Split =>
          case Merge =>
          case Edit =>
          case Convert =>
          case PdfToImages =>
          case Compress =>
          case Protect =>
        }
      }
      currentFiles := lists;
    }

    /** A batch of files chosen on `tab`: the accepted files go after the
        ones already listed there and no other tab changes. Returns how many
        were ignored, and on the edit tab the file to open in the page editor. */
    method HandleFiles(files: seq<FileEntry>, tab: Tab) returns (ignored: nat, toEdit: Option<FileEntry>)
      requires Valid()
      modifies this
      ensures Valid()
      ensures currentFiles[tab] == old(currentFiles)[tab] + Accepted(files, tab)
      ensures forall t :: t != tab ==> currentFiles[t] == old(currentFiles)[t]
      ensures ignored == IgnoredCount(files, tab)
      ensures toEdit.Some? <==> tab == Edit && PdfFiles(files) != []
      ensures toEdit.Some? ==> toEdit.value == PdfFiles(files)[0]
    {
      var filtered := files;
      ignored := 0;
      if PdfOnly(tab) {
        filtered := PdfFiles(files);
        ignored := |files| - |filtered|;
      }
      if tab == Edit && |filtered| > 1 {
        filtered := [filtered[0]];
      }
      currentFiles := currentFiles[tab := currentFiles[tab] + filtered];
      toEdit := if tab == Edit && |filtered| > 0 then Some(filtered[0]) else None;
    }

    /** The remove button of entry `index` on `tab`: that entry leaves the
        list and nothing else changes. Returns whether the page editor is to
        be hidden, which it is when the edit tab's list becomes empty. */
    method RemoveFile(tab: Tab, index: int) returns (hideEditor: bool)
      requires Valid()
      modifies this
      ensures Valid()
      ensures currentFiles[tab] == SpliceRemove(old(currentFiles)[tab], index)
      ensures 0 <= index < |old(currentFiles)[tab]| ==>
        |currentFiles[tab]| == |old(currentFiles)[tab]| - 1
      ensures forall t :: t != tab ==> currentFiles[t] == old(currentFiles)[t]
      ensures hideEditor <==> tab == Edit && currentFiles[tab] == []
    {
      if 0 <= index < |currentFiles[tab]| {
        SpliceRemoveAt(currentFiles[tab], index);
      }
      currentFiles := currentFiles[tab := SpliceRemove(currentFiles[tab], index)];
      hideEditor := tab == Edit && |currentFiles[tab]| == 0;
    }
  }

  const PdfIcon := "\U{1F4C4}"
  const ImageIcon := "\U{1F5BC}\U{FE0F}"
  const DocumentIcon := "\U{1F4DD}"
  const FolderIcon := "\U{1F4C1}"

  /** The extensions with an icon of their own. */
  const KnownExtensions: seq<string> := ["pdf", "jpg", "jpeg", "png", "gif", "docx", "txt"]

  /** The icon for a lower-case extension; anything unknown gets the folder. */
  function Icon(ext: string): (r: string)
    ensures r == FolderIcon <==> ext !in KnownExtensions
    ensures r == PdfIcon <==> ext == "pdf" || ext == "txt"
    ensures r == ImageIcon <==> ext == "jpg" || ext == "jpeg" || ext == "png" || ext == "gif"
    ensures r == DocumentIcon <==> ext == "docx"
  {
    if ext == "pdf" then PdfIcon
    else if ext == "jpg" || ext == "jpeg" || ext == "png" || ext == "gif" then ImageIcon
    else if ext == "docx" then DocumentIcon
    else if ext == "txt" then PdfIcon
    else FolderIcon
  }

  /** The icon beside a file name, chosen by the lower-cased text after its
      last dot. */
  function FileIcon(filename: string): string {
    Icon(Utils.GetFileExtension(filename))
  }

  /** A name with a dot-free extension gets the icon of that extension,
      whatever its case. */
  lemma FileIconOfExtension(name: string, ext: string)
    requires '.' !in ext
    ensures FileIcon(name + "." + ext) == Icon(ToLowerAscii(ext))
    ensures ToLowerAscii(ext) !in KnownExtensions ==> FileIcon(name + "." + ext) == FolderIcon
  {
    Utils.ExtensionAfterLastDot(name, ext);
  }

  /** The entity for each of the four characters the pattern matches; every
      other character, the apostrophe included, stands for itself. */
  function EscapeChar(c: char): (r: string)
    ensures c != '&' && c != '<' && c != '>' && c != '"' ==> r == [c]
    ensures '<' !in r && '>' !in r && '"' !in r
    ensures |r| >= 1 && (r[0] == '&' <==> c in "&<>\"")
  {
    if c == '&' then "&amp;"
    else if c == '<' then "&lt;"
    else if c == '>' then "&gt;"
    else if c == '"' then "&quot;"
    else [c]
  }

  /** `escapeHtml(text)`: each character replaced by its escape. */
  function EscapeHtml(text: string): (r: string)
    ensures '<' !in r && '>' !in r && '"' !in r
    ensures |r| >= |text|
    ensures |r| == |text| <==> forall c :: c in text ==> c !in "&<>\""
    decreases |text|
  {
    if text == [] then ""
    else
      assert text == [text[0]] + text[1..];
      EscapeChar(text[0]) + EscapeHtml(text[1..])
  }

  /** Reading the four entities back as characters. */
  function DecodeEntities(s: string): string
    decreases |s|
  {
    if s == [] then ""
    else if StartsWith(s, "&amp;") then "&" + DecodeEntities(s[5..])
    else if StartsWith(s, "&lt;") then "<" + DecodeEntities(s[4..])
    else if StartsWith(s, "&gt;") then ">" + DecodeEntities(s[4..])
    else if StartsWith(s, "&quot;") then "\"" + DecodeEntities(s[6..])
    else [s[0]] + DecodeEntities(s[1..])
  }

  /** Text that does not start with `&` is read back character for character. */
  lemma DecodePlain(c: char, rest: string)
    requires c != '&'
    ensures DecodeEntities([c] + rest) == [c] + DecodeEntities(rest)
  {
    var s := [c] + rest;
    assert s[0] == c && s[1..] == rest;
  }

  /** Each entity is read back as its character. */
  lemma DecodeAmp(rest: string)
    ensures DecodeEntities("&amp;" + rest) == "&" + DecodeEntities(rest)
  {
    var s := "&amp;" + rest;
    assert StartsWith(s, "&amp;") && s[5..] == rest;
  }

  lemma DecodeLt(rest: string)
    ensures DecodeEntities("&lt;" + rest) == "<" + DecodeEntities(rest)
  {
    var s := "&lt;" + rest;
    assert !StartsWith(s, "&amp;") by { assert s[1] == 'l'; }
    assert StartsWith(s, "&lt;") && s[4..] == rest;
  }

  lemma DecodeGt(rest: string)
    ensures DecodeEntities("&gt;" + rest) == ">" + DecodeEntities(rest)
  {
    var s := "&gt;" + rest;
    assert !StartsWith(s, "&amp;") && !StartsWith(s, "&lt;") by { assert s[1] == 'g'; }
    assert StartsWith(s, "&gt;") && s[4..] == rest;
  }

  lemma DecodeQuot(rest: string)
    ensures DecodeEntities("&quot;" + rest) == "\"" + DecodeEntities(rest)
  {
    var s := "&quot;" + rest;
    assert !StartsWith(s, "&amp;") && !StartsWith(s, "&lt;") && !StartsWith(s, "&gt;")
      by { assert s[1] == 'q'; }
    assert StartsWith(s, "&quot;") && s[6..] == rest;
  }

  /** Reading back one escaped character gives that character. */
  lemma DecodeEscapeChar(c: char, rest: string)
    ensures DecodeEntities(EscapeChar(c) + rest) == [c] + DecodeEntities(rest)
  {
    if c == '&' {
      DecodeAmp(rest);
    } else if c == '<' {
      DecodeLt(rest);
    } else if c == '>' {
      DecodeGt(rest);
    } else if c == '"' {
      DecodeQuot(rest);
    } else {
      DecodePlain(c, rest);
    }
  }

  /** Escaping loses nothing: reading the entities back gives the text. */
  lemma {:induction false} DecodeEscape(text: string)
    ensures DecodeEntities(EscapeHtml(text)) == text
    decreases |text|
  {
    if text != [] {
      DecodeEscape(text[1..]);
      DecodeEscapeChar(text[0], EscapeHtml(text[1..]));
      assert text == [text[0]] + text[1..];
    }
  }
}
