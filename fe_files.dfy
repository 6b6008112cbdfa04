/** The file list's presentation helpers: the icon chosen for a file from
    its MIME type and the extension of its name, and the size column for
    sizes under one kibibyte. */
module FrontFiles {
  import opened Common
  import opened Text

  datatype Icon = Pdf | Word | Spreadsheet | Image | Archive | PlainText | Generic

  /** The extension as compared: the text after the last dot (the whole name
      when there is none), lower-cased. */
  function Extension(fileName: string): (r: string)
    ensures '.' !in r
    ensures forall i :: 0 <= i < |r| ==> !('A' <= r[i] <= 'Z')
  {
    var ext := AfterLast(fileName, '.');
    var r := Lower(ext);
    assert forall i :: 0 <= i < |r| ==> r[i] == '.' ==> ext[i] == '.';
    r
  }

  /** `mimeType?.includes(pat)`: false when there is no MIME type. */
  predicate MimeHas(mimeType: Option<string>, pat: string) {
    mimeType.Some? && Contains(mimeType.value, pat)
  }

  /** The MIME fragments that select a category. */
  function MimePatterns(icon: Icon): (r: seq<string>)
    ensures forall i :: 0 <= i < |r| ==> |r[i]| >= 3
  {
    match icon
    case Pdf => ["pdf"]
    case Word => ["word"]
    case Spreadsheet => ["excel", "spreadsheet"]
    case Image => ["image"]
    case Archive => ["zip", "compressed"]
    case PlainText => ["text"]
    case Generic => []
  }

  /** The extensions that select a category. */
  function Extensions(icon: Icon): seq<string> {
    match icon
    case Pdf => ["pdf"]
    case Word => ["doc", "docx"]
    case Spreadsheet => ["xls", "xlsx"]
    case Image => ["jpg", "jpeg", "png", "gif", "bmp", "svg"]
    case Archive => ["zip", "rar", "7z", "tar", "gz"]
    case PlainText => ["txt", "log", "md"]
    case Generic => []
  }

  /** A category matches when the MIME type contains one of its fragments or
      the extension is one of its extensions. */
  predicate Matches(icon: Icon, ext: string, mimeType: Option<string>) {
    (exists p :: p in MimePatterns(icon) && MimeHas(mimeType, p)) || ext in Extensions(icon)
  }

  /** The order in which getFileIcon tries the categories. */
  const Order: seq<Icon> := [Pdf, Word, Spreadsheet, Image, Archive, PlainText]

  /** The position of the first category of `order` that matches; |order|
      when none does. */
  function FirstIndex(order: seq<Icon>, ext: string, mimeType: Option<string>): (i: nat)
    ensures i <= |order|
    ensures i < |order| ==> Matches(order[i], ext, mimeType)
    ensures forall j :: 0 <= j < i ==> !Matches(order[j], ext, mimeType)
    decreases order
  {
    if order == [] then 0
    else if Matches(order[0], ext, mimeType) then 0
    else 1 + FirstIndex(order[1..], ext, mimeType)
  }

  /** The first category of `order` that matches; the generic icon when none
      does. */
  function FirstMatch(order: seq<Icon>, ext: string, mimeType: Option<string>): (r: Icon)
    ensures r != Generic ==> exists i :: 0 <= i < |order| && order[i] == r && Matches(r, ext, mimeType)
                                         && forall j :: 0 <= j < i ==> !Matches(order[j], ext, mimeType)
    ensures Generic !in order ==> (r == Generic <==> forall i :: 0 <= i < |order| ==> !Matches(order[i], ext, mimeType))
  {
    var i := FirstIndex(order, ext, mimeType);
    if i < |order| then order[i] else Generic
  }

  /** A matching category behind `k` failed ones is the first match. */
  lemma FirstIndexAt(order: seq<Icon>, ext: string, mimeType: Option<string>, k: nat)
    requires k < |order| && Matches(order[k], ext, mimeType)
    requires forall j :: 0 <= j < k ==> !Matches(order[j], ext, mimeType)
    ensures FirstIndex(order, ext, mimeType) == k
  {
  }

  /** getFileIcon: the categories are tried in a fixed order, each matching on
      the MIME type or on a list of extensions; the first match decides. */
  function FileIcon(fileName: string, mimeType: Option<string>): Icon {
    FirstMatch(Order, Extension(fileName), mimeType)
  }

  /** The extension is the part after the last dot, whatever the stem holds,
      and its case does not matter. */
  lemma ExtensionOfName(stem: string, ext: string)
    requires '.' !in ext
    ensures Extension(stem + "." + ext) == Lower(ext)
  {
    AfterLastOf(stem, '.', ext);
  }

  /** An empty MIME type matches nothing, like an absent one. */
  lemma EmptyMimeIsAbsent(order: seq<Icon>, ext: string)
    ensures FirstMatch(order, ext, Some("")) == FirstMatch(order, ext, None)
  {
    forall icon ensures Matches(icon, ext, Some("")) <==> Matches(icon, ext, None) {
      forall p | p in MimePatterns(icon)
        ensures !MimeHas(Some(""), p)
      {
        assert IndexOf("", p).None?;
      }
    }
    var i := FirstIndex(order, ext, None);
    if i < |order| {
      FirstIndexAt(order, ext, Some(""), i);
    } else {
      assert forall j :: 0 <= j < |order| ==> !Matches(order[j], ext, Some(""));
    }
  }

  /** PDF is the first category tried, so a PDF MIME type gives the PDF
      icon for any name, and a name ending in ".pdf" does for any MIME
      type. */
  lemma PdfWins(fileName: string, mimeType: Option<string>)
    requires MimeHas(mimeType, "pdf") || Extension(fileName) == "pdf"
    ensures FileIcon(fileName, mimeType) == Pdf
  {
    var ext := Extension(fileName);
    assert MimePatterns(Pdf)[0] == "pdf" && Extensions(Pdf)[0] == "pdf";
    FirstIndexAt(Order, ext, mimeType, 0);
  }

  /** Upper-case extensions are recognised. */
  lemma UpperCaseExtension(stem: string)
    ensures FileIcon(stem + ".PDF", None) == Pdf
  {
    assert stem + ".PDF" == stem + "." + "PDF";
    ExtensionOfName(stem, "PDF");
    var low := Lower("PDF");
    assert low[0] == 'p' && low[1] == 'd' && low[2] == 'f';
    assert low == "pdf";
    PdfWins(stem + ".PDF", None);
  }

  /** Only the part after the last dot counts: "x.pdf.gz" is an archive. */
  lemma LastDotCounts(stem: string)
    ensures FileIcon(stem + ".pdf.gz", None) == Archive
  {
    assert stem + ".pdf.gz" == (stem + ".pdf") + "." + "gz";
    ExtensionOfName(stem + ".pdf", "gz");
    var low := Lower("gz");
    assert low[0] == 'g' && low[1] == 'z';
    assert low == "gz";
    NoMimeMatch("gz");
    assert "gz" == Extensions(Archive)[4];
    ArchiveAfterFour("gz", None);
  }

  /** Without a MIME type, a two-letter extension matches none of the first
      four categories, whose extensions are all longer. */
  lemma NoMimeMatch(ext: string)
    requires |ext| == 2
    ensures forall i :: 0 <= i < 4 ==> !Matches(Order[i], ext, None)
  {
    forall i | 0 <= i < 4
      ensures ext !in Extensions(Order[i])
    {
      var exts := Extensions(Order[i]);
      forall k | 0 <= k < |exts|
        ensures |exts[k]| >= 3
      {
      }
    }
  }

  /** An archive match behind four failed categories decides the icon. */
  lemma ArchiveAfterFour(ext: string, mimeType: Option<string>)
    requires forall i :: 0 <= i < 4 ==> !Matches(Order[i], ext, mimeType)
    requires Matches(Archive, ext, mimeType)
    ensures FirstMatch(Order, ext, mimeType) == Archive
  {
    FirstIndexAt(Order, ext, mimeType, 4);
  }

  /** The size column for sizes under 1024: the decimal size and " B". The
      kilobyte and megabyte branches format floating point and are not
      modelled. */
  function ByteLabel(size: nat): (r: Option<string>)
    ensures r.Some? <==> size < 1024
    ensures r.Some? ==> |r.value| >= 3 && r.value[|r.value| - 2..] == " B"
                        && AllDigits(r.value[..|r.value| - 2])
  {
    if size < 1024 then Some(NatToString(size) + " B") else None
  }

  /** Different byte sizes are shown differently. */
  lemma ByteLabelInjective(a: nat, b: nat)
    requires a < 1024 && b < 1024 && ByteLabel(a) == ByteLabel(b)
    ensures a == b
  {
    var la := ByteLabel(a).value;
    assert la[..|la| - 2] == NatToString(a);
    assert ByteLabel(b).value[..|la| - 2] == NatToString(b);
    NatToStringInjective(a, b);
  }
}
