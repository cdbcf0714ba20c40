/** The PDF processor: title, author and abstract heuristics over the text
    and the document information that a PDF parser extracts. The parser
    itself is outside the model: a document is given as the text of its pages
    and its optional information fields. */
module Processor {
  import opened Wrappers
  import opened Strings
  import opened Paths

  // ---------------------------------------------------------------------------
  // Data model
  // ---------------------------------------------------------------------------

  /** Metadata of one paper. `keywords` and `doi` are never filled in. */
  datatype PaperMetadata = PaperMetadata(
    title: string,
    authors: seq<string>,
    publicationDate: Option<string>,
    abstractText: Option<string>,
    keywords: seq<string>,
    doi: Option<string>,
    sourceFile: Path)

  /** A processed paper: its metadata, its full text and its sections by name. */
  datatype PaperContent = PaperContent(
    metadata: PaperMetadata,
    text: string,
    sections: map<string, string>)

  /** The document information dictionary of a PDF. The creation date is
      given already formatted as `YYYY-MM-DD`. */
  datatype DocumentInfo = DocumentInfo(
    title: Option<string>,
    author: Option<string>,
    creationDate: Option<string>)

  /** What the PDF parser yields: the text of every page, in order, and the
      information dictionary when the file has one. */
  datatype PdfDocument = PdfDocument(pages: seq<string>, info: Option<DocumentInfo>)

  /** Python truthiness of an optional string: present and not empty. */
  predicate Truthy(s: Option<string>) {
    s.Some? && s.value != ""
  }

  const AbstractLabel := "abstract"
  const IntroductionMarker := "introduction"
  /** The section headers that may end an abstract when no introduction
      follows it, in the order the source lists them. */
  const OtherEndMarkers := ["keywords", "1.", "i.", "background"]
  /** How far an abstract runs when no header ends it. */
  const FallbackLength := 1500

  // ---------------------------------------------------------------------------
  // Text assembly
  // ---------------------------------------------------------------------------

  function SumLengths(pages: seq<string>): nat {
    if pages == [] then 0 else SumLengths(pages[..|pages| - 1]) + |pages[|pages| - 1]|
  }

  /** The full text: every page followed by a blank line, in page order. */
  function PagesText(pages: seq<string>): (text: string)
    ensures |text| == SumLengths(pages) + 2 * |pages|
  {
    if pages == [] then ""
    else PagesText(pages[..|pages| - 1]) + pages[|pages| - 1] + "\n\n"
  }

  /** The text of two runs of pages is the text of the first followed by the
      text of the second, so every page sits in the full text in order. */
  lemma {:induction false} PagesTextAppend(a: seq<string>, b: seq<string>)
    ensures PagesText(a + b) == PagesText(a) + PagesText(b)
  {
    if b == [] {
      assert a + b == a;
    } else {
      var b', page := b[..|b| - 1], b[|b| - 1];
      PagesTextAppend(a, b');
      assert (a + b)[..|a + b| - 1] == a + b';
      assert (a + b)[|a + b| - 1] == page;
      var x, y := PagesText(a), PagesText(b');
      assert (x + y) + page + "\n\n" == x + (y + page + "\n\n");
    }
  }

  /** `extract_text`: appends each page's text and a blank line. */
  method ExtractText(pages: seq<string>) returns (text: string)
    ensures text == PagesText(pages)
    ensures |text| == SumLengths(pages) + 2 * |pages|
  {
    text := "";
    for i := 0 to |pages|
      invariant text == PagesText(pages[..i])
    {
      assert pages[..i + 1][..i] == pages[..i];
      text := text + pages[i] + "\n\n";
    }
    assert pages[..|pages|] == pages;
  }

  // ---------------------------------------------------------------------------
  // Title from the first page
  // ---------------------------------------------------------------------------

  /** A line counts as blank when stripping it leaves nothing. */
  predicate IsBlank(line: string) {
    Strip(line) == ""
  }

  /** The index of the first line that is not blank, or the number of lines
      when every line is blank. */
  function FirstNonBlank(lines: seq<string>): (k: nat)
    ensures k <= |lines|
    ensures forall j :: 0 <= j < k ==> IsBlank(lines[j])
    ensures k < |lines| ==> !IsBlank(lines[k])
  {
    if lines == [] then 0
    else if !IsBlank(lines[0]) then 0
    else
      var k := FirstNonBlank(lines[1..]);
      assert forall j :: 1 <= j < |lines| ==> lines[j] == lines[1..][j - 1];
      k + 1
  }

  /** Every line before `k` is blank and line `k`, if there is one, is not:
      then `k` is where the first line with content is. */
  lemma {:induction false} FirstNonBlankIs(lines: seq<string>, k: nat)
    requires k <= |lines|
    requires forall j :: 0 <= j < k ==> IsBlank(lines[j])
    requires k < |lines| ==> !IsBlank(lines[k])
    ensures FirstNonBlank(lines) == k
  {
    if k > 0 {
      assert IsBlank(lines[0]);
      assert forall j :: 0 <= j < k - 1 ==> lines[1..][j] == lines[j + 1];
      FirstNonBlankIs(lines[1..], k - 1);
    }
  }

  /** Every line is blank. */
  predicate AllBlank(lines: seq<string>) {
    forall j :: 0 <= j < |lines| ==> IsBlank(lines[j])
  }

  /** The title read from page 1: the first line with content, stripped, or
      "" when there are no pages or every line of page 1 is blank. */
  function PageTitle(pages: seq<string>): (t: string)
    ensures IsTrimmed(t)
    ensures t != "" ==> pages != [] && !AllWhitespace(t)
  {
    if pages == [] then ""
    else
      var lines := Split(pages[0], '\n');
      var k := FirstNonBlank(lines);
      if k < |lines| then Strip(lines[k]) else ""
  }

  /** The page-1 title is empty exactly when there is no page or every line
      of page 1 is blank; otherwise it is the first line with content,
      stripped. */
  lemma PageTitleIsFirstContentLine(pages: seq<string>)
    ensures pages == [] ==> PageTitle(pages) == ""
    ensures pages != [] ==>
              var lines := Split(pages[0], '\n');
              (PageTitle(pages) == "" <==> AllBlank(lines))
    ensures pages != [] && PageTitle(pages) != "" ==>
              var lines := Split(pages[0], '\n');
              exists k :: 0 <= k < |lines| && PageTitle(pages) == Strip(lines[k])
                          && forall j :: 0 <= j < k ==> IsBlank(lines[j])
  {
    if pages != [] {
      var lines := Split(pages[0], '\n');
      var k := FirstNonBlank(lines);
      if k < |lines| {
        assert !IsBlank(lines[k]);
        assert PageTitle(pages) == Strip(lines[k]) != "";
        assert !AllBlank(lines);
      } else {
        assert PageTitle(pages) == "";
        assert AllBlank(lines);
      }
    }
  }

  /** `_extract_title_from_text`: scans the lines of page 1 and returns the
      first one that has content. */
  method ExtractTitleFromText(pages: seq<string>) returns (title: string)
    ensures title == PageTitle(pages)
  {
    if |pages| == 0 {
      return "";
    }
    var lines := Split(pages[0], '\n');
    for i := 0 to |lines|
      invariant forall j :: 0 <= j < i ==> IsBlank(lines[j])
    {
      var line := Strip(lines[i]);
      if line != "" {
        FirstNonBlankIs(lines, i);
        return line;
      }
    }
    FirstNonBlankIs(lines, |lines|);
    return "";
  }

  // ---------------------------------------------------------------------------
  // Metadata
  // ---------------------------------------------------------------------------

  /** The information-dictionary title, or "" when it is missing or empty. */
  function InfoTitle(doc: PdfDocument): string {
    if doc.info.Some? && Truthy(doc.info.value.title) then doc.info.value.title.value else ""
  }

  /** One stripped author per comma-separated piece of the author field. */
  function SplitAuthors(field: string): (authors: seq<string>)
    ensures |authors| == Count(field, ',') + 1
    ensures forall k :: 0 <= k < |authors| ==> authors[k] == Strip(Split(field, ',')[k])
    ensures forall k :: 0 <= k < |authors| ==> IsTrimmed(authors[k]) && ',' !in authors[k]
  {
    var pieces := Split(field, ',');
    seq(|pieces|, k requires 0 <= k < |pieces| => Strip(pieces[k]))
  }

  /** The authors of a document: none when the author field is missing or
      empty. */
  function AuthorsOf(info: Option<DocumentInfo>): seq<string> {
    if info.Some? && Truthy(info.value.author) then SplitAuthors(info.value.author.value) else []
  }

  /** `extract_metadata`. The title is the information-dictionary title when
      it is not empty, else the first non-blank line of page 1, else the file
      stem. */
  function ExtractMetadata(doc: PdfDocument, path: Path): (m: PaperMetadata)
    ensures InfoTitle(doc) != "" ==> m.title == InfoTitle(doc)
    ensures InfoTitle(doc) == "" && PageTitle(doc.pages) != "" ==> m.title == PageTitle(doc.pages)
    ensures InfoTitle(doc) == "" && PageTitle(doc.pages) == "" ==> m.title == Stem(path)
    ensures m.title != "" || Stem(path) == ""
    ensures m.authors == AuthorsOf(doc.info)
    ensures m.publicationDate == if doc.info.Some? then doc.info.value.creationDate else None
    ensures m.sourceFile == path
    ensures m.abstractText == None && m.keywords == [] && m.doi == None
  {
    var title := if InfoTitle(doc) != "" then InfoTitle(doc) else PageTitle(doc.pages);
    PaperMetadata(
      title := if title != "" then title else Stem(path),
      authors := AuthorsOf(doc.info),
      publicationDate := if doc.info.Some? then doc.info.value.creationDate else None,
      abstractText := None,
      keywords := [],
      doi := None,
      sourceFile := path)
  }

  /** A paper saved as `<dir>/<id>.pdf` whose PDF has no title of its own and
      a blank first page is titled by `<id>`. */
  lemma UntitledPaperTakesFileStem(doc: PdfDocument, dir: Path, id: string)
    requires id != ""
    requires InfoTitle(doc) == "" && PageTitle(doc.pages) == ""
    ensures ExtractMetadata(doc, Div(dir, id + ".pdf")).title == id
  {
    StemOfPdfFile(dir, id);
  }

  // ---------------------------------------------------------------------------
  // Abstract detection
  // ---------------------------------------------------------------------------

  /** The least position at or after `start` where one of `markers` occurs in
      `lower`, or -1 when none occurs. */
  function MinFound(lower: string, markers: seq<string>, start: nat): (r: int)
    ensures r == -1 ==> forall k, i :: 0 <= k < |markers| && start <= i ==> !OccursAt(lower, markers[k], i)
    ensures r != -1 ==> start <= r && exists k :: 0 <= k < |markers| && OccursAt(lower, markers[k], r)
    ensures r != -1 ==> forall k, i :: 0 <= k < |markers| && start <= i < r ==> !OccursAt(lower, markers[k], i)
  {
    if markers == [] then -1
    else
      var init := markers[..|markers| - 1];
      var best := MinFound(lower, init, start);
      var pos := Find(lower, markers[|markers| - 1], start);
      assert forall k :: 0 <= k < |init| ==> markers[k] == init[k];
      if pos != -1 && (best == -1 || pos < best) then pos else best
  }

  /** Where the abstract ends: the first "introduction" at or after
      `start`, else the nearest other end marker, else `FallbackLength`
      characters on. */
  function AbstractEnd(lower: string, start: nat): (e: nat)
    ensures start <= e
    ensures e == start + FallbackLength || OccursAt(lower, IntroductionMarker, e)
            || exists k :: 0 <= k < |OtherEndMarkers| && OccursAt(lower, OtherEndMarkers[k], e)
  {
    var intro := Find(lower, IntroductionMarker, start);
    if intro != -1 then intro
    else
      var other := MinFound(lower, OtherEndMarkers, start);
      if other != -1 then other else start + FallbackLength
  }

  /** The end of the abstract, stated by occurrences. If "introduction"
      occurs at or after `start`, its first such occurrence ends the
      abstract, whatever the other markers say; otherwise the first
      occurrence of any other end marker does; otherwise the abstract runs for
      `FallbackLength` characters. */
  lemma AbstractEndIsNearestMarker(lower: string, start: nat)
    ensures var e := AbstractEnd(lower, start);
            (exists i :: start <= i && OccursAt(lower, IntroductionMarker, i)) ==>
              start <= e && OccursAt(lower, IntroductionMarker, e)
              && forall i :: start <= i < e ==> !OccursAt(lower, IntroductionMarker, i)
    ensures var e := AbstractEnd(lower, start);
            (forall i :: start <= i ==> !OccursAt(lower, IntroductionMarker, i))
            && (exists k, i :: 0 <= k < |OtherEndMarkers| && start <= i && OccursAt(lower, OtherEndMarkers[k], i)) ==>
              start <= e && (exists k :: 0 <= k < |OtherEndMarkers| && OccursAt(lower, OtherEndMarkers[k], e))
              && forall k, i :: 0 <= k < |OtherEndMarkers| && start <= i < e ==> !OccursAt(lower, OtherEndMarkers[k], i)
    ensures var e := AbstractEnd(lower, start);
            (forall i :: start <= i ==> !OccursAt(lower, IntroductionMarker, i))
            && (forall k, i :: 0 <= k < |OtherEndMarkers| && start <= i ==> !OccursAt(lower, OtherEndMarkers[k], i)) ==>
              e == start + FallbackLength
  {
  }

  /** Trims the captured span and removes a leading "abstract" label. */
  function CleanAbstract(span: string): (a: string)
    ensures IsTrimmed(a) && |a| <= |span|
    ensures IsTrimmed(span) && !StartsWith(Lower(span), AbstractLabel) ==> a == span
  {
    var a := Strip(span);
    if StartsWith(Lower(a), AbstractLabel) then Strip(a[|AbstractLabel|..]) else a
  }

  /** `_extract_sections`, as a value. */
  function Sections(text: string): (sections: map<string, string>)
    ensures sections.Keys <= {AbstractLabel}
    ensures forall key :: key in sections ==> IsTrimmed(sections[key])
  {
    var lower := Lower(text);
    var start := Find(lower, AbstractLabel, 0);
    if start == -1 then map[]
    else map[AbstractLabel := CleanAbstract(Slice(text, start, AbstractEnd(lower, start)))]
  }

  /** Without an "abstract" anywhere in the lower-cased text there are no
      sections. */
  lemma NoLabelNoSections(text: string)
    requires forall i :: !OccursAt(Lower(text), AbstractLabel, i)
    ensures Sections(text) == map[]
  {
  }

  /** With an "abstract" somewhere in the lower-cased text the sections map
      has exactly the key "abstract", and its text has no leading or trailing
      whitespace. */
  lemma LabelGivesTrimmedAbstract(text: string)
    requires exists i :: OccursAt(Lower(text), AbstractLabel, i)
    ensures Sections(text).Keys == {AbstractLabel}
    ensures IsTrimmed(Sections(text)[AbstractLabel])
  {
    var lower := Lower(text);
    var start := Find(lower, AbstractLabel, 0);
    var a := Strip(Slice(text, start, AbstractEnd(lower, start)));
    if StartsWith(Lower(a), AbstractLabel) {
      assert CleanAbstract(Slice(text, start, AbstractEnd(lower, start))) == Strip(a[|AbstractLabel|..]);
    }
  }

  /** The label's characters, read off an occurrence of it. */
  lemma LabelAt(lower: string, start: nat, j: nat)
    requires OccursAt(lower, AbstractLabel, start)
    requires j < |AbstractLabel|
    ensures lower[start + j] == AbstractLabel[j]
  {
    assert lower[start..start + |AbstractLabel|][j] == lower[start + j];
  }

  /** No end marker can begin inside an occurrence of the "abstract" label:
      each begins with a character the label does not hold, except
      "background", whose second letter differs from the label's third. */
  lemma MarkerNotInsideLabel(lower: string, start: nat, m: string, p: nat)
    requires OccursAt(lower, AbstractLabel, start)
    requires m == IntroductionMarker || m in OtherEndMarkers
    requires start <= p < start + |AbstractLabel|
    ensures !OccursAt(lower, m, p)
  {
    var j := p - start;
    LabelAt(lower, start, j);
    if p + |m| <= |lower| {
      var w := lower[p..p + |m|];
      assert w[0] == lower[p];
      if j == 1 {
        LabelAt(lower, start, 2);
        assert w[1] == lower[p + 1];
        assert w[1] != m[1];
      } else {
        assert w[0] != m[0];
      }
    }
  }

  /** Every end marker lies beyond the label, so the span always holds the
      whole label. */
  lemma EndMarkersAfterLabel(lower: string, start: nat)
    requires OccursAt(lower, AbstractLabel, start)
    ensures AbstractEnd(lower, start) >= start + |AbstractLabel|
  {
    var intro := Find(lower, IntroductionMarker, start);
    if intro != -1 {
      if intro < start + |AbstractLabel| {
        MarkerNotInsideLabel(lower, start, IntroductionMarker, intro);
      }
    } else {
      var other := MinFound(lower, OtherEndMarkers, start);
      if other != -1 && other < start + |AbstractLabel| {
        var k :| 0 <= k < |OtherEndMarkers| && OccursAt(lower, OtherEndMarkers[k], other);
        MarkerNotInsideLabel(lower, start, OtherEndMarkers[k], other);
      }
    }
  }

  /** A prefix of a span that begins with the label, in any letter case,
      still begins with it once lower-cased. */
  lemma LabelledPrefix(span: string, e: nat)
    requires |AbstractLabel| <= e <= |span|
    requires forall i :: 0 <= i < |AbstractLabel| ==> LowerChar(span[i]) == AbstractLabel[i]
    ensures StartsWith(Lower(span[..e]), AbstractLabel)
  {
    var l := Lower(span[..e]);
    forall i | 0 <= i < |AbstractLabel| ensures l[..|AbstractLabel|][i] == AbstractLabel[i] {
      assert span[..e][i] == span[i];
    }
  }

  /** A span that begins with the label, in any letter case, is cleaned to
      the stripped text after the label. */
  lemma CleanLabelledSpan(span: string)
    requires |span| >= |AbstractLabel|
    requires forall i :: 0 <= i < |AbstractLabel| ==> LowerChar(span[i]) == AbstractLabel[i]
    ensures CleanAbstract(span) == Strip(span[|AbstractLabel|..])
  {
    forall i | 0 <= i < |AbstractLabel| ensures !IsWhitespace(span[i]) {
      LowerKeepsWhitespace(span[i]);
    }
    StripKeepsSolidPrefix(span, |AbstractLabel|);
    var e := TrimEnd(span, |span|);
    var a := span[..e];
    LabelledPrefix(span, e);
    SliceOfPrefix(span, e, |AbstractLabel|);
    SliceConcat(span, |AbstractLabel|, e);
    StripAppendWhitespace(span[|AbstractLabel|..e], span[e..]);
  }

  /** A span cut from the text at an occurrence of the label, and reaching
      at least past the label, is cleaned to the stripped text after it. */
  lemma CleanSpanAtLabel(text: string, start: nat, end: nat)
    requires OccursAt(Lower(text), AbstractLabel, start)
    requires start + |AbstractLabel| <= end
    ensures start + |AbstractLabel| <= |text|
    ensures CleanAbstract(Slice(text, start, end)) == Strip(Slice(text, start + |AbstractLabel|, end))
  {
    var lower := Lower(text);
    var stop := if end < |text| then end else |text|;
    var span := Slice(text, start, end);
    assert span == text[start..stop];
    forall i | 0 <= i < |AbstractLabel| ensures LowerChar(span[i]) == AbstractLabel[i] {
      LabelAt(lower, start, i);
      assert span[i] == text[start + i];
    }
    CleanLabelledSpan(span);
    assert span[|AbstractLabel|..] == text[start + |AbstractLabel|..stop];
    assert Slice(text, start + |AbstractLabel|, end) == text[start + |AbstractLabel|..stop];
  }

  /** The abstract is exactly the text between the "abstract" label and the
      end of the span, stripped: the label is always there to remove, because
      the span starts at an occurrence of it and every end marker lies beyond
      it. */
  lemma AbstractIsTextAfterLabel(text: string)
    requires exists i :: OccursAt(Lower(text), AbstractLabel, i)
    ensures var lower := Lower(text);
            var start := Find(lower, AbstractLabel, 0);
            var end := AbstractEnd(lower, start);
            0 <= start && start + |AbstractLabel| <= end
            && Sections(text)[AbstractLabel] == Strip(Slice(text, start + |AbstractLabel|, end))
  {
    var lower := Lower(text);
    var start := Find(lower, AbstractLabel, 0);
    EndMarkersAfterLabel(lower, start);
    CleanSpanAtLabel(text, start, AbstractEnd(lower, start));
  }

  /** The list of positions of `markers` found at or after `start`, without
      the misses, and its minimum: the nearest marker, or -1 when none of them
      is found. */
  method NearestMarker(lower: string, markers: seq<string>, start: nat) returns (best: int)
    ensures best == MinFound(lower, markers, start)
  {
    best := -1;
    for k := 0 to |markers|
      invariant best == MinFound(lower, markers[..k], start)
    {
      assert markers[..k + 1][..k] == markers[..k];
      var pos := Find(lower, markers[k], start);
      if pos != -1 && (best == -1 || pos < best) {
        best := pos;
      }
    }
    assert markers[..|markers|] == markers;
  }

  /** Strips the captured span and, when it begins with the label in any
      letter case, drops the label's eight characters and strips again. */
  method RemoveLabel(span: string) returns (abstractText: string)
    ensures abstractText == CleanAbstract(span)
    ensures IsTrimmed(abstractText)
  {
    abstractText := Strip(span);
    if StartsWith(Lower(abstractText), AbstractLabel) {
      abstractText := Strip(abstractText[|AbstractLabel|..]);
    }
  }

  /** `_extract_sections`: finds the abstract's start, then its end (the
      introduction, else the nearest other header, else a fixed window), and
      files the cleaned span under "abstract". */
  method ExtractSections(text: string) returns (sections: map<string, string>)
    ensures sections == Sections(text)
  {
    sections := map[];
    var lower := Lower(text);
    var start := Find(lower, AbstractLabel, 0);
    if start != -1 {
      var end: nat;
      var intro := Find(lower, IntroductionMarker, start);
      if intro == -1 {
        var best := NearestMarker(lower, OtherEndMarkers, start);
        if best != -1 {
          end := best;
        } else {
          end := start + FallbackLength;
        }
      } else {
        end := intro;
      }
      assert end == AbstractEnd(lower, start);
      var abstractText := RemoveLabel(Slice(text, start, end));
      sections := sections[AbstractLabel := abstractText];
    }
  }

  // ---------------------------------------------------------------------------
  // Whole-paper processing
  // ---------------------------------------------------------------------------

  /** `process_pdf`: metadata, text and sections of one document; the
      metadata's abstract is set exactly when an abstract section was
      found. */
  method ProcessPdf(doc: PdfDocument, path: Path) returns (content: PaperContent)
    ensures content.text == PagesText(doc.pages)
    ensures content.sections == Sections(content.text)
    ensures content.metadata.abstractText.Some? <==> AbstractLabel in content.sections
    ensures AbstractLabel in content.sections ==>
              content.metadata.abstractText.value == content.sections[AbstractLabel]
    ensures content.metadata.(abstractText := None) == ExtractMetadata(doc, path)
  {
    var metadata := ExtractMetadata(doc, path);
    var text := ExtractText(doc.pages);
    var sections := ExtractSections(text);
    if AbstractLabel in sections {
      metadata := metadata.(abstractText := Some(sections[AbstractLabel]));
    }
    content := PaperContent(metadata, text, sections);
  }
}
