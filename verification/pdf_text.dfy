/** The text rules of the PDF report (app.py): `clean_text`, which makes a
    string safe for the PDF writer's built-in font, and the choice of the
    narrative excerpt printed under the report's "The Bottom Line" title. */
module PdfText {
  import opened Text

  /** The headings the analyst prompt tells the language model to emit
      (agents/prompts.py:9 and :12). */
  const BottomLineHeading: string := "### \U{1F3AF} The Bottom Line"
  const KeyDriversHeading: string := "### \U{26A1} Key Drivers"

  /** What precedes "Key Drivers" in its heading. */
  const KeyDriversDecoration: string := "### \U{26A1} "

  /** The substrings app.py searches the narrative for. */
  const BottomLineMarker: string := "Bottom Line"
  const KeyDriversMarker: string := "Key Drivers"

  /** Without a "Bottom Line" heading the report prints this many leading
      characters of the narrative, followed by an ellipsis. */
  const FallbackLength: nat := 300
  const Ellipsis: string := "..."

  // ---------------------------------------------------------------------
  // clean_text
  // ---------------------------------------------------------------------

  predicate IsAscii(c: char) {
    (c as int) < 128
  }

  predicate NotHash(c: char) {
    c != '#'
  }

  predicate NotStar(c: char) {
    c != '*'
  }

  /** The characters that survive the three deletions of `clean_text`. */
  predicate Printable(c: char) {
    IsAscii(c) && c != '#' && c != '*'
  }

  /** `clean_text`: delete every non-ASCII character (the regular
      expression `[^\x00-\x7F]+`), then every `#`, then every `*`, then
      strip surrounding whitespace. */
  function CleanText(text: string): (r: string)
    ensures Trimmed(r)
  {
    var ascii := Filter(text, IsAscii);
    var noHash := Filter(ascii, NotHash);
    Strip(Filter(noHash, NotStar))
  }

  /** The three deletions amount to one pass keeping the printable
      characters. */
  lemma CleanTextSinglePass(text: string)
    ensures CleanText(text) == Strip(Filter(text, Printable))
  {
    var asciiNoHash := (c: char) => IsAscii(c) && NotHash(c);
    FilterFilter(text, IsAscii, NotHash, asciiNoHash);
    FilterFilter(text, asciiNoHash, NotStar, Printable);
  }

  /** Every character `clean_text` returns is ASCII and neither `#` nor
      `*`, and there is no whitespace at either end. */
  lemma CleanTextOutput(text: string)
    ensures forall k :: 0 <= k < |CleanText(text)| ==> Printable(CleanText(text)[k])
    ensures Trimmed(CleanText(text))
  {
    CleanTextSinglePass(text);
    StripKeeps(Filter(text, Printable), Printable);
  }

  /** `clean_text` only deletes: its result is a subsequence of its input. */
  lemma CleanTextSubsequence(text: string)
    ensures IsSubsequence(CleanText(text), text)
  {
    CleanTextSinglePass(text);
    var kept := Filter(text, Printable);
    FilterIsSubsequence(text, Printable);
    var i, j := StripSlice(kept);
    SliceIsSubsequence(kept, i, j);
    SubsequenceTransitive(CleanText(text), kept, text);
  }

  /** Text `clean_text` would leave alone: printable throughout and with
      no whitespace at either end. */
  predicate IsClean(t: string) {
    (forall k :: 0 <= k < |t| ==> Printable(t[k])) && Trimmed(t)
  }

  /** `clean_text` returns clean text unchanged, and only clean text is
      returned unchanged. */
  lemma CleanTextFixedPoints(t: string)
    ensures CleanText(t) == t <==> IsClean(t)
  {
    CleanTextOutput(t);
    if IsClean(t) {
      CleanTextSinglePass(t);
      FilterKeepsAll(t, Printable);
      StripTrimmed(t);
    }
  }

  /** `clean_text` is idempotent. */
  lemma CleanTextIdempotent(text: string)
    ensures CleanText(CleanText(text)) == CleanText(text)
  {
    CleanTextOutput(text);
    CleanTextFixedPoints(CleanText(text));
  }

  /** A character that is either deleted by `clean_text` or blank. */
  predicate Noise(c: char) {
    !Printable(c) || IsSpace(c)
  }

  lemma DecorationIsNoise()
    ensures forall k :: 0 <= k < |KeyDriversDecoration| ==> Noise(KeyDriversDecoration[k])
  {
    assert KeyDriversDecoration == ['#', '#', '#', ' ', '\U{26A1}', ' '];
  }

  /** Trailing text made only of blanks and of characters `clean_text`
      deletes does not change the cleaned result. */
  lemma CleanTextIgnoresTail(body: string, tail: string)
    requires forall k :: 0 <= k < |tail| ==> Noise(tail[k])
    ensures CleanText(body + tail) == CleanText(body)
  {
    CleanTextSinglePass(body + tail);
    CleanTextSinglePass(body);
    FilterConcat(body, tail, Printable);
    var t := Filter(tail, Printable);
    assert AllSpace(t) by {
      FilterKeepsSpace(tail);
    }
    StripAppendSpace(Filter(body, Printable), t);
  }

  lemma {:induction false} FilterKeepsSpace(tail: string)
    requires forall k :: 0 <= k < |tail| ==> Noise(tail[k])
    ensures AllSpace(Filter(tail, Printable))
    decreases |tail|
  {
    if |tail| > 0 {
      FilterKeepsSpace(tail[1..]);
      var head := if Printable(tail[0]) then [tail[0]] else "";
      assert Filter(tail, Printable) == head + Filter(tail[1..], Printable);
    }
  }

  // ---------------------------------------------------------------------
  // The "Bottom Line" excerpt
  // ---------------------------------------------------------------------

  /** `report_text.split("Bottom Line")[-1].split("Key Drivers")[0]`. */
  function BottomLineSnippet(report: string): (r: string)
    ensures |r| <= |report|
    ensures !Contains(r, BottomLineMarker) && !Contains(r, KeyDriversMarker)
  {
    var after := Last(Split(report, BottomLineMarker));
    var snippet := Split(after, KeyDriversMarker)[0];
    SplitLast(report, BottomLineMarker);
    SplitHead(after, KeyDriversMarker);
    NotContainsPrefix(after, BottomLineMarker, |snippet|);
    snippet
  }

  /** The text `generate_pdf_report` writes under "The Bottom Line": the
      cleaned excerpt when the narrative mentions "Bottom Line", otherwise
      the cleaned first 300 characters followed by "...". */
  function BottomLineText(report: string): (r: string)
    ensures Contains(report, BottomLineMarker) ==>
      && r == CleanText(BottomLineSnippet(report))
      && IsClean(r)
    ensures !Contains(report, BottomLineMarker) ==>
      && |Ellipsis| <= |r| <= FallbackLength + |Ellipsis|
      && r[|r| - |Ellipsis|..] == Ellipsis
      && r[..|r| - |Ellipsis|] == CleanText(Take(report, FallbackLength))
      && IsClean(r[..|r| - |Ellipsis|])
      && IsSubsequence(r[..|r| - |Ellipsis|], Take(report, FallbackLength))
      && (IsClean(Take(report, FallbackLength)) ==> r == Take(report, FallbackLength) + Ellipsis)
  {
    if Contains(report, BottomLineMarker) then
      CleanTextOutput(BottomLineSnippet(report));
      CleanText(BottomLineSnippet(report))
    else
      var head := Take(report, FallbackLength);
      var shown := CleanText(head);
      CleanTextOutput(head);
      CleanTextSubsequence(head);
      CleanTextFixedPoints(head);
      assert (shown + Ellipsis)[..|shown|] == shown;
      shown + Ellipsis
  }

  lemma MarkersLeadUnique()
    ensures LeadUnique(BottomLineMarker) && LeadUnique(KeyDriversMarker)
  {
  }

  /** `start` is the index of the last "Bottom Line" in `report`, and
      `snippet` is the text right after it, up to the first "Key Drivers"
      that follows or to the end of the report. */
  ghost predicate ExcerptAt(report: string, start: nat, snippet: string) {
    var from := start + |BottomLineMarker|;
    && OccursAt(report, BottomLineMarker, start)
    && (forall j :: start < j ==> !OccursAt(report, BottomLineMarker, j))
    && from + |snippet| <= |report|
    && report[from..from + |snippet|] == snippet
    && !Contains(snippet, BottomLineMarker)
    && !Contains(snippet, KeyDriversMarker)
    && (from + |snippet| == |report| || OccursAt(report, KeyDriversMarker, from + |snippet|))
  }

  /** The last mention of "Bottom Line": the text after it is the last
      piece of the split. */
  lemma LastBottomLine(report: string) returns (start: nat)
    requires Contains(report, BottomLineMarker)
    ensures OccursAt(report, BottomLineMarker, start)
    ensures forall j :: start < j ==> !OccursAt(report, BottomLineMarker, j)
    ensures report[start + |BottomLineMarker|..] == Last(Split(report, BottomLineMarker))
  {
    MarkersLeadUnique();
    var bl := BottomLineMarker;
    var after := Last(Split(report, bl));
    SplitLast(report, bl);
    start := |report| - |after| - |bl|;
    var from := start + |bl|;
    assert report[from..] == after;
    forall j: nat | start < j
      ensures !OccursAt(report, bl, j)
    {
      NoOverlap(report, bl, start, j);
      if from <= j {
        OccursInSuffix(report, bl, from, j - from);
        ContainsIff(after, bl, j - from);
      }
    }
  }

  /** When the narrative mentions "Bottom Line", the excerpt is the
      contiguous text after its LAST mention, cut at the first following
      "Key Drivers", and contains neither marker. */
  lemma SnippetFollowsLastMarker(report: string) returns (start: nat)
    requires Contains(report, BottomLineMarker)
    ensures ExcerptAt(report, start, BottomLineSnippet(report))
  {
    start := LastBottomLine(report);
    var from := start + |BottomLineMarker|;
    var after := report[from..];
    var snippet := BottomLineSnippet(report);
    SplitHead(after, KeyDriversMarker);
    assert after[..|snippet|] == snippet;
    assert report[from..from + |snippet|] == snippet;
    OccursInSuffix(report, KeyDriversMarker, from, |snippet|);
  }

  /** For a narrative that follows the prompt's template, the excerpt is
      the section body followed by the decoration of the next heading. */
  lemma TemplateSnippet(pre: string, body: string, rest: string)
    requires !Contains(body + KeyDriversHeading + rest, BottomLineMarker)
    requires !Contains(body, KeyDriversMarker)
    ensures var report := pre + BottomLineHeading + body + KeyDriversHeading + rest;
      && Contains(report, BottomLineMarker)
      && BottomLineSnippet(report) == body + KeyDriversDecoration
  {
    MarkersLeadUnique();
    var report := pre + BottomLineHeading + body + KeyDriversHeading + rest;
    var lead := "### \U{1F3AF} The ";
    var decoration := KeyDriversDecoration;
    var a := pre + lead;
    var b := body + KeyDriversHeading + rest;
    assert BottomLineHeading == lead + BottomLineMarker;
    assert KeyDriversHeading == decoration + KeyDriversMarker;
    assert report == a + BottomLineMarker + b;
    assert OccursAt(report, BottomLineMarker, |a|) by {
      assert report[|a|..|a| + |BottomLineMarker|] == BottomLineMarker;
    }
    ContainsIff(report, BottomLineMarker, |a|);
    SplitLastAfter(a, BottomLineMarker, b);
    assert b == (body + decoration) + KeyDriversMarker + rest;
    NotContainsAppend(body, decoration, KeyDriversMarker);
    SplitHeadBefore(body + decoration, KeyDriversMarker, rest);
  }

  /** A narrative that follows the prompt's template, with nothing after
      the Bottom Line heading mentioning "Bottom Line" again and no "Key
      Drivers" inside the section, yields exactly the cleaned section body. */
  lemma TemplateSectionExtracted(pre: string, body: string, rest: string)
    requires !Contains(body + KeyDriversHeading + rest, BottomLineMarker)
    requires !Contains(body, KeyDriversMarker)
    ensures BottomLineText(pre + BottomLineHeading + body + KeyDriversHeading + rest) == CleanText(body)
  {
    TemplateSnippet(pre, body, rest);
    DecorationIsNoise();
    CleanTextIgnoresTail(body, KeyDriversDecoration);
  }
}
