/**
 * Clinical-notes text handling (notes_handler.py): escape expansion for notes
 * files, HTML-to-text cleaning, and the extraction of labelled clinical
 * sections from the eClinicalWorks Progress Notes HTML.
 *
 * The seven section regular expressions are not modelled as a regex engine:
 * their outcome on the HTML is an input, `SectionMatches`. The tag pattern
 * `<[^>]+>` and the table-cell pattern `<td[^>]*>(.*?)</td>` are concrete.
 */
module NotesHandler {
  import opened Wrappers
  import opened Strings

  // ---------------------------------------------------------------------------
  // format_notes

  /** `format_notes`: literal `\n`, `\t`, `\r` become the control characters, then the text is stripped. */
  function FormatNotes(notes: string): (r: string)
    ensures notes == [] ==> r == []
    ensures IsStripped(r)
  {
    if notes == [] then ""
    else
      var expanded := Replace(Replace(Replace(notes, "\\n", "\n"), "\\t", "\t"), "\\r", "\r");
      StripIsStripped(expanded);
      Strip(expanded)
  }

  /** The formatted notes contain none of the two-character escapes `\n`, `\t`, `\r`. */
  lemma FormatNotesExpandsEscapes(notes: string)
    ensures NoPair(FormatNotes(notes), '\\', 'n')
    ensures NoPair(FormatNotes(notes), '\\', 't')
    ensures NoPair(FormatNotes(notes), '\\', 'r')
  {
    if notes != [] {
      var a := Replace(notes, "\\n", "\n");
      var b := Replace(a, "\\t", "\t");
      var c := Replace(b, "\\r", "\r");
      ReplacePairLeavesNoPair(notes, '\\', 'n', '\n', '\\', 'n');
      ReplacePairLeavesNoPair(a, '\\', 't', '\t', '\\', 'n');
      ReplacePairLeavesNoPair(a, '\\', 't', '\t', '\\', 't');
      ReplacePairLeavesNoPair(b, '\\', 'r', '\r', '\\', 'n');
      ReplacePairLeavesNoPair(b, '\\', 'r', '\r', '\\', 't');
      ReplacePairLeavesNoPair(b, '\\', 'r', '\r', '\\', 'r');
      NoPairStrip(c, '\\', 'n');
      NoPairStrip(c, '\\', 't');
      NoPairStrip(c, '\\', 'r');
    }
  }

  /** Formatting already formatted notes changes nothing. */
  lemma FormatNotesIdempotent(notes: string)
    ensures FormatNotes(FormatNotes(notes)) == FormatNotes(notes)
  {
    var f := FormatNotes(notes);
    if f != [] {
      FormatNotesExpandsEscapes(notes);
      NoPairNotContains(f, '\\', 'n');
      ReplaceAbsent(f, "\\n", "\n");
      NoPairNotContains(f, '\\', 't');
      ReplaceAbsent(f, "\\t", "\t");
      NoPairNotContains(f, '\\', 'r');
      ReplaceAbsent(f, "\\r", "\r");
      StripOfStripped(f);
    }
  }

  // ---------------------------------------------------------------------------
  // _clean_html_content

  /**
   * `re.sub(r'<[^>]+>', ' ', s)`: a `<` followed by at least one character
   * and then the first `>` after it is a tag and becomes one space; any other
   * character is copied.
   */
  function StripTags(s: string): (r: string)
    ensures |r| <= |s|
    ensures forall c :: c in r ==> c in s || c == ' '
    decreases |s|
  {
    if s == [] then []
    else if s[0] == '<' then
      match IndexOf(s[1..], '>')
      case Some(k) => if k >= 1 then " " + StripTags(s[k + 2..]) else [s[0]] + StripTags(s[1..])
      case None => [s[0]] + StripTags(s[1..])
    else [s[0]] + StripTags(s[1..])
  }

  /** Text without `>` holds no tag, so it is copied unchanged, including any `<`. */
  lemma {:induction false} StripTagsWithoutClose(s: string)
    requires '>' !in s
    ensures StripTags(s) == s
    decreases |s|
  {
    if s != [] {
      assert '>' !in s[1..];
      StripTagsWithoutClose(s[1..]);
    }
  }

  /** Text without `<` holds no tag. */
  lemma {:induction false} StripTagsWithoutOpen(s: string)
    requires '<' !in s
    ensures StripTags(s) == s
    decreases |s|
  {
    if s != [] {
      assert '<' !in s[1..];
      StripTagsWithoutOpen(s[1..]);
    }
  }

  /** A tag `<t>` after tag-free text is replaced by exactly one space. */
  lemma {:induction false} StripTagsReplacesTag(a: string, t: string, b: string)
    requires '<' !in a && t != [] && '>' !in t
    ensures StripTags(a + "<" + t + ">" + b) == a + " " + StripTags(b)
    decreases |a|
  {
    var s := a + "<" + t + ">" + b;
    if a == [] {
      assert s[1..] == t + ">" + b;
      IndexOfAfter(t, '>', b);
      assert s[|t| + 2..] == b;
    } else {
      assert s[1..] == a[1..] + "<" + t + ">" + b;
      StripTagsReplacesTag(a[1..], t, b);
    }
  }

  /** The entity table, in the order the replacements are applied. */
  const EntityTable: seq<(string, string)> :=
    [("&nbsp;", " "), ("&amp;", "&"), ("&lt;", "<"), ("&gt;", ">"),
     ("&quot;", "\""), ("&#39;", "'"), ("&apos;", "'")]

  predicate EntitiesStartWithAmp(table: seq<(string, string)>)
  {
    forall k :: 0 <= k < |table| ==> table[k].0 != [] && table[k].0[0] == '&'
  }

  /** The replacements of `table`, applied one after the other. */
  function ApplyEntities(s: string, table: seq<(string, string)>): string
    requires EntitiesStartWithAmp(table)
    decreases |table|
  {
    if table == [] then s
    else
      var last := table[|table| - 1];
      Replace(ApplyEntities(s, table[..|table| - 1]), last.0, last.1)
  }

  lemma EntityTableWellFormed()
    ensures EntitiesStartWithAmp(EntityTable)
  {
  }

  function DecodeEntities(s: string): string
  {
    ApplyEntities(s, EntityTable)
  }

  /** Text without `&` holds no entity, so decoding changes nothing. */
  lemma {:induction false} ApplyEntitiesWithoutAmp(s: string, table: seq<(string, string)>)
    requires EntitiesStartWithAmp(table) && '&' !in s
    ensures ApplyEntities(s, table) == s
    decreases |table|
  {
    if table != [] {
      ApplyEntitiesWithoutAmp(s, table[..|table| - 1]);
      var last := table[|table| - 1];
      NotContainsWithoutHead(s, last.0);
      ReplaceAbsent(s, last.0, last.1);
    }
  }

  lemma DecodeWithoutAmp(s: string)
    requires '&' !in s
    ensures DecodeEntities(s) == s
  {
    EntityTableWellFormed();
    ApplyEntitiesWithoutAmp(s, EntityTable);
  }

  lemma ReplaceNbspInAmpLt()
    ensures Replace("&amp;lt;", "&nbsp;", " ") == "&amp;lt;"
  {
    var s := "&amp;lt;";
    assert Replace(s[3..], "&nbsp;", " ") == s[3..];
    assert s[2..][..6][0] != '&';
    ReplaceStep(s[2..], "&nbsp;", " ");
    assert s[2..][1..] == s[3..];
    assert s[1..][..6][0] != '&';
    ReplaceStep(s[1..], "&nbsp;", " ");
    assert s[1..][1..] == s[2..];
    assert s[..6][1] != "&nbsp;"[1];
    ReplaceStep(s, "&nbsp;", " ");
  }

  lemma ReplaceAmpInAmpLt()
    ensures Replace("&amp;lt;", "&amp;", "&") == "&lt;"
  {
    ReplaceAtFront("&amp;", "lt;", "&");
    assert "&amp;lt;" == "&amp;" + "lt;";
  }

  lemma ReplaceLtInLt()
    ensures Replace("&lt;", "&lt;", "<") == "<"
  {
    ReplaceAtFront("&lt;", "", "<");
    assert "&lt;" == "&lt;" + "";
  }

  /** `&amp;` is decoded before `&lt;`, so `&amp;lt;` is decoded twice and becomes `<`. */
  lemma DecodeAmpLt()
    ensures DecodeEntities("&amp;lt;") == "<"
  {
    var s := "&amp;lt;";
    var t := EntityTable;
    EntityTableWellFormed();
    assert t[..1][..0] == [] && t[..2][..1] == t[..1] && t[..3][..2] == t[..2];
    assert t[0] == ("&nbsp;", " ") && t[1] == ("&amp;", "&") && t[2] == ("&lt;", "<");
    ReplaceNbspInAmpLt();
    assert ApplyEntities(s, t[..1]) == s;
    ReplaceAmpInAmpLt();
    assert ApplyEntities(s, t[..2]) == "&lt;";
    ReplaceLtInLt();
    assert ApplyEntities(s, t[..3]) == "<";
    ApplyEntitiesWithoutAmp("<", t[3..]);
    ApplyEntitiesSplit(s, t, 3);
  }

  /** Applying a table is applying its first `n` entries, then the rest. */
  lemma {:induction false} ApplyEntitiesSplit(s: string, table: seq<(string, string)>, n: nat)
    requires EntitiesStartWithAmp(table) && n <= |table|
    ensures ApplyEntities(s, table) == ApplyEntities(ApplyEntities(s, table[..n]), table[n..])
    decreases |table|
  {
    if |table| > n {
      ApplyEntitiesSplit(s, table[..|table| - 1], n);
      assert table[..|table| - 1][..n] == table[..n];
      assert table[..|table| - 1][n..] == table[n..][..|table[n..]| - 1];
    } else {
      assert table[..n] == table;
    }
  }

  /**
   * `re.sub(r'\n\s*\n', '\n', s)`: from a newline, the regex takes the
   * whitespace run after it back to its last newline, and the whole match
   * becomes one newline.
   */
  function SquashBlankLines(s: string): string
    decreases |s|
  {
    if s == [] then []
    else if s[0] == '\n' then
      var run := s[1..][..|s| - 1 - |StripLeft(s[1..])|];
      match LastIndexOf(run, '\n')
      case Some(k) => "\n" + SquashBlankLines(s[k + 2..])
      case None => [s[0]] + SquashBlankLines(s[1..])
    else [s[0]] + SquashBlankLines(s[1..])
  }

  lemma {:induction false} SquashWithoutNewline(s: string)
    requires '\n' !in s
    ensures SquashBlankLines(s) == s
    decreases |s|
  {
    if s != [] {
      assert '\n' !in s[1..];
      SquashWithoutNewline(s[1..]);
    }
  }

  /** The stripped lines that are not blank, in order (`cleaned_lines`). */
  function NonBlankLines(lines: seq<string>): (r: seq<string>)
    ensures |r| <= |lines|
    decreases |lines|
  {
    if lines == [] then []
    else
      var line := Strip(lines[|lines| - 1]);
      NonBlankLines(lines[..|lines| - 1]) + (if line != [] then [line] else [])
  }

  /**
   * `_clean_html_content`: tags, entities, whitespace runs, blank lines, then
   * line-by-line stripping. Cleaned text has no newline, no two adjacent
   * whitespace characters and no surrounding whitespace.
   */
  function CleanHtml(content: string): (r: string)
    ensures content == [] ==> r == []
    ensures '\n' !in r
    ensures SingleSpaced(r)
    ensures IsStripped(r)
  {
    if content == [] then ""
    else
      var decoded := DecodeEntities(StripTags(content));
      var text := SquashBlankLines(CollapseSpaces(decoded));
      CleanLinesOfCollapsed(decoded);
      CollapsedStripNormalized(decoded);
      JoinWith(NonBlankLines(SplitOn(text, '\n')), "\n")
  }

  /**
   * Since `\s+` has already become one space, no newline is left for the
   * blank-line rule or the line split: they leave the collapsed text
   * stripped and otherwise unchanged.
   */
  lemma CleanLinesOfCollapsed(decoded: string)
    ensures JoinWith(NonBlankLines(SplitOn(SquashBlankLines(CollapseSpaces(decoded)), '\n')), "\n")
         == Strip(CollapseSpaces(decoded))
  {
    var c := CollapseSpaces(decoded);
    CollapseIsSingleSpaced(decoded);
    assert '\n' !in c;
    SquashWithoutNewline(c);
    assert IndexOf(c, '\n') == None;
    assert SplitOn(c, '\n') == [c];
    assert [c][..0] == [];
  }

  /** The imperative form of `_clean_html_content`: a loop over the entity table, then one over the lines. */
  method CleanHtmlContent(content: string) returns (r: string)
    ensures r == CleanHtml(content)
  {
    if content == [] {
      return "";
    }
    EntityTableWellFormed();
    var text := ReplaceEntities(StripTags(content), EntityTable);
    text := SquashBlankLines(CollapseSpaces(text));
    var cleaned := KeepNonBlankLines(SplitOn(text, '\n'));
    r := JoinWith(cleaned, "\n");
  }

  /** The loop over the entity table, replacing each entity in turn. */
  method ReplaceEntities(s: string, table: seq<(string, string)>) returns (text: string)
    requires EntitiesStartWithAmp(table)
    ensures text == ApplyEntities(s, table)
  {
    text := s;
    for i := 0 to |table|
      invariant text == ApplyEntities(s, table[..i])
    {
      assert table[..i + 1][..i] == table[..i];
      text := Replace(text, table[i].0, table[i].1);
    }
    assert table[..|table|] == table;
  }

  /** The loop over the lines, keeping each stripped line that is not empty. */
  method KeepNonBlankLines(lines: seq<string>) returns (cleaned: seq<string>)
    ensures cleaned == NonBlankLines(lines)
  {
    cleaned := [];
    for i := 0 to |lines|
      invariant cleaned == NonBlankLines(lines[..i])
    {
      assert lines[..i + 1][..i] == lines[..i];
      var line := Strip(lines[i]);
      if line != [] {
        cleaned := cleaned + [line];
      }
    }
    assert lines[..|lines|] == lines;
  }

  /** Cleaning is a strip of the whitespace-collapsed, entity-decoded, tag-free text. */
  lemma CleanHtmlIsStrip(content: string)
    requires content != []
    ensures CleanHtml(content) == Strip(CollapseSpaces(DecodeEntities(StripTags(content))))
  {
    CleanLinesOfCollapsed(DecodeEntities(StripTags(content)));
  }

  /** Plain, single-spaced, stripped text is already clean. */
  lemma CleanHtmlFixedPoint(s: string)
    requires '<' !in s && '&' !in s && SingleSpaced(s) && IsStripped(s)
    ensures CleanHtml(s) == s
  {
    if s != [] {
      CleanHtmlIsStrip(s);
      StripTagsWithoutOpen(s);
      DecodeWithoutAmp(s);
      CollapsedStripOfNormalized(s);
    }
  }

  // ---------------------------------------------------------------------------
  // extract_clinical_notes_from_html: the labelled sections

  /**
   * What the seven section searches found in the HTML: the patient name and
   * raw Subjective text of pattern 1, the raw text of the HPI, Examination,
   * Assessment, Procedure Codes and Visit Code sections, and every match of
   * the PFPT pattern (empty when there is none).
   */
  datatype SectionMatches = SectionMatches(
    patient: Option<PatientMatch>,
    hpi: Option<string>,
    pfpt: seq<string>,
    examination: Option<string>,
    assessment: Option<string>,
    procedureCodes: Option<string>,
    visitCode: Option<string>)

  /** One of sections 2-7: its header and the matched HTML, if any. */
  datatype Section = Section(header: string, html: Option<string>)

  /** What pattern 1 captured: the patient name and the Subjective HTML. */
  datatype PatientMatch = PatientMatch(name: string, subjective: string)

  /** The text before the cleaned Subjective section in the block of pattern 1. */
  function PatientHeading(name: string): string
  {
    "Patient: " + name + "\n\nSubjective:\n"
  }

  /** The block of pattern 1, when it matched. */
  function PatientBlock(m: SectionMatches): (r: seq<string>)
    ensures |r| <= 1 && (r != [] <==> m.patient.Some?)
    ensures forall k :: 0 <= k < |r| ==> r[k] != []
  {
    match m.patient
    case Some(p) => [PatientHeading(Strip(p.name)) + CleanHtml(p.subjective)]
    case None => []
  }

  /** Sections 2-7 with their headers, in the order they are appended. */
  function LabelledSections(m: SectionMatches): seq<Section>
  {
    [Section("HPI", m.hpi),
     Section("PFPT Details", if m.pfpt != [] then Some(JoinWith(m.pfpt, " ")) else None),
     Section("Examination", m.examination),
     Section("Assessment", m.assessment),
     Section("Procedure Codes", m.procedureCodes),
     Section("Visit Code", m.visitCode)]
  }

  /** One `Header:\n<cleaned>` block per section that matched, in order. */
  function Blocks(sections: seq<Section>): (r: seq<string>)
    ensures |r| <= |sections|
    ensures forall k :: 0 <= k < |r| ==> r[k] != []
    decreases |sections|
  {
    if sections == [] then []
    else
      Blocks(sections[..|sections| - 1]) + SectionBlock(sections[|sections| - 1])
  }

  /** The block of one section: none when it did not match. */
  function SectionBlock(section: Section): (r: seq<string>)
    ensures |r| <= 1 && (r != [] <==> section.html.Some?)
    ensures forall k :: 0 <= k < |r| ==> r[k] != []
  {
    if section.html.Some? then [section.header + ":\n" + CleanHtml(section.html.value)] else []
  }

  function SectionBlocks(m: SectionMatches): seq<string>
  {
    PatientBlock(m) + Blocks(LabelledSections(m))
  }

  /** `clinical_content` after the seven sections: the blocks separated by blank lines. */
  function AssembledSections(m: SectionMatches): string
  {
    JoinWith(SectionBlocks(m), "\n\n")
  }

  predicate AnySectionMatched(m: SectionMatches)
  {
    m.patient.Some? || m.hpi.Some? || m.pfpt != [] || m.examination.Some?
      || m.assessment.Some? || m.procedureCodes.Some? || m.visitCode.Some?
  }

  /** No block is produced exactly when no section matched. */
  lemma {:induction false} BlocksEmptyIff(sections: seq<Section>)
    ensures Blocks(sections) == [] <==> forall k :: 0 <= k < |sections| ==> sections[k].html.None?
    decreases |sections|
  {
    if sections != [] {
      var n := |sections| - 1;
      var init := sections[..n];
      BlocksEmptyIff(init);
      assert Blocks(sections) == Blocks(init) + SectionBlock(sections[n]);
      assert forall k :: 0 <= k < n ==> init[k] == sections[k];
    }
  }

  /** Sections are assembled exactly when one of them matched; there are never more than seven blocks. */
  lemma AssembledSectionsEmptyIff(m: SectionMatches)
    ensures AssembledSections(m) == [] <==> !AnySectionMatched(m)
    ensures |SectionBlocks(m)| <= 7
  {
    var sections := LabelledSections(m);
    BlocksEmptyIff(sections);
    assert sections[0].html == m.hpi && sections[2].html == m.examination && sections[3].html == m.assessment;
    assert sections[4].html == m.procedureCodes && sections[5].html == m.visitCode;
    assert sections[1].html.None? <==> m.pfpt == [];
    var blocks := SectionBlocks(m);
    SectionBlocksNonEmpty(m);
    JoinWithEmptyIff(blocks, "\n\n");
  }

  lemma SectionBlocksNonEmpty(m: SectionMatches)
    ensures forall k :: 0 <= k < |SectionBlocks(m)| ==> SectionBlocks(m)[k] != []
  {
    ConcatNonEmpty(PatientBlock(m), Blocks(LabelledSections(m)));
  }

  lemma ConcatNonEmpty(a: seq<string>, b: seq<string>)
    requires forall k :: 0 <= k < |a| ==> a[k] != []
    requires forall k :: 0 <= k < |b| ==> b[k] != []
    ensures forall k :: 0 <= k < |a + b| ==> (a + b)[k] != []
  {
  }

  /** When the patient pattern matched, the assembled sections open with its block, not with a separator. */
  lemma AssembledSectionsStartWithPatient(m: SectionMatches)
    requires m.patient.Some?
    ensures IsPrefix(PatientHeading(Strip(m.patient.value.name)), AssembledSections(m))
  {
    var blocks := SectionBlocks(m);
    assert blocks[0] == PatientHeading(Strip(m.patient.value.name)) + CleanHtml(m.patient.value.subjective);
    JoinWithHead(blocks, "\n\n");
    PrefixOfPrefix(PatientHeading(Strip(m.patient.value.name)), CleanHtml(m.patient.value.subjective), AssembledSections(m));
  }

  // ---------------------------------------------------------------------------
  // extract_clinical_notes_from_html: the table-cell fallback

  /** The closing tag of a table cell; the pattern matches it in any case. */
  const CellClose: string := "</td>"

  /**
   * `re.findall(r'<td[^>]*>(.*?)</td>', s, re.DOTALL | re.IGNORECASE)`: at a
   * case-insensitive `<td`, the opening tag runs to the first `>`, and the
   * cell to the first case-insensitive `</td>` after it; the search resumes
   * after the match, or one character on when there is none.
   */
  function TdCells(s: string): seq<string>
  {
    CellsClosedBy(s, CellClose)
  }

  /** The matches of the cell pattern whose closing tag is `close`. */
  function CellsClosedBy(s: string, close: string): seq<string>
    decreases |s|
  {
    if |s| < 3 then []
    else match CellAt(s, close)
      case Some(cell) => [s[cell.start..cell.stop]] + CellsClosedBy(s[cell.stop + |close|..], close)
      case None => CellsClosedBy(s[1..], close)
  }

  /** Whether `s` starts with `<td`, in any case. */
  predicate OpensCell(s: string)
  {
    |s| >= 3 && LowerChar(s[0]) == '<' && LowerChar(s[1]) == 't' && LowerChar(s[2]) == 'd'
  }

  /** Where a cell's text starts and stops in the searched text. */
  datatype CellSpan = CellSpan(start: nat, stop: nat)

  /**
   * The match of the cell pattern at the start of `s`, if any: where the cell
   * text starts and stops; the match ends after the closing tag that follows.
   */
  function CellAt(s: string, close: string): (r: Option<CellSpan>)
    ensures r.Some? ==> 4 <= r.value.start <= r.value.stop && r.value.stop + |close| <= |s|
  {
    if !OpensCell(s) then None
    else match IndexOf(s[3..], '>')
      case None => None
      case Some(k) => CellFrom(s, k + 4, close)
  }

  /** The cell text from `b` up to the first closing tag, in any case, after it. */
  function CellFrom(s: string, b: nat, close: string): (r: Option<CellSpan>)
    requires b <= |s|
    ensures r.Some? ==> r.value.start == b <= r.value.stop && r.value.stop + |close| <= |s|
  {
    match Find(Lower(s[b..]), close)
    case None => None
    case Some(e) => Some(CellSpan(b, b + e))
  }

  /** A closing tag in lower case whose only `<` is its first character, as `</td>` is. */
  predicate IsCloseTag(close: string)
  {
    |close| > 0 && close[0] == '<' && Lower(close) == close && '<' !in close[1..]
  }

  lemma CellCloseIsCloseTag()
    ensures IsCloseTag(CellClose)
  {
    assert CellClose[1..] == "/td>";
  }

  /** In `c</td>...`, the first closing tag is the one right after `c` when `c` holds none. */
  lemma FindCloseAfterCell(c: string, close: string, rest: string)
    requires IsCloseTag(close) && !Contains(Lower(c), close)
    ensures Find(Lower(c + close + rest), close) == Some(|c|)
  {
    var l := Lower(c + close + rest);
    CloseFollowsCell(c, close, rest);
    assert l[|c|..][..|close|] == l[|c|..|c| + |close|];
    NoCloseInCell(c, close, rest);
    FindAt(l, close, |c|);
  }

  /** Lower-casing `c</td>...` keeps `c` lower-cased and the tag after it. */
  lemma CloseFollowsCell(c: string, close: string, rest: string)
    requires IsCloseTag(close)
    ensures |c| + |close| <= |Lower(c + close + rest)|
    ensures Lower(c + close + rest)[..|c|] == Lower(c)
    ensures Lower(c + close + rest)[|c|..|c| + |close|] == close
  {
    var t := c + close + rest;
    LowerSlice(t, 0, |c|);
    assert t[..|c|] == c;
    LowerSlice(t, |c|, |c| + |close|);
    assert t[|c|..|c| + |close|] == close;
  }

  /** No closing tag starts inside the cell text. */
  lemma NoCloseInCell(c: string, close: string, rest: string)
    requires IsCloseTag(close) && !Contains(Lower(c), close)
    ensures NoMatchBefore(Lower(c + close + rest), close, |c|)
  {
    CloseFollowsCell(c, close, rest);
    NoMatchBeforeTag(Lower(c + close + rest), Lower(c), close);
  }

  /** A text made of `t`, which holds no closing tag, then the closing tag, has no match inside `t`. */
  lemma NoMatchBeforeTag(l: string, t: string, close: string)
    requires IsCloseTag(close) && !Contains(t, close)
    requires |t| + |close| <= |l| && l[..|t|] == t && l[|t|..|t| + |close|] == close
    ensures NoMatchBefore(l, close, |t|)
  {
    forall j | 0 <= j < |t| && j <= |l|
      ensures !IsPrefix(close, l[j..])
    {
      if j + |close| <= |t| {
        NoMatchInside(l, t, close, j);
      } else {
        NoMatchAcross(l, t, close, j);
      }
    }
  }

  lemma NoMatchInside(l: string, t: string, close: string, j: nat)
    requires !Contains(t, close) && j + |close| <= |t| <= |l| && l[..|t|] == t
    ensures !IsPrefix(close, l[j..])
  {
    NotContainsAt(t, close, j);
    assert l[j..][..|close|] == t[j..j + |close|];
  }

  lemma NoMatchAcross(l: string, t: string, close: string, j: nat)
    requires IsCloseTag(close) && j < |t| < j + |close|
    requires |t| + |close| <= |l| && l[|t|..|t| + |close|] == close
    ensures !IsPrefix(close, l[j..])
  {
    assert l[j..][|t| - j] == l[|t|] == '<';
    assert close[|t| - j] == close[1..][|t| - j - 1];
  }

  lemma CellShape(c: string, close: string, rest: string)
    ensures OpensCell("<td>" + c + close + rest)
    ensures ("<td>" + c + close + rest)[3..] == ">" + c + close + rest
    ensures ("<td>" + c + close + rest)[4..] == c + close + rest
  {
  }

  lemma ConcatParts(a: string, mid: string, b: string)
    ensures (a + mid + b)[..|a|] == a
    ensures (a + mid + b)[|a| + |mid|..] == b
  {
  }

  /** The cell pattern matches `<td>c</td>` with exactly the text `c` when `c` holds no closing tag. */
  lemma CellAtCell(c: string, close: string, rest: string)
    requires IsCloseTag(close) && !Contains(Lower(c), close)
    ensures CellAt("<td>" + c + close + rest, close) == Some(CellSpan(4, 4 + |c|))
  {
    var s := "<td>" + c + close + rest;
    CellShape(c, close, rest);
    assert IndexOf(s[3..], '>') == Some(0);
    var u := s[4..];
    FindCloseAfterCell(c, close, rest);
    ConcatParts(c, close, rest);
    CellFromFound(s, 4, close, |c|);
    CellAtOpened(s, close, 0);
  }

  /** Once the opening tag is read, the cell is the text up to the closing tag. */
  lemma CellAtOpened(s: string, close: string, k: nat)
    requires OpensCell(s) && IndexOf(s[3..], '>') == Some(k) && k + 4 <= |s|
    ensures CellAt(s, close) == CellFrom(s, k + 4, close)
  {
  }

  /** The cell text runs up to where the closing tag is first found. */
  lemma CellFromFound(s: string, b: nat, close: string, e: nat)
    requires b <= |s|
    requires Find(Lower(s[b..]), close) == Some(e)
    ensures CellFrom(s, b, close) == Some(CellSpan(b, b + e))
  {
  }

  /** A cell `<td>c</td>` whose text holds no closing tag is found with exactly that text. */
  lemma CellsOfCell(c: string, close: string, rest: string)
    requires IsCloseTag(close) && !Contains(Lower(c), close)
    ensures CellsClosedBy("<td>" + c + close + rest, close) == [c] + CellsClosedBy(rest, close)
  {
    var s := "<td>" + c + close + rest;
    CellAtCell(c, close, rest);
    ConcatParts("<td>" + c, close, rest);
    assert s[4..4 + |c|] == c;
    assert s[4 + |c| + |close|..] == rest;
  }

  /** The same for the `</td>` tag itself. */
  lemma TdCellsOfCell(c: string, rest: string)
    requires !Contains(Lower(c), CellClose)
    ensures TdCells("<td>" + c + CellClose + rest) == [c] + TdCells(rest)
  {
    CellCloseIsCloseTag();
    CellsOfCell(c, CellClose, rest);
  }

  /** The clinical keywords, any of which makes a table cell relevant. */
  const ClinicalKeywords: seq<string> :=
    ["patient", "pelvic", "pain", "therapy", "stimulation", "examination", "assessment", "pfpt"]

  predicate MentionsKeyword(text: string)
  {
    exists k :: 0 <= k < |ClinicalKeywords| && Contains(Lower(text), ClinicalKeywords[k])
  }

  /** A cleaned cell is kept when it is longer than 20 characters and names a keyword. */
  predicate IsRelevantCell(cleaned: string)
  {
    |cleaned| > 20 && MentionsKeyword(cleaned)
  }

  /** `relevant_content`: the cleaned cells that are relevant, in document order. */
  function RelevantCells(cells: seq<string>): (r: seq<string>)
    ensures |r| <= |cells|
    decreases |cells|
  {
    if cells == [] then []
    else
      var cleaned := Strip(CleanHtml(cells[|cells| - 1]));
      RelevantCells(cells[..|cells| - 1]) + (if IsRelevantCell(cleaned) then [cleaned] else [])
  }

  const NoNotesFound: string := "No clinical notes found in the provided HTML content"

  /** At most 20 relevant cells. */
  function FirstTwenty(cells: seq<string>): (r: seq<string>)
    ensures |r| == Min(20, |cells|)
    ensures r == cells[..|r|]
  {
    if |cells| <= 20 then cells else cells[..20]
  }

  /** The fallback: the first 20 relevant cells, one per line, or the fixed message. */
  function FallbackNotes(html: string): string
  {
    var relevant := RelevantCells(TdCells(html));
    if relevant != [] then JoinWith(FirstTwenty(relevant), "\n") else NoNotesFound
  }

  /** The primary result is kept only when its stripped form is longer than 100 characters. */
  predicate PrimaryAccepted(content: string)
  {
    content != [] && |Strip(content)| > 100
  }

  /** `extract_clinical_notes_from_html`. */
  function ClinicalNotesFromHtml(html: string, m: SectionMatches): (r: string)
    ensures html == [] ==> r == []
    ensures html != [] && PrimaryAccepted(AssembledSections(m)) ==> |r| > 100
    ensures html != [] && !PrimaryAccepted(AssembledSections(m)) && RelevantCells(TdCells(html)) == [] ==>
      r == NoNotesFound
  {
    if html == [] then ""
    else
      var content := AssembledSections(m);
      if PrimaryAccepted(content) then Strip(content) else FallbackNotes(html)
  }

  /** `clinical_content += "\n\n" + block` when there is content already, `clinical_content = block` otherwise. */
  function AppendBlock(content: string, block: string): string
  {
    if content != [] then content + "\n\n" + block else block
  }

  /** Appending a block to the joined blocks is joining one more block. */
  lemma AppendBlockJoins(blocks: seq<string>, block: string)
    requires forall k :: 0 <= k < |blocks| ==> blocks[k] != []
    requires block != []
    ensures AppendBlock(JoinWith(blocks, "\n\n"), block) == JoinWith(blocks + [block], "\n\n")
    ensures forall k :: 0 <= k < |blocks + [block]| ==> (blocks + [block])[k] != []
  {
    JoinWithSnoc(blocks, block, "\n\n");
    JoinWithEmptyIff(blocks, "\n\n");
  }

  lemma BlocksSnoc(sections: seq<Section>, i: nat)
    requires i < |sections|
    ensures Blocks(sections[..i + 1]) == Blocks(sections[..i]) + SectionBlock(sections[i])
  {
    assert sections[..i + 1][..i] == sections[..i];
  }

  lemma SnocAssoc(a: seq<string>, b: seq<string>, c: seq<string>)
    ensures (a + b) + c == a + (b + c)
  {
  }

  /** Sections 2-7 appended to `clinical_content`, each block after a blank line when one came before. */
  method AppendSectionBlocks(clinical0: string, ghost blocks0: seq<string>, sections: seq<Section>)
    returns (clinical: string)
    requires forall k :: 0 <= k < |blocks0| ==> blocks0[k] != []
    requires clinical0 == JoinWith(blocks0, "\n\n")
    ensures clinical == JoinWith(blocks0 + Blocks(sections), "\n\n")
  {
    clinical := clinical0;
    ghost var blocks := blocks0;
    for i := 0 to |sections|
      invariant blocks == blocks0 + Blocks(sections[..i])
      invariant forall k :: 0 <= k < |blocks| ==> blocks[k] != []
      invariant clinical == JoinWith(blocks, "\n\n")
    {
      clinical := AppendSection(clinical, blocks, sections[i]);
      assert blocks + SectionBlock(sections[i]) == blocks0 + Blocks(sections[..i + 1]) by {
        BlocksSnoc(sections, i);
        SnocAssoc(blocks0, Blocks(sections[..i]), SectionBlock(sections[i]));
      }
      blocks := blocks + SectionBlock(sections[i]);
    }
    assert sections[..|sections|] == sections;
  }

  /** One pass of the section loop: the section's block, if any, after a blank line when one came before. */
  method AppendSection(clinical: string, ghost blocks: seq<string>, section: Section)
    returns (r: string)
    requires forall k :: 0 <= k < |blocks| ==> blocks[k] != []
    requires clinical == JoinWith(blocks, "\n\n")
    ensures r == JoinWith(blocks + SectionBlock(section), "\n\n")
    ensures forall k :: 0 <= k < |blocks + SectionBlock(section)| ==> (blocks + SectionBlock(section))[k] != []
  {
    r := clinical;
    if section.html.Some? {
      var body := CleanHtmlContent(section.html.value);
      var block := section.header + ":\n" + body;
      AppendBlockJoins(blocks, block);
      r := AppendBlock(clinical, block);
    } else {
      assert blocks + SectionBlock(section) == blocks;
    }
  }

  /** The patient block alone, joined, is the block itself. */
  lemma PatientBlockJoined(m: SectionMatches)
    ensures forall k :: 0 <= k < |PatientBlock(m)| ==> PatientBlock(m)[k] != []
    ensures JoinWith(PatientBlock(m), "\n\n")
      == if m.patient.Some? then PatientHeading(Strip(m.patient.value.name)) + CleanHtml(m.patient.value.subjective) else ""
  {
  }

  /** `clinical_content` after pattern 1 and then sections 2-7. */
  method AssembleSections(m: SectionMatches) returns (clinical: string)
    ensures clinical == AssembledSections(m)
  {
    clinical := "";
    if m.patient.Some? {
      var subjective := CleanHtmlContent(m.patient.value.subjective);
      clinical := PatientHeading(Strip(m.patient.value.name)) + subjective;
    }
    PatientBlockJoined(m);
    clinical := AppendSectionBlocks(clinical, PatientBlock(m), LabelledSections(m));
  }

  /** `relevant_content` built cell by cell. */
  method CollectRelevantCells(cells: seq<string>) returns (relevant: seq<string>)
    ensures relevant == RelevantCells(cells)
  {
    relevant := [];
    for i := 0 to |cells|
      invariant relevant == RelevantCells(cells[..i])
    {
      assert cells[..i + 1][..i] == cells[..i];
      relevant := AddIfRelevant(relevant, cells[i]);
    }
    assert cells[..|cells|] == cells;
  }

  /** One pass of the loop: clean the cell and keep it when relevant. */
  method AddIfRelevant(relevant: seq<string>, cell: string) returns (r: seq<string>)
    ensures var cleaned := Strip(CleanHtml(cell));
      r == relevant + (if IsRelevantCell(cleaned) then [cleaned] else [])
  {
    var cleaned := CleanHtmlContent(cell);
    cleaned := Strip(cleaned);
    r := relevant;
    if |cleaned| > 20 && MentionsKeyword(cleaned) {
      r := relevant + [cleaned];
    }
  }

  /** `extract_clinical_notes_from_html`: the sections when long enough, else the cells, else the fixed message. */
  method ExtractClinicalNotesFromHtml(html: string, m: SectionMatches) returns (notes: string)
    ensures notes == ClinicalNotesFromHtml(html, m)
  {
    if html == [] {
      return "";
    }
    var clinical := AssembleSections(m);
    if clinical != [] && |Strip(clinical)| > 100 {
      return Strip(clinical);
    }
    var relevant := CollectRelevantCells(TdCells(html));
    if relevant != [] {
      return JoinWith(FirstTwenty(relevant), "\n");
    }
    return NoNotesFound;
  }

  /** A cleaned cell is already stripped and holds no newline. */
  lemma CleanedCellIsClean(cell: string)
    ensures Strip(CleanHtml(cell)) == CleanHtml(cell)
    ensures '\n' !in CleanHtml(cell)
  {
    StripOfStripped(CleanHtml(cell));
  }

  /** Every kept cell is relevant and is a single line. */
  lemma {:induction false} RelevantCellIsRelevant(cells: seq<string>, k: nat)
    requires k < |RelevantCells(cells)|
    ensures IsRelevantCell(RelevantCells(cells)[k])
    ensures '\n' !in RelevantCells(cells)[k]
    decreases |cells|
  {
    var init := cells[..|cells| - 1];
    if k < |RelevantCells(init)| {
      RelevantCellIsRelevant(init, k);
    } else {
      CleanedCellIsClean(cells[|cells| - 1]);
    }
  }

  lemma RelevantCellsAreRelevant(cells: seq<string>)
    ensures forall k :: 0 <= k < |RelevantCells(cells)| ==> IsRelevantCell(RelevantCells(cells)[k])
    ensures forall k :: 0 <= k < |RelevantCells(cells)| ==> '\n' !in RelevantCells(cells)[k]
  {
    forall k | 0 <= k < |RelevantCells(cells)|
      ensures IsRelevantCell(RelevantCells(cells)[k]) && '\n' !in RelevantCells(cells)[k]
    {
      RelevantCellIsRelevant(cells, k);
    }
  }

  /** Non-empty HTML never yields empty notes: the sections, the cells or the fixed message. */
  lemma ClinicalNotesNonEmpty(html: string, m: SectionMatches)
    ensures ClinicalNotesFromHtml(html, m) == [] <==> html == []
  {
    if html != [] && !PrimaryAccepted(AssembledSections(m)) {
      var relevant := RelevantCells(TdCells(html));
      if relevant != [] {
        RelevantCellsAreRelevant(TdCells(html));
        var first := FirstTwenty(relevant);
        JoinWithHead(first, "\n");
      }
    }
  }

  /**
   * When the sections are too short, the fallback notes are, line by line,
   * the first relevant cells: at most 20 lines, each a stripped cell of more
   * than 20 characters naming a clinical keyword.
   */
  lemma FallbackLinesAreRelevantCells(html: string, m: SectionMatches)
    requires html != [] && !PrimaryAccepted(AssembledSections(m))
    requires RelevantCells(TdCells(html)) != []
    ensures SplitOn(ClinicalNotesFromHtml(html, m), '\n') == FirstTwenty(RelevantCells(TdCells(html)))
    ensures |SplitOn(ClinicalNotesFromHtml(html, m), '\n')| <= 20
    ensures forall k :: 0 <= k < |SplitOn(ClinicalNotesFromHtml(html, m), '\n')| ==>
              IsRelevantCell(SplitOn(ClinicalNotesFromHtml(html, m), '\n')[k])
  {
    var relevant := RelevantCells(TdCells(html));
    var first := FirstTwenty(relevant);
    assert ClinicalNotesFromHtml(html, m) == JoinWith(first, "\n");
    RelevantCellsAreRelevant(TdCells(html));
    forall k | 0 <= k < |first|
      ensures IsRelevantCell(first[k]) && '\n' !in first[k]
    {
      assert first[k] == relevant[k];
    }
    assert "\n" == ['\n'];
    SplitJoinRoundTrip(first, '\n');
  }

  /** With no accepted sections and no relevant cell, the result is the fixed message. */
  lemma NoNotesFoundWhenNothingMatches(html: string, m: SectionMatches)
    requires html != [] && !AnySectionMatched(m)
    requires RelevantCells(TdCells(html)) == []
    ensures ClinicalNotesFromHtml(html, m) == NoNotesFound
  {
    AssembledSectionsEmptyIff(m);
  }

  lemma PatientHeadingPrefix(name: string)
    ensures IsPrefix("Patient: ", PatientHeading(name))
  {
  }

  lemma StrippedKeepsPatientLabel(heading: string, content: string)
    requires IsPrefix("Patient: ", heading) && IsPrefix(heading, content) && |Strip(content)| > 100
    ensures IsPrefix("Patient: ", Strip(content))
  {
    PrefixTrans("Patient: ", heading, content);
    StripKeepsPrefix("Patient: ", content);
  }

  lemma AcceptedSectionsShape(m: SectionMatches)
    requires PrimaryAccepted(AssembledSections(m))
    ensures IsStripped(Strip(AssembledSections(m)))
    ensures m.patient.Some? ==> IsPrefix("Patient: ", Strip(AssembledSections(m)))
  {
    StripIsStripped(AssembledSections(m));
    if m.patient.Some? {
      AssembledSectionsStartWithPatient(m);
      PatientHeadingPrefix(Strip(m.patient.value.name));
      StrippedKeepsPatientLabel(PatientHeading(Strip(m.patient.value.name)), AssembledSections(m));
    }
  }

  /**
   * Accepted sections are returned stripped and are more than 100 characters
   * long; when the patient pattern matched they open with `Patient: `.
   */
  lemma PrimaryResultIsLong(html: string, m: SectionMatches)
    requires html != [] && PrimaryAccepted(AssembledSections(m))
    ensures |ClinicalNotesFromHtml(html, m)| > 100
    ensures IsStripped(ClinicalNotesFromHtml(html, m))
    ensures m.patient.Some? ==> IsPrefix("Patient: ", ClinicalNotesFromHtml(html, m))
  {
    assert ClinicalNotesFromHtml(html, m) == Strip(AssembledSections(m));
    AcceptedSectionsShape(m);
  }
}
