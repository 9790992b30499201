/**
 * Reading the clinical notes out of the eClinicalWorks Progress Notes dialog
 * (`progress_notes_extractor.py`): open the dialog, look through its iframes
 * for the first one whose HTML carries a clinical marker, turn that HTML into
 * notes, close the dialog and format the result.
 *
 * The browser is not modelled. What the page answers is an input: which
 * selectors are usable, the buttons and their texts, the iframe elements with
 * their attributes, the frames and the HTML each one yields, and the outcome
 * of the section regular expressions on a given HTML.
 */
module ProgressNotes {
  import opened Wrappers
  import opened Strings
  import opened UiChoice
  import opened NotesHandler

  // ---------------------------------------------------------------------------
  // Opening the dialog

  /** The selectors tried for the Progress Notes button, in order. */
  const ProgNotesSelectors: seq<string> := [
    "button:has-text(\"Prog. Notes\")",
    "input[value*=\"Prog. Notes\"]",
    "button[title*=\"Progress Notes\"]",
    ".btn:has-text(\"Prog. Notes\")",
    "button:has-text(\"Progress Notes\")",
    "input[value=\"Prog. Notes\"]"
  ]

  /** How many buttons the fallback search looks at. */
  const ButtonsSearched: nat := 10

  /** A button as the fallback search reads it: `text_content() or ""` and `get_attribute('value') or ""`. */
  datatype Button = Button(text: string, value: string)

  /** `'prog'` in the lower-cased text or value. */
  predicate LooksLikeProgress(b: Button)
  {
    Contains(Lower(b.text), "prog") || Contains(Lower(b.value), "prog")
  }

  /** How the dialog was opened: by one of the selectors, by a button of the fallback search, or not at all. */
  datatype Opening = BySelector(selector: string) | ByButton(index: nat) | NotOpened

  /**
   * `find_progress_notes_button`: the first selector whose first match is
   * visible and enabled (`usable`), else the first of the first ten buttons
   * that looks like a Progress Notes button.
   */
  function OpenDialog(usable: string -> bool, buttons: seq<Button>): (r: Opening)
    ensures r.BySelector? ==> r.selector in ProgNotesSelectors && usable(r.selector)
    ensures r.ByButton? ==>
      r.index < ButtonsSearched && r.index < |buttons| && LooksLikeProgress(buttons[r.index]) &&
      (forall k :: 0 <= k < r.index ==> !LooksLikeProgress(buttons[k])) &&
      (forall k :: 0 <= k < |ProgNotesSelectors| ==> !usable(ProgNotesSelectors[k]))
    ensures r.NotOpened? <==>
      (forall k :: 0 <= k < |ProgNotesSelectors| ==> !usable(ProgNotesSelectors[k])) &&
      (forall k :: 0 <= k < Min(ButtonsSearched, |buttons|) ==> !LooksLikeProgress(buttons[k]))
  {
    match FirstAccepted(ProgNotesSelectors, usable)
    case Some(k) => BySelector(ProgNotesSelectors[k])
    case None =>
      var searched := buttons[..Min(ButtonsSearched, |buttons|)];
      match FirstAccepted(searched, LooksLikeProgress)
      case Some(k) =>
        assert searched[k] == buttons[k];
        assert forall j :: 0 <= j < k ==> searched[j] == buttons[j];
        ByButton(k)
      case None =>
        assert forall j :: 0 <= j < |searched| ==> searched[j] == buttons[j];
        NotOpened
  }

  /** A button past the tenth is never clicked, whatever it says. */
  lemma ButtonsPastTenIgnored(usable: string -> bool, buttons: seq<Button>, extra: seq<Button>)
    requires |buttons| >= ButtonsSearched
    ensures OpenDialog(usable, buttons + extra) == OpenDialog(usable, buttons)
  {
    var n := ButtonsSearched;
    assert (buttons + extra)[..Min(n, |buttons + extra|)] == buttons[..Min(n, |buttons|)];
  }

  /** The selector loop with its `prog_notes_clicked` flag, then the loop over the first ten buttons, both stopping at the first hit. */
  method FindProgressNotesButton(usable: string -> bool, buttons: seq<Button>) returns (opening: Opening, clicked: bool)
    ensures opening == OpenDialog(usable, buttons)
    ensures clicked <==> !opening.NotOpened?
  {
    var field := FindFirstAccepted(ProgNotesSelectors, usable);
    if field.Some? {
      return BySelector(ProgNotesSelectors[field.value]), true;
    }
    var searched := buttons[..Min(ButtonsSearched, |buttons|)];
    var button := FindFirstAccepted(searched, LooksLikeProgress);
    if button.Some? {
      return ByButton(button.value), true;
    }
    return NotOpened, false;
  }

  // ---------------------------------------------------------------------------
  // Finding the clinical iframe

  /** A frame of the page: its name, its URL and the HTML its content readers yield, `None` when all of them fail. */
  datatype Frame = Frame(name: string, url: string, html: Option<string>)

  /** An `<iframe>` element: its `id` and `name` attributes and what `content_frame()` gives, `None` when it fails. */
  datatype IFrame = IFrame(id: Option<string>, name: Option<string>, contentFrame: Option<Frame>)

  /** The iframe elements in document order, `page.frame(name=...)`, and `page.frames`. */
  datatype Page = Page(iframes: seq<IFrame>, frameByName: string -> Option<Frame>, frames: seq<Frame>)

  const NoId: string := "No id"
  const NoName: string := "No name"

  /** `get_attribute(...) or default`: a missing or empty attribute reads as the default. */
  function AttrOr(attr: Option<string>, default: string): (r: string)
    ensures r == default || (attr.Some? && r == attr.value)
    ensures attr.Some? && attr.value != [] ==> r == attr.value
  {
    if attr.Some? && attr.value != [] then attr.value else default
  }

  /** The skip test: an iframe is looked at only when its id or lower-cased name suggests progress notes. */
  predicate Scanned(id: string, name: string)
  {
    Contains(id, "ProgNote") || Contains(Lower(name), "progNote") || Contains(Lower(name), "progress")
  }

  /** The `'progNote'` test compares against a lower-cased name, so it never holds. */
  lemma ProgNoteTestIsDead(name: string)
    ensures !Contains(Lower(name), "progNote")
  {
    var lower := Lower(name);
    if Contains(lower, "progNote") {
      var p := Find(lower, "progNote").value;
      assert lower[p..p + 8] == "progNote";
      assert lower[p + 4] == 'N';
      LowerHasNoUpper(name);
      assert false;
    }
  }

  /** An iframe is looked at exactly when `ProgNote` is in its id or `progress` in its lower-cased name. */
  lemma ScannedIff(id: string, name: string)
    ensures Scanned(id, name) <==> Contains(id, "ProgNote") || Contains(Lower(name), "progress")
  {
    ProgNoteTestIsDead(name);
  }

  /** The frame-list test of the last resolution step. */
  predicate SameFrame(f: Frame, id: string, name: string)
  {
    f.name == name || Contains(f.url, id)
  }

  function SameFrameAs(id: string, name: string): Frame -> bool
  {
    (f: Frame) => SameFrame(f, id, name)
  }

  /**
   * The frame behind an iframe: its content frame, else the frame with its
   * name (unless the name is the default), else the first frame of the page
   * with that name or whose URL contains the id.
   */
  function Resolve(page: Page, el: IFrame, id: string, name: string): (r: Option<Frame>)
    ensures el.contentFrame.Some? ==> r == el.contentFrame
    ensures el.contentFrame.None? && name != NoName && page.frameByName(name).Some? ==> r == page.frameByName(name)
    ensures r.None? <==>
      el.contentFrame.None? && (name == NoName || page.frameByName(name).None?) &&
      forall k :: 0 <= k < |page.frames| ==> !SameFrame(page.frames[k], id, name)
    ensures r.Some? && el.contentFrame.None? && (name == NoName || page.frameByName(name).None?) ==>
      exists k :: 0 <= k < |page.frames| && r.value == page.frames[k] && SameFrame(page.frames[k], id, name) &&
        forall j :: 0 <= j < k ==> !SameFrame(page.frames[j], id, name)
  {
    if el.contentFrame.Some? then el.contentFrame
    else if name != NoName && page.frameByName(name).Some? then page.frameByName(name)
    else
      match FirstAccepted(page.frames, SameFrameAs(id, name))
      case None => None
      case Some(k) => Some(page.frames[k])
  }

  /** The resolution chain: `iframe_frame` is reassigned by each step that runs while it is still unset. */
  method ResolveFrame(page: Page, el: IFrame, id: string, name: string) returns (frame: Option<Frame>)
    ensures frame == Resolve(page, el, id, name)
  {
    frame := el.contentFrame;
    if frame.None? && name != NoName {
      frame := page.frameByName(name);
    }
    if frame.None? {
      var k := FindFirstAccepted(page.frames, SameFrameAs(id, name));
      if k.Some? {
        frame := Some(page.frames[k.value]);
      }
    }
  }

  /** The markers of clinical content, matched case-sensitively on the raw HTML. */
  const ClinicalMarkers: seq<string> := [
    "Test, Manu",
    "Patient:",
    "HPI:",
    "PFPT",
    "Subjective:",
    "Assessment:",
    "Examination:",
    "Pelvic Pain",
    "physical therapy",
    "electrical stimulation"
  ]

  /** `found_markers`: the markers that occur in the HTML, in list order. */
  function MarkersIn(markers: seq<string>, html: string): (r: seq<string>)
    ensures |r| <= |markers|
    ensures forall m :: m in r ==> m in markers && Contains(html, m)
    ensures r == [] <==> forall k :: 0 <= k < |markers| ==> !Contains(html, markers[k])
    decreases |markers|
  {
    if markers == [] then []
    else
      var init := MarkersIn(markers[..|markers| - 1], html);
      var m := markers[|markers| - 1];
      assert forall k :: 0 <= k < |markers| - 1 ==> markers[..|markers| - 1][k] == markers[k];
      if Contains(html, m) then init + [m] else init
  }

  /** The marker loop, appending each marker found. */
  method FoundMarkers(markers: seq<string>, html: string) returns (found: seq<string>)
    ensures found == MarkersIn(markers, html)
  {
    found := [];
    for i := 0 to |markers|
      invariant found == MarkersIn(markers[..i], html)
    {
      assert markers[..i + 1][..i] == markers[..i];
      if Contains(html, markers[i]) {
        found := found + [markers[i]];
      }
    }
    assert markers[..|markers|] == markers;
  }

  /** The HTML an iframe contributes: scanned, resolved, readable and carrying a marker. */
  function MarkedContent(page: Page, el: IFrame): Option<string>
  {
    var id, name := AttrOr(el.id, NoId), AttrOr(el.name, NoName);
    if !Scanned(id, name) then None
    else
      match Resolve(page, el, id, name)
      case None => None
      case Some(frame) =>
        match frame.html
        case None => None
        case Some(html) => if MarkersIn(ClinicalMarkers, html) != [] then Some(html) else None
  }

  function IsMarkedOn(page: Page): IFrame -> bool
  {
    (el: IFrame) => MarkedContent(page, el).Some?
  }

  /** `extract_iframe_content`: the HTML of the first marked iframe, when it is not empty. */
  function IframeContent(page: Page): (r: Option<string>)
    ensures r.Some? ==> r.value != [] && MarkersIn(ClinicalMarkers, r.value) != []
    ensures r.Some? ==> exists i :: 0 <= i < |page.iframes| && MarkedContent(page, page.iframes[i]) == r
  {
    match FirstAccepted(page.iframes, IsMarkedOn(page))
    case None => None
    case Some(i) => if MarkedContent(page, page.iframes[i]).value != [] then MarkedContent(page, page.iframes[i]) else None
  }

  /**
   * The content found is that of the first iframe carrying a marker, every
   * earlier iframe was skipped, unresolved, unreadable or unmarked, and the
   * content holds one of the markers.
   */
  lemma FirstMarkedFrameWins(page: Page)
    requires IframeContent(page).Some?
    ensures exists i :: 0 <= i < |page.iframes| && MarkedContent(page, page.iframes[i]) == IframeContent(page) &&
                         (forall k :: 0 <= k < i ==> MarkedContent(page, page.iframes[k]).None?)
    ensures exists k :: 0 <= k < |ClinicalMarkers| && Contains(IframeContent(page).value, ClinicalMarkers[k])
  {
    var i := FirstAccepted(page.iframes, IsMarkedOn(page)).value;
    assert forall k :: 0 <= k < i ==> !IsMarkedOn(page)(page.iframes[k]);
    var html := IframeContent(page).value;
    assert MarkersIn(ClinicalMarkers, html) != [];
  }

  /** Without a marked iframe nothing is found. */
  lemma NoMarkedFrameNoContent(page: Page)
    requires forall k :: 0 <= k < |page.iframes| ==> MarkedContent(page, page.iframes[k]).None?
    ensures IframeContent(page).None?
  {
    assert forall k :: 0 <= k < |page.iframes| ==> !IsMarkedOn(page)(page.iframes[k]);
  }

  /**
   * A marked iframe with every earlier iframe skipped, unresolved, unreadable
   * or unmarked is the one whose content is returned: a failing iframe only
   * costs itself.
   */
  lemma MarkedFrameAfterFailuresFound(page: Page, i: nat)
    requires i < |page.iframes| && MarkedContent(page, page.iframes[i]).Some?
    requires MarkedContent(page, page.iframes[i]).value != []
    requires forall k :: 0 <= k < i ==> MarkedContent(page, page.iframes[k]).None?
    ensures IframeContent(page) == MarkedContent(page, page.iframes[i])
  {
    assert forall k :: 0 <= k < i ==> !IsMarkedOn(page)(page.iframes[k]);
    FirstAcceptedIsLeast(page.iframes, IsMarkedOn(page), i);
  }

  /** One pass of the iframe loop: the iframe's HTML when it is scanned, resolves, reads and carries a marker. */
  method ExamineIframe(page: Page, el: IFrame) returns (html: Option<string>)
    ensures html == MarkedContent(page, el)
  {
    var id := AttrOr(el.id, NoId);
    var name := AttrOr(el.name, NoName);
    if !Scanned(id, name) {
      return None;
    }
    var frame := ResolveFrame(page, el, id, name);
    if frame.None? || frame.value.html.None? {
      return None;
    }
    var found := FoundMarkers(ClinicalMarkers, frame.value.html.value);
    if found == [] {
      return None;
    }
    return frame.value.html;
  }

  /** The iframe loop: `clinical_content` and `notes_extracted` are set at the first marked iframe and the loop stops. */
  method ExtractIframeContent(page: Page) returns (content: Option<string>, success: bool)
    ensures content == IframeContent(page)
    ensures success <==> content.Some?
  {
    var clinical: Option<string> := None;
    var extracted := false;
    var i := 0;
    while i < |page.iframes| && !extracted
      invariant 0 <= i <= |page.iframes|
      invariant !extracted ==> clinical.None? && forall k :: 0 <= k < i ==> !IsMarkedOn(page)(page.iframes[k])
      invariant extracted ==>
        i < |page.iframes| && FirstAccepted(page.iframes, IsMarkedOn(page)) == Some(i) &&
        clinical == MarkedContent(page, page.iframes[i])
      decreases |page.iframes| - i, if extracted then 0 else 1
    {
      clinical := ExamineIframe(page, page.iframes[i]);
      if clinical.Some? {
        extracted := true;
        FirstAcceptedIsLeast(page.iframes, IsMarkedOn(page), i);
      } else {
        assert !IsMarkedOn(page)(page.iframes[i]);
        i := i + 1;
      }
    }
    if extracted && clinical.value != [] {
      return clinical, true;
    }
    if !extracted {
      assert FirstAccepted(page.iframes, IsMarkedOn(page)).None?;
    }
    return None, false;
  }

  // ---------------------------------------------------------------------------
  // Closing the dialog

  /** The selectors tried for the close button, in order. */
  const CloseSelectors: seq<string> := [
    "button:has-text(\"Close\")",
    "button:has-text(\"\U{00C3}\U{2014}\")",
    ".close",
    "[aria-label=\"Close\"]",
    ".modal-close",
    "button.close"
  ]

  /** How the dialog was closed. */
  datatype Closing = ClickedClose(selector: string) | PressedEscape | NotClosed

  /** `close_progress_notes_dialog`: the first visible close button, else the Escape key when pressing it succeeds. */
  function CloseDialog(visible: string -> bool, escapeWorks: bool): (r: Closing)
    ensures r.ClickedClose? ==> r.selector in CloseSelectors && visible(r.selector)
    ensures r.PressedEscape? <==> escapeWorks && forall k :: 0 <= k < |CloseSelectors| ==> !visible(CloseSelectors[k])
    ensures r.NotClosed? <==> !escapeWorks && forall k :: 0 <= k < |CloseSelectors| ==> !visible(CloseSelectors[k])
  {
    match FirstAccepted(CloseSelectors, visible)
    case Some(k) => ClickedClose(CloseSelectors[k])
    case None => if escapeWorks then PressedEscape else NotClosed
  }

  /** The close-selector loop with its `dialog_closed` flag, then Escape. */
  method CloseProgressNotesDialog(visible: string -> bool, escapeWorks: bool) returns (closing: Closing, closed: bool)
    ensures closing == CloseDialog(visible, escapeWorks)
    ensures closed <==> !closing.NotClosed?
  {
    var k := FindFirstAccepted(CloseSelectors, visible);
    if k.Some? {
      return ClickedClose(CloseSelectors[k.value]), true;
    }
    if escapeWorks {
      return PressedEscape, true;
    }
    return NotClosed, false;
  }

  // ---------------------------------------------------------------------------
  // The whole extraction

  const CouldNotOpen: string := "Could not open Progress Notes dialog"
  const NothingInFrames: string := "No clinical notes could be extracted from ECW Progress Notes"
  const NoNotesExtracted: string := "No clinical notes extracted"
  const ExtractionErrorPrefix: string := "Error extracting Progress Notes: "

  /** What the page answers during one extraction. */
  datatype Screen = Screen(
    buttonUsable: string -> bool,
    buttons: seq<Button>,
    page: Page,
    sections: string -> SectionMatches,
    closeVisible: string -> bool,
    escapeWorks: bool,
    failure: Option<string>)  // the message of an exception raised by the pause after the dialog opens

  /** The notes before formatting: the parsed notes when longer than 100 characters, else the raw HTML, else the placeholder. */
  function ChosenNotes(content: Option<string>, sections: string -> SectionMatches): (r: string)
    ensures content.None? || content.value == [] ==> r == NothingInFrames
  {
    match content
    case None => NothingInFrames
    case Some(html) =>
      if html == [] then NothingInFrames else
      var parsed := ClinicalNotesFromHtml(html, sections(html));
      if parsed != [] && |parsed| > 100 then parsed else html
  }

  /** Chosen notes over 100 characters come from marked content: the parsed notes when long enough, else the HTML. */
  lemma LongChosenNotesFromContent(content: Option<string>, sections: string -> SectionMatches)
    requires |ChosenNotes(content, sections)| > 100
    ensures content.Some? && content.value != []
    ensures var parsed := ClinicalNotesFromHtml(content.value, sections(content.value));
      ChosenNotes(content, sections) == if parsed != [] && |parsed| > 100 then parsed else content.value
  {
    assert |NothingInFrames| <= 100;
  }

  /** Parsed notes over 100 characters are the ones chosen. */
  lemma ParsedChosenWhenLong(html: string, sections: string -> SectionMatches)
    requires |ClinicalNotesFromHtml(html, sections(html))| > 100
    ensures ChosenNotes(Some(html), sections) == ClinicalNotesFromHtml(html, sections(html))
  {
    assert html != [];
  }

  /** Marked HTML whose parsed notes are 100 characters or fewer is chosen raw. */
  lemma HtmlChosenWhenParsedShort(html: string, sections: string -> SectionMatches)
    requires html != [] && |ClinicalNotesFromHtml(html, sections(html))| <= 100
    ensures ChosenNotes(Some(html), sections) == html
  {
  }

  /** Step 3: parse the marked HTML and keep the parsed notes when long enough. */
  method ChooseNotes(content: Option<string>, success: bool, sections: string -> SectionMatches) returns (notes: string)
    requires success <==> content.Some?
    ensures notes == ChosenNotes(content, sections)
  {
    if success && content.value != [] {
      var html := content.value;
      var parsed := ExtractClinicalNotesFromHtml(html, sections(html));
      if parsed != [] && |parsed| > 100 {
        notes := parsed;
      } else {
        notes := html;
      }
    } else {
      notes := NothingInFrames;
    }
  }

  /** What the extraction returns, and how the dialog was closed when it was opened. */
  datatype Extraction = Extraction(notes: string, closing: Option<Closing>)

  /** `extract_progress_notes`. */
  function ProgressNotesOutcome(screen: Screen): (r: Extraction)
    ensures OpenDialog(screen.buttonUsable, screen.buttons).NotOpened? ==> r == Extraction(CouldNotOpen, None)
    ensures !OpenDialog(screen.buttonUsable, screen.buttons).NotOpened? && screen.failure.Some? ==>
      r == Extraction(ExtractionErrorPrefix + screen.failure.value, None)
    ensures !OpenDialog(screen.buttonUsable, screen.buttons).NotOpened? && screen.failure.None? ==>
      r.closing == Some(CloseDialog(screen.closeVisible, screen.escapeWorks))
    ensures !OpenDialog(screen.buttonUsable, screen.buttons).NotOpened? && screen.failure.None? ==>
      var chosen := ChosenNotes(IframeContent(screen.page), screen.sections);
      (|chosen| > 100 ==> r.notes == FormatNotes(chosen)) && (|chosen| <= 100 ==> r.notes == NoNotesExtracted)
  {
    if OpenDialog(screen.buttonUsable, screen.buttons).NotOpened? then Extraction(CouldNotOpen, None)
    else if screen.failure.Some? then Extraction(ExtractionErrorPrefix + screen.failure.value, None)
    else
      var notes := ChosenNotes(IframeContent(screen.page), screen.sections);
      var closing := CloseDialog(screen.closeVisible, screen.escapeWorks);
      Extraction(if notes != [] && |notes| > 100 then FormatNotes(notes) else NoNotesExtracted, Some(closing))
  }

  /**
   * Without an open dialog nothing is extracted and nothing is closed; an
   * exception after opening gives the error text and skips the closing; with
   * the dialog open and no exception, closing is always attempted.
   */
  lemma ClosedExactlyWhenOpened(screen: Screen)
    ensures ProgressNotesOutcome(screen).closing.None? <==>
      OpenDialog(screen.buttonUsable, screen.buttons).NotOpened? || screen.failure.Some?
    ensures OpenDialog(screen.buttonUsable, screen.buttons).NotOpened? ==> ProgressNotesOutcome(screen).notes == CouldNotOpen
    ensures !OpenDialog(screen.buttonUsable, screen.buttons).NotOpened? && screen.failure.Some? ==>
      ProgressNotesOutcome(screen).notes == ExtractionErrorPrefix + screen.failure.value
    ensures ProgressNotesOutcome(screen).closing.Some? ==>
      ProgressNotesOutcome(screen).closing.value == CloseDialog(screen.closeVisible, screen.escapeWorks)
  {
  }

  /**
   * With the dialog open but no marked iframe, the placeholder is too short:
   * the fixed message is returned unless the pause after opening raised.
   */
  lemma NoMarkedFrameGivesFixedMessage(screen: Screen)
    requires !OpenDialog(screen.buttonUsable, screen.buttons).NotOpened?
    requires IframeContent(screen.page).None?
    ensures screen.failure.None? ==> ProgressNotesOutcome(screen).notes == NoNotesExtracted
    ensures screen.failure.Some? ==> ProgressNotesOutcome(screen).notes == ExtractionErrorPrefix + screen.failure.value
  {
    assert |NothingInFrames| <= 100;
  }

  /**
   * The notes are the formatted form of more than 100 characters chosen from
   * the marked content: the parsed notes when they are long enough, else the
   * raw HTML.
   */
  ghost predicate FormattedFromContent(notes: string, content: Option<string>, sections: string -> SectionMatches)
  {
    exists html :: content == Some(html) &&
      var parsed := ClinicalNotesFromHtml(html, sections(html));
      var chosen := if parsed != [] && |parsed| > 100 then parsed else html;
      |chosen| > 100 && notes == FormatNotes(chosen)
  }

  /** Formatting chosen notes over 100 characters gives notes formatted from the content. */
  lemma LongChosenNotesFormatted(content: Option<string>, sections: string -> SectionMatches)
    requires |ChosenNotes(content, sections)| > 100
    ensures FormattedFromContent(FormatNotes(ChosenNotes(content, sections)), content, sections)
  {
    LongChosenNotesFromContent(content, sections);
  }

  /**
   * Every result is one of the two fixed messages, the error text of an
   * exception raised after opening, or the formatted form of more than 100
   * characters of notes: the parsed notes when they are long enough, else
   * the raw HTML of the marked iframe.
   */
  lemma OutcomeShape(screen: Screen)
    ensures var notes := ProgressNotesOutcome(screen).notes;
      notes == CouldNotOpen || notes == NoNotesExtracted ||
      (screen.failure.Some? && notes == ExtractionErrorPrefix + screen.failure.value) ||
      FormattedFromContent(notes, IframeContent(screen.page), screen.sections)
    ensures !OpenDialog(screen.buttonUsable, screen.buttons).NotOpened? && screen.failure.None? ==>
      var notes := ProgressNotesOutcome(screen).notes;
      var chosen := ChosenNotes(IframeContent(screen.page), screen.sections);
      (|chosen| > 100 ==> FormattedFromContent(notes, IframeContent(screen.page), screen.sections)) &&
      (|chosen| <= 100 ==> notes == NoNotesExtracted)
  {
    if !OpenDialog(screen.buttonUsable, screen.buttons).NotOpened? && screen.failure.None? {
      var chosen := ChosenNotes(IframeContent(screen.page), screen.sections);
      if chosen != [] && |chosen| > 100 {
        LongChosenNotesFormatted(IframeContent(screen.page), screen.sections);
      }
    }
  }

  /** The extraction workflow: open, scan the iframes, parse, close, format. */
  method ExtractProgressNotes(screen: Screen) returns (r: Extraction)
    ensures r == ProgressNotesOutcome(screen)
  {
    var opening, clicked := FindProgressNotesButton(screen.buttonUsable, screen.buttons);
    if !clicked {
      return Extraction(CouldNotOpen, None);
    }
    if screen.failure.Some? {
      return Extraction(ExtractionErrorPrefix + screen.failure.value, None);
    }
    var content, success := ExtractIframeContent(screen.page);
    var notes := ChooseNotes(content, success, screen.sections);
    var closing, closed := CloseProgressNotesDialog(screen.closeVisible, screen.escapeWorks);
    if notes != [] && |notes| > 100 {
      return Extraction(FormatNotes(notes), Some(closing));
    }
    return Extraction(NoNotesExtracted, Some(closing));
  }
}
