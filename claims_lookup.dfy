/**
 * The claims lookup on the Claims screen (`claims_lookup.py`): the four
 * workflow steps run in order and stop at the first failure; the claim is
 * selected in two passes (an element whose text contains the claim number,
 * then a looser digits rule over the first 50 elements); when selection
 * fails, the numbers visible on the page are listed.
 *
 * The page is an input: which selectors are visible and the text content of
 * the elements each selector matches (`None` where `text_content()` gives
 * nothing).
 */
module ClaimsLookup {
  import opened Wrappers
  import opened Strings
  import opened UiChoice

  /** The first `n` items, `xs[:n]`. */
  function Take<T>(xs: seq<T>, n: nat): (r: seq<T>)
    ensures |r| <= n && |r| <= |xs| && r == xs[..|r|]
    ensures |r| == n || r == xs
  {
    if |xs| <= n then xs else xs[..n]
  }

  // ---------------------------------------------------------------------------
  // Selecting the claim

  /** The selectors of the direct search, for the given claim number. */
  function ClaimSelectors(claim: string): seq<string>
  {
    [
      "text=\"" + claim + "\"",
      "a:has-text(\"" + claim + "\")",
      "td:has-text(\"" + claim + "\")",
      "[href*=\"" + claim + "\"]",
      "span:has-text(\"" + claim + "\")",
      "div:has-text(\"" + claim + "\")",
      "*:has-text(\"" + claim + "\")"
    ]
  }

  /** The number of elements the partial search looks at. */
  const PartialSearchLimit: nat := 50

  /** Pass 1: the element's text contains the claim number (an element without text raises and is skipped). */
  predicate DirectMatch(text: Option<string>, claim: string)
    ensures DirectMatch(text, claim) ==> text.Some? && Contains(text.value, claim)
    ensures text.Some? && text.value != [] && DirectMatch(text, claim) ==> PartialMatch(text, claim)
  {
    text.Some? && Contains(text.value, claim)
  }

  /**
   * Pass 2: a non-empty text that is a number once stripped matches when it
   * contains the claim number or occurs in it; any other non-empty text
   * matches when it contains the claim number.
   */
  predicate PartialMatch(text: Option<string>, claim: string)
    ensures PartialMatch(text, claim) ==> text.Some? && text.value != []
    ensures text.Some? && text.value != [] && Contains(text.value, claim) ==> PartialMatch(text, claim)
    ensures text.Some? && PartialMatch(text, claim) && !Contains(text.value, claim) ==>
      IsDigits(Strip(text.value)) && Contains(claim, text.value)
  {
    text.Some? && text.value != [] &&
    if IsDigits(Strip(text.value)) then Contains(text.value, claim) || Contains(claim, text.value)
    else Contains(text.value, claim)
  }

  function DirectMatchOf(claim: string): (string, Option<string>) -> bool
  {
    (selector: string, text: Option<string>) => DirectMatch(text, claim)
  }

  function PartialMatchOf(claim: string): Option<string> -> bool
  {
    (text: Option<string>) => PartialMatch(text, claim)
  }

  /** The element clicked: by a direct selector and element, by position in the partial search, or none. */
  datatype Selection = Direct(selector: nat, element: nat) | Partial(element: nat) | NotSelected

  /** `select_claim`: the first direct match in selector then element order, else the first partial match among the first 50 elements. */
  function SelectedClaim(claim: string, elementsFor: string -> seq<Option<string>>, all: seq<Option<string>>): (r: Selection)
    ensures r.Direct? ==> (r.selector < |ClaimSelectors(claim)| &&
      r.element < |elementsFor(ClaimSelectors(claim)[r.selector])| &&
      DirectMatch(elementsFor(ClaimSelectors(claim)[r.selector])[r.element], claim))
    ensures r.Partial? ==> r.element < PartialSearchLimit && r.element < |all| && PartialMatch(all[r.element], claim)
    ensures r.Partial? ==> forall k :: 0 <= k < r.element ==> !PartialMatch(all[k], claim)
    ensures !r.Direct? <==> forall i, j :: 0 <= i < |ClaimSelectors(claim)| && 0 <= j < |elementsFor(ClaimSelectors(claim)[i])| ==>
      !DirectMatch(elementsFor(ClaimSelectors(claim)[i])[j], claim)
  {
    match FirstInGrid(ClaimSelectors(claim), elementsFor, DirectMatchOf(claim))
    case Some((i, j)) => Direct(i, j)
    case None =>
      var considered := Take(all, PartialSearchLimit);
      match FirstAccepted(considered, PartialMatchOf(claim))
      case Some(k) =>
        assert considered[k] == all[k];
        assert forall m :: 0 <= m < k ==> considered[m] == all[m];
        Partial(k)
      case None => NotSelected
  }

  /** The claim is selected exactly when some element matches directly or one of the first 50 matches the partial rule. */
  lemma SelectedClaimIff(claim: string, elementsFor: string -> seq<Option<string>>, all: seq<Option<string>>)
    ensures SelectedClaim(claim, elementsFor, all).NotSelected? <==>
      (forall i, j :: 0 <= i < |ClaimSelectors(claim)| && 0 <= j < |elementsFor(ClaimSelectors(claim)[i])| ==>
        !DirectMatch(elementsFor(ClaimSelectors(claim)[i])[j], claim)) &&
      (forall k :: 0 <= k < |all| && k < PartialSearchLimit ==> !PartialMatch(all[k], claim))
  {
    var r := SelectedClaim(claim, elementsFor, all);
    var considered := Take(all, PartialSearchLimit);
    if r.NotSelected? {
      assert FirstAccepted(considered, PartialMatchOf(claim)).None?;
      forall k | 0 <= k < |all| && k < PartialSearchLimit
        ensures !PartialMatch(all[k], claim)
      {
        assert considered[k] == all[k];
        assert !PartialMatchOf(claim)(considered[k]);
      }
    }
  }

  /** Elements past the fiftieth never change which claim is selected. */
  lemma {:induction false} PartialSearchStopsAtFifty(claim: string, elementsFor: string -> seq<Option<string>>, all: seq<Option<string>>, more: seq<Option<string>>)
    requires |all| >= PartialSearchLimit
    ensures SelectedClaim(claim, elementsFor, all + more) == SelectedClaim(claim, elementsFor, all)
  {
    assert Take(all + more, PartialSearchLimit) == Take(all, PartialSearchLimit);
  }

  /** A text containing the claim number is matched by the partial rule as well, so pass 2 is never stricter than pass 1. */
  lemma DirectMatchIsPartialMatch(text: Option<string>, claim: string)
    requires claim != [] && DirectMatch(text, claim)
    ensures PartialMatch(text, claim)
  {
  }

  /** One digit on its own is a stripped number. */
  lemma OneDigitIsNumber(d: char)
    requires IsDigit(d)
    ensures IsDigits([d]) && Strip([d]) == [d]
  {
    var t := [d];
    assert !IsSpace(d);
    assert t[0] == d && t[|t| - 1] == d;
    assert IsStripped(t);
    StripOfStripped(t);
    assert forall k :: 0 <= k < |t| ==> t[k] == d;
  }

  /** A character of a text, on its own, occurs in that text. */
  lemma CharOccurs(s: string, i: nat)
    requires i < |s|
    ensures Contains(s, [s[i]])
  {
    assert s[i..i + 1] == [s[i]];
    ContainsAt(s, [s[i]], i);
  }

  /** A cell that is a number occurring inside the claim number matches the partial rule. */
  lemma NumberInClaimMatches(t: string, claim: string)
    requires t != [] && IsDigits(Strip(t)) && Contains(claim, t)
    ensures PartialMatch(Some(t), claim)
  {
  }

  /** A cell holding one digit of the claim number matches the partial rule, whatever the claim. */
  lemma SingleDigitCellMatches(claim: string, i: nat)
    requires i < |claim| && IsDigit(claim[i])
    ensures PartialMatch(Some([claim[i]]), claim)
  {
    OneDigitIsNumber(claim[i]);
    CharOccurs(claim, i);
    NumberInClaimMatches([claim[i]], claim);
  }

  /** Text that is not a number once stripped matches the partial rule exactly when it contains the claim number. */
  lemma NonDigitTextNeedsClaim(t: string, claim: string)
    requires !IsDigits(Strip(t))
    ensures PartialMatch(Some(t), claim) <==> t != [] && Contains(t, claim)
  {
  }

  /** `select_claim` with its two passes. */
  method SelectClaim(claim: string, elementsFor: string -> seq<Option<string>>, all: seq<Option<string>>) returns (found: bool, r: Selection)
    ensures r == SelectedClaim(claim, elementsFor, all)
    ensures found <==> !r.NotSelected?
  {
    var direct := FindFirstInGrid(ClaimSelectors(claim), elementsFor, DirectMatchOf(claim));
    if direct.Some? {
      return true, Direct(direct.value.0, direct.value.1);
    }
    var considered := Take(all, PartialSearchLimit);
    var partial := FindFirstAccepted(considered, PartialMatchOf(claim));
    if partial.Some? {
      return true, Partial(partial.value);
    }
    return false, NotSelected;
  }

  // ---------------------------------------------------------------------------
  // Listing the claim numbers on the page

  const ListingSelectors: seq<string> := [
    "td:has-text(\"#\")",
    "a[href*=\"claim\"]",
    "td",
    ".claim-number",
    "[data-claim]"
  ]

  /** The number of elements looked at per listing selector. */
  const ListingLimit: nat := 20

  /** The number of claim numbers reported. */
  const ReportLimit: nat := 10

  /** A non-empty text that, stripped, is a number of at least four digits. */
  predicate LooksLikeClaimNumber(text: Option<string>)
  {
    text.Some? && text.value != [] && IsDigits(Strip(text.value)) && |Strip(text.value)| >= 4
  }

  /** The stripped text of a cell; a cell without text gives the empty text. */
  function ClaimText(cell: Option<string>): string
  {
    if cell.Some? then Strip(cell.value) else []
  }

  /** The texts of the elements that are kept, in order. */
  function Collected<T>(xs: seq<T>, keep: T -> bool, text: T -> string): (r: seq<string>)
    ensures |r| <= |xs|
    decreases |xs|
  {
    if xs == [] then []
    else
      var last := xs[|xs| - 1];
      Collected(xs[..|xs| - 1], keep, text) + if keep(last) then [text(last)] else []
  }

  /** A text is collected exactly when some kept element gives it. */
  lemma {:induction false} CollectedIff<T>(xs: seq<T>, keep: T -> bool, text: T -> string, c: string)
    ensures c in Collected(xs, keep, text) <==> exists k :: 0 <= k < |xs| && keep(xs[k]) && text(xs[k]) == c
    decreases |xs|
  {
    if xs != [] {
      var n := |xs| - 1;
      var init := xs[..n];
      CollectedIff(init, keep, text, c);
      assert forall k :: 0 <= k < n ==> init[k] == xs[k];
      if c in Collected(init, keep, text) {
        var k :| 0 <= k < n && keep(init[k]) && text(init[k]) == c;
        assert keep(xs[k]) && text(xs[k]) == c;
      }
    }
  }

  /** The stripped texts of the cells that look like claim numbers, in order. */
  function CellClaims(cells: seq<Option<string>>): seq<string>
  {
    Collected(cells, LooksLikeClaimNumber, ClaimText)
  }

  /** Cell `k` looks like a claim number and strips to `c`. */
  predicate ClaimAt(cells: seq<Option<string>>, k: int, c: string)
  {
    0 <= k < |cells| && LooksLikeClaimNumber(cells[k]) && Strip(cells[k].value) == c
  }

  /** A text is collected from the cells exactly when some cell looks like a claim number and strips to it. */
  lemma CellClaimsIff(cells: seq<Option<string>>, c: string)
    ensures c in CellClaims(cells) <==> exists k :: ClaimAt(cells, k, c)
  {
    CollectedIff(cells, LooksLikeClaimNumber, ClaimText, c);
    if c in CellClaims(cells) {
      var k :| 0 <= k < |cells| && LooksLikeClaimNumber(cells[k]) && ClaimText(cells[k]) == c;
      assert ClaimAt(cells, k, c);
    }
  }

  /** `found_claims`: the claim-like texts among the first 20 elements of each listing selector, selector by selector. */
  function FoundClaims(selectors: seq<string>, elementsFor: string -> seq<Option<string>>): seq<string>
    decreases |selectors|
  {
    if selectors == [] then []
    else
      FoundClaims(selectors[..|selectors| - 1], elementsFor) +
      CellClaims(Take(elementsFor(selectors[|selectors| - 1]), ListingLimit))
  }

  /** The first 20 elements of `selector` yield the claim number `c`. */
  predicate SelectorYields(elementsFor: string -> seq<Option<string>>, selector: string, c: string)
  {
    c in CellClaims(Take(elementsFor(selector), ListingLimit))
  }

  /** A text is listed exactly when the first 20 elements of some listing selector yield it. */
  lemma {:induction false} FoundClaimsIff(selectors: seq<string>, elementsFor: string -> seq<Option<string>>, c: string)
    ensures c in FoundClaims(selectors, elementsFor) <==>
      exists i :: 0 <= i < |selectors| && SelectorYields(elementsFor, selectors[i], c)
    decreases |selectors|
  {
    if selectors != [] {
      var init := selectors[..|selectors| - 1];
      var last := |selectors| - 1;
      var earlier := FoundClaims(init, elementsFor);
      var cells := CellClaims(Take(elementsFor(selectors[last]), ListingLimit));
      FoundClaimsIff(init, elementsFor, c);
      assert FoundClaims(selectors, elementsFor) == earlier + cells;
      assert c in earlier + cells <==> c in earlier || c in cells;
      if c in earlier {
        var i :| 0 <= i < |init| && SelectorYields(elementsFor, init[i], c);
        assert selectors[i] == init[i];
      } else if c in cells {
        assert SelectorYields(elementsFor, selectors[last], c);
      }
      forall i | 0 <= i < |selectors| && SelectorYields(elementsFor, selectors[i], c)
        ensures c in earlier || c in cells
      {
        if i < last {
          assert selectors[i] == init[i];
        }
      }
    }
  }

  /** Everything listed is a stripped number of at least four digits. */
  lemma FoundClaimsAreNumbers(selectors: seq<string>, elementsFor: string -> seq<Option<string>>, c: string)
    requires c in FoundClaims(selectors, elementsFor)
    ensures IsDigits(c) && |c| >= 4 && IsStripped(c)
  {
    FoundClaimsIff(selectors, elementsFor, c);
    var i :| 0 <= i < |selectors| && SelectorYields(elementsFor, selectors[i], c);
    var cells := Take(elementsFor(selectors[i]), ListingLimit);
    CellClaimsIff(cells, c);
    var k :| ClaimAt(cells, k, c);
    StripIsStripped(cells[k].value);
  }

  /** One more cell adds its stripped text when it looks like a claim number. */
  lemma CellClaimsSnoc(cells: seq<Option<string>>, k: nat)
    requires k < |cells|
    ensures CellClaims(cells[..k + 1]) ==
      CellClaims(cells[..k]) + if LooksLikeClaimNumber(cells[k]) then [Strip(cells[k].value)] else []
  {
    var xs := cells[..k + 1];
    assert xs[..|xs| - 1] == cells[..k];
    assert xs[|xs| - 1] == cells[k];
  }

  /** The cells of one selector, the first 20, appended to the list. */
  method CollectCellClaims(cells: seq<Option<string>>, found: seq<string>) returns (r: seq<string>)
    ensures r == found + CellClaims(cells)
  {
    r := found;
    for k := 0 to |cells|
      invariant r == found + CellClaims(cells[..k])
    {
      CellClaimsSnoc(cells, k);
      r := AddIfClaim(r, cells[k]);
    }
    assert cells[..|cells|] == cells;
  }

  /** One pass of the cell loop: append the stripped text when it looks like a claim number. */
  method AddIfClaim(found: seq<string>, cell: Option<string>) returns (r: seq<string>)
    ensures r == found + if LooksLikeClaimNumber(cell) then [Strip(cell.value)] else []
  {
    r := found;
    if LooksLikeClaimNumber(cell) {
      r := found + [Strip(cell.value)];
    }
  }

  /** The listing loop over the listing selectors. */
  method ListAvailableClaims(elementsFor: string -> seq<Option<string>>) returns (found: seq<string>)
    ensures found == FoundClaims(ListingSelectors, elementsFor)
  {
    found := [];
    for i := 0 to |ListingSelectors|
      invariant found == FoundClaims(ListingSelectors[..i], elementsFor)
    {
      assert ListingSelectors[..i + 1][..i] == ListingSelectors[..i];
      found := CollectCellClaims(Take(elementsFor(ListingSelectors[i]), ListingLimit), found);
    }
    assert ListingSelectors[..|ListingSelectors|] == ListingSelectors;
  }

  /** What is printed: up to ten distinct listed numbers, in no particular order. */
  predicate IsReport(report: set<string>, found: seq<string>)
  {
    report <= (set c | c in found) && |report| == Min(ReportLimit, |set c | c in found|)
  }

  /** `list(set(found_claims))[:10]`: duplicates removed and at most ten kept, which ten left open. */
  method ReportClaims(found: seq<string>) returns (report: set<string>)
    ensures IsReport(report, found)
  {
    var unique := set c | c in found;
    var rest := unique;
    report := {};
    while |report| < ReportLimit && rest != {}
      invariant report + rest == unique && report !! rest
      invariant |report| + |rest| == |unique|
      invariant |report| <= ReportLimit
      decreases |rest|
    {
      var c :| c in rest;
      report := report + {c};
      rest := rest - {c};
    }
  }

  // ---------------------------------------------------------------------------
  // The workflow

  const LookupSelectors: seq<string> := [
    "text=\"Lookup\"",
    "button:has-text(\"Lookup\")",
    "#btnclaimlookup",
    ".btn:has-text(\"Lookup\")",
    "[ng-click*=\"getClaimsListFromLookup\"]"
  ]

  const MainLookupSelectors: seq<string> := [
    "#btnclaimlookup",
    "button:has-text(\"Lookup\")",
    ".btn:has-text(\"Lookup\")",
    "[ng-click*=\"getClaimsListFromLookup\"]"
  ]

  /** What the Claims screen shows to each step of the workflow. */
  datatype LookupPage = LookupPage(
    lookupVisible: string -> bool,
    statusDropdownVisible: bool,
    mainLookupVisible: string -> bool,
    claimElements: string -> seq<Option<string>>,
    allElements: seq<Option<string>>,
    listingElements: string -> seq<Option<string>>)

  datatype LookupStep = InitialLookup | ClaimStatus | MainLookup | ClaimSelection

  /** The steps of `complete_claims_lookup_workflow`, in order. */
  const WorkflowSteps: seq<LookupStep> := [InitialLookup, ClaimStatus, MainLookup, ClaimSelection]

  /** Whether a step reports success on this page. */
  predicate Succeeds(page: LookupPage, claim: string, step: LookupStep)
  {
    match step
    case InitialLookup => FirstAccepted(LookupSelectors, page.lookupVisible).Some?
    case ClaimStatus => page.statusDropdownVisible
    case MainLookup => FirstAccepted(MainLookupSelectors, page.mainLookupVisible).Some?
    case ClaimSelection => !SelectedClaim(claim, page.claimElements, page.allElements).NotSelected?
  }

  /** Which steps succeed, given the outcome of each. */
  function StepOutcomes(lookupOk: bool, statusOk: bool, mainLookupOk: bool, selectedOk: bool): LookupStep -> bool
  {
    (step: LookupStep) =>
      match step
      case InitialLookup => lookupOk
      case ClaimStatus => statusOk
      case MainLookup => mainLookupOk
      case ClaimSelection => selectedOk
  }

  /** The outcome, the steps that ran, and the numbers listed after a failed selection. */
  datatype LookupOutcome = LookupOutcome(ok: bool, ran: seq<LookupStep>, listed: seq<string>)

  /** The workflow, given the outcome of each step and what the listing would find. */
  function Workflow(lookupOk: bool, statusOk: bool, mainLookupOk: bool, selectedOk: bool, listing: seq<string>): (r: LookupOutcome)
    ensures r.ok <==> lookupOk && statusOk && mainLookupOk && selectedOk
    ensures 1 <= |r.ran| <= |WorkflowSteps| && r.ran == WorkflowSteps[..|r.ran|]
    ensures r.ok ==> r.ran == WorkflowSteps && r.listed == []
    ensures lookupOk && statusOk && mainLookupOk && !selectedOk ==> r.ran == WorkflowSteps && r.listed == listing
    ensures !(lookupOk && statusOk && mainLookupOk) ==> |r.ran| < |WorkflowSteps| && r.listed == []
  {
    var ran := RunUntilFailure(WorkflowSteps, StepOutcomes(lookupOk, statusOk, mainLookupOk, selectedOk));
    var ok := lookupOk && statusOk && mainLookupOk && selectedOk;
    LookupOutcome(ok, ran, if !ok && |ran| == |WorkflowSteps| then listing else [])
  }

  /** `complete_claims_lookup_workflow` on a page: the steps up to and including the first that fails; the listing when it was the selection. */
  function LookupWorkflow(page: LookupPage, claim: string): (r: LookupOutcome)
    ensures r.ok <==> forall step :: step in WorkflowSteps ==> Succeeds(page, claim, step)
    ensures r.ok ==> !SelectedClaim(claim, page.claimElements, page.allElements).NotSelected?
    ensures r.listed != [] ==>
      SelectedClaim(claim, page.claimElements, page.allElements).NotSelected? &&
      r.listed == FoundClaims(ListingSelectors, page.listingElements)
  {
    Workflow(Succeeds(page, claim, InitialLookup), Succeeds(page, claim, ClaimStatus),
      Succeeds(page, claim, MainLookup), Succeeds(page, claim, ClaimSelection),
      FoundClaims(ListingSelectors, page.listingElements))
  }

  /**
   * The workflow succeeds exactly when every step does; it runs the steps up
   * to the first that fails and no further; the listing is produced only
   * when the selection was the step that failed.
   */
  lemma WorkflowShortCircuits(lookupOk: bool, statusOk: bool, mainLookupOk: bool, selectedOk: bool, listing: seq<string>)
    ensures Workflow(lookupOk, statusOk, mainLookupOk, selectedOk, listing) ==
      if !lookupOk then LookupOutcome(false, [InitialLookup], [])
      else if !statusOk then LookupOutcome(false, [InitialLookup, ClaimStatus], [])
      else if !mainLookupOk then LookupOutcome(false, [InitialLookup, ClaimStatus, MainLookup], [])
      else if !selectedOk then LookupOutcome(false, WorkflowSteps, listing)
      else LookupOutcome(true, WorkflowSteps, [])
  {
    var f := StepOutcomes(lookupOk, statusOk, mainLookupOk, selectedOk);
    assert WorkflowSteps[0] == InitialLookup && WorkflowSteps[1] == ClaimStatus;
    assert WorkflowSteps[2] == MainLookup && WorkflowSteps[3] == ClaimSelection;
    if !lookupOk {
      RunStopsAt(WorkflowSteps, f, 0);
    } else if !statusOk {
      RunStopsAt(WorkflowSteps, f, 1);
    } else if !mainLookupOk {
      RunStopsAt(WorkflowSteps, f, 2);
    } else if !selectedOk {
      RunStopsAt(WorkflowSteps, f, 3);
    }
  }

  /** The steps that ran all succeeded except possibly the last, which failed exactly when the workflow did. */
  lemma WorkflowRunsInOrder(lookupOk: bool, statusOk: bool, mainLookupOk: bool, selectedOk: bool, listing: seq<string>)
    ensures var r := Workflow(lookupOk, statusOk, mainLookupOk, selectedOk, listing);
      var f := StepOutcomes(lookupOk, statusOk, mainLookupOk, selectedOk);
      1 <= |r.ran| && r.ran == WorkflowSteps[..|r.ran|] &&
      (forall k :: 0 <= k < |r.ran| - 1 ==> f(r.ran[k])) &&
      (r.ok <==> f(r.ran[|r.ran| - 1]))
  {
    WorkflowShortCircuits(lookupOk, statusOk, mainLookupOk, selectedOk, listing);
  }

  /** The steps, each run only after the ones before it succeeded. */
  method CompleteClaimsLookupWorkflow(page: LookupPage, claim: string) returns (r: LookupOutcome)
    ensures r == LookupWorkflow(page, claim)
  {
    WorkflowShortCircuits(Succeeds(page, claim, InitialLookup), Succeeds(page, claim, ClaimStatus),
      Succeeds(page, claim, MainLookup), Succeeds(page, claim, ClaimSelection),
      FoundClaims(ListingSelectors, page.listingElements));
    var lookup := FindFirstAccepted(LookupSelectors, page.lookupVisible);
    if lookup.None? {
      return LookupOutcome(false, [InitialLookup], []);
    }
    if !page.statusDropdownVisible {
      return LookupOutcome(false, [InitialLookup, ClaimStatus], []);
    }
    var mainLookup := FindFirstAccepted(MainLookupSelectors, page.mainLookupVisible);
    if mainLookup.None? {
      return LookupOutcome(false, [InitialLookup, ClaimStatus, MainLookup], []);
    }
    r := SelectClaimStep(page, claim);
  }

  /** The last step, once the lookups and the status succeeded: select the claim, or list what the page shows. */
  method SelectClaimStep(page: LookupPage, claim: string) returns (r: LookupOutcome)
    requires Succeeds(page, claim, InitialLookup) && Succeeds(page, claim, ClaimStatus) && Succeeds(page, claim, MainLookup)
    ensures r == LookupWorkflow(page, claim)
  {
    WorkflowShortCircuits(true, true, true, Succeeds(page, claim, ClaimSelection),
      FoundClaims(ListingSelectors, page.listingElements));
    var selected, selection := SelectClaim(claim, page.claimElements, page.allElements);
    if !selected {
      var listed := ListAvailableClaims(page.listingElements);
      return LookupOutcome(false, WorkflowSteps, listed);
    }
    return LookupOutcome(true, WorkflowSteps, []);
  }
}
