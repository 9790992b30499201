/**
 * CPT and ICD population (`cpt_population.py`): ask Bedrock for codes on the
 * notes in `notes.txt`, normalise the reply, and plan what is typed into the
 * claim's CPT grid (each code on the `*` row, its modifiers on row i+1) and
 * its ICD section.
 */
module CptPopulation {
  import opened Wrappers
  import opened Strings
  import opened JsonValues
  import opened BedrockPredictor
  import opened CodingRecords
  import opened UiChoice

  const NotesFile: string := "notes.txt"
  const PromptFile: string := "prompt.txt"

  /** The ICD code always entered after the CPT codes. */
  const IcdCode: string := "A42.1"

  /**
   * What `get_predicted_cpt_codes` receives as `config`: a parsed
   * `config.properties`, or (as one caller does) some other object, on which
   * `config.get` raises.
   */
  datatype ConfigArg = Properties(region: Option<string>) | NotAConfig(text: string)

  /** `prompt.txt` when it can be read, else `fallback`. */
  function PromptOr(files: string -> Option<string>, fallback: string): string
  {
    files(PromptFile).GetOr(fallback)
  }

  /** The prompt `get_predicted_cpt_codes` sends: `prompt.txt`, else `get_default_prompt()`. */
  function PromptOf(files: string -> Option<string>): string
  {
    PromptOr(files, DefaultPrompt)
  }

  /** The predicted codes for one prompt and region: the parsed and extracted reply. */
  function PredictedFor(notes: string, prompt: string, region: string, invoke: Request -> Option<Json>, decode: string -> Option<Json>): Option<seq<Record>>
  {
    CodesFromReply(GetCptCodesFromBedrock(notes, prompt, region, invoke), decode)
  }

  /** For one prompt, the prediction depends on Bedrock only through its answer to the request for that region. */
  lemma PredictedForUsesRegion(
    notes: string, prompt: string, region: string,
    invoke1: Request -> Option<Json>, invoke2: Request -> Option<Json>, decode: string -> Option<Json>)
    requires forall q: Request :: q.region == region ==> invoke1(q) == invoke2(q)
    ensures PredictedFor(notes, prompt, region, invoke1, decode) == PredictedFor(notes, prompt, region, invoke2, decode)
  {
    var q := BuildRequest(notes, prompt, region);
    assert invoke1(q) == invoke2(q);
  }

  /** `get_predicted_cpt_codes` with `fallback` in place of the built-in prompt. */
  function PredictionWith(
    files: string -> Option<string>,
    config: ConfigArg,
    fallback: string,
    invoke: Request -> Option<Json>,
    decode: string -> Option<Json>): (r: Option<seq<Record>>)
    ensures r.Some? ==> r.value != []
  {
    match files(NotesFile)
    case None => None
    case Some(notes) =>
      if config.NotAConfig? then None
      else PredictedFor(notes, PromptOr(files, fallback), config.region.GetOr(DefaultRegion), invoke, decode)
  }

  /**
   * `get_predicted_cpt_codes`: nothing without `notes.txt`, nothing when
   * `config.get` raises, nothing for an empty reply; otherwise the CPT list of
   * the parsed reply, normalised as in the local test. The prompt is
   * `prompt.txt`, or `get_default_prompt()` when that cannot be read.
   */
  function GetPredictedCptCodes(
    files: string -> Option<string>,
    config: ConfigArg,
    invoke: Request -> Option<Json>,
    decode: string -> Option<Json>): (r: Option<seq<Record>>)
    ensures r.Some? ==> r.value != []
  {
    PredictionWith(files, config, DefaultPrompt, invoke, decode)
  }

  lemma PredictionWithUsesRegion(
    files: string -> Option<string>, region: Option<string>, fallback: string,
    invoke1: Request -> Option<Json>, invoke2: Request -> Option<Json>, decode: string -> Option<Json>)
    requires forall q: Request :: q.region == region.GetOr(DefaultRegion) ==> invoke1(q) == invoke2(q)
    ensures PredictionWith(files, Properties(region), fallback, invoke1, decode)
         == PredictionWith(files, Properties(region), fallback, invoke2, decode)
    ensures PredictionWith(files, Properties(None), fallback, invoke1, decode)
         == PredictionWith(files, Properties(Some(DefaultRegion)), fallback, invoke1, decode)
  {
    if files(NotesFile).Some? {
      PredictedForUsesRegion(files(NotesFile).value, PromptOr(files, fallback), region.GetOr(DefaultRegion), invoke1, invoke2, decode);
    }
  }

  /**
   * The configured region, or `us-east-1` when none is configured, picks the
   * endpoint: the prediction depends on Bedrock only through its answers to
   * requests sent to that region.
   */
  lemma PredictionUsesRegion(
    files: string -> Option<string>, region: Option<string>,
    invoke1: Request -> Option<Json>, invoke2: Request -> Option<Json>, decode: string -> Option<Json>)
    requires forall q: Request :: q.region == region.GetOr(DefaultRegion) ==> invoke1(q) == invoke2(q)
    ensures GetPredictedCptCodes(files, Properties(region), invoke1, decode)
         == GetPredictedCptCodes(files, Properties(region), invoke2, decode)
    ensures GetPredictedCptCodes(files, Properties(None), invoke1, decode)
         == GetPredictedCptCodes(files, Properties(Some(DefaultRegion)), invoke1, decode)
  {
    PredictionWithUsesRegion(files, region, DefaultPrompt, invoke1, invoke2, decode);
  }

  lemma PredictionWithoutPromptFile(
    files: string -> Option<string>, region: Option<string>, fallback: string,
    invoke: Request -> Option<Json>, decode: string -> Option<Json>)
    requires files(NotesFile).Some? && files(PromptFile).None?
    ensures PredictionWith(files, Properties(region), fallback, invoke, decode) ==
      PredictedFor(files(NotesFile).value, fallback, region.GetOr(DefaultRegion), invoke, decode)
  {
  }

  /** Without a readable `prompt.txt` the request carries the built-in default prompt. */
  lemma UnreadablePromptUsesDefault(
    files: string -> Option<string>, region: Option<string>,
    invoke: Request -> Option<Json>, decode: string -> Option<Json>)
    requires files(NotesFile).Some? && files(PromptFile).None?
    ensures GetPredictedCptCodes(files, Properties(region), invoke, decode) ==
      PredictedFor(files(NotesFile).value, DefaultPrompt, region.GetOr(DefaultRegion), invoke, decode)
  {
    PredictionWithoutPromptFile(files, region, DefaultPrompt, invoke, decode);
  }

  /** Passed anything but a configuration, prediction always gives nothing. */
  lemma NotAConfigGivesNothing(
    files: string -> Option<string>, text: string,
    invoke: Request -> Option<Json>, decode: string -> Option<Json>)
    ensures GetPredictedCptCodes(files, NotAConfig(text), invoke, decode) == None
  {
  }

  lemma PredictionWithNormalizesList(
    files: string -> Option<string>, region: Option<string>, fallback: string,
    invoke: Request -> Option<Json>, decode: string -> Option<Json>, items: seq<Json>)
    requires files(NotesFile).Some?
    requires var text := GetCptCodesFromBedrock(files(NotesFile).value, PromptOr(files, fallback), region.GetOr(DefaultRegion), invoke);
      text.Some? && text.value != [] && ParseJsonResponse(text, decode) == Some(JArr(items))
    requires items != [] && AllRecords(items)
    ensures var r := PredictionWith(files, Properties(region), fallback, invoke, decode);
      r.Some? && |r.value| == |items| && forall k :: 0 <= k < |items| ==> r.value[k] == Normalize(items[k].fields)
  {
    var text := GetCptCodesFromBedrock(files(NotesFile).value, PromptOr(files, fallback), region.GetOr(DefaultRegion), invoke);
    assert PredictionWith(files, Properties(region), fallback, invoke, decode) == CodesFromReply(text, decode);
    ReplyWithList(text, decode, items);
  }

  /** A reply that parses to a list of objects gives those entries normalised, in order. */
  lemma PredictionNormalizesList(
    files: string -> Option<string>, region: Option<string>,
    invoke: Request -> Option<Json>, decode: string -> Option<Json>, items: seq<Json>)
    requires files(NotesFile).Some?
    requires var text := GetCptCodesFromBedrock(files(NotesFile).value, PromptOf(files), region.GetOr(DefaultRegion), invoke);
      text.Some? && text.value != [] && ParseJsonResponse(text, decode) == Some(JArr(items))
    requires items != [] && AllRecords(items)
    ensures var r := GetPredictedCptCodes(files, Properties(region), invoke, decode);
      r.Some? && |r.value| == |items| && forall k :: 0 <= k < |items| ==> r.value[k] == Normalize(items[k].fields)
  {
    PredictionWithNormalizesList(files, region, DefaultPrompt, invoke, decode, items);
  }

  /** A reply whose text parses to a list of objects gives those entries normalised, in order. */
  lemma ReplyWithList(text: Option<string>, decode: string -> Option<Json>, items: seq<Json>)
    requires text.Some? && text.value != [] && ParseJsonResponse(text, decode) == Some(JArr(items))
    requires items != [] && AllRecords(items)
    ensures var r := CodesFromReply(text, decode);
      r.Some? && |r.value| == |items| && forall k :: 0 <= k < |items| ==> r.value[k] == Normalize(items[k].fields)
  {
    ListIsNormalized(items);
  }

  // ---------------------------------------------------------------------------
  // The typing plan of `add_cpt_codes_to_ecw_interface`

  /** What is typed into the grid: a code on the `*` row, or a modifier into a row's M1/M2 cell. */
  datatype Action =
    | TypeCode(entry: nat, selector: string, code: string)
    | TypeModifier(row: nat, slot: nat, selector: string, value: string)

  /** The grid row an action writes to: entry i's code lands on row i+1. */
  function Row(a: Action): nat
  {
    match a
    case TypeCode(entry, _, _) => entry + 1
    case TypeModifier(row, _, _, _) => row
  }

  /** The page during population: for entry i, which code fields and which modifier fields are visible and enabled. */
  datatype Grid = Grid(codeField: nat -> string -> bool, modifierField: nat -> string -> bool)

  const CodeFieldSelectors: seq<string> := ["input[ng-model=\"newCPT\"]", "#billingClaimIpt34"]

  /** The M1 (slot 1, column 8) or M2 (slot 2, column 9) selectors of a row. */
  function ModifierSelectors(row: nat, slot: nat): seq<string>
  {
    var r := "table tbody tr:nth-child(" + NatToString(row) + ")";
    if slot == 1 then
      [r + " td:nth-child(8) input", r + " input[data-fieldname*=\"MOD1\"]", r + " input[data-fieldname*=\"M1\"]"]
    else
      [r + " td:nth-child(9) input", r + " input[data-fieldname*=\"MOD2\"]", r + " input[data-fieldname*=\"M2\"]"]
  }

  /** The text a value is typed as: only strings can be typed; anything else makes typing raise. */
  function Typed(v: Json): Option<string>
  {
    if v.JStr? then Some(v.s) else None
  }

  /** A modifier is entered only when present, typable, and some field of its row accepts it. */
  function ModifierActions(row: nat, slot: nat, value: Json, usable: string -> bool): (r: seq<Action>)
    ensures |r| <= 1
    ensures r != [] ==> Truthy(value) && value.JStr? && r[0] == TypeModifier(row, slot, r[0].selector, value.s)
  {
    if !Truthy(value) || Typed(value).None? then []
    else
      match FirstAccepted(ModifierSelectors(row, slot), usable)
      case None => []
      case Some(k) => [TypeModifier(row, slot, ModifierSelectors(row, slot)[k], value.s)]
  }

  /**
   * What is typed for entry i: its code into the first usable `*` field, then
   * its modifiers on row i+1; nothing when no field is usable or the code
   * cannot be typed.
   */
  function EntryActions(i: nat, rec: Record, grid: Grid): (r: seq<Action>)
    ensures r == [] <==>
      Typed(GetOr(rec, "code", JStr(""))).None? ||
      forall k :: 0 <= k < |CodeFieldSelectors| ==> !grid.codeField(i)(CodeFieldSelectors[k])
    ensures r != [] ==>
      r[0] == TypeCode(i, r[0].selector, Typed(GetOr(rec, "code", JStr(""))).value) &&
      r[0].selector in CodeFieldSelectors && grid.codeField(i)(r[0].selector)
  {
    var code := GetOr(rec, "code", JStr(""));
    match Typed(code)
    case None => []
    case Some(text) =>
      match FirstAccepted(CodeFieldSelectors, grid.codeField(i))
      case None => []
      case Some(k) =>
        [TypeCode(i, CodeFieldSelectors[k], text)]
        + ModifierActions(i + 1, 1, GetOr(rec, "modifier1", JStr("")), grid.modifierField(i))
        + ModifierActions(i + 1, 2, GetOr(rec, "modifier2", JStr("")), grid.modifierField(i))
  }

  /** What a per-entry step types, entry by entry in order. */
  function PlanWith(codes: seq<Record>, entry: (nat, Record) -> seq<Action>): (r: seq<Action>)
    ensures forall a :: a in r ==> exists i :: 0 <= i < |codes| && a in entry(i, codes[i])
    decreases |codes|
  {
    if codes == [] then []
    else
      var n := |codes| - 1;
      assert forall i :: 0 <= i < n ==> codes[..n][i] == codes[i];
      PlanWith(codes[..n], entry) + entry(n, codes[n])
  }

  /** Everything typed for the codes, entry by entry in order. */
  function Plan(codes: seq<Record>, grid: Grid): seq<Action>
  {
    PlanWith(codes, (i: nat, rec: Record) => EntryActions(i, rec, grid))
  }

  /** Entry i writes only to row i+1, starting with its code, with at most one modifier per slot, M1 before M2. */
  lemma EntryActionsShape(i: nat, rec: Record, grid: Grid)
    ensures var acts := EntryActions(i, rec, grid);
      |acts| <= 3 && (forall a :: a in acts ==> Row(a) == i + 1) &&
      (acts != [] ==> acts[0].TypeCode? && acts[0].entry == i) &&
      (forall k :: 1 <= k < |acts| ==> acts[k].TypeModifier? && 1 <= acts[k].slot <= 2) &&
      (|acts| == 3 ==> acts[1].slot == 1 && acts[2].slot == 2)
  {
    var acts := EntryActions(i, rec, grid);
    if acts != [] {
      var text := GetOr(rec, "code", JStr("")).s;
      var k := FirstAccepted(CodeFieldSelectors, grid.codeField(i)).value;
      var m1 := ModifierActions(i + 1, 1, GetOr(rec, "modifier1", JStr("")), grid.modifierField(i));
      var m2 := ModifierActions(i + 1, 2, GetOr(rec, "modifier2", JStr("")), grid.modifierField(i));
      assert acts == [TypeCode(i, CodeFieldSelectors[k], text)] + m1 + m2;
      CodeThenModifiersShape(i, TypeCode(i, CodeFieldSelectors[k], text), m1, m2);
    }
  }

  /** A code for entry i followed by at most an M1 and at most an M2 on row i+1. */
  lemma CodeThenModifiersShape(i: nat, code: Action, m1: seq<Action>, m2: seq<Action>)
    requires code.TypeCode? && code.entry == i
    requires |m1| <= 1 && (m1 != [] ==> m1[0].TypeModifier? && m1[0].row == i + 1 && m1[0].slot == 1)
    requires |m2| <= 1 && (m2 != [] ==> m2[0].TypeModifier? && m2[0].row == i + 1 && m2[0].slot == 2)
    ensures var acts := [code] + m1 + m2;
      |acts| <= 3 && (forall a :: a in acts ==> Row(a) == i + 1) &&
      acts[0] == code &&
      (forall k :: 1 <= k < |acts| ==> acts[k].TypeModifier? && 1 <= acts[k].slot <= 2) &&
      (|acts| == 3 ==> acts[1].slot == 1 && acts[2].slot == 2)
  {
    var acts := [code] + m1 + m2;
    forall a | a in acts
      ensures Row(a) == i + 1
    {
      if a in m1 {
        assert a == m1[0];
      } else if a in m2 {
        assert a == m2[0];
      }
    }
  }

  /** A modifier that is empty is never typed. */
  lemma EmptyModifierNotTyped(i: nat, rec: Record, grid: Grid, slot: nat)
    requires slot == 1 || slot == 2
    requires !Truthy(GetOr(rec, if slot == 1 then "modifier1" else "modifier2", JStr("")))
    ensures forall a :: a in EntryActions(i, rec, grid) ==> !(a.TypeModifier? && a.slot == slot)
  {
  }

  /** A step that writes only to row i+1 for entry i. */
  ghost predicate WritesOwnRow(entry: (nat, Record) -> seq<Action>)
  {
    forall i: nat, rec: Record :: forall a :: a in entry(i, rec) ==> Row(a) == i + 1
  }

  /** A plan whose steps write their own rows writes rows in order, each row at most the number of entries. */
  lemma {:induction false} PlanRowsInOrder(codes: seq<Record>, entry: (nat, Record) -> seq<Action>)
    requires WritesOwnRow(entry)
    ensures forall k :: 0 <= k < |PlanWith(codes, entry)| ==> 1 <= Row(PlanWith(codes, entry)[k]) <= |codes|
    ensures forall j, k :: 0 <= j < k < |PlanWith(codes, entry)| ==>
      Row(PlanWith(codes, entry)[j]) <= Row(PlanWith(codes, entry)[k])
    decreases |codes|
  {
    if codes != [] {
      var n := |codes| - 1;
      PlanRowsInOrder(codes[..n], entry);
      RowsOfConcat(PlanWith(codes[..n], entry), entry(n, codes[n]), n);
    }
  }

  /** The population step writes entry i's code and modifiers on row i+1 only. */
  lemma EntryWritesOwnRow(grid: Grid)
    ensures WritesOwnRow((i: nat, rec: Record) => EntryActions(i, rec, grid))
  {
    forall i: nat, rec: Record
      ensures forall a :: a in EntryActions(i, rec, grid) ==> Row(a) == i + 1
    {
      EntryActionsShape(i, rec, grid);
    }
  }

  /** Rows in order up to `n`, followed by actions on row `n + 1`, are rows in order up to `n + 1`. */
  lemma RowsOfConcat(init: seq<Action>, tail: seq<Action>, n: nat)
    requires forall k :: 0 <= k < |init| ==> 1 <= Row(init[k]) <= n
    requires forall j, k :: 0 <= j < k < |init| ==> Row(init[j]) <= Row(init[k])
    requires forall a :: a in tail ==> Row(a) == n + 1
    ensures forall k :: 0 <= k < |init + tail| ==> 1 <= Row((init + tail)[k]) <= n + 1
    ensures forall j, k :: 0 <= j < k < |init + tail| ==> Row((init + tail)[j]) <= Row((init + tail)[k])
  {
    var p := init + tail;
    forall k | 0 <= k < |p|
      ensures 1 <= Row(p[k]) <= n + 1
    {
      if k >= |init| {
        assert p[k] == tail[k - |init|];
      } else {
        assert p[k] == init[k];
      }
    }
    forall j, k | 0 <= j < k < |p|
      ensures Row(p[j]) <= Row(p[k])
    {
      if k >= |init| {
        assert p[k] == tail[k - |init|];
        if j >= |init| {
          assert p[j] == tail[j - |init|];
        } else {
          assert p[j] == init[j];
        }
      } else {
        assert p[j] == init[j] && p[k] == init[k];
      }
    }
  }

  /** The population loop: entries in order, the `*` field loop with its flag, then the M1 and M2 loops. */
  method AddCptCodes(codes: seq<Record>, grid: Grid) returns (actions: seq<Action>)
    ensures actions == Plan(codes, grid)
  {
    actions := [];
    if codes == [] {
      return;
    }
    for i := 0 to |codes|
      invariant actions == Plan(codes[..i], grid)
    {
      assert codes[..i + 1][..i] == codes[..i];
      var entry := AddEntry(i, codes[i], grid);
      actions := actions + entry;
    }
    assert codes[..|codes|] == codes;
  }

  /** One entry of the population loop; a failed entry contributes nothing and the loop goes on. */
  method AddEntry(i: nat, rec: Record, grid: Grid) returns (acts: seq<Action>)
    ensures acts == EntryActions(i, rec, grid)
  {
    acts := [];
    var code := GetOr(rec, "code", JStr(""));
    var modifier1 := GetOr(rec, "modifier1", JStr(""));
    var modifier2 := GetOr(rec, "modifier2", JStr(""));
    if !code.JStr? {
      return;
    }
    var field := FindFirstAccepted(CodeFieldSelectors, grid.codeField(i));
    if field.None? {
      return;
    }
    acts := [TypeCode(i, CodeFieldSelectors[field.value], code.s)];
    var currentRow := i + 1;
    var m1 := AddModifier(currentRow, 1, modifier1, grid.modifierField(i));
    var m2 := AddModifier(currentRow, 2, modifier2, grid.modifierField(i));
    acts := acts + m1 + m2;
  }

  /** The M1/M2 selector loop of one row. */
  method AddModifier(row: nat, slot: nat, value: Json, usable: string -> bool) returns (acts: seq<Action>)
    ensures acts == ModifierActions(row, slot, value, usable)
  {
    acts := [];
    if Truthy(value) && value.JStr? {
      var selectors := ModifierSelectors(row, slot);
      var field := FindFirstAccepted(selectors, usable);
      if field.Some? {
        acts := [TypeModifier(row, slot, selectors[field.value], value.s)];
      }
    }
  }

  // ---------------------------------------------------------------------------
  // ICD entry and the whole step

  const IcdFieldSelectors: seq<string> := [
    "input[ng-model=\"newICD\"]",
    "input[class*=\"claimICDInput\"]",
    "input[id*=\"txtnewIcd\"]",
    "input[ng-keydown*=\"lookupICDCode\"]"
  ]

  /** `add_icd_code`: the selector the code is filled into, when the ICD section and one of its fields are visible. */
  function AddIcdCode(headerVisible: bool, fieldVisible: string -> bool): (r: Option<string>)
    ensures r.Some? ==> headerVisible && r.value in IcdFieldSelectors && fieldVisible(r.value)
    ensures r.None? <==>
      !headerVisible || forall k :: 0 <= k < |IcdFieldSelectors| ==> !fieldVisible(IcdFieldSelectors[k])
  {
    if !headerVisible then None
    else
      match FirstAccepted(IcdFieldSelectors, fieldVisible)
      case None => None
      case Some(k) => Some(IcdFieldSelectors[k])
  }

  /** What population does on the page: the CPT actions, then where the ICD code went. */
  datatype Population = Population(cpt: seq<Action>, icd: Option<string>)

  /**
   * `populate_cpt_and_icd_codes`: codes are typed only when more than one was
   * predicted; the ICD code is attempted in every case.
   */
  function PopulateCodes(predicted: Option<seq<Record>>, grid: Grid, icdHeader: bool, icdField: string -> bool): (r: Population)
    ensures r.icd == AddIcdCode(icdHeader, icdField)
  {
    var cpt := if predicted.Some? && |predicted.value| > 1 then Plan(predicted.value, grid) else [];
    Population(cpt, AddIcdCode(icdHeader, icdField))
  }

  /** Nothing is typed into the CPT grid unless at least two codes were predicted. */
  lemma FewerThanTwoCodesTypesNothing(predicted: Option<seq<Record>>, grid: Grid, icdHeader: bool, icdField: string -> bool)
    requires predicted.None? || |predicted.value| <= 1
    ensures PopulateCodes(predicted, grid, icdHeader, icdField).cpt == []
  {
  }

  /** With two or more codes, every typed action targets a row of one of the predicted entries. */
  lemma PopulatedRowsAreEntries(codes: seq<Record>, grid: Grid, icdHeader: bool, icdField: string -> bool)
    requires |codes| > 1
    ensures var cpt := PopulateCodes(Some(codes), grid, icdHeader, icdField).cpt;
      forall k :: 0 <= k < |cpt| ==> 1 <= Row(cpt[k]) <= |codes|
  {
    var entry := (i: nat, rec: Record) => EntryActions(i, rec, grid);
    EntryWritesOwnRow(grid);
    PlanRowsInOrder(codes, entry);
    assert PopulateCodes(Some(codes), grid, icdHeader, icdField).cpt == PlanWith(codes, entry);
  }
}
