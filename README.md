# Billing automation core, modelled in Dafny

The billing automation logs in to eClinicalWorks (eCW) and moves to the Claims
screen. There it sets the service-date range and looks up a claim, then
extracts the visit's progress notes from the notes dialog's iframes. The notes
are cleaned from HTML, gated on length and checked for a manometry procedure
that was deferred or performed. They are then sent to Claude on AWS Bedrock,
which predicts CPT codes. The parsed codes, with their modifiers, are meant
to be typed into the eCW CPT grid, followed by a fixed ICD code. As written,
`main` hands population the notes where the configuration belongs, so no CPT
code is typed and only the ICD code is attempted (see "## Findings").

This project models the decision logic of that core:

- `notes_handler.dfy`: formatting notes and cleaning HTML. It also covers
  assembling the matched clinical sections, and the fallback that collects
  relevant table cells.
- `bedrock_predictor.dfy`: the prompt, the request, the choice of the reply
  text, and how the JSON array or object is cut out of the model's prose.
- `coding_records.dfy`: turning the parsed JSON into coding records (code,
  two modifiers, description), and counting records that lack a code.
- `bedrock_retry.dfy`: the local test's retry loop, which escalates the prompt
  when too few codes come back.
- `manometry.dfy`: the four-way manometry verdict and the snippet that shows
  its keyword.
- `cpt_population.dfy`: prediction from `notes.txt`,
  and the rows and fields the population loop writes.
- `ecw_navigation.dfy`: the MM-DD-YYYY date, month options, which day cells
  are accepted, FROM before TO, and the Claims menu path.
- `claims_lookup.dfy`: the two-pass claim search, the claim-number listing,
  and the workflow that stops at its first failing step.
- `progress_notes.dfy`: opening the dialog, which iframes are scanned, frame
  resolution, marker search, closing the dialog and the final notes.
- `web_automation.dfy`: the three-attempt extraction gate and `main`'s
  exit codes and step order.
- `ui_choice.dfy`: the shared "first visible/accepted candidate" loops.
- `strings.dfy`, `json_values.dfy`, `wrappers.dfy`: Python `str` operations
  on ASCII text, JSON values with Python truthiness, and `Option`.

The browser, Bedrock, `json.loads`, the section regular expressions, files,
the console and operator input are not modelled; each is a parameter. Playwright
lookups become predicates or lists of element records (visible, text,
attributes). The Bedrock call becomes a function from request to optional
reply body. `json.loads` becomes a partial decoder, and the seven section
matchers a record of match results. Reading a file becomes a function from
name to optional text. The operator's answer is a string.

Where the code loops or updates flags, the model has a `method` with a
`while` loop proved against a specification function. The properties are
proved about that function.

## Model

| member | source | states |
|---|---|---|
| NotesHandler.FormatNotes | notes_handler.py:51-70 | Empty notes give `""`; any result has no surrounding whitespace |
| NotesHandler.FormatNotesExpandsEscapes | notes_handler.py:64-70 | No literal `\n`, `\t` or `\r` escape pair is left in the formatted notes |
| NotesHandler.FormatNotesIdempotent | notes_handler.py:51-70 | Formatting formatted notes changes nothing |
| NotesHandler.StripTags | notes_handler.py:327 | Removing tags never lengthens the text, and every character left was in the text or is a space that replaced a tag |
| NotesHandler.StripTagsWithoutClose | notes_handler.py:327 | Text without `>` holds no tag and is left as it is |
| NotesHandler.StripTagsWithoutOpen | notes_handler.py:327 | Text without `<` holds no tag and is left as it is |
| NotesHandler.StripTagsReplacesTag | notes_handler.py:327 | The first tag `<…>` becomes one space; the text before it is kept and removal continues after it |
| NotesHandler.ApplyEntitiesWithoutAmp | notes_handler.py:330-341 | Entities all start with `&`, so text without `&` is unchanged by any table of them |
| NotesHandler.DecodeWithoutAmp | notes_handler.py:330-341 | The entity table leaves text without `&` unchanged |
| NotesHandler.DecodeAmpLt | notes_handler.py:330-341 | Entities are replaced one after another in table order, so `&amp;lt;` decodes twice, to `<` |
| NotesHandler.SquashWithoutNewline | notes_handler.py:345 | The blank-line squash leaves text without a newline unchanged |
| NotesHandler.CleanHtmlContent | notes_handler.py:319-355 | The imperative cleaner (entity loop, line loop) computes `CleanHtml` |
| NotesHandler.ReplaceEntities | notes_handler.py:340-341 | The entity loop applies the whole table in order |
| NotesHandler.KeepNonBlankLines | notes_handler.py:348-355 | The line loop keeps exactly the stripped non-blank lines, in order |
| NotesHandler.CleanHtmlIsStrip | notes_handler.py:344-355 | Cleaning is tag removal, entity decoding, whitespace collapsing and one strip: the line split and join add nothing after `\s+` became one space |
| NotesHandler.CleanHtml | notes_handler.py:319-355 | Empty content stays empty; cleaned text has no newline and no run of two spaces, and has no surrounding whitespace |
| NotesHandler.CleanLinesOfCollapsed | notes_handler.py:344-355 | After `\s+` became one space, splitting into lines, dropping blank lines and joining with newlines is the same as one strip |
| NotesHandler.CleanHtmlFixedPoint | notes_handler.py:319-355 | Already-clean text (no `<`, no `&`, single-spaced, stripped) is its own cleaning |
| NotesHandler.PatientBlock | notes_handler.py:204-208 | The patient block is present exactly when the patient pattern matched, and is never empty |
| NotesHandler.SectionBlock | notes_handler.py:214-280 | A section contributes one non-empty block exactly when its pattern matched |
| NotesHandler.Blocks | notes_handler.py:210-280 | No more blocks than sections, and none of them empty |
| NotesHandler.BlocksEmptyIff | notes_handler.py:198-280 | There are no section blocks exactly when no section matched |
| NotesHandler.AssembledSectionsEmptyIff | notes_handler.py:198-280 | The assembled notes are empty exactly when neither the patient nor any of the seven sections matched |
| NotesHandler.SectionBlocksNonEmpty | notes_handler.py:198-280 | Every block joined into the notes is non-empty |
| NotesHandler.AssembledSectionsStartWithPatient | notes_handler.py:204-208 | With a patient match, the notes start with the `Patient: <name>` heading |
| NotesHandler.CellAt | notes_handler.py:294 | A found cell lies after the `<td…>` opener and before its closing tag |
| NotesHandler.CellFrom | notes_handler.py:294 | A cell starting at a given index ends before the first closing tag after it |
| NotesHandler.CellAtCell | notes_handler.py:294 | `<td>c</td>…` with no `</td>` inside `c` (in any case) yields exactly the cell `c`: the search is non-greedy |
| NotesHandler.CellAtOpened | notes_handler.py:294 | After `<td`, the cell starts just past the first `>` |
| NotesHandler.CellFromFound | notes_handler.py:294 | The cell stops at the first case-insensitive closing tag |
| NotesHandler.CellsOfCell | notes_handler.py:294-295 | The cell list of `<td>c</td>rest` is `c` followed by the cells of `rest` |
| NotesHandler.TdCellsOfCell | notes_handler.py:294-295 | The same, for the `</td>` closing tag used by the fallback |
| NotesHandler.RelevantCells | notes_handler.py:297-301 | No more relevant cells than cells |
| NotesHandler.FirstTwenty | notes_handler.py:304 | Exactly the first `min(20, n)` relevant cells are kept |
| NotesHandler.AppendBlockJoins | notes_handler.py:217-280 | Each `+= "\n\n" + block` (the first without a separator) keeps the notes equal to the blocks joined by blank lines |
| NotesHandler.AppendSectionBlocks | notes_handler.py:210-280 | The section loop leaves the notes equal to all blocks so far joined by blank lines |
| NotesHandler.AppendSection | notes_handler.py:214-220 | One section step appends its block to the join and keeps every block non-empty |
| NotesHandler.AssembleSections | notes_handler.py:198-280 | The imperative assembly computes `AssembledSections` |
| NotesHandler.CollectRelevantCells | notes_handler.py:297-301 | The cell loop computes `RelevantCells` |
| NotesHandler.AddIfRelevant | notes_handler.py:298-301 | One cell step appends the cleaned cell exactly when it is longer than 20 and names a clinical keyword |
| NotesHandler.ClinicalNotesFromHtml | notes_handler.py:189-309 | Empty HTML gives `""`; accepted sections give more than 100 characters; rejected sections and no relevant cell give the fixed "no clinical notes found" message |
| NotesHandler.ExtractClinicalNotesFromHtml | notes_handler.py:176-309 | The imperative extraction computes `ClinicalNotesFromHtml` |
| NotesHandler.CleanedCellIsClean | notes_handler.py:299 | A cleaned cell is already stripped and has no newline |
| NotesHandler.RelevantCellIsRelevant | notes_handler.py:297-301 | Each kept cell is relevant and holds no newline |
| NotesHandler.RelevantCellsAreRelevant | notes_handler.py:297-301 | All kept cells are relevant and hold no newline |
| NotesHandler.ClinicalNotesNonEmpty | notes_handler.py:189-309 | The extraction returns `""` exactly when the HTML is empty; otherwise some text (notes, cells or the fixed message) |
| NotesHandler.FallbackLinesAreRelevantCells | notes_handler.py:287-306 | When the sections are rejected, the lines of the result are exactly the first 20 relevant cells: at most 20 lines, each relevant |
| NotesHandler.NoNotesFoundWhenNothingMatches | notes_handler.py:303-309 | No section and no relevant cell gives the fixed "no clinical notes found" message |
| NotesHandler.AcceptedSectionsShape | notes_handler.py:283-285 | Accepted sections are stripped, and keep the `Patient: ` label when a patient matched |
| NotesHandler.PrimaryResultIsLong | notes_handler.py:283-285 | When the assembled notes pass, the result is over 100 characters, stripped, and starts with the patient label if there is one |
| BedrockPredictor.FormatPromptWithoutPlaceholder | bedrock_cpt_predictor.py:48 | A template without `{notes}` is sent unchanged |
| BedrockPredictor.FormatPromptAtFirstPlaceholder | bedrock_cpt_predictor.py:48 | The first `{notes}` becomes the notes; the text before it is kept and replacement continues after it |
| BedrockPredictor.DefaultPromptHasPlaceholder | bedrock_cpt_predictor.py:13-39 | The default prompt holds the `{notes}` placeholder, and none after the first one |
| BedrockPredictor.BuildRequest | bedrock_cpt_predictor.py:41-67 | The request goes to the given region and carries the formatted prompt as the user message, the fixed model id and API version, and 2000 max tokens |
| BedrockPredictor.SelectResponseText | bedrock_cpt_predictor.py:72-76 | Text is returned only when `content` is a non-empty list whose first block has a `text` entry, and it is that entry's string |
| BedrockPredictor.NoContentNoText | bedrock_cpt_predictor.py:72-76 | A body without `content`, or with an empty list, gives no text |
| BedrockPredictor.FirstBlockText | bedrock_cpt_predictor.py:72-73 | A first block with text gives exactly that text |
| BedrockPredictor.GetCptCodesFromBedrock | bedrock_cpt_predictor.py:41-80 | A failed call gives `None`; any text is the selected text of the reply to the request built for the given region |
| BedrockPredictor.BracketSpan | bedrock_cpt_predictor.py:92-97 | A span found runs from the first opener to the first closer after it |
| BedrockPredictor.Bracketed | bedrock_cpt_predictor.py:92-99 | The cut text starts with the opener, ends with the closer, and holds no closer in between |
| BedrockPredictor.BracketSpanIff | bedrock_cpt_predictor.py:92 | A span exists exactly when some opener precedes some closer |
| BedrockPredictor.SpanUnique | bedrock_cpt_predictor.py:92 | The first opener with the first closer after it is the only span found |
| BedrockPredictor.BracketedOfSlice | bedrock_cpt_predictor.py:89-92 | Cutting away text with no opener in front and no closer behind does not change the bracketed result |
| BedrockPredictor.BracketedOfStrip | bedrock_cpt_predictor.py:89-92 | Stripping the reply first does not change the bracketed result |
| BedrockPredictor.ParseJsonResponse | bedrock_cpt_predictor.py:82-114 | A missing or empty text gives `None`; any result decodes some text of at least two characters that starts with `[` or `{` |
| BedrockPredictor.ArrayFirst | bedrock_cpt_predictor.py:92-99 | When an array span exists, its decoding is the result; the object search is not tried |
| BedrockPredictor.NoBracketsNoJson | bedrock_cpt_predictor.py:100-102 | A reply without `[` and `{` parses to nothing |
| BedrockPredictor.BracketedAround | bedrock_cpt_predictor.py:92 | Prose with no `[` before the array and no `]` inside it yields exactly the array |
| BedrockPredictor.ProseAroundArray | bedrock_cpt_predictor.py:92-106 | Such a reply parses to the decoding of the array alone |
| BedrockPredictor.BracketedEnclosed | bedrock_cpt_predictor.py:92-99 | For either pair, a text with no opener before the pair and no closer inside it yields exactly that pair |
| BedrockPredictor.NoOpenerNoMatch | bedrock_cpt_predictor.py:92-93 | A text without an opener has no match, so the `[`...`]` search fails on a reply without `[` |
| BedrockPredictor.ProseAroundObject | bedrock_cpt_predictor.py:85-106 | A reply with no `[`, whose first `{` opens a flat object, parses to the decoding of that object alone: the object fallback runs |
| BedrockPredictor.NestedArrayTruncated | bedrock_cpt_predictor.py:92 | A nested array is cut at its first `]`, so what is decoded is the truncated text |
| CodingRecords.CodeValueIsFirstTruthy | cpt_population.py:64 | The code is the first truthy of `cpt`, `cptCode`, `code`, else `""` |
| CodingRecords.BlankCptShadowsCode | test_bedrock_local.py:229-231 | A `cpt` of only whitespace is truthy, so it hides `code` and the record prints blank |
| CodingRecords.Normalize | cpt_population.py:64-72 | A record has exactly the keys code, modifier1, modifier2 and description; the modifiers and description come from the entry, defaulting to `""` |
| CodingRecords.NormalizedList | cpt_population.py:60-72 | A list is normalised exactly when every entry is an object; then entry for entry, in order |
| CodingRecords.NormalizeList | cpt_population.py:62-72 | The append loop computes `NormalizedList` |
| CodingRecords.RecordsOf | cpt_population.py:87-95 | Object entries are passed through as they are, and only when all entries are objects |
| CodingRecords.AcceptNested | cpt_population.py:75-81 | A nested `cpt_codes`/`codes` value is used only if it is a non-empty array of objects, unnormalised |
| CodingRecords.ExtractCodes | cpt_population.py:56-100 | Extraction never yields an empty list |
| CodingRecords.CodesFromReply | cpt_population.py:47-104 | Codes come only from a non-empty reply that parsed, and are never empty |
| CodingRecords.ListIsNormalized | cpt_population.py:60-72 | A non-empty array of objects becomes its normalised records, same length and order |
| CodingRecords.NonRecordEntryFails | cpt_population.py:62-64 | A single non-object entry makes the whole extraction fail |
| CodingRecords.CptCodesFirst | cpt_population.py:75-79 | In an object, a non-empty `cpt_codes` wins whatever `codes` holds |
| CodingRecords.MissingCountZeroIff | test_bedrock_local.py:227-231 | No code is missing exactly when every entry has a code that does not print blank |
| CodingRecords.CountMissing | test_bedrock_local.py:227-231 | The counting loop computes `MissingCount` |
| CodingRecords.ProbeList | test_bedrock_local.py:233-248 | Missing codes never outnumber the codes counted |
| CodingRecords.ProbeCounts | test_bedrock_local.py:218-248 | Missing never exceeds count; an unparsed reply counts as zero codes |
| CodingRecords.ProbeResponse | test_bedrock_local.py:218-248 | The probing loop computes `ProbeCounts` |
| CodingRecords.ProbedCompleteListHasCodes | test_bedrock_local.py:227-231 | A list the probe finds complete extracts, and no extracted code prints blank |
| BedrockRetry.MinExpectedCodes | test_bedrock_local.py:198-203 | Four codes for a plan named `commercial` in any case, three otherwise |
| BedrockRetry.NotesWithPrefix | test_bedrock_local.py:149-150 | The notes sent are `<plan> plan: ` followed by the notes unchanged |
| BedrockRetry.SelectPrompt | test_bedrock_local.py:160-175 | The plan's own prompt file wins; else the generic file with its plan phrase replaced by `<plan> plan`; else the built-in prompt |
| BedrockRetry.GenericPromptWithoutPhrase | test_bedrock_local.py:160-175 | With no plan file, the generic prompt is used as it is when it lacks the plan phrase |
| BedrockRetry.NextPrompt | test_bedrock_local.py:252-277 | The next prompt extends the template: by the critical note when codes are missing, by the important note when only too few came back; unchanged on the last attempt or an empty reply |
| BedrockRetry.RetryFrom | test_bedrock_local.py:205-277 | The prompts already sent stay a prefix; with attempts left at least one more and at most the remaining attempts are sent; with none left the loop finishes on the last reply |
| BedrockRetry.RetryFacts | test_bedrock_local.py:205-277 | 1 to 3 prompts, starting with the template, each extending the previous; each later prompt is exactly what one attempt on the one before leads to (unchanged after an empty reply, sharpened after an insufficient one), so no earlier reply was sufficient; the text kept is the last reply; stopping early means it was sufficient; a crash means the probe of the last non-empty reply raised |
| BedrockRetry.RetryFollows | test_bedrock_local.py:214-277 | Every prompt after the first is the step of the loop from the one before it |
| BedrockRetry.FollowedSnoc | test_bedrock_local.py:205-277 | Appending the prompt that the last one leads to keeps the prompts a chain of loop steps |
| BedrockRetry.RetryCrashesOnRaise | test_bedrock_local.py:218-248 | The loop crashes only when the last reply is non-empty and probing it raised |
| BedrockRetry.RetryShape | test_bedrock_local.py:205-216 | The prompts sent so far are a prefix of all prompts sent, and there are at most three |
| BedrockRetry.RetryGrows | test_bedrock_local.py:256-271 | Each prompt extends the one before |
| BedrockRetry.RetryKeepsLastReply | test_bedrock_local.py:208-216 | The text at the end is the reply to the last prompt |
| BedrockRetry.RetryStopsWhenSufficient | test_bedrock_local.py:253-255 | The loop ends before its third attempt only on a sufficient reply |
| BedrockRetry.PredictWithRetries | test_bedrock_local.py:205-277 | The imperative retry loop computes `RetryFrom` |
| BedrockRetry.ProbeReply | test_bedrock_local.py:218-248 | The reply's probe is the channel's probe of that text |
| BedrockRetry.CompleteReplyIsSufficient | test_bedrock_local.py:218-255 | A non-empty list of records with codes counts all of them, none missing, and extracts |
| BedrockRetry.FirstSufficientReplyPasses | test_bedrock_local.py:205-255 | A first reply with enough complete records ends the loop after one prompt and passes the test |
| BedrockRetry.FirstReplySufficient | test_bedrock_local.py:253-255 | A sufficient first reply is the only one asked for |
| BedrockRetry.AsksAnswered | test_bedrock_local.py:205-212 | The session's channel answers a prompt only when Bedrock answered the request built for that prompt at the session's region |
| BedrockRetry.LastPromptAnswered | test_bedrock_local.py:178-216 | On a channel that answers only what Bedrock answered, a loop finishing with text had the request for its last prompt answered, within three attempts |
| BedrockRetry.PredictAndParse | test_bedrock_local.py:279-361 | The test passes only when the loop finished on a non-empty reply, which Bedrock gave at the configured region |
| BedrockRetry.TestBedrockPrediction | test_bedrock_local.py:132-367 | Without the notes file the test fails; a passing test got an answer from Bedrock at the configured region (`us-east-1` by default) |
| BedrockRetry.SilentBedrockFails | test_bedrock_local.py:205-281 | If Bedrock never answers, all three attempts send the unchanged template and the test fails |
| Manometry.StatusWith | test_bedrock_local.py:71-114 | Each verdict names a keyword from its own list that occurs in the lower-cased notes; deferred and performed also mean no keyword of the other list occurs; unclear means no keyword of either list occurs |
| Manometry.ManometryStatus | test_bedrock_local.py:26-116 | With the source's two keyword lists: deferred and performed name an occurring keyword of their list, conflicting names one of each |
| Manometry.SnippetAround | test_bedrock_local.py:118-130 | A snippet exists exactly when the keyword occurs in the lower-cased notes, and is at most keyword length plus 200 |
| Manometry.FirstFound | test_bedrock_local.py:71-87 | The keyword found is the first in list order occurring in the notes; none only if none occurs |
| Manometry.FindFirstKeyword | test_bedrock_local.py:72-87 | The flag loop finds exactly that first keyword, or `""` |
| Manometry.RemoveIffOnlyNegative | test_bedrock_local.py:94-98 | The verdict is "deferred" exactly when a deferral keyword and no performed keyword occur |
| Manometry.KeepIffOnlyPositive | test_bedrock_local.py:99-103 | The verdict is "performed" exactly when a performed keyword and no deferral keyword occur |
| Manometry.VerdictIff | test_bedrock_local.py:94-114 | Each of the four verdicts holds exactly under its combination of the two keyword lists |
| Manometry.StatusIgnoresCase | test_bedrock_local.py:36 | The verdict is the same for the notes and their lower-cased form |
| Manometry.SnippetAroundShowsKeyword | test_bedrock_local.py:121-125 | The snippet exists, is at most keyword length plus 200, and shows the keyword |
| Manometry.SnippetShowsKeyword | test_bedrock_local.py:118-130 | With any verdict other than unclear, the snippet shows the keyword the verdict was drawn from |
| Manometry.KeywordOfVerdictOccurs | test_bedrock_local.py:119-122 | The verdict's keyword occurs in the lower-cased notes |
| Manometry.CheckStatus | test_bedrock_local.py:71-130 | The imperative classifier computes the verdict and its snippet |
| Manometry.CutSnippet | test_bedrock_local.py:121-125 | The window is clamped to the notes and cut around the first occurrence |
| Manometry.DebugManometryStatus | web_automation.py:36-140 | The pipeline's copy computes the same verdict and snippet as the test script's |
| WebAutomation.ExtractionGate | web_automation.py:228-249 | One to three attempts are made; the loop stops early only on accepted notes; the notes kept are those of some attempt made |
| WebAutomation.GateAfter | web_automation.py:228-249 | The gate stops within its attempts, and stops early only on accepted notes |
| WebAutomation.GateStopsAtFirstAccepted | web_automation.py:231-239 | The first accepted attempt is kept and the loop stops after it |
| WebAutomation.GateRejectsWhileNoneAccepted | web_automation.py:231-249 | With no accepted attempt, all attempts run and the notes are rejected |
| WebAutomation.GateFailsIffNoAttemptPasses | web_automation.py:237-251 | The notes fail the gate exactly when none of the three attempts gives 50 stripped characters |
| WebAutomation.GateHoldsLastReturned | web_automation.py:234-249 | An attempt that raises keeps the notes of the last attempt that returned |
| WebAutomation.ExtractWithRetries | web_automation.py:228-249 | The imperative loop computes the three-attempt gate |
| WebAutomation.RetryUpTo | web_automation.py:231-249 | The loop over `n` attempts computes `GateAfter` |
| WebAutomation.StaysAccepted | web_automation.py:237-239 | Once accepted, further attempts change nothing |
| WebAutomation.AsWrittenPopulatesNoCpt | web_automation.py:278 | Passing the notes where the config belongs types no CPT code |
| WebAutomation.PopulateArgTypesPrediction | web_automation.py:278 | Passing the config types the predicted codes' plan when more than one is predicted |
| WebAutomation.EffectsOf | web_automation.py:262-278 | As written: the manometry check is the real one; population types no CPT code and only attempts the ICD code |
| WebAutomation.EffectsIntended | web_automation.py:262-278 | With the config passed: population is the real prediction and population from the configured region |
| WebAutomation.RunWith | web_automation.py:142-312 | Exit codes are 0 or 1; the first step is the login; exit 0 means config, login and Claims all succeeded, and the run ended by populating codes |
| WebAutomation.AfterNavigation | web_automation.py:206-296 | After navigation the run exits; dates, lookup and extraction come in that order; exit 1 exactly when the gate failed and the operator typed `q`, and then nothing more happens |
| WebAutomation.MainRun | web_automation.py:142-312 | `main` raises exactly when the config exists without `target_date`; otherwise exit 1 exactly when the config is missing, login fails, Claims is not reached, or the operator quits after the gate fails |
| WebAutomation.MainRunTypesNoCpt | web_automation.py:274-278 | In the run as written, every population step types no CPT code and only attempts the ICD code |
| WebAutomation.MainRunIntended | web_automation.py:142-312 | The corrected run differs from the run as written only in what population types |
| WebAutomation.SameRunButPopulation | web_automation.py:142-312 | Two runs with the same manometry check take the same steps and exit the same way; only population can differ |
| WebAutomation.MainRunIntendedTypesPrediction | web_automation.py:274-278 | In the corrected run, population types the plan of the predicted codes when more than one is predicted, none otherwise, and attempts the ICD code |
| WebAutomation.ExitCodes | web_automation.py:142-312 | Exit code 1 exactly when the config is missing, login fails, Claims is not reached, or the operator quits after the gate fails; else 0 |
| WebAutomation.MissingTargetDateRaises | web_automation.py:160 | A config without `target_date` raises out of `main` |
| WebAutomation.DatesAndLookupNotFatal | web_automation.py:211-221 | The outcome of the date setting and of the claims lookup never changes the exit code |
| WebAutomation.ManometryOnlyAfterGate | web_automation.py:251-270 | The manometry check runs exactly when the notes passed the gate, and on those notes |
| WebAutomation.PopulatedNotes | web_automation.py:251-278 | Population runs exactly on exit 0, on the accepted notes or on the manual-intervention text |
| WebAutomation.RunMain | web_automation.py:142-312 | The imperative `main` computes `RunWith` on the gate's outcome |
| WebAutomation.ContinueRun | web_automation.py:206-296 | The steps after navigation compute `AfterNavigation` |
| WebAutomation.RunAutomation | web_automation.py:142-312 | The whole run, with the notes passed to population as written, computes `MainRun` |
| CptPopulation.GetPredictedCptCodes | cpt_population.py:13-109 | A prediction is never an empty list |
| CptPopulation.PredictionUsesRegion | cpt_population.py:37-45 | The prediction depends on Bedrock only through requests to the configured region, and a missing region means `us-east-1` |
| CptPopulation.UnreadablePromptUsesDefault | cpt_population.py:28-46 | Without a readable `prompt.txt` the Bedrock request is built from the built-in default prompt, for the configured region |
| CptPopulation.NotAConfigGivesNothing | cpt_population.py:37-109 | Anything other than a config object makes `config.get` raise, so the prediction is `None` |
| CptPopulation.PredictionNormalizesList | cpt_population.py:41-72 | A reply that parses to a non-empty array of objects is predicted as its normalised records |
| CptPopulation.ReplyWithList | cpt_population.py:47-72 | The same, stated on the reply text |
| CptPopulation.EntryActions | cpt_population.py:152-311 | An entry writes nothing exactly when its code is not typeable or no code field is usable; otherwise it first types its code into a usable code field of its row |
| CptPopulation.PlanWith | cpt_population.py:152-222 | Every action of the population loop comes from one of the codes' entries |
| CptPopulation.AddIcdCode | cpt_population.py:331-374 | The ICD code goes into a visible field from the selector list under a visible header; it is not typed exactly when the header is hidden or no field is visible |
| CptPopulation.ModifierActions | cpt_population.py:225-265 | A modifier is typed at most once, only when it is a truthy string, and into its own row and slot |
| CptPopulation.EntryActionsShape | cpt_population.py:152-311 | An entry writes at most its code and two modifiers, all in row `i + 1`: the code first, then modifier 1 before modifier 2 |
| CptPopulation.EmptyModifierNotTyped | cpt_population.py:226-267 | An empty modifier is never typed |
| CptPopulation.PlanRowsInOrder | cpt_population.py:152-222 | Every action hits a row from 1 to the number of codes, and rows never go backwards |
| CptPopulation.EntryWritesOwnRow | cpt_population.py:222 | Entry `i` writes only row `i + 1`, whatever the earlier entries did |
| CptPopulation.AddCptCodes | cpt_population.py:137-329 | The imperative population loop computes `Plan` |
| CptPopulation.AddEntry | cpt_population.py:152-311 | One entry's step computes `EntryActions` |
| CptPopulation.AddModifier | cpt_population.py:225-305 | One modifier's step computes `ModifierActions` |
| CptPopulation.PopulateCodes | cpt_population.py:388-414 | The ICD code is always attempted after the CPT codes |
| CptPopulation.FewerThanTwoCodesTypesNothing | cpt_population.py:401-407 | No prediction, or a single code, types no CPT code |
| CptPopulation.PopulatedRowsAreEntries | cpt_population.py:401-403 | With two or more codes, every row written belongs to one of them |
| EcwNavigation.PyIndex | ecw_navigation.py:157 | List indexing with Python's negative indices; `None` exactly where it raises |
| EcwNavigation.PyInt | ecw_navigation.py:150-152 | `int()` of digits, with an optional sign and surrounding whitespace, reads their value; anything else raises |
| EcwNavigation.PyIntOfIntToString | ecw_navigation.py:150-152 | `int(str(i)) == i` |
| EcwNavigation.ParseServiceDate | ecw_navigation.py:148-152 | A parsed date has at least three `-` parts whose first three read as month, day and year |
| EcwNavigation.ParseServiceDateOfDigits | ecw_navigation.py:148-152 | Three digit groups joined by `-` read back as their values, zero padding included |
| EcwNavigation.ShortDateRefused | ecw_navigation.py:149-152 | A date without `-` is refused |
| EcwNavigation.MonthName | ecw_navigation.py:155-157 | A month has a name from the list exactly when Python's index `month - 1` is in range |
| EcwNavigation.MonthNameRange | ecw_navigation.py:155-157 | Months 1 to 12 get their name; 13 or more and -12 or less raise; 0 wraps to December |
| EcwNavigation.PaddedDigitReadsBack | ecw_navigation.py:205 | A one-digit month is padded to two digits that read back as the month |
| EcwNavigation.Pad2ReadsBack | ecw_navigation.py:204-205 | The padded month reads back as the month, and differs from `str(m)` exactly for 0 to 9 |
| EcwNavigation.MonthOptions | ecw_navigation.py:199-207 | There are options exactly when the month has a name: five of them, full name, number, padded number and number minus one after the short name |
| EcwNavigation.MonthOptionsOfMonth | ecw_navigation.py:199-207 | For months 1 to 12 the options are exactly short name, full name, `str(m)`, padded `m`, `str(m - 1)` |
| EcwNavigation.DayCellWithDayAccepted | ecw_navigation.py:362-366 | A cell showing the day number with any surrounding whitespace, and a class without `old`, `new` or `disabled`, is accepted |
| EcwNavigation.PaddedDayRejected | ecw_navigation.py:362-363 | A cell showing `05` is not accepted for day 5 |
| EcwNavigation.CalendarDate | ecw_navigation.py:167-384 | A month chosen is a selectable option of a visible dropdown; a day clicked is an accepted cell; no day exactly when no cell of any day selector is accepted |
| EcwNavigation.CalendarDateOn | ecw_navigation.py:167-384 | The same as CalendarDate for any list of day selectors: a chosen month is a selectable option, a clicked day an accepted cell under those selectors |
| EcwNavigation.PickDates | ecw_navigation.py:386-403 | Set exactly when there are two calendars and both got a day; FROM comes first and a FROM failure stops before TO |
| EcwNavigation.ServiceDatesOutcome | ecw_navigation.py:133-407 | An unreadable date tries nothing; each calendar tried uses the month's options and the day of the parsed date |
| EcwNavigation.ServiceDatesIff | ecw_navigation.py:145-407 | The dates are set exactly when the date reads, the month has a name, there are two calendars and both days are found |
| EcwNavigation.FromBeforeTo | ecw_navigation.py:386-403 | FROM is set before TO; a FROM failure returns before TO; fewer than two calendars tries nothing |
| EcwNavigation.PickDatesOnlyByDays | ecw_navigation.py:341-394 | Calendars that differ only in their month dropdowns give the same result |
| EcwNavigation.MonthNotFatal | ecw_navigation.py:341-384 | Whether the month could be set never changes whether the dates are reported set |
| EcwNavigation.SetCalendarDate | ecw_navigation.py:167-384 | The dropdown and day loops find the first selectable option and the first accepted cell; the date counts as set exactly when a day was clicked |
| EcwNavigation.SetServiceDates | ecw_navigation.py:133-407 | The imperative setter computes `ServiceDatesOutcome` |
| EcwNavigation.ClickedPath | ecw_navigation.py:97-127 | Menu items are clicked in order, each only when visible, stopping at the first one that is not |
| EcwNavigation.NavigateToClaimsIff | ecw_navigation.py:97-131 | Claims is reached exactly when hamburger, Billing and Claims are each visible |
| EcwNavigation.NavigateToClaims | ecw_navigation.py:83-131 | The nested ifs click exactly `ClickedPath` and succeed when all three were clicked |
| EcwNavigation.InitialNavigation | ecw_navigation.py:18-81 | A day is clicked only for a configured date of exactly three parts when the calendar widget is visible |
| EcwNavigation.InitialNavigationIff | ecw_navigation.py:18-81 | The initial navigation succeeds exactly when `target_date` is configured |
| UiChoice.FirstAccepted | claims_lookup.py:28-43 | The candidate chosen is accepted, all before it are not; none only when none is accepted |
| UiChoice.FindFirstAccepted | claims_lookup.py:28-37 | The flag-and-break loop computes `FirstAccepted` |
| UiChoice.FirstAcceptedOfPrefix | claims_lookup.py:199 | A choice within the first `n` is the choice overall; none there means none of the first `n` is accepted |
| UiChoice.FirstInGrid | claims_lookup.py:157-189 | The pair chosen is accepted, and every pair before it in selector-then-element order is not |
| UiChoice.FindFirstInGrid | claims_lookup.py:157-189 | The nested loops with a found flag compute `FirstInGrid` |
| UiChoice.RunUntilFailure | claims_lookup.py:249-260 | Steps run in order up to and including the first failure; all run when none fails |
| UiChoice.RunStopsAt | claims_lookup.py:249-260 | With step `k` the first failure, exactly steps 0 to `k` run |
| ClaimsLookup.DirectMatch | claims_lookup.py:172 | A direct match is text containing the claim, and non-empty such text also matches in the second pass |
| ClaimsLookup.PartialMatch | claims_lookup.py:199-218 | A partial match needs non-empty text; text containing the claim matches; any other match is a number contained in the claim |
| ClaimsLookup.SelectedClaim | claims_lookup.py:130-234 | A direct match contains the claim; a partial match is the first one among the first 50 elements and is used only when no direct match exists |
| ClaimsLookup.SelectedClaimIff | claims_lookup.py:157-230 | No claim is selected exactly when no element matches directly and none of the first 50 matches partially |
| ClaimsLookup.PartialSearchStopsAtFifty | claims_lookup.py:199 | Elements past the fiftieth never change the selection |
| ClaimsLookup.DirectMatchIsPartialMatch | claims_lookup.py:172-218 | A direct match would also match in the second pass |
| ClaimsLookup.NumberInClaimMatches | claims_lookup.py:202-204 | A number that occurs in the claim matches partially |
| ClaimsLookup.SingleDigitCellMatches | claims_lookup.py:202-204 | A single-digit cell matches any claim holding that digit |
| ClaimsLookup.NonDigitTextNeedsClaim | claims_lookup.py:211-218 | Text that is not a number matches exactly when it contains the claim |
| ClaimsLookup.SelectClaim | claims_lookup.py:130-234 | The two-pass search computes `SelectedClaim` and reports success exactly when it selected |
| ClaimsLookup.CellClaimsIff | claims_lookup.py:283-287 | A claim is listed from cells exactly when some cell's stripped text is it and is a number of four digits or more |
| ClaimsLookup.FoundClaimsIff | claims_lookup.py:279-291 | A claim is found exactly when it is listed from the first 20 elements of some selector |
| ClaimsLookup.FoundClaimsAreNumbers | claims_lookup.py:286-287 | Every claim found is a stripped number of at least four digits |
| ClaimsLookup.CollectCellClaims | claims_lookup.py:283-289 | The cell loop appends exactly the cell claims |
| ClaimsLookup.AddIfClaim | claims_lookup.py:285-287 | One cell step appends its stripped text exactly when it looks like a claim number |
| ClaimsLookup.ListAvailableClaims | claims_lookup.py:279-291 | The selector loop computes `FoundClaims` |
| ClaimsLookup.ReportClaims | claims_lookup.py:293-297 | The report holds `min(10, distinct claims found)` distinct claims, all among those found |
| ClaimsLookup.WorkflowShortCircuits | claims_lookup.py:249-308 | The first failing step ends the workflow with `False`; the claim listing happens only when selection fails |
| ClaimsLookup.WorkflowRunsInOrder | claims_lookup.py:249-264 | Steps run in order, every one before the last succeeded, and the result is the last step's |
| ClaimsLookup.Workflow | claims_lookup.py:249-308 | Success exactly when all four steps succeed; the steps run are a prefix of the four; the claim listing is reported only when the first three steps succeeded and selection failed |
| ClaimsLookup.LookupWorkflow | claims_lookup.py:236-308 | Success exactly when every step succeeds on the page, and then a claim was selected; claims are listed only when none was selected, and are then the found claims |
| ClaimsLookup.CompleteClaimsLookupWorkflow | claims_lookup.py:236-312 | The imperative workflow computes `LookupWorkflow` |
| ClaimsLookup.SelectClaimStep | claims_lookup.py:262-308 | After the three steps succeed, selecting and listing complete `LookupWorkflow` |
| ProgressNotes.OpenDialog | progress_notes_extractor.py:6-68 | The dialog opens by the first usable selector, else by the first of the first 10 buttons mentioning `prog`; not at all only when neither exists |
| ProgressNotes.ButtonsPastTenIgnored | progress_notes_extractor.py:49 | Buttons past the tenth never change how the dialog opens |
| ProgressNotes.FindProgressNotesButton | progress_notes_extractor.py:16-64 | The search loops compute `OpenDialog`, and report a click exactly when it opened |
| ProgressNotes.AttrOr | progress_notes_extractor.py:99-101 | A missing or empty attribute gives the default; otherwise the attribute |
| ProgressNotes.ProgNoteTestIsDead | progress_notes_extractor.py:109 | A lower-cased name never contains `progNote`, so that test never selects a frame |
| ProgressNotes.ScannedIff | progress_notes_extractor.py:109-111 | A frame is scanned exactly when its id contains `ProgNote` or its lower-cased name contains `progress` |
| ProgressNotes.Resolve | progress_notes_extractor.py:116-150 | Resolution tries the content frame, then the name lookup (unless `No name`), then the first frame matching name or id |
| ProgressNotes.ResolveFrame | progress_notes_extractor.py:116-150 | The fallback chain computes `Resolve` |
| ProgressNotes.MarkersIn | progress_notes_extractor.py:200-216 | The markers found are the listed markers occurring in the HTML; none exactly when none occurs |
| ProgressNotes.FoundMarkers | progress_notes_extractor.py:213-216 | The marker loop computes `MarkersIn` |
| ProgressNotes.FirstMarkedFrameWins | progress_notes_extractor.py:94-252 | Content comes from the first frame with marked content, and it contains a clinical marker |
| ProgressNotes.NoMarkedFrameNoContent | progress_notes_extractor.py:250-255 | No marked frame gives no content |
| ProgressNotes.MarkedFrameAfterFailuresFound | progress_notes_extractor.py:94-248 | Frames that fail or lack markers are skipped; the first marked one is found |
| ProgressNotes.IframeContent | progress_notes_extractor.py:70-259 | Content found is non-empty, holds a clinical marker, and is the marked content of one of the page's frames |
| ProgressNotes.ExamineIframe | progress_notes_extractor.py:96-241 | One frame step computes its marked content |
| ProgressNotes.ExtractIframeContent | progress_notes_extractor.py:70-259 | The frame loop computes `IframeContent` and succeeds exactly when there is content |
| ProgressNotes.CloseDialog | progress_notes_extractor.py:261-308 | The first visible close button is clicked; else Escape; not closed only when neither works |
| ProgressNotes.CloseProgressNotesDialog | progress_notes_extractor.py:271-304 | The close loop computes `CloseDialog` |
| ProgressNotes.ChosenNotes | progress_notes_extractor.py:339-359 | No content gives the fixed "nothing in frames" text |
| ProgressNotes.ParsedChosenWhenLong | progress_notes_extractor.py:345-349 | Parsed notes over 100 characters are the notes chosen |
| ProgressNotes.HtmlChosenWhenParsedShort | progress_notes_extractor.py:345-352 | Non-empty marked HTML whose parsed notes are 100 characters or fewer is chosen raw |
| ProgressNotes.ChooseNotes | progress_notes_extractor.py:339-359 | The choice between parsed notes and raw HTML computes `ChosenNotes` |
| ProgressNotes.ProgressNotesOutcome | progress_notes_extractor.py:310-402 | An unopened dialog gives "Could not open Progress Notes dialog"; an exception after it opened gives the "Error extracting Progress Notes: " message and no close; otherwise the dialog is closed, and the notes are the formatted chosen notes when these exceed 100 characters and "No clinical notes extracted" when they do not |
| ProgressNotes.ClosedExactlyWhenOpened | progress_notes_extractor.py:327-402 | The dialog is closed exactly when it was opened and nothing raised; otherwise the result is "Could not open Progress Notes dialog" or the error message |
| ProgressNotes.NoMarkedFrameGivesFixedMessage | progress_notes_extractor.py:358-398 | An opened dialog with no marked frame gives "No clinical notes extracted", or the error message when the pause after opening raised |
| ProgressNotes.OutcomeShape | progress_notes_extractor.py:310-402 | The notes are one of the two fixed messages, the error message, or the formatted notes over 100 characters (parsed if long enough, else raw HTML); with the dialog open and nothing raised, the formatted form exactly when the chosen notes exceed 100 characters, the fixed message otherwise |
| ProgressNotes.LongChosenNotesFromContent | progress_notes_extractor.py:338-365 | Chosen notes over 100 characters come from non-empty marked content: the parsed notes when they exceed 100 characters, else the raw HTML |
| ProgressNotes.ExtractProgressNotes | progress_notes_extractor.py:310-402 | The imperative workflow computes `ProgressNotesOutcome` |
| Strings.StripEmptyIff | test_bedrock_local.py:230 | `s.strip()` is empty exactly when every character of `s` is whitespace |
| Strings.StripIdempotent | notes_handler.py:351 | Stripping twice is stripping once |
| Strings.FindIsFirst | test_bedrock_local.py:121 | `find` reports the first occurrence |
| Strings.CollapseIsSingleSpaced | notes_handler.py:344 | After `\s+` becomes one space, no two whitespace characters are adjacent |
| Strings.CollapsedStripNormalized | notes_handler.py:344-355 | Collapsed and stripped text has no newline, single spaces only, and no surrounding whitespace |
| Strings.CollapsedStripOfNormalized | notes_handler.py:344-355 | Normalised text is left alone by collapsing and stripping |
| Strings.ReplacePairLeavesNoPair | notes_handler.py:65-68 | Replacing a two-character escape by one character leaves no such escape pair behind |
| Strings.SplitJoinRoundTrip | notes_handler.py:348-355 | Splitting a join on its one-character separator gives the parts back when no part holds the separator |
| Strings.NatToStringValue | ecw_navigation.py:363 | Reading back the digits `str(n)` writes gives `n` |
| Strings.LowerHasNoUpper | test_bedrock_local.py:36 | `lower()` leaves no upper-case letter |
| JsonValues.GetOr | cpt_population.py:66-71 | `dict.get(key, default)`: the stored value when present, the default otherwise |
| JsonValues.Or | cpt_population.py:64 | Python `a or b`: `a` when truthy, `b` otherwise |

## Left out

- Playwright: locators, clicks, waits, typing, highlighting, screenshots and `close_any_dialogs` are left out; visibility and element texts are inputs.
- The Bedrock client (boto3) and credentials: the call is a parameter from request (which names the region) to optional reply body.
- `json.loads`: a partial decoder passed in; JSON numbers are integers.
- The seven section regular expressions of `extract_clinical_notes_from_html`: their match results are an input record; the tag and cell patterns are modelled.
- Unicode: whitespace, `lower()`, `isdigit()` and `int()` are modelled on ASCII; `int()` accepting underscores or non-ASCII digits is not modelled.
- File and console I/O: `read_text_file`, `read_notes`, `display_notes`, `validate_notes_file`, `create_sample_notes`, the debug dumps, `input()` (an operator string) and all printing.
- notes_handler.py:356-387 is unreachable after the `return` at 355 and is not modelled; the duplicate `except` at 315-317 adds nothing.
- The exception handlers around each cell, element or frame step are left out, except where they decide a result: Bedrock failure, a non-object list entry, a frame that cannot be read, an exception from the pause after the Progress Notes dialog opens (progress_notes_extractor.py:332 caught at 400-402; `Screen.failure`), and an extraction attempt in `main`'s retry loop that raises. Other exceptions inside the extraction after the dialog opens are not modelled.
- BedrockPredictor.SelectResponseText: a first block whose `text` is not a string is returned as is by the source; the model, whose result is a string, gives `None` for it.
- progress_notes_extractor.py:226 uses the undefined `iframe_content` and raises a `NameError` that line 235 catches; it only affects a debug file, so the model leaves it out.
- The iframe body, html and text readers (progress_notes_extractor.py:161-189) are collapsed into one optional HTML text per frame.
- The date-picker fallbacks of ecw_navigation.py:238-339 (month text, hard-coded August, navigation arrows) are left out: they only decide `month_set`, which never changes the result (`MonthNotFatal`).
- The 'S' button, Escape and body clicks of `setup_initial_navigation` are left out; they never change its result.
- `select_patient_disabled` (claims_lookup.py:78-83) always returns `False` and is never called.
- ClaimsLookup.ReportClaims: `list(set(...))` has no defined order, so the report is stated as the right number of distinct found claims, not as a particular ten.
- BedrockPredictor.DefaultPromptHasPlaceholder: states that the default prompt holds `{notes}`, not that it holds it exactly once.
- ecw_login.py is not part of this model.

## Findings

| source | as written | input that shows it | evidently intended | confidence | as-written member | corrected member |
|---|---|---|---|---|---|---|
| web_automation.py:278 | `populate_cpt_and_icd_codes(page, clinical_notes)` passes the notes string as the config; `config.get` at cpt_population.py:37 raises, the prediction is `None`, and no CPT code is typed; `MainRun` models this call (`MainRunTypesNoCpt`) and `MainRunIntended` the corrected one (`MainRunIntendedTypesPrediction`) | any run that reaches population | pass the loaded `config`, so the predicted codes are typed | not executed | WebAutomation.AsWrittenPopulatesNoCpt | WebAutomation.PopulateArgTypesPrediction |
