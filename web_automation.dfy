/**
 * The end-to-end run of `web_automation.py`'s `main`: log in, reach the
 * claims screen, set the service dates, look the claim up, extract the
 * progress notes with up to three attempts and an acceptance gate, run the
 * manometry check on accepted notes, then populate the CPT and ICD codes.
 *
 * The browser steps are inputs: whether the login and navigation succeeded,
 * what the date and lookup steps report for the configured values, what
 * each extraction attempt returned (or that it raised), and what the
 * operator typed when the gate failed.
 */
module WebAutomation {
  import opened Wrappers
  import opened Strings
  import opened JsonValues
  import opened BedrockPredictor
  import opened CodingRecords
  import opened Manometry
  import opened CptPopulation

  /** How many times the progress notes are extracted at most. */
  const MaxExtractionAttempts: nat := 3

  /** Notes whose stripped form is shorter than this are rejected. */
  const MinNotesLength: nat := 50

  /** The notes used when the gate failed and the operator chose to continue. */
  const ManualInterventionNotes: string := "No clinical notes extracted - manual intervention required"

  /** The claim looked up when `config.properties` names none. */
  const DefaultClaimId: string := "38939"

  // ---------------------------------------------------------------------------
  // The extraction gate

  /** `clinical_notes and len(clinical_notes.strip()) >= 50`: length is all the gate looks at. */
  predicate Accepted(notes: Option<string>)
  {
    notes.Some? && notes.value != [] && |Strip(notes.value)| >= MinNotesLength
  }

  /** The notes held and the number of extraction calls made. */
  datatype Gate = Gate(notes: Option<string>, tries: nat)

  /**
   * The state of the retry loop after `n` passes: `attempt(k)` is what the
   * k-th extraction returned, `None` when it raised, which leaves the notes
   * of the attempt before in place. Once notes are accepted the loop has
   * stopped and nothing changes.
   */
  function GateAfter(accept: Option<string> -> bool, attempt: nat -> Option<string>, n: nat): (g: Gate)
    ensures g.tries <= n
    ensures accept(g.notes) || g.tries == n
  {
    if n == 0 then Gate(None, 0)
    else
      var g := GateAfter(accept, attempt, n - 1);
      if accept(g.notes) then g
      else
        match attempt(n - 1)
        case None => Gate(g.notes, n)
        case Some(notes) => Gate(Some(notes), n)
  }

  /** The whole retry loop. */
  function ExtractionGate(attempt: nat -> Option<string>): (g: Gate)
    ensures 1 <= g.tries <= MaxExtractionAttempts
    ensures Accepted(g.notes) || g.tries == MaxExtractionAttempts
    ensures g.notes.Some? ==> exists k :: 0 <= k < g.tries && attempt(k) == g.notes
  {
    GateAfter(Accepted, attempt, MaxExtractionAttempts)
  }

  /** The first attempt whose notes pass is the one kept, and no further attempt is made. */
  lemma {:induction false} GateStopsAtFirstAccepted(accept: Option<string> -> bool, attempt: nat -> Option<string>, k: nat, n: nat)
    requires !accept(None) && k < n
    requires accept(attempt(k))
    requires forall j :: 0 <= j < k ==> !accept(attempt(j))
    ensures GateAfter(accept, attempt, n) == Gate(attempt(k), k + 1)
    decreases n
  {
    if n - 1 > k {
      GateStopsAtFirstAccepted(accept, attempt, k, n - 1);
    } else {
      GateRejectsWhileNoneAccepted(accept, attempt, k);
    }
  }

  /** While no attempt has passed, the loop has made every call and holds nothing acceptable. */
  lemma {:induction false} GateRejectsWhileNoneAccepted(accept: Option<string> -> bool, attempt: nat -> Option<string>, n: nat)
    requires !accept(None)
    requires forall j :: 0 <= j < n ==> !accept(attempt(j))
    ensures !accept(GateAfter(accept, attempt, n).notes)
    ensures GateAfter(accept, attempt, n).tries == n
    decreases n
  {
    if n > 0 {
      GateRejectsWhileNoneAccepted(accept, attempt, n - 1);
    }
  }

  /** The gate fails exactly when none of the three attempts returned acceptable notes. */
  lemma GateFailsIffNoAttemptPasses(attempt: nat -> Option<string>)
    ensures !Accepted(ExtractionGate(attempt).notes) <==>
      forall j :: 0 <= j < MaxExtractionAttempts ==> !Accepted(attempt(j))
  {
    if forall j :: 0 <= j < MaxExtractionAttempts ==> !Accepted(attempt(j)) {
      GateRejectsWhileNoneAccepted(Accepted, attempt, MaxExtractionAttempts);
    } else {
      var k :| 0 <= k < MaxExtractionAttempts && Accepted(attempt(k));
      var first := FirstPassing(Accepted, attempt, k);
      GateStopsAtFirstAccepted(Accepted, attempt, first, MaxExtractionAttempts);
    }
  }

  /** Some attempt passing means a first one passing. */
  lemma {:induction false} FirstPassing(accept: Option<string> -> bool, attempt: nat -> Option<string>, k: nat) returns (first: nat)
    requires accept(attempt(k))
    ensures first <= k && accept(attempt(first))
    ensures forall j :: 0 <= j < first ==> !accept(attempt(j))
    decreases k
  {
    if exists j :: 0 <= j < k && accept(attempt(j)) {
      var j :| 0 <= j < k && accept(attempt(j));
      first := FirstPassing(accept, attempt, j);
    } else {
      first := k;
    }
  }

  /** The notes held are those of the last attempt that did not raise; a raising attempt changes nothing. */
  lemma {:induction false} GateHoldsLastReturned(accept: Option<string> -> bool, attempt: nat -> Option<string>, n: nat)
    ensures GateAfter(accept, attempt, n).notes.Some? ==>
      exists k :: 0 <= k < GateAfter(accept, attempt, n).tries && attempt(k) == GateAfter(accept, attempt, n).notes &&
                  (forall j :: k < j < GateAfter(accept, attempt, n).tries ==> attempt(j).None?)
    ensures GateAfter(accept, attempt, n).notes.None? ==>
      forall j :: 0 <= j < GateAfter(accept, attempt, n).tries ==> attempt(j).None?
    decreases n
  {
    if n > 0 {
      GateHoldsLastReturned(accept, attempt, n - 1);
      var prev := GateAfter(accept, attempt, n - 1);
      if !accept(prev.notes) {
        assert prev.tries == n - 1;
        if attempt(n - 1).Some? {
          LastReturnedAt(accept, attempt, n - 1, n);
        } else if prev.notes.Some? {
          var k :| 0 <= k < n - 1 && attempt(k) == prev.notes && (forall j :: k < j < n - 1 ==> attempt(j).None?);
          LastReturnedAt(accept, attempt, k, n);
        }
      }
    }
  }

  /** The witness step of `GateHoldsLastReturned`. */
  lemma LastReturnedAt(accept: Option<string> -> bool, attempt: nat -> Option<string>, k: nat, n: nat)
    requires k < n && attempt(k).Some?
    requires forall j :: k < j < n ==> attempt(j).None?
    requires GateAfter(accept, attempt, n) == Gate(attempt(k), n)
    ensures exists k :: 0 <= k < GateAfter(accept, attempt, n).tries && attempt(k) == GateAfter(accept, attempt, n).notes &&
                        (forall j :: k < j < GateAfter(accept, attempt, n).tries ==> attempt(j).None?)
  {
  }

  /** The retry loop of `main`: extract, keep what came back, stop at the first acceptable notes. */
  method ExtractWithRetries(attempt: nat -> Option<string>) returns (notes: Option<string>, tries: nat)
    ensures Gate(notes, tries) == ExtractionGate(attempt)
  {
    notes, tries := RetryUpTo(Accepted, attempt, MaxExtractionAttempts);
  }

  /** The loop itself, for a bound of `n` passes. */
  method RetryUpTo(accept: Option<string> -> bool, attempt: nat -> Option<string>, n: nat) returns (notes: Option<string>, tries: nat)
    requires !accept(None)
    ensures Gate(notes, tries) == GateAfter(accept, attempt, n)
  {
    notes, tries := None, 0;
    var a := 0;
    while a < n
      invariant 0 <= a <= n
      invariant Gate(notes, tries) == GateAfter(accept, attempt, a)
      invariant !accept(notes)
    {
      tries := a + 1;
      var returned := attempt(a);
      if returned.Some? {
        notes := returned;
        if accept(notes) {
          StaysAccepted(accept, attempt, a + 1, n);
          return;
        }
      }
      a := a + 1;
    }
  }

  /** Once the notes pass, later passes of the loop change nothing. */
  lemma {:induction false} StaysAccepted(accept: Option<string> -> bool, attempt: nat -> Option<string>, m: nat, n: nat)
    requires m <= n && accept(GateAfter(accept, attempt, m).notes)
    ensures GateAfter(accept, attempt, n) == GateAfter(accept, attempt, m)
    decreases n
  {
    if n > m {
      StaysAccepted(accept, attempt, m, n - 1);
      var g := GateAfter(accept, attempt, n - 1);
      assert accept(g.notes);
      assert GateAfter(accept, attempt, n) == g;
    }
  }

  /** After a failed gate: `'q'` (in either case) quits, anything else continues with the fixed notes. */
  function AfterFailedGate(operatorInput: string): Option<string>
  {
    if Lower(operatorInput) == "q" then None else Some(ManualInterventionNotes)
  }

  // ---------------------------------------------------------------------------
  // The run

  /** What `populate_cpt_and_icd_codes` works with besides its `config` argument. */
  datatype Coding = Coding(
    files: string -> Option<string>,
    invoke: Request -> Option<Json>,
    decode: string -> Option<Json>,
    grid: Grid,
    icdHeader: bool,
    icdField: string -> bool)

  /** `populate_cpt_and_icd_codes(page, config)`. */
  function Populate(config: ConfigArg, c: Coding): Population
  {
    PopulateCodes(GetPredictedCptCodes(c.files, config, c.invoke, c.decode), c.grid, c.icdHeader, c.icdField)
  }

  /** The argument `main` passes as it is written: the clinical notes where a configuration is expected. */
  function PopulateArgAsWritten(region: Option<string>, notes: string): ConfigArg
  {
    NotAConfig(notes)
  }

  /** The argument evidently intended: the loaded configuration. */
  function PopulateArg(region: Option<string>, notes: string): ConfigArg
  {
    Properties(region)
  }

  /** As written, the population step never types a CPT code, whatever Bedrock would predict. */
  lemma AsWrittenPopulatesNoCpt(region: Option<string>, notes: string, c: Coding)
    ensures Populate(PopulateArgAsWritten(region, notes), c).cpt == []
  {
    NotAConfigGivesNothing(c.files, notes, c.invoke, c.decode);
    FewerThanTwoCodesTypesNothing(None, c.grid, c.icdHeader, c.icdField);
  }

  /** With the configuration passed, the codes are those predicted from `notes.txt` and two or more of them are typed. */
  lemma PopulateArgTypesPrediction(region: Option<string>, notes: string, c: Coding)
    ensures var predicted := GetPredictedCptCodes(c.files, Properties(region), c.invoke, c.decode);
      predicted.Some? && |predicted.value| > 1 ==>
        Populate(PopulateArg(region, notes), c).cpt == Plan(predicted.value, c.grid)
    ensures c.files(NotesFile).Some? ==>
      GetPredictedCptCodes(c.files, PopulateArg(region, notes), c.invoke, c.decode) ==
      PredictedFor(c.files(NotesFile).value, PromptOf(c.files), region.GetOr(DefaultRegion), c.invoke, c.decode)
  {
    var predicted := GetPredictedCptCodes(c.files, Properties(region), c.invoke, c.decode);
    assert Populate(PopulateArg(region, notes), c) == PopulateCodes(predicted, c.grid, c.icdHeader, c.icdField);
  }

  /** Everything `main` depends on. */
  datatype Environment = Environment(
    configExists: bool,
    targetDate: Option<string>,
    claimId: Option<string>,
    region: Option<string>,
    loginOk: bool,
    claimsReached: bool,
    setDates: string -> bool,
    lookup: string -> bool,
    attempt: nat -> Option<string>,
    operatorInput: string,
    coding: Coding)

  /** The steps a run goes through, in order. */
  datatype Step =
    | LoggedIn
    | ReachedClaims
    | DatesSet(ok: bool)
    | ClaimLookedUp(ok: bool)
    | NotesExtracted(gate: Gate)
    | ManometryChecked(status: Status)
    | CodesPopulated(notes: string, population: Population)

  /** How `main` ends: an exit code, or the exception a missing `target_date` raises outside the guarded block. */
  datatype Run = Exit(code: int, steps: seq<Step>) | Uncaught

  /** What the run does with the notes it ends up with: the manometry check and the code population. */
  datatype Effects = Effects(manometry: string -> Status, populate: string -> Population)

  /**
   * The manometry check of `debug_manometry_status` and
   * `populate_cpt_and_icd_codes` as `main` calls it, with the notes in place
   * of the configuration: the manometry status is that of the notes, and
   * population types no CPT code but still attempts the ICD code.
   */
  function EffectsOf(env: Environment): (fx: Effects)
    ensures forall notes :: fx.manometry(notes) == ManometryStatus(notes)
    ensures forall notes :: fx.populate(notes).cpt == []
    ensures forall notes :: fx.populate(notes).icd == AddIcdCode(env.coding.icdHeader, env.coding.icdField)
  {
    var fx := Effects(
      (notes: string) => ManometryStatus(notes),
      (notes: string) => Populate(PopulateArgAsWritten(env.region, notes), env.coding));
    forall notes: string
      ensures fx.populate(notes).cpt == []
    {
      AsWrittenPopulatesNoCpt(env.region, notes, env.coding);
    }
    fx
  }

  /** The same checks with the loaded configuration passed to population, as evidently intended. */
  function EffectsIntended(env: Environment): (fx: Effects)
    ensures forall notes :: fx.manometry(notes) == ManometryStatus(notes)
    ensures forall notes :: fx.populate(notes) == Populate(Properties(env.region), env.coding)
  {
    Effects(
      (notes: string) => ManometryStatus(notes),
      (notes: string) => Populate(PopulateArg(env.region, notes), env.coding))
  }

  /** `main` once the extraction loop has produced `gate`. */
  function RunWith(env: Environment, gate: Gate, fx: Effects): (r: Run)
    ensures r.Exit? ==> r.code == 0 || r.code == 1
    ensures r.Exit? && r.steps != [] ==> r.steps[0] == LoggedIn
    ensures r.Exit? && r.code == 0 ==>
      env.configExists && env.loginOk && env.claimsReached &&
      |r.steps| >= 6 && r.steps[1] == ReachedClaims && r.steps[|r.steps| - 1].CodesPopulated?
  {
    if !env.configExists then Exit(1, [])
    else if env.targetDate.None? then Uncaught
    else if !env.loginOk then Exit(1, [])
    else if !env.claimsReached then Exit(1, [LoggedIn])
    else
      AfterNavigation(env, env.targetDate.value, gate, fx)
  }

  /** Dates, lookup, the extraction gate, the operator's choice, manometry and population. */
  function AfterNavigation(env: Environment, targetDate: string, gate: Gate, fx: Effects): (r: Run)
    ensures r.Exit? && |r.steps| >= 5
    ensures r.steps[..5] == [LoggedIn, ReachedClaims, DatesSet(env.setDates(targetDate)),
                             ClaimLookedUp(env.lookup(env.claimId.GetOr(DefaultClaimId))), NotesExtracted(gate)]
    ensures r.code == 1 <==> !Accepted(gate.notes) && Lower(env.operatorInput) == "q"
    ensures r.code == 1 ==> |r.steps| == 5
  {
    var extracted := [LoggedIn, ReachedClaims, DatesSet(env.setDates(targetDate)),
                      ClaimLookedUp(env.lookup(env.claimId.GetOr(DefaultClaimId))), NotesExtracted(gate)];
    if !Accepted(gate.notes) then
      match AfterFailedGate(env.operatorInput)
      case None => Exit(1, extracted)
      case Some(notes) => Exit(0, extracted + [CodesPopulated(notes, fx.populate(notes))])
    else
      var notes := gate.notes.value;
      Exit(0, extracted + [ManometryChecked(fx.manometry(notes)), CodesPopulated(notes, fx.populate(notes))])
  }

  /** `main` as written. */
  function MainRun(env: Environment): (r: Run)
    ensures r.Uncaught? <==> env.configExists && env.targetDate.None?
    ensures r.Exit? ==> (r.code == 1 <==>
      !env.configExists || !env.loginOk || !env.claimsReached ||
      (!Accepted(ExtractionGate(env.attempt).notes) && Lower(env.operatorInput) == "q"))
  {
    RunWith(env, ExtractionGate(env.attempt), EffectsOf(env))
  }

  /** `main` with the configuration passed to population. */
  function MainRunIntended(env: Environment): (r: Run)
    ensures DiffersOnlyInPopulation(MainRun(env), r)
  {
    SameRunButPopulation(env, ExtractionGate(env.attempt), EffectsOf(env), EffectsIntended(env));
    RunWith(env, ExtractionGate(env.attempt), EffectsIntended(env))
  }

  /** Both runs end the same way, with the same steps except possibly what population did. */
  predicate DiffersOnlyInPopulation(r1: Run, r2: Run)
  {
    (r1.Exit? <==> r2.Exit?) &&
    (r1.Exit? ==>
      r1.code == r2.code && |r1.steps| == |r2.steps| &&
      forall k :: 0 <= k < |r1.steps| && !r1.steps[k].CodesPopulated? ==> r1.steps[k] == r2.steps[k])
  }

  /** Two runs whose manometry checks agree differ at most in what population does. */
  lemma SameRunButPopulation(env: Environment, gate: Gate, fx1: Effects, fx2: Effects)
    requires forall notes :: fx1.manometry(notes) == fx2.manometry(notes)
    ensures DiffersOnlyInPopulation(RunWith(env, gate, fx1), RunWith(env, gate, fx2))
  {
  }

  /**
   * As written, every population step of `main` types no CPT code and only
   * attempts the ICD code, whatever the notes and whatever Bedrock predicts.
   */
  lemma MainRunTypesNoCpt(env: Environment)
    requires MainRun(env).Exit?
    ensures forall notes, p :: CodesPopulated(notes, p) in MainRun(env).steps ==>
      p.cpt == [] && p.icd == AddIcdCode(env.coding.icdHeader, env.coding.icdField)
  {
    PopulatedNotes(env, ExtractionGate(env.attempt), EffectsOf(env));
  }

  /**
   * With the configuration passed, each population step types the plan of
   * the codes predicted from `notes.txt` when more than one is predicted, and
   * nothing otherwise.
   */
  lemma MainRunIntendedTypesPrediction(env: Environment)
    requires MainRunIntended(env).Exit?
    ensures var c := env.coding;
      var predicted := GetPredictedCptCodes(c.files, Properties(env.region), c.invoke, c.decode);
      forall notes, p :: CodesPopulated(notes, p) in MainRunIntended(env).steps ==>
        p.icd == AddIcdCode(c.icdHeader, c.icdField) &&
        (predicted.Some? && |predicted.value| > 1 ==> p.cpt == Plan(predicted.value, c.grid)) &&
        (predicted.None? || |predicted.value| <= 1 ==> p.cpt == [])
  {
    PopulatedNotes(env, ExtractionGate(env.attempt), EffectsIntended(env));
  }

  /**
   * The run fails with code 1 exactly for a missing configuration, a failed
   * login or navigation, or an operator quitting after a failed gate; it
   * otherwise ends with 0.
   */
  lemma ExitCodes(env: Environment, gate: Gate, fx: Effects)
    requires env.configExists ==> env.targetDate.Some?
    ensures RunWith(env, gate, fx).Exit?
    ensures RunWith(env, gate, fx).code == 1 <==>
      !env.configExists || !env.loginOk || !env.claimsReached ||
      (!Accepted(gate.notes) && Lower(env.operatorInput) == "q")
    ensures RunWith(env, gate, fx).code == 0 || RunWith(env, gate, fx).code == 1
  {
  }

  /** `target_date` is read without a fallback, so a configuration without it ends the run with an exception. */
  lemma MissingTargetDateRaises(env: Environment, gate: Gate, fx: Effects)
    ensures RunWith(env, gate, fx).Uncaught? <==> env.configExists && env.targetDate.None?
  {
  }

  /** Failing to set the dates or to look the claim up does not change how the run ends. */
  lemma DatesAndLookupNotFatal(env: Environment, gate: Gate, fx: Effects, setDates: string -> bool, lookup: string -> bool)
    ensures RunWith(env, gate, fx).Exit? <==> RunWith(env.(setDates := setDates, lookup := lookup), gate, fx).Exit?
    ensures RunWith(env, gate, fx).Exit? ==>
      RunWith(env, gate, fx).code == RunWith(env.(setDates := setDates, lookup := lookup), gate, fx).code
  {
  }

  /** The manometry check runs exactly when the notes passed the gate, and then on those notes. */
  lemma ManometryOnlyAfterGate(env: Environment, gate: Gate, fx: Effects)
    requires RunWith(env, gate, fx).Exit?
    ensures (exists s :: ManometryChecked(s) in RunWith(env, gate, fx).steps) <==>
      env.configExists && env.loginOk && env.claimsReached && Accepted(gate.notes)
    ensures forall s :: ManometryChecked(s) in RunWith(env, gate, fx).steps ==> s == fx.manometry(gate.notes.value)
  {
    var run := RunWith(env, gate, fx);
    if env.configExists && env.loginOk && env.claimsReached && Accepted(gate.notes) {
      assert run.steps[5] == ManometryChecked(fx.manometry(gate.notes.value));
    }
  }

  /** Codes are populated, on a successful run only, with the accepted notes or else the fixed notes. */
  lemma PopulatedNotes(env: Environment, gate: Gate, fx: Effects)
    requires RunWith(env, gate, fx).Exit?
    ensures forall notes, p :: CodesPopulated(notes, p) in RunWith(env, gate, fx).steps ==>
      p == fx.populate(notes) &&
      ((Accepted(gate.notes) && notes == gate.notes.value) || (!Accepted(gate.notes) && notes == ManualInterventionNotes))
    ensures (exists notes, p :: CodesPopulated(notes, p) in RunWith(env, gate, fx).steps) <==> RunWith(env, gate, fx).code == 0
  {
    var run := RunWith(env, gate, fx);
    if run.code == 0 {
      assert run.steps[|run.steps| - 1] in run.steps;
    }
  }

  /** `main` as written step by step, with the checks applied to the notes given as `fx`. */
  method RunMain(env: Environment, fx: Effects) returns (run: Run)
    ensures run == RunWith(env, ExtractionGate(env.attempt), fx)
  {
    if !env.configExists {
      return Exit(1, []);
    }
    if env.targetDate.None? {
      return Uncaught;
    }
    if !env.loginOk {
      return Exit(1, []);
    }
    if !env.claimsReached {
      return Exit(1, [LoggedIn]);
    }
    var notes, tries := ExtractWithRetries(env.attempt);
    run := ContinueRun(env, env.targetDate.value, Gate(notes, tries), fx);
  }

  /** The steps after navigation, with the extraction loop's outcome. */
  method ContinueRun(env: Environment, targetDate: string, gate: Gate, fx: Effects) returns (run: Run)
    ensures run == AfterNavigation(env, targetDate, gate, fx)
  {
    var claimNumber := env.claimId.GetOr(DefaultClaimId);
    var steps: seq<Step> := [LoggedIn, ReachedClaims];
    steps := steps + [DatesSet(env.setDates(targetDate))];
    steps := steps + [ClaimLookedUp(env.lookup(claimNumber))];
    steps := steps + [NotesExtracted(gate)];
    var clinicalNotes: string;
    if !Accepted(gate.notes) {
      if Lower(env.operatorInput) == "q" {
        return Exit(1, steps);
      }
      clinicalNotes := ManualInterventionNotes;
    } else {
      clinicalNotes := gate.notes.value;
      steps := steps + [ManometryChecked(fx.manometry(clinicalNotes))];
    }
    steps := steps + [CodesPopulated(clinicalNotes, fx.populate(clinicalNotes))];
    return Exit(0, steps);
  }

  /** `main`: the manometry check of `debug_manometry_status` and population with the configuration. */
  method RunAutomation(env: Environment) returns (run: Run)
    ensures run == MainRun(env)
  {
    run := RunMain(env, EffectsOf(env));
  }
}
