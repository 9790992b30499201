/**
 * The local Bedrock test (`test_bedrock_local.py`): it prefixes the notes
 * with the insurance plan, picks a prompt template, asks Bedrock up to three
 * times (sharpening the prompt when too few codes come back or some lack a
 * code), and passes when the last reply parses into CPT codes.
 */
module BedrockRetry {
  import opened Wrappers
  import opened Strings
  import opened JsonValues
  import opened BedrockPredictor
  import opened CodingRecords

  const MaxRetries: nat := 3

  /** The plan used when `[CLAIMS] insurance_plan` is not configured. */
  const DefaultPlan: string := "Commercial"

  const NotesFile: string := "final_clinical_notes_for_bedrock.txt"
  const GenericPromptFile: string := "prompt.txt"
  const GenericPlanPhrase: string := "Commercial or Medicare plan"

  /** A commercial plan is expected to yield four codes, any other plan three. */
  function MinExpectedCodes(plan: string): (r: nat)
    ensures r == 4 <==> Lower(plan) == "commercial"
    ensures r == 3 <==> Lower(plan) != "commercial"
  {
    if Lower(plan) == "commercial" then 4 else 3
  }

  /** The notes as sent: `"<plan> plan: <notes>"`. */
  function NotesWithPrefix(plan: string, notes: string): (r: string)
    ensures IsPrefix(plan + " plan: ", r) && r[|plan| + 7..] == notes
  {
    plan + " plan: " + notes
  }

  /** The plan-specific prompt file, `prompt_<plan in lower case>.txt`. */
  function PlanPromptFile(plan: string): string
  {
    "prompt_" + Lower(plan) + ".txt"
  }

  /**
   * The prompt template: the plan-specific file, else `prompt.txt` with the
   * generic plan phrase replaced by the plan, else the built-in prompt.
   */
  function SelectPrompt(plan: string, files: string -> Option<string>): (r: string)
    ensures files(PlanPromptFile(plan)).Some? ==> r == files(PlanPromptFile(plan)).value
    ensures files(PlanPromptFile(plan)).None? && files(GenericPromptFile).Some? ==>
      r == Replace(files(GenericPromptFile).value, GenericPlanPhrase, plan + " plan")
    ensures files(PlanPromptFile(plan)).None? && files(GenericPromptFile).None? ==> r == DefaultPrompt
  {
    match files(PlanPromptFile(plan))
    case Some(t) => t
    case None =>
      match files(GenericPromptFile)
      case Some(g) => Replace(g, GenericPlanPhrase, plan + " plan")
      case None => DefaultPrompt
  }

  /** A generic prompt that never names the generic plan phrase is used as it is. */
  lemma GenericPromptWithoutPhrase(plan: string, files: string -> Option<string>)
    requires files(PlanPromptFile(plan)).None? && files(GenericPromptFile).Some?
    requires !Contains(files(GenericPromptFile).value, GenericPlanPhrase)
    ensures SelectPrompt(plan, files) == files(GenericPromptFile).value
  {
    ReplaceAbsent(files(GenericPromptFile).value, GenericPlanPhrase, plan + " plan");
  }

  /** The sentence added after a reply in which some entries lack a code. */
  function CriticalSentence(missing: nat): string
  {
    "\n\nCRITICAL: " + NatToString(missing) + " CPT entries are missing the 'code' field. You MUST include valid CPT code numbers (like 99213, 91122, etc.) in the 'code' field for each entry. Do not leave any 'code' fields empty or null."
  }

  /** The sentence added after a reply with too few codes. */
  function ImportantSentence(plan: string, minimum: nat, count: nat): string
  {
    "\n\nIMPORTANT: For " + plan + " plan, you MUST provide at least " + NatToString(minimum) + " CPT codes. Always include 99213 for office visit. If you only provided " + NatToString(count) + " codes, please add the missing codes."
  }

  /** The reply passes the quick check: enough codes, none without a code. */
  predicate Sufficient(p: Probe, minimum: nat)
  {
    p.Probe? && p.count >= minimum && p.missing == 0
  }

  /** What one run of the test works with: the plan, the prefixed notes, the region, Bedrock per attempt and `json.loads`. */
  datatype Session = Session(
    plan: string,
    notes: string,
    region: string,
    bedrock: nat -> Request -> Option<Json>,
    decode: string -> Option<Json>)

  /**
   * What the retry loop needs from a session: the number of codes expected,
   * a way to ask Bedrock with a template on a given attempt, the probe of a
   * reply, and the two sentences the prompt is sharpened with (given the
   * missing count and the code count).
   */
  datatype Channel = Channel(
    minimum: nat,
    ask: (string, nat) -> Option<string>,
    probe: Option<string> -> Probe,
    critical: nat -> string,
    important: nat -> string)

  /** The channel of a session: `get_cpt_codes_from_bedrock`, then `parse_json_response` and the probe. */
  function ChannelOf(s: Session): Channel
  {
    Channel(
      MinExpectedCodes(s.plan),
      (template: string, attempt: nat) => GetCptCodesFromBedrock(s.notes, template, s.region, s.bedrock(attempt)),
      (text: Option<string>) => ProbeCounts(ParseJsonResponse(text, s.decode)),
      (missing: nat) => CriticalSentence(missing),
      (count: nat) => ImportantSentence(s.plan, MinExpectedCodes(s.plan), count))
  }

  /**
   * The template for the next attempt after an insufficient reply: missing
   * codes take precedence over too few codes, an empty reply adds nothing,
   * and nothing is added after the last attempt.
   */
  function NextPrompt(c: Channel, template: string, p: Probe, attempt: nat): (r: string)
    requires p.Probe?
    ensures IsPrefix(template, r)
    ensures attempt + 1 >= MaxRetries ==> r == template
    ensures p.count == 0 && p.missing == 0 ==> r == template
    ensures attempt + 1 < MaxRetries && p.missing > 0 ==> r == template + c.critical(p.missing)
    ensures attempt + 1 < MaxRetries && p.missing == 0 && p.count > 0 ==> r == template + c.important(p.count)
  {
    if attempt + 1 >= MaxRetries then template
    else if p.missing > 0 then template + c.critical(p.missing)
    else if p.count > 0 then template + c.important(p.count)
    else template
  }

  /** The prompts sent, in order, and either the last reply's text or the exception the probe raised. */
  datatype RetryOutcome =
    | Finished(prompts: seq<string>, text: Option<string>)
    | Crashed(prompts: seq<string>)

  /** The retry loop from `attempt` on, having sent `sent` and last received `last`. */
  function RetryFrom(c: Channel, sent: seq<string>, template: string, attempt: nat, last: Option<string>): (r: RetryOutcome)
    ensures |sent| <= |r.prompts| && forall i :: 0 <= i < |sent| ==> r.prompts[i] == sent[i]
    ensures attempt < MaxRetries ==> |sent| < |r.prompts| <= |sent| + (MaxRetries - attempt)
    ensures attempt >= MaxRetries ==> r == Finished(sent, last)
    decreases MaxRetries - attempt
  {
    if attempt >= MaxRetries then Finished(sent, last)
    else
      var text := c.ask(template, attempt);
      var sent' := sent + [template];
      if text.None? || text.value == [] then RetryFrom(c, sent', template, attempt + 1, text)
      else
        var p := c.probe(text);
        if p.Raised? then Crashed(sent')
        else if Sufficient(p, c.minimum) then Finished(sent', text)
        else RetryFrom(c, sent', NextPrompt(c, template, p, attempt), attempt + 1, text)
  }

  /** The whole retry loop of a session, starting from the selected template. */
  function Retry(s: Session, template: string): RetryOutcome
  {
    RetryFrom(ChannelOf(s), [], template, 0, None)
  }

  /** Each prompt extends the one before it. */
  predicate Grows(prompts: seq<string>)
  {
    forall k :: 0 <= k < |prompts| - 1 ==> IsPrefix(prompts[k], prompts[k + 1])
  }

  /** The reply to the last prompt passes the quick check. */
  predicate LastReplySufficient(c: Channel, text: Option<string>)
  {
    text.Some? && Sufficient(c.probe(text), c.minimum)
  }

  /**
   * One attempt of the loop leads from `prompt` to `next`: after an empty
   * reply the prompt is sent again unchanged; after a non-empty reply whose
   * probe neither raised nor passed the quick check, the prompt is sharpened
   * by `NextPrompt`. A sufficient reply, or a probe that raised, leads nowhere.
   */
  predicate StepTo(c: Channel, prompt: string, attempt: nat, next: string)
  {
    var t := c.ask(prompt, attempt);
    ((t.None? || t.value == []) && next == prompt) ||
    (t.Some? && t.value != [] && c.probe(t).Probe? && !Sufficient(c.probe(t), c.minimum) &&
     next == NextPrompt(c, prompt, c.probe(t), attempt))
  }

  /** The reply to `prompt` is non-empty and probing it raised. */
  predicate ProbeRaisedOn(c: Channel, prompt: string, attempt: nat)
  {
    var t := c.ask(prompt, attempt);
    t.Some? && t.value != [] && c.probe(t).Raised?
  }

  /** Each prompt follows from the one before it by one attempt of the loop. */
  predicate Followed(c: Channel, prompts: seq<string>)
  {
    forall k :: 0 <= k < |prompts| - 1 ==> StepTo(c, prompts[k], k, prompts[k + 1])
  }

  /**
   * What the retry loop guarantees: one to three prompts, the first being the
   * selected template, each extending the one before; each prompt after the
   * first is what the reply to the one before leads to, so no reply before
   * the last passed the quick check; the text kept is the reply to the last
   * prompt; the loop stops before the third attempt only on a reply that
   * passes the quick check, and crashes only when the probe of the last,
   * non-empty reply raised.
   */
  lemma RetryFacts(c: Channel, template: string)
    ensures var r := RetryFrom(c, [], template, 0, None);
      1 <= |r.prompts| <= MaxRetries && r.prompts[0] == template && Grows(r.prompts)
    ensures var r := RetryFrom(c, [], template, 0, None);
      forall k :: 0 <= k < |r.prompts| - 1 ==> StepTo(c, r.prompts[k], k, r.prompts[k + 1])
    ensures var r := RetryFrom(c, [], template, 0, None);
      forall k :: 0 <= k < |r.prompts| - 1 ==>
        var t := c.ask(r.prompts[k], k);
        !(t.Some? && t.value != [] && Sufficient(c.probe(t), c.minimum))
    ensures var r := RetryFrom(c, [], template, 0, None);
      r.Finished? ==> r.text == c.ask(r.prompts[|r.prompts| - 1], |r.prompts| - 1)
    ensures var r := RetryFrom(c, [], template, 0, None);
      r.Finished? && |r.prompts| < MaxRetries ==> LastReplySufficient(c, r.text)
    ensures var r := RetryFrom(c, [], template, 0, None);
      r.Crashed? ==> ProbeRaisedOn(c, r.prompts[|r.prompts| - 1], |r.prompts| - 1)
  {
    var r := RetryFrom(c, [], template, 0, None);
    assert 1 <= |r.prompts| <= MaxRetries && r.prompts[0] == template by {
      RetryShape(c, [], template, 0, None);
      assert r.prompts[..1] == [template];
    }
    assert Grows(r.prompts) by {
      RetryGrows(c, [], template, 0, None);
    }
    RetryFollows(c, [], template, 0, None);
    RetryCrashesOnRaise(c, [], template, 0, None);
    RetryKeepsLastReply(c, [], template, 0, None);
    RetryStopsWhenSufficient(c, [], template, 0, None);
  }

  /** The prompts are those already sent, then the current template, then at most the remaining attempts. */
  lemma {:induction false} RetryShape(c: Channel, sent: seq<string>, template: string, attempt: nat, last: Option<string>)
    requires |sent| == attempt < MaxRetries
    ensures var ps := RetryFrom(c, sent, template, attempt, last).prompts;
      attempt < |ps| <= MaxRetries && ps[..attempt + 1] == sent + [template]
    decreases MaxRetries - attempt
  {
    var text := c.ask(template, attempt);
    var sent' := sent + [template];
    if attempt + 1 < MaxRetries {
      if text.None? || text.value == [] {
        RetryShape(c, sent', template, attempt + 1, text);
        PrefixOfPrefix'(RetryFrom(c, sent', template, attempt + 1, text).prompts, sent', template, attempt + 1);
      } else {
        var p := c.probe(text);
        if p.Probe? && !Sufficient(p, c.minimum) {
          var next := NextPrompt(c, template, p, attempt);
          RetryShape(c, sent', next, attempt + 1, text);
          PrefixOfPrefix'(RetryFrom(c, sent', next, attempt + 1, text).prompts, sent', next, attempt + 1);
        }
      }
    }
  }

  /** A sequence starting with `sent' + [t]` starts with `sent'`. */
  lemma PrefixOfPrefix'(ps: seq<string>, sent': seq<string>, t: string, n: nat)
    requires |sent'| == n < |ps| && ps[..n + 1] == sent' + [t]
    ensures ps[..n] == sent'
  {
    assert ps[..n] == ps[..n + 1][..n];
  }

  /** Each prompt extends the one before it. */
  lemma {:induction false} RetryGrows(c: Channel, sent: seq<string>, template: string, attempt: nat, last: Option<string>)
    requires |sent| == attempt < MaxRetries
    requires Grows(sent) && (sent != [] ==> IsPrefix(sent[|sent| - 1], template))
    ensures Grows(RetryFrom(c, sent, template, attempt, last).prompts)
    decreases MaxRetries - attempt
  {
    var r := RetryFrom(c, sent, template, attempt, last);
    var text := c.ask(template, attempt);
    var sent' := sent + [template];
    GrowsSnoc(sent, template);
    if text.None? || text.value == [] {
      assert r == RetryFrom(c, sent', template, attempt + 1, text);
      if attempt + 1 < MaxRetries {
        RetryGrows(c, sent', template, attempt + 1, text);
      }
    } else {
      var p := c.probe(text);
      if p.Raised? {
        assert r == Crashed(sent');
      } else if Sufficient(p, c.minimum) {
        assert r == Finished(sent', text);
      } else {
        var next := NextPrompt(c, template, p, attempt);
        assert r == RetryFrom(c, sent', next, attempt + 1, text);
        if attempt + 1 < MaxRetries {
          RetryGrows(c, sent', next, attempt + 1, text);
        }
      }
    }
  }

  /** Each prompt follows from the one before it by one attempt of the loop. */
  lemma {:induction false} RetryFollows(c: Channel, sent: seq<string>, template: string, attempt: nat, last: Option<string>)
    requires |sent| == attempt < MaxRetries
    requires Followed(c, sent) && (sent != [] ==> StepTo(c, sent[|sent| - 1], |sent| - 1, template))
    ensures Followed(c, RetryFrom(c, sent, template, attempt, last).prompts)
    decreases MaxRetries - attempt
  {
    var r := RetryFrom(c, sent, template, attempt, last);
    var text := c.ask(template, attempt);
    var sent' := sent + [template];
    FollowedSnoc(c, sent, template);
    if text.None? || text.value == [] {
      assert r == RetryFrom(c, sent', template, attempt + 1, text);
      if attempt + 1 < MaxRetries {
        RetryFollows(c, sent', template, attempt + 1, text);
      }
    } else {
      var p := c.probe(text);
      if p.Raised? {
        assert r == Crashed(sent');
      } else if Sufficient(p, c.minimum) {
        assert r == Finished(sent', text);
      } else {
        var next := NextPrompt(c, template, p, attempt);
        assert r == RetryFrom(c, sent', next, attempt + 1, text);
        if attempt + 1 < MaxRetries {
          RetryFollows(c, sent', next, attempt + 1, text);
        }
      }
    }
  }

  lemma FollowedSnoc(c: Channel, sent: seq<string>, template: string)
    requires Followed(c, sent) && (sent != [] ==> StepTo(c, sent[|sent| - 1], |sent| - 1, template))
    ensures Followed(c, sent + [template])
  {
    var sent' := sent + [template];
    forall k | 0 <= k < |sent'| - 1
      ensures StepTo(c, sent'[k], k, sent'[k + 1])
    {
      if k + 1 < |sent| {
        assert sent'[k] == sent[k] && sent'[k + 1] == sent[k + 1];
      }
    }
  }

  /** A crash, if any, follows a non-empty reply to the last prompt whose probe raised. */
  predicate CrashExplained(c: Channel, r: RetryOutcome)
  {
    r.Crashed? ==> r.prompts != [] && ProbeRaisedOn(c, r.prompts[|r.prompts| - 1], |r.prompts| - 1)
  }

  /** A crash follows a non-empty reply to the last prompt whose probe raised. */
  lemma {:induction false} RetryCrashesOnRaise(c: Channel, sent: seq<string>, template: string, attempt: nat, last: Option<string>)
    requires |sent| == attempt < MaxRetries
    ensures CrashExplained(c, RetryFrom(c, sent, template, attempt, last))
    decreases MaxRetries - attempt
  {
    var r := RetryFrom(c, sent, template, attempt, last);
    var text := c.ask(template, attempt);
    var sent' := sent + [template];
    if text.None? || text.value == [] {
      assert r == RetryFrom(c, sent', template, attempt + 1, text);
      if attempt + 1 < MaxRetries {
        RetryCrashesOnRaise(c, sent', template, attempt + 1, text);
      }
    } else {
      var p := c.probe(text);
      if p.Raised? {
        assert r == Crashed(sent') && sent'[|sent'| - 1] == template;
      } else if Sufficient(p, c.minimum) {
        assert r.Finished?;
      } else {
        var next := NextPrompt(c, template, p, attempt);
        assert r == RetryFrom(c, sent', next, attempt + 1, text);
        if attempt + 1 < MaxRetries {
          RetryCrashesOnRaise(c, sent', next, attempt + 1, text);
        }
      }
    }
  }

  /** A finished loop keeps the reply to the last prompt it sent. */
  predicate LastReplyKept(c: Channel, r: RetryOutcome)
  {
    r.Finished? ==> |r.prompts| > 0 && r.text == c.ask(r.prompts[|r.prompts| - 1], |r.prompts| - 1)
  }

  /** The text kept is the reply to the last prompt sent. */
  lemma {:induction false} RetryKeepsLastReply(c: Channel, sent: seq<string>, template: string, attempt: nat, last: Option<string>)
    requires |sent| == attempt < MaxRetries
    ensures LastReplyKept(c, RetryFrom(c, sent, template, attempt, last))
    decreases MaxRetries - attempt
  {
    var r := RetryFrom(c, sent, template, attempt, last);
    var text := c.ask(template, attempt);
    var sent' := sent + [template];
    if text.None? || text.value == [] {
      assert r == RetryFrom(c, sent', template, attempt + 1, text);
      if attempt + 1 < MaxRetries {
        RetryKeepsLastReply(c, sent', template, attempt + 1, text);
      }
    } else {
      var p := c.probe(text);
      if p.Raised? {
        assert r == Crashed(sent');
      } else if Sufficient(p, c.minimum) {
        assert r == Finished(sent', text);
      } else {
        var next := NextPrompt(c, template, p, attempt);
        assert r == RetryFrom(c, sent', next, attempt + 1, text);
        if attempt + 1 < MaxRetries {
          RetryKeepsLastReply(c, sent', next, attempt + 1, text);
        }
      }
    }
  }

  /** Before the last attempt, the loop stops without a crash only on a sufficient reply. */
  lemma {:induction false} RetryStopsWhenSufficient(c: Channel, sent: seq<string>, template: string, attempt: nat, last: Option<string>)
    requires |sent| == attempt < MaxRetries
    ensures var r := RetryFrom(c, sent, template, attempt, last);
      r.Finished? && |r.prompts| < MaxRetries ==> LastReplySufficient(c, r.text)
    decreases MaxRetries - attempt
  {
    var r := RetryFrom(c, sent, template, attempt, last);
    var text := c.ask(template, attempt);
    var sent' := sent + [template];
    if text.None? || text.value == [] {
      assert r == RetryFrom(c, sent', template, attempt + 1, text);
      if attempt + 1 < MaxRetries {
        RetryStopsWhenSufficient(c, sent', template, attempt + 1, text);
      }
    } else {
      var p := c.probe(text);
      if p.Raised? {
        assert r == Crashed(sent');
      } else if Sufficient(p, c.minimum) {
        assert r == Finished(sent', text);
      } else {
        var next := NextPrompt(c, template, p, attempt);
        assert r == RetryFrom(c, sent', next, attempt + 1, text);
        if attempt + 1 < MaxRetries {
          RetryStopsWhenSufficient(c, sent', next, attempt + 1, text);
        }
      }
    }
  }

  lemma GrowsSnoc(sent: seq<string>, template: string)
    requires Grows(sent) && (sent != [] ==> IsPrefix(sent[|sent| - 1], template))
    ensures Grows(sent + [template])
  {
    var sent' := sent + [template];
    forall k | 0 <= k < |sent'| - 1
      ensures IsPrefix(sent'[k], sent'[k + 1])
    {
      if k + 1 < |sent| {
        assert sent'[k] == sent[k] && sent'[k + 1] == sent[k + 1];
      }
    }
  }

  /** The retry loop of the test: asks, probes, stops on a sufficient reply, and sharpens the prompt otherwise. */
  method PredictWithRetries(c: Channel, template0: string) returns (outcome: RetryOutcome)
    ensures outcome == RetryFrom(c, [], template0, 0, None)
  {
    var template := template0;
    var text: Option<string> := None;
    var sent: seq<string> := [];
    var attempt: nat := 0;
    while attempt < MaxRetries
      invariant attempt <= MaxRetries
      invariant RetryFrom(c, sent, template, attempt, text) == RetryFrom(c, [], template0, 0, None)
      decreases MaxRetries - attempt
    {
      ghost var rest := RetryFrom(c, sent, template, attempt, text);
      text := c.ask(template, attempt);
      sent := sent + [template];
      if text.None? || text.value == [] {
        assert rest == RetryFrom(c, sent, template, attempt + 1, text);
        attempt := attempt + 1;
        continue;
      }
      var p := c.probe(text);
      if p.Raised? {
        assert rest == Crashed(sent);
        return Crashed(sent);
      }
      ghost var next := NextPrompt(c, template, p, attempt);
      if p.count >= c.minimum && p.missing == 0 {
        assert rest == Finished(sent, text);
        return Finished(sent, text);
      }
      assert rest == RetryFrom(c, sent, next, attempt + 1, text);
      if p.missing > 0 {
        if attempt < MaxRetries - 1 {
          template := template + c.critical(p.missing);
        }
      } else if p.count > 0 {
        if attempt < MaxRetries - 1 {
          template := template + c.important(p.count);
        }
      }
      assert template == next;
      attempt := attempt + 1;
    }
    return Finished(sent, text);
  }

  /** The probe of a session's channel is the probing loop over the parsed reply. */
  method ProbeReply(s: Session, text: Option<string>) returns (p: Probe)
    ensures p == ChannelOf(s).probe(text)
  {
    var parsed := ParseJsonResponse(text, s.decode);
    p := ProbeResponse(parsed);
  }

  /**
   * Steps 5 and 6 of the test on a session: it fails when the probe raises,
   * when the last reply is empty, and when that reply does not parse into CPT
   * codes, and passes otherwise.
   */
  function PredictAndParse(s: Session, template: string): (r: bool)
    ensures r ==> Retry(s, template).Finished? && Retry(s, template).text.Some? && Retry(s, template).text.value != []
    ensures r ==> exists a: nat, q: Request :: a < MaxRetries && q.region == s.region && s.bedrock(a)(q).Some?
  {
    AsksAnswered(s);
    LastPromptAnswered(ChannelOf(s), template, s.bedrock, s.notes, s.region);
    match Retry(s, template)
    case Crashed(_) => false
    case Finished(_, text) =>
      CodesFromReply(text, s.decode).Some?
  }

  /**
   * `test_bedrock_prediction`: fails without the notes file; otherwise runs
   * the retry loop on the plan-prefixed notes with the selected template.
   */
  function TestBedrockPrediction(
    planSetting: Option<string>,
    regionSetting: Option<string>,
    files: string -> Option<string>,
    bedrock: nat -> Request -> Option<Json>,
    decode: string -> Option<Json>): (r: bool)
    ensures files(NotesFile).None? ==> !r
    ensures r ==> exists a: nat, q: Request ::
      a < MaxRetries && q.region == regionSetting.GetOr(DefaultRegion) && bedrock(a)(q).Some?
  {
    match files(NotesFile)
    case None => false
    case Some(notes) =>
      var plan := planSetting.GetOr(DefaultPlan);
      PredictAndParse(Session(plan, NotesWithPrefix(plan, notes), regionSetting.GetOr(DefaultRegion), bedrock, decode), SelectPrompt(plan, files))
  }

  /** A session's channel answers a prompt only when Bedrock answered the request built for it. */
  lemma AsksAnswered(s: Session)
    ensures forall t: string, a: nat :: ChannelOf(s).ask(t, a).Some? ==> s.bedrock(a)(BuildRequest(s.notes, t, s.region)).Some?
  {
    forall t: string, a: nat | ChannelOf(s).ask(t, a).Some?
      ensures s.bedrock(a)(BuildRequest(s.notes, t, s.region)).Some?
    {
      assert ChannelOf(s).ask(t, a) == GetCptCodesFromBedrock(s.notes, t, s.region, s.bedrock(a));
    }
  }

  /** On a channel that answers only what Bedrock answered, a loop finishing with text had its last request answered. */
  lemma LastPromptAnswered(c: Channel, template: string, bedrock: nat -> Request -> Option<Json>, notes: string, region: string)
    requires forall t: string, a: nat :: c.ask(t, a).Some? ==> bedrock(a)(BuildRequest(notes, t, region)).Some?
    ensures var r := RetryFrom(c, [], template, 0, None);
      r.Finished? && r.text.Some? ==>
        0 < |r.prompts| <= MaxRetries &&
        bedrock(|r.prompts| - 1)(BuildRequest(notes, r.prompts[|r.prompts| - 1], region)).Some?
  {
    RetryKeepsLastReply(c, [], template, 0, None);
  }

  /** A reply that decodes to records all with a code probes as complete and parses into CPT codes. */
  lemma CompleteReplyIsSufficient(parsed: Option<Json>, items: seq<Json>)
    requires parsed == Some(JArr(items)) && items != [] && AllRecords(items)
    requires forall k :: 0 <= k < |items| ==> !MissingCode(items[k])
    ensures ProbeCounts(parsed) == Probe(|items|, 0)
    ensures ExtractCodes(parsed).Some?
  {
    MissingCountZeroIff(items);
  }

  /**
   * A first reply that decodes to enough records, all with a code, ends the
   * loop after one request and passes the test.
   */
  lemma FirstSufficientReplyPasses(s: Session, template: string, items: seq<Json>)
    requires var text := GetCptCodesFromBedrock(s.notes, template, s.region, s.bedrock(0));
      text.Some? && text.value != [] && ParseJsonResponse(text, s.decode) == Some(JArr(items))
    requires AllRecords(items) && |items| >= MinExpectedCodes(s.plan)
    requires forall k :: 0 <= k < |items| ==> !MissingCode(items[k])
    ensures PredictAndParse(s, template)
    ensures Retry(s, template).prompts == [template]
  {
    var text := GetCptCodesFromBedrock(s.notes, template, s.region, s.bedrock(0));
    assert ChannelOf(s).ask(template, 0) == text;
    CompleteReplyIsSufficient(ParseJsonResponse(text, s.decode), items);
    assert ChannelOf(s).probe(text) == ProbeCounts(ParseJsonResponse(text, s.decode));
    FirstReplySufficient(ChannelOf(s), template);
  }

  /** A sufficient first reply ends the loop with one prompt and that reply. */
  lemma FirstReplySufficient(c: Channel, template: string)
    requires var text := c.ask(template, 0);
      text.Some? && text.value != [] && Sufficient(c.probe(text), c.minimum)
    ensures RetryFrom(c, [], template, 0, None) == Finished([template], c.ask(template, 0))
  {
  }

  /** When Bedrock never answers with text, no prompt is sharpened and the test fails. */
  lemma SilentBedrockFails(s: Session, template: string)
    requires forall t: string, a: nat :: GetCptCodesFromBedrock(s.notes, t, s.region, s.bedrock(a)).None?
    ensures Retry(s, template) == Finished([template, template, template], None)
    ensures !PredictAndParse(s, template)
  {
    var c := ChannelOf(s);
    assert c.ask(template, 0).None? && c.ask(template, 1).None? && c.ask(template, 2).None?;
  }
}
