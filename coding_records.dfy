/**
 * The CPT records the model's JSON is turned into, written twice in the
 * source with the same logic (`test_bedrock_local.py` and
 * `cpt_population.py`): the normaliser that maps `cpt`/`cptCode`/`code` to
 * one `code` field, and the probe that counts entries and entries without a
 * code.
 */
module CodingRecords {
  import opened Wrappers
  import opened Strings
  import opened JsonValues
  import opened BedrockPredictor

  /** A JSON object, as the scripts index it. */
  type Record = map<string, Json>

  /** The first truthy value of the list, `None` when there is none. */
  function FirstTruthy(vs: seq<Json>): (r: Option<Json>)
    ensures r.Some? ==> Truthy(r.value) && r.value in vs
    ensures r.None? <==> forall k :: 0 <= k < |vs| ==> !Truthy(vs[k])
  {
    if vs == [] then None
    else if Truthy(vs[0]) then Some(vs[0])
    else FirstTruthy(vs[1..])
  }

  /** `item.get('cpt') or item.get('cptCode') or item.get('code') or ''`. */
  function CodeValue(item: Record): Json
  {
    Or(Get(item, "cpt"), Or(Get(item, "cptCode"), Or(Get(item, "code"), JStr(""))))
  }

  /** The code is the first truthy of `cpt`, `cptCode`, `code` in that order, else the empty string. */
  lemma CodeValueIsFirstTruthy(item: Record)
    ensures CodeValue(item) == FirstTruthy([Get(item, "cpt"), Get(item, "cptCode"), Get(item, "code")]).GetOr(JStr(""))
  {
    var vs := [Get(item, "cpt"), Get(item, "cptCode"), Get(item, "code")];
    assert vs[1..] == [vs[1], vs[2]];
    assert vs[1..][1..] == [vs[2]];
    assert vs[1..][1..][1..] == [];
  }

  /** A whitespace-only `cpt` shadows a valid `code`, and the entry then counts as missing its code. */
  lemma BlankCptShadowsCode(item: Record)
    requires "cpt" in item && item["cpt"].JStr? && item["cpt"].s != [] && Strip(item["cpt"].s) == []
    ensures CodeValue(item) == item["cpt"]
    ensures PrintsBlank(CodeValue(item))
  {
  }

  /** The canonical record: `code`, `modifier1`, `modifier2`, `description`, missing ones as `''`. */
  function Normalize(item: Record): (r: Record)
    ensures r.Keys == {"code", "modifier1", "modifier2", "description"}
    ensures r["code"] == CodeValue(item)
    ensures r["modifier1"] == GetOr(item, "modifier1", JStr(""))
    ensures r["modifier2"] == GetOr(item, "modifier2", JStr(""))
    ensures r["description"] == GetOr(item, "description", JStr(""))
  {
    map["code" := CodeValue(item),
        "modifier1" := GetOr(item, "modifier1", JStr("")),
        "modifier2" := GetOr(item, "modifier2", JStr("")),
        "description" := GetOr(item, "description", JStr(""))]
  }

  /** Every element is a JSON object. */
  predicate AllRecords(items: seq<Json>)
  {
    forall k :: 0 <= k < |items| ==> items[k].JObj?
  }

  /**
   * The normalising loop over a list: one canonical record per entry, in
   * order; `None` when an entry is not an object (`item.get` raises).
   */
  function NormalizedList(items: seq<Json>): (r: Option<seq<Record>>)
    ensures r.Some? <==> AllRecords(items)
    ensures r.Some? ==> |r.value| == |items|
    ensures r.Some? ==> forall k :: 0 <= k < |items| ==> r.value[k] == Normalize(items[k].fields)
    decreases |items|
  {
    if items == [] then Some([])
    else
      var last := items[|items| - 1];
      match NormalizedList(items[..|items| - 1])
      case None => None
      case Some(init) =>
        if last.JObj? then Some(init + [Normalize(last.fields)]) else None
  }

  /** The normalising loop, appending one record per entry and stopping at the first entry that raises. */
  method NormalizeList(items: seq<Json>) returns (codes: Option<seq<Record>>)
    ensures codes == NormalizedList(items)
  {
    var acc: seq<Record> := [];
    for i := 0 to |items|
      invariant NormalizedList(items[..i]) == Some(acc)
    {
      assert items[..i + 1][..i] == items[..i];
      if !items[i].JObj? {
        assert NormalizedList(items[..i + 1]) == None;
        NoneExtends(items, i + 1);
        return None;
      }
      acc := acc + [Normalize(items[i].fields)];
    }
    assert items[..|items|] == items;
    return Some(acc);
  }

  /** Once a prefix of the list fails to normalise, the whole list does. */
  lemma NoneExtends(items: seq<Json>, n: nat)
    requires n <= |items| && NormalizedList(items[..n]) == None
    ensures NormalizedList(items) == None
  {
    assert !AllRecords(items[..n]);
    var k :| 0 <= k < n && !items[..n][k].JObj?;
    assert !items[k].JObj?;
  }

  /** The elements of a list the display loop accepts: every element must be an object. */
  function RecordsOf(items: seq<Json>): (r: Option<seq<Record>>)
    ensures r.Some? <==> AllRecords(items)
    ensures r.Some? ==> |r.value| == |items| && forall k :: 0 <= k < |items| ==> JObj(r.value[k]) == items[k]
  {
    if AllRecords(items) then Some(seq(|items|, k requires 0 <= k < |items| => items[k].fields)) else None
  }

  /**
   * The list `cpt_codes`/`codes` names inside a dict, passed through as it is:
   * kept when it is a non-empty list of objects. Anything else is falsy, has
   * no `len`, or has elements without `.get`, and gives nothing.
   */
  function AcceptNested(v: Json): (r: Option<seq<Record>>)
    ensures r.Some? ==> v.JArr? && r.value != [] && RecordsOf(v.items) == r
  {
    if v.JArr? && v.items != [] then RecordsOf(v.items) else None
  }

  /**
   * The CPT list the scripts go on with, after `parse_json_response`: a list
   * is normalised entry by entry; a dict gives its `cpt_codes`, else its
   * `codes`, unnormalised; anything else, an empty result, or an entry that
   * makes `.get` raise, gives nothing.
   */
  function ExtractCodes(parsed: Option<Json>): (r: Option<seq<Record>>)
    ensures r.Some? ==> r.value != []
  {
    if parsed.None? || !Truthy(parsed.value) then None
    else
      match parsed.value
      case JArr(items) => NormalizedList(items)
      case JObj(fields) =>
        if "cpt_codes" in fields then AcceptNested(fields["cpt_codes"])
        else if "codes" in fields then AcceptNested(fields["codes"])
        else None
      case _ => None
  }

  /**
   * The CPT list of a reply's text, as both scripts compute it: nothing for
   * a missing or empty text, else the list extracted from the parsed text.
   */
  function CodesFromReply(text: Option<string>, decode: string -> Option<Json>): (r: Option<seq<Record>>)
    ensures r.Some? ==> text.Some? && text.value != [] && r.value != []
    ensures r.Some? ==> ParseJsonResponse(text, decode).Some?
  {
    if text.None? || text.value == [] then None
    else ExtractCodes(ParseJsonResponse(text, decode))
  }

  /** A list keeps its order and length, and every entry has the canonical fields. */
  lemma ListIsNormalized(items: seq<Json>)
    requires items != [] && AllRecords(items)
    ensures ExtractCodes(Some(JArr(items))).Some?
    ensures var codes := ExtractCodes(Some(JArr(items))).value;
      |codes| == |items| && forall k :: 0 <= k < |items| ==> codes[k] == Normalize(items[k].fields)
  {
  }

  /** A list entry that is not an object makes the whole extraction fail. */
  lemma NonRecordEntryFails(items: seq<Json>, k: nat)
    requires k < |items| && !items[k].JObj?
    ensures ExtractCodes(Some(JArr(items))) == None
  {
  }

  /** `cpt_codes` takes priority over `codes`, and its entries come back unnormalised. */
  lemma CptCodesFirst(fields: map<string, Json>, entries: seq<Record>)
    requires "cpt_codes" in fields
    requires fields["cpt_codes"] == JArr(seq(|entries|, k requires 0 <= k < |entries| => JObj(entries[k])))
    requires entries != []
    ensures ExtractCodes(Some(JObj(fields))) == Some(entries)
  {
    var items := fields["cpt_codes"].items;
    assert AllRecords(items);
    var r := RecordsOf(items).value;
    assert r == entries by {
      forall k | 0 <= k < |entries|
        ensures r[k] == entries[k]
      {
        assert JObj(r[k]) == items[k] == JObj(entries[k]);
      }
    }
  }

  // ---------------------------------------------------------------------------
  // The probe of each attempt

  /** An entry is counted as missing its code when it is an object whose code prints as blank. */
  predicate MissingCode(item: Json)
  {
    item.JObj? && PrintsBlank(CodeValue(item.fields))
  }

  /** How many elements satisfy `p`. */
  function CountWhere<T>(xs: seq<T>, p: T -> bool): (r: nat)
    ensures r <= |xs|
    decreases |xs|
  {
    if xs == [] then 0
    else CountWhere(xs[..|xs| - 1], p) + (if p(xs[|xs| - 1]) then 1 else 0)
  }

  /** The count is zero exactly when no element satisfies `p`. */
  lemma {:induction false} CountWhereZeroIff<T>(xs: seq<T>, p: T -> bool)
    ensures CountWhere(xs, p) == 0 <==> forall k :: 0 <= k < |xs| ==> !p(xs[k])
    decreases |xs|
  {
    if xs != [] {
      var init := xs[..|xs| - 1];
      CountWhereZeroIff(init, p);
      assert forall k :: 0 <= k < |init| ==> init[k] == xs[k];
    }
  }

  /** How many entries are missing their code. */
  function MissingCount(items: seq<Json>): (r: nat)
    ensures r <= |items|
  {
    CountWhere(items, MissingCode)
  }

  /** No entry is missing its code exactly when the count is zero. */
  lemma MissingCountZeroIff(items: seq<Json>)
    ensures MissingCount(items) == 0 <==> forall k :: 0 <= k < |items| ==> !MissingCode(items[k])
  {
    CountWhereZeroIff(items, MissingCode);
  }

  /** The counting loop over one list. */
  method CountMissing(items: seq<Json>) returns (missing: nat)
    ensures missing == MissingCount(items)
  {
    missing := 0;
    for i := 0 to |items|
      invariant missing == MissingCount(items[..i])
    {
      assert items[..i + 1][..i] == items[..i];
      if items[i].JObj? {
        var value := CodeValue(items[i].fields);
        if value.JStr? && Strip(value.s) == [] {
          missing := missing + 1;
        }
      }
    }
    assert items[..|items|] == items;
  }

  /** What the probe of one attempt saw: the entry count and the entries without a code, or `len` raising. */
  datatype Probe = Probe(count: nat, missing: nat) | Raised

  /** `len(code_list)` and its missing entries: only lists have elements that can be objects. */
  function ProbeList(v: Json): (r: Probe)
    ensures r.Probe? ==> r.missing <= r.count
  {
    match v
    case JArr(items) => Probe(|items|, MissingCount(items))
    case JStr(s) => Probe(|s|, 0)
    case JObj(fields) => Probe(|fields.Keys|, 0)
    case _ => Raised
  }

  /**
   * The probe of `test_bedrock_prediction`: a list gives its length; a dict
   * gives the length of `cpt_codes`, else of `codes`, else 0; anything else,
   * or nothing parsed, gives 0.
   */
  function ProbeCounts(parsed: Option<Json>): (r: Probe)
    ensures r.Probe? ==> r.missing <= r.count
    ensures parsed.None? ==> r == Probe(0, 0)
  {
    if parsed.None? || !Truthy(parsed.value) then Probe(0, 0)
    else
      match parsed.value
      case JArr(items) => Probe(|items|, MissingCount(items))
      case JObj(fields) =>
        if "cpt_codes" in fields then ProbeList(fields["cpt_codes"])
        else if "codes" in fields then ProbeList(fields["codes"])
        else Probe(0, 0)
      case _ => Probe(0, 0)
  }

  /** The probing loops: `code_count` and `missing_cpt_codes`. */
  method ProbeResponse(parsed: Option<Json>) returns (r: Probe)
    ensures r == ProbeCounts(parsed)
  {
    r := Probe(0, 0);
    if parsed.Some? && Truthy(parsed.value) {
      var v := parsed.value;
      if v.JArr? {
        var missing := CountMissing(v.items);
        r := Probe(|v.items|, missing);
      } else if v.JObj? {
        var list: Json;
        if "cpt_codes" in v.fields {
          list := v.fields["cpt_codes"];
        } else if "codes" in v.fields {
          list := v.fields["codes"];
        } else {
          return;
        }
        match list
        case JArr(items) =>
          var missing := CountMissing(items);
          r := Probe(|items|, missing);
        case JStr(s) =>
          r := Probe(|s|, 0);
        case JObj(fields) =>
          r := Probe(|fields.Keys|, 0);
        case _ =>
          r := Raised;
      }
    }
  }

  /**
   * A list that the probe finds complete is normalised with a non-blank code
   * in every record: the probe and the normaliser agree on what a code is.
   */
  lemma ProbedCompleteListHasCodes(items: seq<Json>)
    requires items != [] && AllRecords(items)
    requires ProbeCounts(Some(JArr(items))) == Probe(|items|, 0)
    ensures ExtractCodes(Some(JArr(items))).Some?
    ensures forall rec :: rec in ExtractCodes(Some(JArr(items))).value ==> !PrintsBlank(rec["code"])
  {
    MissingCountZeroIff(items);
    ListIsNormalized(items);
    var codes := ExtractCodes(Some(JArr(items))).value;
    forall rec | rec in codes
      ensures !PrintsBlank(rec["code"])
    {
      var k :| 0 <= k < |codes| && codes[k] == rec;
      assert !MissingCode(items[k]);
    }
  }
}
