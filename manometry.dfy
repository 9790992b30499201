/**
 * The anorectal manometry check both scripts run on the clinical notes
 * before coding (`debug_manometry_status`, written identically in
 * `test_bedrock_local.py` and `web_automation.py`): CPT 91122 is kept when
 * the notes say manometry was performed and removed when they say it was
 * deferred, not done, cancelled or unavailable.
 */
module Manometry {
  import opened Wrappers
  import opened Strings

  /** Phrases saying manometry did not take place, in the order they are tried. */
  const NegativeKeywords: seq<string> := [
    "anorectal manometry was deferred",
    "anorectal manometry deferred",
    "manometry was deferred",
    "manometry deferred",
    "anorectal manometry was not done",
    "anorectal manometry not done",
    "manometry was not done",
    "manometry not done",
    "anorectal manometry was cancelled",
    "anorectal manometry cancelled",
    "manometry was cancelled",
    "manometry cancelled",
    "anorectal manometry was unavailable",
    "anorectal manometry unavailable",
    "manometry was unavailable",
    "manometry unavailable"
  ]

  /** Phrases saying manometry was performed, in the order they are tried. */
  const PositiveKeywords: seq<string> := [
    "anorectal manometry is performed",
    "anorectal manometry was performed",
    "anorectal manometry performed",
    "manometry is performed",
    "manometry was performed",
    "manometry performed",
    "anal pressure probe is used",
    "anal pressure probe was used",
    "anal pressure record"
  ]

  /** The first keyword of the list, in list order, that occurs in `text`. */
  function FirstFound(keywords: seq<string>, text: string): (r: Option<nat>)
    ensures r.Some? ==> r.value < |keywords| && Contains(text, keywords[r.value])
    ensures r.Some? ==> forall k :: 0 <= k < r.value ==> !Contains(text, keywords[k])
    ensures r.None? <==> forall k :: 0 <= k < |keywords| ==> !Contains(text, keywords[k])
    decreases |keywords|
  {
    if keywords == [] then None
    else if Contains(text, keywords[0]) then Some(0)
    else match FirstFound(keywords[1..], text)
      case None => None
      case Some(k) => Some(k + 1)
  }

  /** The keyword loop with its `break`: the flag and the keyword it stopped at, `""` when none matched. */
  method FindFirstKeyword(keywords: seq<string>, text: string) returns (found: bool, matched: string)
    ensures found <==> FirstFound(keywords, text).Some?
    ensures found ==> matched == keywords[FirstFound(keywords, text).value]
    ensures !found ==> matched == ""
  {
    found, matched := false, "";
    for i := 0 to |keywords|
      invariant forall k :: 0 <= k < i ==> !Contains(text, keywords[k])
    {
      if Contains(text, keywords[i]) {
        found, matched := true, keywords[i];
        FirstFoundIsLeast(keywords, text, i);
        return;
      }
    }
  }

  /** A keyword that occurs with none before it occurring is the one `FirstFound` picks. */
  lemma FirstFoundIsLeast(keywords: seq<string>, text: string, i: nat)
    requires i < |keywords| && Contains(text, keywords[i])
    requires forall k :: 0 <= k < i ==> !Contains(text, keywords[k])
    ensures FirstFound(keywords, text) == Some(i)
  {
    var r := FirstFound(keywords, text);
    assert r.Some?;
    assert !(r.value < i);
    assert !(r.value > i);
  }

  /** The four outcomes of the check. */
  datatype Status =
    | Deferred(keyword: string)
    | Performed(keyword: string)
    | Conflicting(deferred: string, performed: string)
    | Unclear

  /** The verdict for the given phrase lists: matching is on the lower-cased notes. */
  function StatusWith(negative: seq<string>, positive: seq<string>, notes: string): (r: Status)
    ensures r.Deferred? ==> r.keyword in negative && Contains(Lower(notes), r.keyword) && !Mentions(positive, notes)
    ensures r.Performed? ==> r.keyword in positive && Contains(Lower(notes), r.keyword) && !Mentions(negative, notes)
    ensures r.Conflicting? ==> r.deferred in negative && Contains(Lower(notes), r.deferred)
    ensures r.Conflicting? ==> r.performed in positive && Contains(Lower(notes), r.performed)
    ensures r == Unclear ==> !Mentions(negative, notes) && !Mentions(positive, notes)
  {
    var lower := Lower(notes);
    match (FirstFound(negative, lower), FirstFound(positive, lower))
    case (Some(d), None) => Deferred(negative[d])
    case (None, Some(p)) => Performed(positive[p])
    case (Some(d), Some(p)) => Conflicting(negative[d], positive[p])
    case (None, None) => Unclear
  }

  /** What the check reports on the notes. */
  function ManometryStatus(notes: string): (r: Status)
    ensures r.Deferred? ==> r.keyword in NegativeKeywords && Contains(Lower(notes), r.keyword)
    ensures r.Performed? ==> r.keyword in PositiveKeywords && Contains(Lower(notes), r.keyword)
    ensures r.Conflicting? ==> r.deferred in NegativeKeywords && r.performed in PositiveKeywords
  {
    StatusWith(NegativeKeywords, PositiveKeywords, notes)
  }

  /** A phrase of the list occurs in the lower-cased notes. */
  predicate Mentions(keywords: seq<string>, notes: string)
  {
    exists k :: 0 <= k < |keywords| && Contains(Lower(notes), keywords[k])
  }

  /** 91122 is to be removed exactly when a negative phrase occurs and no positive phrase does. */
  lemma RemoveIffOnlyNegative(notes: string)
    ensures ManometryStatus(notes).Deferred? <==>
      Mentions(NegativeKeywords, notes) && !Mentions(PositiveKeywords, notes)
  {
    VerdictIff(NegativeKeywords, PositiveKeywords, notes);
  }

  /** 91122 is kept exactly when a positive phrase occurs and no negative phrase does. */
  lemma KeepIffOnlyPositive(notes: string)
    ensures ManometryStatus(notes).Performed? <==>
      Mentions(PositiveKeywords, notes) && !Mentions(NegativeKeywords, notes)
  {
    VerdictIff(NegativeKeywords, PositiveKeywords, notes);
  }

  /** Each verdict in terms of which lists have a phrase in the notes. */
  lemma VerdictIff(negative: seq<string>, positive: seq<string>, notes: string)
    ensures StatusWith(negative, positive, notes).Deferred? <==> Mentions(negative, notes) && !Mentions(positive, notes)
    ensures StatusWith(negative, positive, notes).Performed? <==> Mentions(positive, notes) && !Mentions(negative, notes)
    ensures StatusWith(negative, positive, notes).Conflicting? <==> Mentions(negative, notes) && Mentions(positive, notes)
    ensures StatusWith(negative, positive, notes) == Unclear <==> !Mentions(negative, notes) && !Mentions(positive, notes)
  {
  }

  lemma LowerIdempotent(s: string)
    ensures Lower(Lower(s)) == Lower(s)
  {
  }

  /** The check does not depend on letter case. */
  lemma StatusIgnoresCase(notes: string)
    ensures ManometryStatus(Lower(notes)) == ManometryStatus(notes)
  {
    LowerIdempotent(notes);
  }

  /** The keyword the snippet is centred on: the negative one when there is one. */
  function SnippetKeyword(s: Status): Option<string>
  {
    match s
    case Deferred(k) => Some(k)
    case Performed(k) => Some(k)
    case Conflicting(d, _) => Some(d)
    case Unclear => None
  }

  /** Up to 100 characters either side of the first occurrence of the keyword, cut from the original notes. */
  function SnippetAround(notes: string, keyword: string): (r: Option<string>)
    ensures r.Some? <==> Contains(Lower(notes), keyword)
    ensures r.Some? ==> |r.value| <= |keyword| + 200
  {
    match Find(Lower(notes), keyword)
    case None => None
    case Some(p) => Some(notes[Max(0, p - 100)..Min(|notes|, p + |keyword| + 100)])
  }

  /** The snippet printed after the verdict, when a keyword matched. */
  function Snippet(notes: string): Option<string>
  {
    match SnippetKeyword(ManometryStatus(notes))
    case None => None
    case Some(keyword) => SnippetAround(notes, keyword)
  }

  /** Around a keyword the lower-cased notes contain, the snippet exists, shows the keyword and is at most 200 characters longer. */
  lemma SnippetAroundShowsKeyword(notes: string, keyword: string)
    requires Contains(Lower(notes), keyword)
    ensures SnippetAround(notes, keyword).Some?
    ensures |SnippetAround(notes, keyword).value| <= |keyword| + 200
    ensures Contains(Lower(SnippetAround(notes, keyword).value), keyword)
  {
    var p := Find(Lower(notes), keyword).value;
    var a, b := Max(0, p - 100), Min(|notes|, p + |keyword| + 100);
    assert SnippetAround(notes, keyword) == Some(notes[a..b]);
    SliceShowsKeyword(notes, keyword, p, a, b);
  }

  /** A slice of the notes around an occurrence of the keyword in their lower-cased form shows that keyword. */
  lemma SliceShowsKeyword(notes: string, keyword: string, p: nat, a: nat, b: nat)
    requires a <= p && p + |keyword| <= b <= |notes|
    requires Lower(notes)[p..p + |keyword|] == keyword
    ensures Contains(Lower(notes[a..b]), keyword)
  {
    LowerSlice(notes, a, b);
    ContainsInSlice(Lower(notes), keyword, p, a, b);
  }

  /** Whenever a keyword matched, the snippet is shown and shows that keyword. */
  lemma SnippetShowsKeyword(notes: string)
    requires ManometryStatus(notes) != Unclear
    ensures Snippet(notes).Some?
    ensures Contains(Lower(Snippet(notes).value), SnippetKeyword(ManometryStatus(notes)).value)
  {
    KeywordOfVerdictOccurs(NegativeKeywords, PositiveKeywords, notes);
    SnippetAroundShowsKeyword(notes, SnippetKeyword(ManometryStatus(notes)).value);
  }

  /** The keyword a verdict names occurs in the lower-cased notes. */
  lemma KeywordOfVerdictOccurs(negative: seq<string>, positive: seq<string>, notes: string)
    requires StatusWith(negative, positive, notes) != Unclear
    ensures Contains(Lower(notes), SnippetKeyword(StatusWith(negative, positive, notes)).value)
  {
  }

  /** Both keyword loops, the verdict and the snippet, for the given phrase lists. */
  method CheckStatus(negative: seq<string>, positive: seq<string>, notes: string) returns (status: Status, snippet: Option<string>)
    ensures status == StatusWith(negative, positive, notes)
    ensures snippet == (match SnippetKeyword(status) case None => None case Some(k) => SnippetAround(notes, k))
  {
    var lower := Lower(notes);
    var deferredFound, deferredMatch := FindFirstKeyword(negative, lower);
    var performedFound, performedMatch := FindFirstKeyword(positive, lower);
    if deferredFound && !performedFound {
      status := Deferred(deferredMatch);
    } else if performedFound && !deferredFound {
      status := Performed(performedMatch);
    } else if deferredFound && performedFound {
      status := Conflicting(deferredMatch, performedMatch);
    } else {
      status := Unclear;
    }
    snippet := None;
    if deferredFound || performedFound {
      var keyword := if deferredFound then deferredMatch else performedMatch;
      assert SnippetKeyword(status) == Some(keyword);
      snippet := CutSnippet(notes, lower, keyword);
    }
  }

  /** The cut around the first occurrence of the keyword in the lower-cased notes. */
  method CutSnippet(notes: string, lower: string, keyword: string) returns (snippet: Option<string>)
    requires lower == Lower(notes)
    ensures snippet == SnippetAround(notes, keyword)
  {
    snippet := None;
    var pos := Find(lower, keyword);
    if pos.Some? {
      var start := Max(0, pos.value - 100);
      var end := Min(|notes|, pos.value + |keyword| + 100);
      snippet := Some(notes[start..end]);
    }
  }

  /** `debug_manometry_status`: the verdict on the notes and the snippet it prints. */
  method DebugManometryStatus(notes: string) returns (status: Status, snippet: Option<string>)
    ensures status == ManometryStatus(notes)
    ensures snippet == Snippet(notes)
  {
    status, snippet := CheckStatus(NegativeKeywords, PositiveKeywords, notes);
  }
}
