/** The consensus merger of `utils/criteria_consensus.py`: candidates from the
    LLM (weight 3), OCR (weight 2) and heuristic (weight 1) lists are visited in
    that order, blank ones are skipped, one that is similar to an already
    accepted text is dropped, the rest are kept, stably sorted by weight and
    renumbered `INC1, INC2, …` or `EXC1, EXC2, …`. */
module Consensus {
  import opened Results
  import opened Text
  import opened Criteria
  import opened Provenance
  import opened Ranking
  import Heuristic
  import LlmExtraction

  /** The number of matching characters `SequenceMatcher(None, a, b)` finds
      between two strings; how it finds them is not modelled. */
  type Matcher = (string, string) -> nat

  /** `_similar(a, b) >= 0.80`: the ratio `2·M / (|a| + |b|)` of the lower-cased
      strings reaches four fifths; two empty strings have ratio 1. */
  predicate Similar(m: Matcher, a: string, b: string): (r: bool)
    ensures a == [] && b == [] ==> r
  {
    var la, lb := Lower(a), Lower(b);
    var total := |la| + |lb|;
    total == 0 || 5 * m(la, lb) >= 2 * total
  }

  /** `Similar` is the ratio test as written: `2·M / (|a| + |b|) >= 0.80`,
      where an empty pair counts as ratio 1. */
  lemma {:induction false} SimilarMeansRatio(m: Matcher, a: string, b: string)
    ensures var la, lb := Lower(a), Lower(b);
      var total := |la| + |lb|;
      Similar(m, a, b) <==> total == 0 || (2 * m(la, lb)) as real / total as real >= 0.80
  {
    var la, lb := Lower(a), Lower(b);
    var total := |la| + |lb|;
    if total > 0 {
      RatioAtLeast((2 * m(la, lb)) as real, total as real, 0.80);
    }
  }

  /** For a positive denominator, `x / t >= c` exactly when `x >= c·t`. */
  lemma RatioAtLeast(x: real, t: real, c: real)
    requires t > 0.0
    ensures x / t >= c <==> x >= c * t
  {
    var q := x / t;
    assert x == q * t;
    if q >= c {
      assert (q - c) * t >= 0.0;
    } else {
      assert (c - q) * t > 0.0;
    }
  }

  /** What every SequenceMatcher count satisfies: a string matches itself in full. */
  ghost predicate MatchesItself(m: Matcher) {
    forall x :: m(x, x) == |x|
  }

  /** Texts that are equal up to ASCII case are always similar. */
  lemma {:induction false} EqualIgnoringCaseIsSimilar(m: Matcher, a: string, b: string)
    requires MatchesItself(m) && Lower(a) == Lower(b)
    ensures Similar(m, a, b)
  {
    assert m(Lower(a), Lower(a)) == |Lower(a)|;
  }

  /** One input item, tagged with the list it came from. */
  datatype Candidate = Candidate(text: string, source: Source)

  function Tagged(items: seq<Criterion>, source: Source): (r: seq<Candidate>)
    ensures |r| == |items|
    ensures forall i :: 0 <= i < |r| ==> r[i] == Candidate(items[i].text, source)
  {
    seq(|items|, i requires 0 <= i < |items| => Candidate(items[i].text, source))
  }

  /** The visiting order of lines 41-48: every LLM item, then every OCR item,
      then every heuristic item. */
  function Candidates(heu: seq<Criterion>, ocr: seq<Criterion>, llm: seq<Criterion>): (r: seq<Candidate>)
    ensures |r| == |llm| + |ocr| + |heu|
  {
    Tagged(llm, Llm) + Tagged(ocr, Ocr) + Tagged(heu, Heuristic)
  }

  /** The input list that `source` names. */
  function Inputs(heu: seq<Criterion>, ocr: seq<Criterion>, llm: seq<Criterion>, source: Source): seq<Criterion> {
    match source
    case Llm => llm
    case Ocr => ocr
    case Heuristic => heu
  }

  /** Where the `j`-th visited candidate comes from. */
  function Position(llm: seq<Criterion>, ocr: seq<Criterion>, j: nat): (Source, nat) {
    if j < |llm| then (Llm, j)
    else if j < |llm| + |ocr| then (Ocr, j - |llm|)
    else (Heuristic, j - |llm| - |ocr|)
  }

  lemma {:induction false} CandidateAt(heu: seq<Criterion>, ocr: seq<Criterion>, llm: seq<Criterion>, j: nat)
    requires j < |Candidates(heu, ocr, llm)|
    ensures var (source, k) := Position(llm, ocr, j);
      k < |Inputs(heu, ocr, llm, source)| &&
      Candidates(heu, ocr, llm)[j] == Candidate(Inputs(heu, ocr, llm, source)[k].text, source)
  {
    var a, b, c := Tagged(llm, Llm), Tagged(ocr, Ocr), Tagged(heu, Heuristic);
    assert Candidates(heu, ocr, llm) == a + b + c;
    if j < |llm| {
      assert (a + b + c)[j] == a[j];
    } else if j < |llm| + |ocr| {
      assert (a + b + c)[j] == b[j - |llm|];
    } else {
      assert (a + b + c)[j] == c[j - |llm| - |ocr|];
    }
  }

  ghost predicate ByDecreasingWeight(cs: seq<Candidate>) {
    forall i, j :: 0 <= i < j < |cs| ==> Weight(cs[i].source) >= Weight(cs[j].source)
  }

  lemma {:induction false} CandidatesByDecreasingWeight(heu: seq<Criterion>, ocr: seq<Criterion>, llm: seq<Criterion>)
    ensures ByDecreasingWeight(Candidates(heu, ocr, llm))
  {
    var cs := Candidates(heu, ocr, llm);
    forall i, j | 0 <= i < j < |cs|
      ensures Weight(cs[i].source) >= Weight(cs[j].source)
    {
      CandidateAt(heu, ocr, llm, i);
      CandidateAt(heu, ocr, llm, j);
    }
  }

  /** The `used` entry a kept candidate becomes (line 60). */
  function EntryOf(c: Candidate): Entry {
    Entry(Trim(c.text), Weight(c.source), c.source)
  }

  /** Lines 53-57: `t` is similar to some accepted text. */
  predicate IsDuplicate(m: Matcher, used: seq<Entry>, t: string) {
    exists i :: 0 <= i < |used| && Similar(m, t, used[i].text)
  }

  /** The scan of lines 53-57, stopping at the first similar accepted text. */
  method ScanForDuplicate(m: Matcher, used: seq<Entry>, t: string) returns (duplicate: bool)
    ensures duplicate <==> IsDuplicate(m, used, t)
  {
    duplicate := false;
    var i := 0;
    while i < |used|
      invariant 0 <= i <= |used|
      invariant forall j :: 0 <= j < i ==> !Similar(m, t, used[j].text)
    {
      if Similar(m, t, used[i].text) {
        duplicate := true;
        break;
      }
      i := i + 1;
    }
  }

  /** One iteration of the inner loop of lines 48-60. */
  function Step(m: Matcher, used: seq<Entry>, c: Candidate): (r: seq<Entry>)
    ensures r == used || r == used + [EntryOf(c)]
  {
    var t := Trim(c.text);
    if t == [] || IsDuplicate(m, used, t) then used else used + [EntryOf(c)]
  }

  /** The `used` list after visiting `cands` in order. */
  function Accept(m: Matcher, cands: seq<Candidate>): (used: seq<Entry>)
    ensures |used| <= |cands|
    ensures forall i :: 0 <= i < |used| ==>
      used[i].text != [] && IsTrimmed(used[i].text) && used[i].weight == Weight(used[i].source)
  {
    if |cands| == 0 then [] else Step(m, Accept(m, cands[..|cands| - 1]), cands[|cands| - 1])
  }

  /** No text in `used` is similar to one before it. */
  ghost predicate NoLaterSimilar(m: Matcher, used: seq<Entry>) {
    forall i, j :: 0 <= i < j < |used| ==> !Similar(m, used[j].text, used[i].text)
  }

  lemma {:induction false} StepKeepsDissimilar(m: Matcher, pre: seq<Entry>, c: Candidate)
    requires NoLaterSimilar(m, pre)
    ensures NoLaterSimilar(m, Step(m, pre, c))
  {
    var t := Trim(c.text);
    if t != [] && !IsDuplicate(m, pre, t) {
      var used := pre + [EntryOf(c)];
      forall i, j | 0 <= i < j < |used|
        ensures !Similar(m, used[j].text, used[i].text)
      {
        assert used[i] == pre[i];
        if j < |pre| {
          assert used[j] == pre[j];
        } else {
          assert used[j].text == t;
        }
      }
    }
  }

  /** No accepted text is similar to one accepted before it. */
  lemma {:induction false} AcceptNeverKeepsSimilar(m: Matcher, cands: seq<Candidate>)
    ensures NoLaterSimilar(m, Accept(m, cands))
  {
    if |cands| > 0 {
      var init := cands[..|cands| - 1];
      AcceptNeverKeepsSimilar(m, init);
      StepKeepsDissimilar(m, Accept(m, init), cands[|cands| - 1]);
    }
  }

  /** The loop of lines 47-60 as written, against the functional definition. */
  method AcceptAll(m: Matcher, cands: seq<Candidate>) returns (used: seq<Entry>)
    ensures used == Accept(m, cands)
  {
    used := [];
    var k := 0;
    while k < |cands|
      invariant 0 <= k <= |cands|
      invariant used == Accept(m, cands[..k])
    {
      assert cands[..k + 1][..k] == cands[..k];
      assert Accept(m, cands[..k + 1]) == Step(m, used, cands[k]);
      var t := Trim(cands[k].text);
      if t != [] {
        var duplicate := ScanForDuplicate(m, used, t);
        if !duplicate {
          used := used + [Entry(t, Weight(cands[k].source), cands[k].source)];
        }
      }
      k := k + 1;
    }
    assert cands[..k] == cands;
  }

  /** Visiting more candidates only ever appends to `used`. */
  lemma {:induction false} AcceptPrefix(m: Matcher, cands: seq<Candidate>, k: nat)
    requires k <= |cands|
    ensures Accept(m, cands[..k]) <= Accept(m, cands)
  {
    if k < |cands| {
      var init := cands[..|cands| - 1];
      AcceptPrefix(m, init, k);
      assert init[..k] == cands[..k];
    } else {
      assert cands[..k] == cands;
    }
  }

  ghost predicate FromCandidate(cands: seq<Candidate>, e: Entry) {
    exists j :: 0 <= j < |cands| && e == EntryOf(cands[j])
  }

  /** Every accepted entry is the stripped text of some visited candidate. */
  lemma {:induction false} AcceptOrigin(m: Matcher, cands: seq<Candidate>, i: nat)
    requires i < |Accept(m, cands)|
    ensures FromCandidate(cands, Accept(m, cands)[i])
  {
    var init := cands[..|cands| - 1];
    var pre := Accept(m, init);
    if i < |pre| {
      AcceptOrigin(m, init, i);
      var j :| 0 <= j < |init| && pre[i] == EntryOf(init[j]);
      assert cands[j] == init[j];
    } else {
      assert Accept(m, cands)[i] == EntryOf(cands[|cands| - 1]);
    }
  }

  /** Accepted entries weigh at least as much as the lightest candidate. */
  lemma {:induction false} AcceptWeightsAtLeast(m: Matcher, cands: seq<Candidate>, w: int)
    requires forall j :: 0 <= j < |cands| ==> Weight(cands[j].source) >= w
    ensures forall i :: 0 <= i < |Accept(m, cands)| ==> Accept(m, cands)[i].weight >= w
  {
    if |cands| > 0 {
      AcceptWeightsAtLeast(m, cands[..|cands| - 1], w);
    }
  }

  /** When candidates arrive in descending weight, so do the accepted entries. */
  lemma {:induction false} AcceptKeepsOrder(m: Matcher, cands: seq<Candidate>)
    requires ByDecreasingWeight(cands)
    ensures NonIncreasing(Accept(m, cands))
  {
    if |cands| > 0 {
      var init := cands[..|cands| - 1];
      var last := cands[|cands| - 1];
      var pre := Accept(m, init);
      assert ByDecreasingWeight(init);
      AcceptKeepsOrder(m, init);
      if Accept(m, cands) != pre {
        AcceptWeightsAtLeast(m, init, Weight(last.source));
        NonIncreasingSnoc(pre, EntryOf(last));
      }
    }
  }

  /** Every non-blank candidate is either kept or dropped because of a similar
      accepted text whose weight is at least its own. */
  lemma {:induction false} AcceptCovers(m: Matcher, cands: seq<Candidate>, k: nat)
    requires ByDecreasingWeight(cands)
    requires k < |cands| && Trim(cands[k].text) != []
    ensures var used := Accept(m, cands);
      EntryOf(cands[k]) in used ||
      exists i :: 0 <= i < |Accept(m, cands[..k])| && i < |used| && Similar(m, Trim(cands[k].text), used[i].text)
        && used[i].weight >= Weight(cands[k].source)
  {
    var t := Trim(cands[k].text);
    var pre := Accept(m, cands[..k]);
    if IsDuplicate(m, pre, t) {
      var i :| 0 <= i < |pre| && Similar(m, t, pre[i].text);
      CoveredByEarlier(m, cands, k, i);
    } else {
      AppendedWhenNew(m, cands, k);
    }
  }

  /** A candidate similar to the `i`-th entry accepted before it stays covered by that entry. */
  lemma {:induction false} CoveredByEarlier(m: Matcher, cands: seq<Candidate>, k: nat, i: nat)
    requires ByDecreasingWeight(cands)
    requires k < |cands| && i < |Accept(m, cands[..k])|
    requires Similar(m, Trim(cands[k].text), Accept(m, cands[..k])[i].text)
    ensures var used := Accept(m, cands);
      i < |used| && Similar(m, Trim(cands[k].text), used[i].text) && used[i].weight >= Weight(cands[k].source)
  {
    EarlierEntryWeighsMore(m, cands, k, i);
    AcceptPrefix(m, cands, k);
    PrefixEntryKept(Accept(m, cands[..k]), Accept(m, cands), i);
  }

  /** A non-blank candidate dissimilar to everything accepted before it is accepted. */
  lemma {:induction false} AppendedWhenNew(m: Matcher, cands: seq<Candidate>, k: nat)
    requires k < |cands| && Trim(cands[k].text) != []
    requires !IsDuplicate(m, Accept(m, cands[..k]), Trim(cands[k].text))
    ensures EntryOf(cands[k]) in Accept(m, cands)
  {
    var pre := Accept(m, cands[..k]);
    assert cands[..k + 1][..k] == cands[..k];
    var next := Accept(m, cands[..k + 1]);
    assert next == Step(m, pre, cands[k]) == pre + [EntryOf(cands[k])];
    AcceptPrefix(m, cands, k + 1);
    PrefixEntryKept(next, Accept(m, cands), |pre|);
  }

  lemma PrefixEntryKept(pre: seq<Entry>, used: seq<Entry>, i: nat)
    requires pre <= used && i < |pre|
    ensures i < |used| && used[i] == pre[i]
  {
  }

  /** Every entry accepted before candidate `k` weighs at least as much as it. */
  lemma {:induction false} EarlierEntryWeighsMore(m: Matcher, cands: seq<Candidate>, k: nat, i: nat)
    requires ByDecreasingWeight(cands)
    requires k < |cands| && i < |Accept(m, cands[..k])|
    ensures Accept(m, cands[..k])[i].weight >= Weight(cands[k].source)
  {
    var pre := Accept(m, cands[..k]);
    AcceptOrigin(m, cands[..k], i);
    var j :| 0 <= j < k && pre[i] == EntryOf(cands[..k][j]);
    assert cands[..k][j] == cands[j];
  }

  /** An entry of the merged output (lines 68-74). */
  datatype Merged = Merged(id: string, text: string, kind: string, source: Source, weight: int)

  /** Lines 66-74: fresh dense ids in list order. */
  function Renumber(used: seq<Entry>, prefix: string): (r: seq<Merged>)
    ensures |r| == |used|
    ensures forall i :: 0 <= i < |r| ==>
      r[i] == Merged(NumberedId(prefix, i + 1), used[i].text, TextKind, used[i].source, used[i].weight)
  {
    seq(|used|, i requires 0 <= i < |used| =>
      Merged(NumberedId(prefix, i + 1), used[i].text, TextKind, used[i].source, used[i].weight))
  }

  /** The sort of line 63 never moves an entry: `used` is already built in
      descending weight, because the sources are visited llm, ocr, heuristic. */
  lemma {:induction false} SortLeavesAcceptedOrder(m: Matcher, heu: seq<Criterion>, ocr: seq<Criterion>, llm: seq<Criterion>)
    ensures var used := Accept(m, Candidates(heu, ocr, llm));
      SortByWeight(used) == used
  {
    CandidatesByDecreasingWeight(heu, ocr, llm);
    AcceptKeepsOrder(m, Candidates(heu, ocr, llm));
    SortedIsFixpoint(Accept(m, Candidates(heu, ocr, llm)));
  }

  /** `_merge_lists(heuristic, ocr, llm, prefix)`. */
  function MergeLists(m: Matcher, heu: seq<Criterion>, ocr: seq<Criterion>, llm: seq<Criterion>, prefix: string): (r: seq<Merged>)
    ensures |r| <= |heu| + |ocr| + |llm|
    ensures forall i :: 0 <= i < |r| ==> r[i].id == NumberedId(prefix, i + 1) && r[i].kind == TextKind
    ensures forall i :: 0 <= i < |r| ==>
      r[i].text != [] && IsTrimmed(r[i].text) && r[i].weight == Weight(r[i].source)
    ensures forall i, j :: 0 <= i < j < |r| ==> r[i].weight >= r[j].weight
    ensures forall i, j :: 0 <= i < j < |r| ==> !Similar(m, r[j].text, r[i].text)
  {
    var used := Accept(m, Candidates(heu, ocr, llm));
    SortLeavesAcceptedOrder(m, heu, ocr, llm);
    SortOrdersByWeight(used);
    AcceptNeverKeepsSimilar(m, Candidates(heu, ocr, llm));
    Renumber(SortByWeight(used), prefix)
  }

  ghost predicate DrawnFrom(items: seq<Criterion>, t: string) {
    exists k :: 0 <= k < |items| && t == Trim(items[k].text)
  }

  /** The merge keeps `used` exactly as accepted, renumbered. */
  lemma {:induction false} MergeIsRenumberedAccept(m: Matcher, heu: seq<Criterion>, ocr: seq<Criterion>, llm: seq<Criterion>, prefix: string)
    ensures MergeLists(m, heu, ocr, llm, prefix) == Renumber(Accept(m, Candidates(heu, ocr, llm)), prefix)
  {
    SortLeavesAcceptedOrder(m, heu, ocr, llm);
  }

  /** Every accepted text is the stripped text of an item of the list its source names. */
  lemma {:induction false} AcceptedFromInputs(m: Matcher, heu: seq<Criterion>, ocr: seq<Criterion>, llm: seq<Criterion>, i: nat)
    requires i < |Accept(m, Candidates(heu, ocr, llm))|
    ensures var e := Accept(m, Candidates(heu, ocr, llm))[i];
      DrawnFrom(Inputs(heu, ocr, llm, e.source), e.text)
  {
    var cands := Candidates(heu, ocr, llm);
    var e := Accept(m, cands)[i];
    AcceptOrigin(m, cands, i);
    var j :| 0 <= j < |cands| && e == EntryOf(cands[j]);
    CandidateAt(heu, ocr, llm, j);
    var (source, k) := Position(llm, ocr, j);
    assert e.source == source && e.text == Trim(Inputs(heu, ocr, llm, source)[k].text);
  }

  /** Every merged text is the stripped text of an item of the list its source names. */
  lemma {:induction false} MergeOrigin(m: Matcher, heu: seq<Criterion>, ocr: seq<Criterion>, llm: seq<Criterion>, prefix: string, i: nat)
    requires i < |MergeLists(m, heu, ocr, llm, prefix)|
    ensures var e := MergeLists(m, heu, ocr, llm, prefix)[i];
      DrawnFrom(Inputs(heu, ocr, llm, e.source), e.text)
  {
    MergeIsRenumberedAccept(m, heu, ocr, llm, prefix);
    AcceptedFromInputs(m, heu, ocr, llm, i);
  }

  /** A source with an empty list contributes no entry. */
  lemma {:induction false} AbsentSourceContributesNothing(m: Matcher, heu: seq<Criterion>, ocr: seq<Criterion>, llm: seq<Criterion>, prefix: string)
    ensures var r := MergeLists(m, heu, ocr, llm, prefix);
      forall i :: 0 <= i < |r| ==> |Inputs(heu, ocr, llm, r[i].source)| > 0
  {
    var r := MergeLists(m, heu, ocr, llm, prefix);
    forall i | 0 <= i < |r|
      ensures |Inputs(heu, ocr, llm, r[i].source)| > 0
    {
      MergeOrigin(m, heu, ocr, llm, prefix, i);
    }
  }

  /** `AcceptCovers` for the `k`-th item of the list `source` names. */
  lemma {:induction false} AcceptCoversInputs(m: Matcher, heu: seq<Criterion>, ocr: seq<Criterion>, llm: seq<Criterion>, source: Source, k: nat)
    requires k < |Inputs(heu, ocr, llm, source)|
    requires Trim(Inputs(heu, ocr, llm, source)[k].text) != []
    ensures var used := Accept(m, Candidates(heu, ocr, llm));
      var t := Trim(Inputs(heu, ocr, llm, source)[k].text);
      exists i :: 0 <= i < |used| && used[i].weight >= Weight(source) &&
        ((used[i].text == t && used[i].source == source) || Similar(m, t, used[i].text))
  {
    var cands := Candidates(heu, ocr, llm);
    var used := Accept(m, cands);
    var t := Trim(Inputs(heu, ocr, llm, source)[k].text);
    var c := match source
      case Llm => k
      case Ocr => |llm| + k
      case Heuristic => |llm| + |ocr| + k;
    CandidateAt(heu, ocr, llm, c);
    assert Position(llm, ocr, c) == (source, k);
    CandidatesByDecreasingWeight(heu, ocr, llm);
    AcceptCovers(m, cands, c);
    if EntryOf(cands[c]) in used {
      var i :| 0 <= i < |used| && used[i] == EntryOf(cands[c]);
      assert used[i].text == t && used[i].source == source && used[i].weight >= Weight(source);
    } else {
      var i :| 0 <= i < |used| && Similar(m, t, used[i].text) && used[i].weight >= Weight(source);
    }
  }

  /** Every non-blank input item is represented: by an entry with its own text
      and source, or by a similar entry of at least its weight. */
  lemma {:induction false} MergeCovers(m: Matcher, heu: seq<Criterion>, ocr: seq<Criterion>, llm: seq<Criterion>, prefix: string, source: Source, k: nat)
    requires k < |Inputs(heu, ocr, llm, source)|
    requires Trim(Inputs(heu, ocr, llm, source)[k].text) != []
    ensures var r := MergeLists(m, heu, ocr, llm, prefix);
      var t := Trim(Inputs(heu, ocr, llm, source)[k].text);
      exists i :: 0 <= i < |r| && r[i].weight >= Weight(source) &&
        ((r[i].text == t && r[i].source == source) || Similar(m, t, r[i].text))
  {
    var used := Accept(m, Candidates(heu, ocr, llm));
    var t := Trim(Inputs(heu, ocr, llm, source)[k].text);
    MergeIsRenumberedAccept(m, heu, ocr, llm, prefix);
    AcceptCoversInputs(m, heu, ocr, llm, source, k);
    var i :| 0 <= i < |used| && used[i].weight >= Weight(source) &&
      ((used[i].text == t && used[i].source == source) || Similar(m, t, used[i].text));
    var r := Renumber(used, prefix);
    assert r[i].text == used[i].text && r[i].source == used[i].source && r[i].weight == used[i].weight;
  }

  /** The LLM items alone merge into a prefix of the full merge: OCR and
      heuristic items can only add entries after them, never displace them. */
  lemma {:induction false} LlmEntriesComeFirst(m: Matcher, heu: seq<Criterion>, ocr: seq<Criterion>, llm: seq<Criterion>, prefix: string)
    ensures MergeLists(m, [], [], llm, prefix) <= MergeLists(m, heu, ocr, llm, prefix)
  {
    var all := Candidates(heu, ocr, llm);
    var alone := Candidates([], [], llm);
    assert alone == all[..|llm|];
    AcceptPrefix(m, all, |llm|);
    MergeIsRenumberedAccept(m, [], [], llm, prefix);
    MergeIsRenumberedAccept(m, heu, ocr, llm, prefix);
    var short := Accept(m, alone);
    var long := Accept(m, all);
    assert Renumber(short, prefix) == Renumber(long, prefix)[..|short|];
  }

  /** No two merged texts are equal up to case. */
  lemma {:induction false} NoCaseInsensitiveRepeats(m: Matcher, heu: seq<Criterion>, ocr: seq<Criterion>, llm: seq<Criterion>, prefix: string)
    requires MatchesItself(m)
    ensures var r := MergeLists(m, heu, ocr, llm, prefix);
      forall i, j :: 0 <= i < j < |r| ==> Lower(r[i].text) != Lower(r[j].text)
  {
    var r := MergeLists(m, heu, ocr, llm, prefix);
    forall i, j | 0 <= i < j < |r|
      ensures Lower(r[i].text) != Lower(r[j].text)
    {
      if Lower(r[i].text) == Lower(r[j].text) {
        EqualIgnoringCaseIsSimilar(m, r[j].text, r[i].text);
        assert false;
      }
    }
  }

  /** Lines 106-113: the OCR text goes through the same heuristic extraction,
      and no OCR text gives two empty lists. */
  function OcrLists(ocrText: string): (r: (seq<Criterion>, seq<Criterion>))
    ensures ocrText == [] ==> r == ([], [])
    ensures ocrText != [] ==> r == Heuristic.ExtractFromText(ocrText)
    ensures IsNumberedList(r.0, "INC") && IsNumberedList(r.1, "EXC")
  {
    if ocrText == [] then ([], []) else Heuristic.ExtractFromText(ocrText)
  }

  /** `extract_all_criteria`: heuristic extraction of the raw text, the same
      extraction of the OCR text when there is any, the LLM extraction of the
      raw text, then one merge per section. */
  function ExtractAllCriteria(m: Matcher, text: string, ocrText: string, response: Result<LlmExtraction.ParsedObject>): (r: (seq<Merged>, seq<Merged>))
    ensures forall i :: 0 <= i < |r.0| ==> r.0[i].id == NumberedId("INC", i + 1)
    ensures forall i :: 0 <= i < |r.1| ==> r.1[i].id == NumberedId("EXC", i + 1)
    ensures AllSpace(text) && ocrText == [] ==> r == ([], [])
  {
    var heu := Heuristic.ExtractFromText(text);
    var ocr := OcrLists(ocrText);
    var llm := LlmExtraction.ExtractViaLlm(text, response);
    (MergeLists(m, heu.0, ocr.0, llm.0, "INC"), MergeLists(m, heu.1, ocr.1, llm.1, "EXC"))
  }

  /** Without OCR text no entry is sourced from OCR (lines 107-113). */
  lemma {:induction false} NoOcrTextNoOcrEntries(m: Matcher, text: string, ocrText: string, response: Result<LlmExtraction.ParsedObject>)
    requires ocrText == []
    ensures var r := ExtractAllCriteria(m, text, ocrText, response);
      (forall i :: 0 <= i < |r.0| ==> r.0[i].source != Ocr) &&
      (forall i :: 0 <= i < |r.1| ==> r.1[i].source != Ocr)
  {
    var heu := Heuristic.ExtractFromText(text);
    var llm := LlmExtraction.ExtractViaLlm(text, response);
    AbsentSourceContributesNothing(m, heu.0, [], llm.0, "INC");
    AbsentSourceContributesNothing(m, heu.1, [], llm.1, "EXC");
  }

  /** After a failed LLM call no entry is sourced from the LLM (lines 107-109 of
      `utils/criteria_llm.py`, line 116 here). */
  lemma {:induction false} FailedLlmNoLlmEntries(m: Matcher, text: string, ocrText: string, response: Result<LlmExtraction.ParsedObject>)
    requires response.Failure?
    ensures var r := ExtractAllCriteria(m, text, ocrText, response);
      (forall i :: 0 <= i < |r.0| ==> r.0[i].source != Llm) &&
      (forall i :: 0 <= i < |r.1| ==> r.1[i].source != Llm)
  {
    var heu := Heuristic.ExtractFromText(text);
    var ocr := OcrLists(ocrText);
    AbsentSourceContributesNothing(m, heu.0, ocr.0, [], "INC");
    AbsentSourceContributesNothing(m, heu.1, ocr.1, [], "EXC");
  }

  /** The stripped item text `t` of list `source` reaches `out`: as an entry with
      that text and source, or shadowed by a similar entry of at least its weight. */
  ghost predicate Reaches(m: Matcher, out: seq<Merged>, t: string, source: Source) {
    exists i :: 0 <= i < |out| && out[i].weight >= Weight(source) &&
      ((out[i].text == t && out[i].source == source) || Similar(m, t, out[i].text))
  }

  /** Lines 100-123: every non-blank item of the heuristic, OCR or LLM inclusion
      list reaches the inclusion output, and every non-blank item of the three
      exclusion lists reaches the exclusion output. */
  lemma {:induction false} AllListsAreMerged(m: Matcher, text: string, ocrText: string, response: Result<LlmExtraction.ParsedObject>, source: Source, k: nat)
    ensures var r := ExtractAllCriteria(m, text, ocrText, response);
      var heu := Heuristic.ExtractFromText(text);
      var ocr := OcrLists(ocrText);
      var llm := LlmExtraction.ExtractViaLlm(text, response);
      var inc, exc := Inputs(heu.0, ocr.0, llm.0, source), Inputs(heu.1, ocr.1, llm.1, source);
      (k < |inc| && Trim(inc[k].text) != [] ==> Reaches(m, r.0, Trim(inc[k].text), source)) &&
      (k < |exc| && Trim(exc[k].text) != [] ==> Reaches(m, r.1, Trim(exc[k].text), source))
  {
    var heu := Heuristic.ExtractFromText(text);
    var ocr := OcrLists(ocrText);
    var llm := LlmExtraction.ExtractViaLlm(text, response);
    var r := ExtractAllCriteria(m, text, ocrText, response);
    assert r.0 == MergeLists(m, heu.0, ocr.0, llm.0, "INC");
    assert r.1 == MergeLists(m, heu.1, ocr.1, llm.1, "EXC");
    MergedListReaches(m, heu.0, ocr.0, llm.0, "INC", source, k);
    MergedListReaches(m, heu.1, ocr.1, llm.1, "EXC", source, k);
  }

  lemma MergedListReaches(m: Matcher, heu: seq<Criterion>, ocr: seq<Criterion>, llm: seq<Criterion>, prefix: string, source: Source, k: nat)
    ensures var items := Inputs(heu, ocr, llm, source);
      k < |items| && Trim(items[k].text) != [] ==>
        Reaches(m, MergeLists(m, heu, ocr, llm, prefix), Trim(items[k].text), source)
  {
    var items := Inputs(heu, ocr, llm, source);
    if k < |items| && Trim(items[k].text) != [] {
      MergeCovers(m, heu, ocr, llm, prefix, source, k);
    }
  }

  /** Lines 122-123: the inclusion output draws only on the three inclusion
      lists, and the exclusion output only on the three exclusion lists. */
  lemma {:induction false} SectionsStaySeparate(m: Matcher, text: string, ocrText: string, response: Result<LlmExtraction.ParsedObject>, i: nat)
    ensures var r := ExtractAllCriteria(m, text, ocrText, response);
      var heu := Heuristic.ExtractFromText(text);
      var ocr := OcrLists(ocrText);
      var llm := LlmExtraction.ExtractViaLlm(text, response);
      (i < |r.0| ==> DrawnFrom(Inputs(heu.0, ocr.0, llm.0, r.0[i].source), r.0[i].text)) &&
      (i < |r.1| ==> DrawnFrom(Inputs(heu.1, ocr.1, llm.1, r.1[i].source), r.1[i].text))
  {
    var heu := Heuristic.ExtractFromText(text);
    var ocr := OcrLists(ocrText);
    var llm := LlmExtraction.ExtractViaLlm(text, response);
    if i < |MergeLists(m, heu.0, ocr.0, llm.0, "INC")| {
      MergeOrigin(m, heu.0, ocr.0, llm.0, "INC", i);
    }
    if i < |MergeLists(m, heu.1, ocr.1, llm.1, "EXC")| {
      MergeOrigin(m, heu.1, ocr.1, llm.1, "EXC", i);
    }
  }
}
