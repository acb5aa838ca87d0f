/** The heading-based heuristic extractor of `utils/criteria_utils.py`:
    `_clean_line`, `_parse_block` and `extract_criteria_from_text`. Each
    fixed regular expression of the source is written out as a scanner over
    the characters it inspects. */
module Heuristic {
  import opened Results
  import opened Text
  import opened Criteria

  // ---------------------------------------------------------------------
  // _clean_line
  // ---------------------------------------------------------------------

  /** The list-marker class `[\-\*•\d\)\.]`. */
  predicate IsMarker(c: char) {
    c == '-' || c == '*' || c == '\U{2022}' || IsDigit(c) || c == ')' || c == '.'
  }

  /** `_clean_line`: drops the longest prefix of marker characters, then strips. */
  function CleanLine(line: string): (r: string)
    ensures IsTrimmed(r)
    ensures exists k: nat :: IsRunEnd(line, 0, k, IsMarker) && r == Trim(line[k..])
  {
    var k := SkipWhile(line, 0, IsMarker);
    Trim(line[k..])
  }

  /** A line made of markers followed by text that does not start with a
      marker cleans to the stripped text: `"1. Age"` gives `"Age"` and `"1."` gives `""`. */
  lemma {:induction false} CleanLineDropsMarkers(markers: string, rest: string)
    requires forall i :: 0 <= i < |markers| ==> IsMarker(markers[i])
    requires rest == [] || !IsMarker(rest[0])
    ensures CleanLine(markers + rest) == Trim(rest)
  {
    var line := markers + rest;
    var k := SkipWhile(line, 0, IsMarker);
    assert IsRunEnd(line, 0, |markers|, IsMarker);
    RunEndUnique(line, 0, k, |markers|, IsMarker);
    assert line[|markers|..] == rest;
  }

  // ---------------------------------------------------------------------
  // Lines of a block
  // ---------------------------------------------------------------------

  /** The pieces of `s` between line feeds, as `s.split("\n")` gives them. */
  function SplitLf(s: string): (r: seq<string>)
    ensures |r| >= 1
    ensures forall i :: 0 <= i < |r| ==> '\n' !in r[i]
  {
    if |s| == 0 then [[]]
    else
      var rest := SplitLf(s[1..]);
      if s[0] == '\n' then [[]] + rest
      else [[s[0]] + rest[0]] + rest[1..]
  }

  /** `"\n".join(ps)` */
  function JoinLf(ps: seq<string>): string
    requires |ps| >= 1
  {
    if |ps| == 1 then ps[0] else ps[0] + "\n" + JoinLf(ps[1..])
  }

  /** Splitting at line feeds loses nothing: joining the pieces restores the text. */
  lemma {:induction false} JoinSplitLf(s: string)
    ensures JoinLf(SplitLf(s)) == s
  {
    if |s| > 0 {
      var rest := SplitLf(s[1..]);
      JoinSplitLf(s[1..]);
      if s[0] == '\n' {
        assert ([[]] + rest)[1..] == rest;
        assert s == "\n" + s[1..];
      } else {
        var r := [[s[0]] + rest[0]] + rest[1..];
        if |rest| == 1 {
          assert s == [s[0]] + s[1..];
        } else {
          assert r[1..] == rest[1..];
          assert JoinLf(rest) == rest[0] + "\n" + JoinLf(rest[1..]);
          assert s == [s[0]] + s[1..];
        }
      }
    }
  }

  /** A piece that ended at `\r\n` loses its `\r` with the separator. */
  function DropCr(p: string): string {
    if |p| > 0 && p[|p| - 1] == '\r' then p[..|p| - 1] else p
  }

  /** `re.split(r'\r?\n', s)`: every line feed separates, and a carriage
      return just before it belongs to the separator. */
  function SplitLines(s: string): (r: seq<string>)
    ensures |r| == |SplitLf(s)|
    ensures forall i :: 0 <= i < |r| ==>
      if i + 1 < |r| && SplitLf(s)[i] != [] && SplitLf(s)[i][|SplitLf(s)[i]| - 1] == '\r'
      then SplitLf(s)[i] == r[i] + "\r"
      else r[i] == SplitLf(s)[i]
  {
    var ps := SplitLf(s);
    seq(|ps|, i requires 0 <= i < |ps| => if i + 1 < |ps| then DropCr(ps[i]) else ps[i])
  }

  /** `[l.strip() for l in ps if l.strip()]` */
  function NonBlank(ps: seq<string>): (r: seq<string>)
    ensures forall i :: 0 <= i < |r| ==> r[i] != [] && IsTrimmed(r[i])
  {
    if |ps| == 0 then []
    else
      var t := Trim(ps[|ps| - 1]);
      if t != [] then NonBlank(ps[..|ps| - 1]) + [t] else NonBlank(ps[..|ps| - 1])
  }

  /** Concatenation is associative. */
  lemma AppendAssoc<T>(x: seq<T>, y: seq<T>, z: seq<T>)
    ensures x + y + z == x + (y + z)
  {
  }

  /** A non-empty `b` is its front followed by its last element, also after a prefix `a`. */
  lemma SnocSplit<T>(a: seq<T>, b: seq<T>)
    requires |b| > 0
    ensures a + b == (a + b[..|b| - 1]) + [b[|b| - 1]] && b == b[..|b| - 1] + [b[|b| - 1]]
  {
  }

  /** What `NonBlank` keeps of one line: its stripped form, unless that is empty. */
  function KeptLine(p: string): seq<string> {
    if Trim(p) != [] then [Trim(p)] else []
  }

  lemma NonBlankSnoc(ps: seq<string>, x: string)
    ensures NonBlank(ps + [x]) == NonBlank(ps) + KeptLine(x)
  {
    assert (ps + [x])[..|ps|] == ps;
  }

  /** `NonBlank` is the order-preserving filter that keeps each non-blank line,
      stripped: it distributes over concatenation, and of one line it keeps
      exactly `KeptLine`. */
  lemma {:induction false} NonBlankIsFilter(a: seq<string>, b: seq<string>, p: string)
    ensures NonBlank(a + b) == NonBlank(a) + NonBlank(b)
    ensures NonBlank([p]) == KeptLine(p)
    decreases |b|
  {
    NonBlankSnoc([], p);
    assert [] + [p] == [p];
    if |b| == 0 {
      assert a + b == a;
    } else {
      var b', x := b[..|b| - 1], b[|b| - 1];
      SnocSplit(a, b);
      NonBlankIsFilter(a, b', p);
      NonBlankSnoc(a + b', x);
      NonBlankSnoc(b', x);
      AppendAssoc(NonBlank(a), NonBlank(b'), KeptLine(x));
    }
  }

  /** No non-blank line is lost. */
  lemma {:induction false} NonBlankKeeps(ps: seq<string>, i: nat)
    requires i < |ps| && Trim(ps[i]) != []
    ensures Trim(ps[i]) in NonBlank(ps)
  {
    if i < |ps| - 1 {
      var front := ps[..|ps| - 1];
      assert front[i] == ps[i];
      NonBlankKeeps(front, i);
    }
  }

  /** Every kept line is the stripped form of one of the pieces. */
  lemma {:induction false} NonBlankOrigin(ps: seq<string>, n: nat)
    requires n < |NonBlank(ps)|
    ensures exists i :: 0 <= i < |ps| && NonBlank(ps)[n] == Trim(ps[i])
  {
    var front := ps[..|ps| - 1];
    var init := NonBlank(front);
    if n < |init| {
      NonBlankOrigin(front, n);
      var i :| 0 <= i < |front| && init[n] == Trim(front[i]);
      assert front[i] == ps[i];
    }
  }

  /** The stripped, non-blank lines of a block (line 19). */
  function BlockLines(block: string): seq<string> {
    NonBlank(SplitLines(block))
  }

  /** `re.match(r'^[\-\*•\d\)\.]', l)` */
  predicate StartsWithMarker(l: string) {
    |l| > 0 && IsMarker(l[0])
  }

  /** The lines the loop of lines 23-25 keeps, in order. */
  function MarkerLines(lines: seq<string>): (r: seq<string>)
    ensures forall i :: 0 <= i < |r| ==> StartsWithMarker(r[i]) && r[i] in lines
    ensures r == [] <==> forall i :: 0 <= i < |lines| ==> !StartsWithMarker(lines[i])
    ensures |r| <= |lines|
  {
    if |lines| == 0 then []
    else
      var init := MarkerLines(lines[..|lines| - 1]);
      var l := lines[|lines| - 1];
      assert forall i :: 0 <= i < |lines| - 1 ==> lines[..|lines| - 1][i] == lines[i];
      if StartsWithMarker(l) then init + [l] else init
  }

  /** What `MarkerLines` keeps of one line: the line, if it starts with a marker. */
  function KeptMarkerLine(l: string): seq<string> {
    if StartsWithMarker(l) then [l] else []
  }

  lemma MarkerLinesSnoc(ls: seq<string>, x: string)
    ensures MarkerLines(ls + [x]) == MarkerLines(ls) + KeptMarkerLine(x)
  {
    assert (ls + [x])[..|ls|] == ls;
  }

  /** `MarkerLines` is the order-preserving filter that keeps the lines starting
      with a marker: it distributes over concatenation, and of one line it keeps
      exactly `KeptMarkerLine`. */
  lemma {:induction false} MarkerLinesIsFilter(a: seq<string>, b: seq<string>, l: string)
    ensures MarkerLines(a + b) == MarkerLines(a) + MarkerLines(b)
    ensures MarkerLines([l]) == KeptMarkerLine(l)
    decreases |b|
  {
    MarkerLinesSnoc([], l);
    assert [] + [l] == [l];
    if |b| == 0 {
      assert a + b == a;
    } else {
      var b', x := b[..|b| - 1], b[|b| - 1];
      SnocSplit(a, b);
      MarkerLinesIsFilter(a, b', l);
      MarkerLinesSnoc(a + b', x);
      MarkerLinesSnoc(b', x);
      AppendAssoc(MarkerLines(a), MarkerLines(b'), KeptMarkerLine(x));
    }
  }

  /** Lines 19-25 keep, from the split pieces, exactly the stripped pieces that
      start with a marker, each once and in line order: the selection distributes
      over concatenation, and one piece contributes its stripped form exactly
      when that starts with a marker. */
  lemma {:induction false} SelectedMarkerLines(a: seq<string>, b: seq<string>, p: string)
    ensures MarkerLines(NonBlank(a + b)) == MarkerLines(NonBlank(a)) + MarkerLines(NonBlank(b))
    ensures MarkerLines(NonBlank([p])) == if StartsWithMarker(Trim(p)) then [Trim(p)] else []
  {
    NonBlankIsFilter(a, b, p);
    MarkerLinesIsFilter(NonBlank(a), NonBlank(b), Trim(p));
    if Trim(p) == [] {
      assert MarkerLines([]) == [];
    }
  }

  /** Some line of the block, once stripped, starts with a list marker. */
  predicate HasMarkerLine(block: string) {
    exists i :: 0 <= i < |SplitLines(block)| && StartsWithMarker(Trim(SplitLines(block)[i]))
  }

  lemma {:induction false} MarkerLinesExist(block: string)
    ensures MarkerLines(BlockLines(block)) != [] <==> HasMarkerLine(block)
  {
    if HasMarkerLine(block) {
      var i :| 0 <= i < |SplitLines(block)| && StartsWithMarker(Trim(SplitLines(block)[i]));
      MarkerLineKept(SplitLines(block), i);
    } else {
      NoMarkerLineKept(block);
    }
  }

  lemma {:induction false} MarkerLineKept(ps: seq<string>, i: nat)
    requires i < |ps| && StartsWithMarker(Trim(ps[i]))
    ensures MarkerLines(NonBlank(ps)) != []
  {
    var lines := NonBlank(ps);
    NonBlankKeeps(ps, i);
    var n :| 0 <= n < |lines| && lines[n] == Trim(ps[i]);
    assert StartsWithMarker(lines[n]);
  }

  lemma {:induction false} NoMarkerLineKept(block: string)
    requires !HasMarkerLine(block)
    ensures MarkerLines(BlockLines(block)) == []
  {
    var ps := SplitLines(block);
    var lines := NonBlank(ps);
    forall n | 0 <= n < |lines|
      ensures !StartsWithMarker(lines[n])
    {
      NonBlankOrigin(ps, n);
    }
  }

  // ---------------------------------------------------------------------
  // Sentence-splitting fallback
  // ---------------------------------------------------------------------

  predicate IsTerminal(c: char) {
    c == '.' || c == '?' || c == '!'
  }

  /** `(?<=[\.\?\!])\s+` can start a match at `p`. */
  predicate BreaksAt(s: string, p: nat) {
    1 <= p < |s| && IsTerminal(s[p - 1]) && IsSpace(s[p])
  }

  /** The leftmost break at or after `from`. */
  function FirstBreak(s: string, from: nat): (r: Option<nat>)
    ensures r.Some? ==> from <= r.value && BreaksAt(s, r.value)
    ensures r.Some? ==> forall p: nat :: from <= p < r.value ==> !BreaksAt(s, p)
    ensures r.None? ==> forall p: nat :: from <= p ==> !BreaksAt(s, p)
    decreases |s| - from
  {
    if from >= |s| then None
    else if BreaksAt(s, from) then Some(from)
    else FirstBreak(s, from + 1)
  }

  /** `re.split(r'(?<=[\.\?\!])\s+', s)`: cut after sentence-ending
      punctuation, dropping the whitespace run that follows it. */
  function SplitSentences(s: string): (r: seq<string>)
    ensures |r| >= 1
    ensures forall i, p: nat :: 0 <= i < |r| ==> !BreaksAt(r[i], p)
    ensures forall i :: 0 <= i < |r| - 1 ==> r[i] != [] && IsTerminal(r[i][|r[i]| - 1])
    ensures r[0] <= s
    decreases |s|
  {
    match FirstBreak(s, 1)
    case None =>
      assert forall p: nat :: !BreaksAt(s, p);
      [s]
    case Some(p) =>
      var q := SkipWhile(s, p, IsSpace);
      var head := s[..p];
      assert forall p': nat :: !BreaksAt(head, p') by {
        forall p': nat ensures !BreaksAt(head, p') {
          if BreaksAt(head, p') {
            assert BreaksAt(s, p');
          }
        }
      }
      [head] + SplitSentences(s[q..])
  }

  /** The whitespace runs the sentence split removes, in order. */
  function SentenceGaps(s: string): seq<string>
    decreases |s|
  {
    match FirstBreak(s, 1)
    case None => []
    case Some(p) =>
      var q := SkipWhile(s, p, IsSpace);
      [s[p..q]] + SentenceGaps(s[q..])
  }

  /** `pieces[0] + gaps[0] + pieces[1] + … + pieces[n]` */
  function Interleave(pieces: seq<string>, gaps: seq<string>): string
    requires |pieces| == |gaps| + 1
  {
    if |gaps| == 0 then pieces[0] else pieces[0] + gaps[0] + Interleave(pieces[1..], gaps[1..])
  }

  /** One step of the sentence split: the first piece ends at the first break,
      and the whitespace run after it is the first gap. */
  lemma SplitSentencesStep(s: string, p: nat, q: nat)
    requires FirstBreak(s, 1) == Some(p) && q == SkipWhile(s, p, IsSpace)
    ensures 1 <= p < q <= |s|
    ensures SplitSentences(s) == [s[..p]] + SplitSentences(s[q..])
    ensures SentenceGaps(s) == [s[p..q]] + SentenceGaps(s[q..])
  {
  }

  /** The sentence split cuts only at whitespace runs, each non-empty and taken
      whole: the next piece does not start with whitespace. */
  lemma {:induction false} SentenceGapsAreRuns(s: string)
    decreases |s|
    ensures var pieces, gaps := SplitSentences(s), SentenceGaps(s);
      && |pieces| == |gaps| + 1
      && (forall i :: 0 <= i < |gaps| ==> gaps[i] != [] && AllSpace(gaps[i]))
      && (forall i :: 0 < i < |pieces| ==> pieces[i] == [] || !IsSpace(pieces[i][0]))
  {
    match FirstBreak(s, 1)
    case None =>
    case Some(p) =>
      var q := SkipWhile(s, p, IsSpace);
      SplitSentencesStep(s, p, q);
      SentenceGapsAreRuns(s[q..]);
      var rest := SplitSentences(s[q..]);
      if rest[0] != [] {
        assert rest[0][0] == s[q];
      }
  }

  /** Putting the whitespace runs back between the pieces restores the text. */
  lemma {:induction false} SplitSentencesRoundTrip(s: string)
    decreases |s|
    ensures |SplitSentences(s)| == |SentenceGaps(s)| + 1
    ensures Interleave(SplitSentences(s), SentenceGaps(s)) == s
  {
    match FirstBreak(s, 1)
    case None =>
    case Some(p) =>
      var q := SkipWhile(s, p, IsSpace);
      SplitSentencesStep(s, p, q);
      SplitSentencesRoundTrip(s[q..]);
      var rest, restGaps := SplitSentences(s[q..]), SentenceGaps(s[q..]);
      var pieces, gaps := [s[..p]] + rest, [s[p..q]] + restGaps;
      assert pieces[1..] == rest && gaps[1..] == restGaps;
      assert Interleave(pieces, gaps) == s[..p] + s[p..q] + s[q..];
      ThreeSlices(s, p, q);
  }

  /** A sequence is the concatenation of its three slices at `p` and `q`. */
  lemma ThreeSlices<T>(s: seq<T>, p: nat, q: nat)
    requires p <= q <= |s|
    ensures s == s[..p] + s[p..q] + s[q..]
  {
  }

  /** `[s.strip() for s in sents if len(s.strip()) > 6]` */
  function LongSentences(sents: seq<string>): (r: seq<string>)
    ensures forall i :: 0 <= i < |r| ==> |r[i]| > 6 && IsTrimmed(r[i])
  {
    if |sents| == 0 then []
    else
      var t := Trim(sents[|sents| - 1]);
      if |t| > 6 then LongSentences(sents[..|sents| - 1]) + [t] else LongSentences(sents[..|sents| - 1])
  }

  /** What `LongSentences` keeps of one piece: its stripped form, if that is
      longer than six characters. */
  function KeptSentence(x: string): seq<string> {
    if |Trim(x)| > 6 then [Trim(x)] else []
  }

  lemma LongSentencesSnoc(sents: seq<string>, x: string)
    ensures LongSentences(sents + [x]) == LongSentences(sents) + KeptSentence(x)
  {
    assert (sents + [x])[..|sents|] == sents;
  }

  /** `LongSentences` is the order-preserving filter that keeps each sentence
      longer than six characters once stripped: it distributes over
      concatenation, and of one piece it keeps exactly `KeptSentence`. */
  lemma {:induction false} LongSentencesIsFilter(a: seq<string>, b: seq<string>, x: string)
    ensures LongSentences(a + b) == LongSentences(a) + LongSentences(b)
    ensures LongSentences([x]) == KeptSentence(x)
    decreases |b|
  {
    LongSentencesSnoc([], x);
    assert [] + [x] == [x];
    if |b| == 0 {
      assert a + b == a;
    } else {
      var b', y := b[..|b| - 1], b[|b| - 1];
      SnocSplit(a, b);
      LongSentencesIsFilter(a, b', x);
      LongSentencesSnoc(a + b', y);
      LongSentencesSnoc(b', y);
      AppendAssoc(LongSentences(a), LongSentences(b'), KeptSentence(y));
    }
  }

  /** No sentence longer than six characters is lost. */
  lemma {:induction false} LongSentenceKeeps(sents: seq<string>, k: nat)
    requires k < |sents| && |Trim(sents[k])| > 6
    ensures Trim(sents[k]) in LongSentences(sents)
  {
    if k < |sents| - 1 {
      var front := sents[..|sents| - 1];
      assert front[k] == sents[k];
      LongSentenceKeeps(front, k);
    }
  }

  /** Every kept sentence is the stripped form of one of the pieces. */
  lemma {:induction false} LongSentenceOrigin(sents: seq<string>, i: nat)
    requires i < |LongSentences(sents)|
    ensures exists k :: 0 <= k < |sents| && LongSentences(sents)[i] == Trim(sents[k])
  {
    var front := sents[..|sents| - 1];
    var init := LongSentences(front);
    if i < |init| {
      LongSentenceOrigin(front, i);
      var k :| 0 <= k < |front| && init[i] == Trim(front[k]);
      assert front[k] == sents[k];
    }
  }

  // ---------------------------------------------------------------------
  // _parse_block
  // ---------------------------------------------------------------------

  /** `[_clean_line(l) for l in lines]` */
  function CleanAll(lines: seq<string>): (r: seq<string>)
    ensures |r| == |lines|
    ensures forall i :: 0 <= i < |r| ==> r[i] == CleanLine(lines[i])
  {
    seq(|lines|, i requires 0 <= i < |lines| => CleanLine(lines[i]))
  }

  /** `_parse_block`: one criterion per marker line when there is any,
      otherwise one per sentence longer than six characters, numbered from 1. */
  function ParseBlock(block: string, prefix: string): (r: seq<Criterion>)
    ensures AllSpace(block) ==> r == []
    ensures IsNumberedList(r, prefix)
  {
    if Trim(block) == [] then []
    else
      var marked := MarkerLines(BlockLines(block));
      if marked != [] then Numbered(CleanAll(marked), prefix)
      else Numbered(LongSentences(SplitSentences(block)), prefix)
  }

  /** With a marker line present, the block yields exactly one criterion per
      marker line, holding that line cleaned (possibly empty); which lines those
      are, and in what order, is stated by `SelectedMarkerLines`. */
  lemma {:induction false} ParseBlockKeepsMarkerLines(block: string, prefix: string)
    requires HasMarkerLine(block)
    ensures var r := ParseBlock(block, prefix);
      var marked := MarkerLines(NonBlank(SplitLines(block)));
      |r| == |marked| >= 1 && forall i :: 0 <= i < |r| ==> r[i].text == CleanLine(marked[i])
  {
    MarkerLinesExist(block);
    var marked := MarkerLines(BlockLines(block));
    assert marked != [];
    assert Trim(block) != [] by {
      if AllSpace(block) {
        BlankHasNoMarkerLine(block);
      }
    }
    var r := ParseBlock(block, prefix);
    assert r == Numbered(CleanAll(marked), prefix);
  }

  /** `t` is one of the pieces the sentence split cuts `block` into, stripped. */
  ghost predicate IsStrippedSentence(block: string, t: string) {
    exists k :: 0 <= k < |SplitSentences(block)| && t == Trim(SplitSentences(block)[k])
  }

  /** Without marker lines, the criteria are the block's sentence pieces longer
      than six characters once stripped, in order and one each: every criterion
      is such a stripped sentence, and every such sentence is a criterion. */
  lemma {:induction false} ParseBlockFallsBackToSentences(block: string, prefix: string)
    requires !HasMarkerLine(block)
    ensures var r, items := ParseBlock(block, prefix), LongSentences(SplitSentences(block));
      |r| == |items| && forall i :: 0 <= i < |r| ==> r[i].text == items[i]
    ensures var r := ParseBlock(block, prefix);
      forall i :: 0 <= i < |r| ==> |r[i].text| > 6 && IsTrimmed(r[i].text) && IsStrippedSentence(block, r[i].text)
    ensures var r, sents := ParseBlock(block, prefix), SplitSentences(block);
      forall k :: 0 <= k < |sents| && |Trim(sents[k])| > 6 ==>
        exists i :: 0 <= i < |r| && r[i].text == Trim(sents[k])
  {
    ParseBlockIsSentenceList(block, prefix);
    var r := ParseBlock(block, prefix);
    var sents := SplitSentences(block);
    var items := LongSentences(sents);
    forall k | 0 <= k < |sents| && |Trim(sents[k])| > 6
      ensures exists i :: 0 <= i < |r| && r[i].text == Trim(sents[k])
    {
      LongSentenceKeeps(sents, k);
      var i :| 0 <= i < |items| && items[i] == Trim(sents[k]);
      assert r[i].text == items[i];
    }
    forall i | 0 <= i < |r|
      ensures |r[i].text| > 6 && IsTrimmed(r[i].text) && IsStrippedSentence(block, r[i].text)
    {
      assert r[i].text == items[i];
      LongSentenceOrigin(sents, i);
    }
  }

  /** Without marker lines, the block parses to its long sentences, numbered. */
  lemma {:induction false} ParseBlockIsSentenceList(block: string, prefix: string)
    requires !HasMarkerLine(block)
    ensures ParseBlock(block, prefix) == Numbered(LongSentences(SplitSentences(block)), prefix)
  {
    MarkerLinesExist(block);
    if Trim(block) == [] {
      BlankIsOneSentence(block);
      LongSentencesIsFilter([], [], block);
    } else {
      assert MarkerLines(BlockLines(block)) == [];
    }
  }

  /** Whitespace holds no sentence end, so a blank block is a single piece. */
  lemma BlankIsOneSentence(block: string)
    requires AllSpace(block)
    ensures SplitSentences(block) == [block]
  {
    assert FirstBreak(block, 1).None?;
  }

  lemma {:induction false} BlankHasNoMarkerLine(block: string)
    requires AllSpace(block)
    ensures !HasMarkerLine(block)
  {
    forall i | 0 <= i < |SplitLines(block)|
      ensures !StartsWithMarker(Trim(SplitLines(block)[i]))
    {
      AllLinesBlank(block, i);
    }
  }

  /** A blank text splits into blank pieces. */
  lemma {:induction false} SplitLfOfBlank(s: string)
    requires AllSpace(s)
    ensures forall i :: 0 <= i < |SplitLf(s)| ==> AllSpace(SplitLf(s)[i])
  {
    if |s| > 0 {
      SplitLfOfBlank(s[1..]);
    }
  }

  /** A blank block has only blank lines. */
  lemma {:induction false} AllLinesBlank(block: string, i: nat)
    requires AllSpace(block)
    requires i < |SplitLines(block)|
    ensures Trim(SplitLines(block)[i]) == []
  {
    SplitLfOfBlank(block);
    var p := SplitLf(block)[i];
    assert AllSpace(p);
  }
  // ---------------------------------------------------------------------
  // extract_criteria_from_text: heading spans
  // ---------------------------------------------------------------------

  const InclusionHeading: string := "inclusion criteria"
  const ExclusionHeading: string := "exclusion criteria"
  /** `eligib(?:ility|le) criteria`, alternatives in the order the regex tries them. */
  const EligibilityHeadings: seq<string> := ["eligibility criteria", "eligible criteria"]

  /** The class `[:\s\n]`. */
  predicate IsColonOrSpace(c: char) {
    c == ':' || IsSpace(c)
  }

  /** Python's `$` without `re.M`: at the end, or just before a final newline. */
  predicate AtEnd(s: string, j: nat) {
    j == |s| || (j + 1 == |s| && s[j] == '\n')
  }

  /** The lookahead `(?=(other[:\s\n]|$))` succeeds at `j`. */
  predicate SectionEndsAt(s: string, other: string, j: nat) {
    || (OccursAt(s, other, j) && j + |other| < |s| && IsColonOrSpace(s[j + |other|]))
    || AtEnd(s, j)
  }

  /** `j` is the first place at or after `from` where the lookahead succeeds. */
  ghost predicate IsFirstSectionEnd(s: string, other: string, from: nat, j: nat) {
    from <= j <= |s| && SectionEndsAt(s, other, j)
    && forall i: nat :: from <= i < j ==> !SectionEndsAt(s, other, i)
  }

  /** Where the lazy group `(.*?)` stops. */
  function SectionEnd(s: string, other: string, from: nat): (j: nat)
    requires from <= |s|
    ensures IsFirstSectionEnd(s, other, from, j)
    decreases |s| - from
  {
    if SectionEndsAt(s, other, from) then from else SectionEnd(s, other, from + 1)
  }

  lemma {:induction false} FirstSectionEndUnique(s: string, other: string, from: nat, j: nat, j': nat)
    requires IsFirstSectionEnd(s, other, from, j) && IsFirstSectionEnd(s, other, from, j')
    ensures j == j'
  {
  }

  datatype Span = Span(start: nat, end: nat)

  /** Group 1 of `re.search(heading + r'[:\s\n]*(.*?)(?=(' + other + r'[:\s\n]|$))', s, re.I | re.S)`:
      it starts after the first heading and the colons and whitespace that
      follow it, and stops at the first `other` heading followed by a colon or
      whitespace, or else at the end. */
  function LocateSection(s: string, heading: string, other: string): (r: Option<Span>)
    ensures r.None? <==> forall i: nat :: !AnyOccursAt(s, [heading], i)
    ensures r.Some? ==> exists i: nat ::
      IsFirstOccurrence(s, [heading], i) && IsRunEnd(s, i + |heading|, r.value.start, IsColonOrSpace)
    ensures r.Some? ==> IsFirstSectionEnd(s, other, r.value.start, r.value.end)
  {
    match Find(s, [heading])
    case None => None
    case Some(i) =>
      assert OccursAt(s, [heading][0], i);
      var k := SkipWhile(s, i + |heading|, IsColonOrSpace);
      Some(Span(k, SectionEnd(s, other, k)))
  }

  /** `m.group(1).strip() if m else ""` */
  function SectionBlock(s: string, heading: string, other: string): (r: string)
    ensures IsTrimmed(r)
    ensures (forall i: nat :: !AnyOccursAt(s, [heading], i)) ==> r == []
  {
    match LocateSection(s, heading, other)
    case None => ""
    case Some(sp) => Trim(s[sp.start..sp.end])
  }

  /** The block under a heading is the text from the end of the colon and
      whitespace run after its first occurrence up to the first place where the
      other heading (followed by a colon or whitespace) or the end follows, stripped. */
  lemma {:induction false} SectionBlockIsSpan(s: string, heading: string, other: string, i: nat, k: nat, j: nat)
    requires IsFirstOccurrence(s, [heading], i)
    requires IsRunEnd(s, i + |heading|, k, IsColonOrSpace)
    requires IsFirstSectionEnd(s, other, k, j)
    ensures SectionBlock(s, heading, other) == Trim(s[k..j])
  {
    FirstOccurrenceUnique(s, [heading], i);
    var sp := LocateSection(s, heading, other).value;
    var i': nat :| IsFirstOccurrence(s, [heading], i') && IsRunEnd(s, i' + |heading|, sp.start, IsColonOrSpace);
    RunEndUnique(s, i + |heading|, k, sp.start, IsColonOrSpace);
    FirstSectionEndUnique(s, other, k, j, sp.end);
  }

  // ---------------------------------------------------------------------
  // extract_criteria_from_text: the eligibility fallback
  // ---------------------------------------------------------------------

  /** Lines 65-72: the text after the first eligibility heading and the colons
      and whitespace after it, cut at its first "exclusion criteria"; the part
      before becomes the inclusion block and the part after the exclusion block. */
  function EligibilitySplit(s: string): (r: (string, string))
    ensures IsTrimmed(r.0) && IsTrimmed(r.1)
    ensures (forall i: nat :: !AnyOccursAt(s, EligibilityHeadings, i)) ==> r == ("", "")
  {
    match Find(s, EligibilityHeadings)
    case None => ("", "")
    case Some(i) =>
      var n := if OccursAt(s, EligibilityHeadings[0], i) then 0 else 1;
      assert OccursAt(s, EligibilityHeadings[n], i);
      var k := SkipWhile(s, i + |EligibilityHeadings[n]|, IsColonOrSpace);
      SplitAtExclusion(s[k..])
  }

  /** The two spellings differ in their seventh letter, so at most one of them
      occurs at any one position. */
  lemma EligibilityAlternativesExclusive(s: string, i: nat)
    ensures !(OccursAt(s, EligibilityHeadings[0], i) && OccursAt(s, EligibilityHeadings[1], i))
  {
    if OccursAt(s, EligibilityHeadings[0], i) {
      assert LowerChar(s[i + 6]) == EligibilityHeadings[0][6] == 'i';
      assert EligibilityHeadings[1][6] == 'l';
    }
  }

  /** The eligibility split cuts the text that follows the first eligibility
      heading, whichever alternative it is, and the colon and whitespace run after it. */
  lemma {:induction false} EligibilitySplitCuts(s: string, n: nat, i: nat, k: nat)
    requires n < |EligibilityHeadings|
    requires IsFirstOccurrence(s, EligibilityHeadings, i) && OccursAt(s, EligibilityHeadings[n], i)
    requires IsRunEnd(s, i + |EligibilityHeadings[n]|, k, IsColonOrSpace)
    ensures EligibilitySplit(s) == SplitAtExclusion(s[k..])
  {
    FirstOccurrenceUnique(s, EligibilityHeadings, i);
    assert Find(s, EligibilityHeadings) == Some(i);
    EligibilityAlternativesExclusive(s, i);
    assert n == if OccursAt(s, EligibilityHeadings[0], i) then 0 else 1;
    var k' := SkipWhile(s, i + |EligibilityHeadings[n]|, IsColonOrSpace);
    RunEndUnique(s, i + |EligibilityHeadings[n]|, k, k', IsColonOrSpace);
  }

  /** `re.split(r'(?i)exclusion criteria', content, maxsplit=1)`, both parts stripped,
      the second `""` when there is nothing to split at. */
  function SplitAtExclusion(content: string): (r: (string, string))
    ensures IsTrimmed(r.0) && IsTrimmed(r.1)
    ensures (forall p: nat :: !AnyOccursAt(content, [ExclusionHeading], p)) ==> r == (Trim(content), "")
    ensures forall p: nat :: IsFirstOccurrence(content, [ExclusionHeading], p) ==>
      p + |ExclusionHeading| <= |content| && r == (Trim(content[..p]), Trim(content[p + |ExclusionHeading|..]))
  {
    match Find(content, [ExclusionHeading])
    case None => (Trim(content), "")
    case Some(p) =>
      ExclusionMatchFits(content, p);
      (Trim(content[..p]), Trim(content[p + |ExclusionHeading|..]))
  }

  /** The first "exclusion criteria" lies inside the text, and no other position is first. */
  lemma {:induction false} ExclusionMatchFits(content: string, p: nat)
    requires IsFirstOccurrence(content, [ExclusionHeading], p)
    ensures p + |ExclusionHeading| <= |content|
    ensures forall q: nat :: IsFirstOccurrence(content, [ExclusionHeading], q) ==> q == p
  {
    assert OccursAt(content, [ExclusionHeading][0], p);
    FirstOccurrenceUnique(content, [ExclusionHeading], p);
  }

  // ---------------------------------------------------------------------
  // extract_criteria_from_text
  // ---------------------------------------------------------------------

  /** `extract_criteria_from_text`: the inclusion and exclusion criteria of a protocol text. */
  function ExtractFromText(text: string): (r: (seq<Criterion>, seq<Criterion>))
    ensures AllSpace(text) ==> r == ([], [])
    ensures IsNumberedList(r.0, "INC") && IsNumberedList(r.1, "EXC")
  {
    if Trim(text) == [] then ([], [])
    else
      var blocks := HeadingBlocks(text);
      (ParseBlock(blocks.0, "INC"), ParseBlock(blocks.1, "EXC"))
  }

  /** The (inclusion, exclusion) blocks of lines 57-72: the two heading
      spans, or the eligibility split when both spans are empty. */
  function HeadingBlocks(text: string): (r: (string, string))
    ensures IsTrimmed(r.0) && IsTrimmed(r.1)
  {
    var inc := SectionBlock(text, InclusionHeading, ExclusionHeading);
    var exc := SectionBlock(text, ExclusionHeading, InclusionHeading);
    if inc == [] && exc == [] then EligibilitySplit(text) else (inc, exc)
  }

  /** A non-empty heading span means the text is not blank. */
  lemma {:induction false} BlockOfBlankIsEmpty(s: string, heading: string, other: string)
    requires AllSpace(s)
    ensures SectionBlock(s, heading, other) == []
  {
    match LocateSection(s, heading, other)
    case None =>
    case Some(sp) =>
      assert AllSpace(s[sp.start..sp.end]);
  }

  /** A non-blank span after the first inclusion heading, up to the first
      exclusion heading or the end, is parsed into the inclusion criteria. */
  lemma {:induction false} InclusionSpanIsParsed(text: string, i: nat, k: nat, j: nat)
    requires IsFirstOccurrence(text, [InclusionHeading], i)
    requires IsRunEnd(text, i + |InclusionHeading|, k, IsColonOrSpace)
    requires IsFirstSectionEnd(text, ExclusionHeading, k, j)
    requires !AllSpace(text[k..j])
    ensures ExtractFromText(text).0 == ParseBlock(Trim(text[k..j]), "INC")
  {
    SectionBlockIsSpan(text, InclusionHeading, ExclusionHeading, i, k, j);
    if AllSpace(text) {
      BlockOfBlankIsEmpty(text, InclusionHeading, ExclusionHeading);
    }
  }

  /** A non-blank span after the first exclusion heading, up to the first
      inclusion heading or the end, is parsed into the exclusion criteria. */
  lemma {:induction false} ExclusionSpanIsParsed(text: string, i: nat, k: nat, j: nat)
    requires IsFirstOccurrence(text, [ExclusionHeading], i)
    requires IsRunEnd(text, i + |ExclusionHeading|, k, IsColonOrSpace)
    requires IsFirstSectionEnd(text, InclusionHeading, k, j)
    requires !AllSpace(text[k..j])
    ensures ExtractFromText(text).1 == ParseBlock(Trim(text[k..j]), "EXC")
  {
    SectionBlockIsSpan(text, ExclusionHeading, InclusionHeading, i, k, j);
    if AllSpace(text) {
      BlockOfBlankIsEmpty(text, ExclusionHeading, InclusionHeading);
    }
  }

  /** When both heading blocks are empty, the text after the first eligibility
      heading and its colon and whitespace run is cut at its first "exclusion
      criteria": the part before gives the inclusion criteria, the rest the exclusion criteria. */
  lemma {:induction false} EligibilityFallbackIsParsed(text: string, n: nat, i: nat, k: nat)
    requires SectionBlock(text, InclusionHeading, ExclusionHeading) == []
    requires SectionBlock(text, ExclusionHeading, InclusionHeading) == []
    requires n < |EligibilityHeadings|
    requires IsFirstOccurrence(text, EligibilityHeadings, i) && OccursAt(text, EligibilityHeadings[n], i)
    requires IsRunEnd(text, i + |EligibilityHeadings[n]|, k, IsColonOrSpace)
    ensures var content := text[k..];
      ExtractFromText(text) == (ParseBlock(SplitAtExclusion(content).0, "INC"), ParseBlock(SplitAtExclusion(content).1, "EXC"))
  {
    EligibilitySplitCuts(text, n, i, k);
    HeadingIsNotBlank(text, EligibilityHeadings[n], i);
    assert Trim(text) != [];
    var blocks := HeadingBlocks(text);
    assert blocks == EligibilitySplit(text);
    assert ExtractFromText(text) == (ParseBlock(blocks.0, "INC"), ParseBlock(blocks.1, "EXC"));
  }

  /** Under `heading` there is no text: it does not occur, or the span after its
      first occurrence `i` (from the run end `k` to the first section end `j`) is blank. */
  ghost predicate NothingUnder(text: string, heading: string, other: string, i: nat, k: nat, j: nat) {
    || (forall p: nat :: !AnyOccursAt(text, [heading], p))
    || (&& IsFirstOccurrence(text, [heading], i)
        && IsRunEnd(text, i + |heading|, k, IsColonOrSpace)
        && IsFirstSectionEnd(text, other, k, j)
        && AllSpace(text[k..j]))
  }

  lemma {:induction false} NothingUnderGivesEmptyBlock(text: string, heading: string, other: string, i: nat, k: nat, j: nat)
    requires NothingUnder(text, heading, other, i, k, j)
    ensures SectionBlock(text, heading, other) == []
  {
    if IsFirstOccurrence(text, [heading], i) && IsRunEnd(text, i + |heading|, k, IsColonOrSpace)
      && IsFirstSectionEnd(text, other, k, j) && AllSpace(text[k..j])
    {
      SectionBlockIsSpan(text, heading, other, i, k, j);
    }
  }

  /** A text with a non-blank inclusion span and nothing under the exclusion
      heading yields the parse of that span and no exclusion criteria; the
      eligibility split is not consulted. */
  lemma {:induction false} InclusionOnlyHasNoExclusion(text: string, i: nat, k: nat, j: nat, i': nat, k': nat, j': nat)
    requires IsFirstOccurrence(text, [InclusionHeading], i)
    requires IsRunEnd(text, i + |InclusionHeading|, k, IsColonOrSpace)
    requires IsFirstSectionEnd(text, ExclusionHeading, k, j)
    requires !AllSpace(text[k..j])
    requires NothingUnder(text, ExclusionHeading, InclusionHeading, i', k', j')
    ensures ExtractFromText(text) == (ParseBlock(Trim(text[k..j]), "INC"), [])
  {
    SectionBlockIsSpan(text, InclusionHeading, ExclusionHeading, i, k, j);
    NothingUnderGivesEmptyBlock(text, ExclusionHeading, InclusionHeading, i', k', j');
    NonBlankSliceNonBlankText(text, k, j);
    ExtractOfBlocks(text);
    HeadingSpansWin(text);
  }

  /** A text with a non-blank exclusion span and nothing under the inclusion
      heading yields no inclusion criteria and the parse of that span. */
  lemma {:induction false} ExclusionOnlyHasNoInclusion(text: string, i: nat, k: nat, j: nat, i': nat, k': nat, j': nat)
    requires IsFirstOccurrence(text, [ExclusionHeading], i)
    requires IsRunEnd(text, i + |ExclusionHeading|, k, IsColonOrSpace)
    requires IsFirstSectionEnd(text, InclusionHeading, k, j)
    requires !AllSpace(text[k..j])
    requires NothingUnder(text, InclusionHeading, ExclusionHeading, i', k', j')
    ensures ExtractFromText(text) == ([], ParseBlock(Trim(text[k..j]), "EXC"))
  {
    SectionBlockIsSpan(text, ExclusionHeading, InclusionHeading, i, k, j);
    NothingUnderGivesEmptyBlock(text, InclusionHeading, ExclusionHeading, i', k', j');
    NonBlankSliceNonBlankText(text, k, j);
    ExtractOfBlocks(text);
    HeadingSpansWin(text);
  }

  /** A text with a non-blank slice is not blank. */
  lemma NonBlankSliceNonBlankText(s: string, k: nat, j: nat)
    requires k <= j <= |s| && !AllSpace(s[k..j])
    ensures !AllSpace(s)
  {
    var x :| 0 <= x < j - k && !IsSpace(s[k..j][x]);
    assert s[k + x] == s[k..j][x];
  }

  /** A non-empty heading block keeps the eligibility split out. */
  lemma HeadingSpansWin(text: string)
    ensures var inc, exc := SectionBlock(text, InclusionHeading, ExclusionHeading), SectionBlock(text, ExclusionHeading, InclusionHeading);
      inc != [] || exc != [] ==> HeadingBlocks(text) == (inc, exc)
  {
  }

  /** A non-blank text is parsed block by block. */
  lemma ExtractOfBlocks(text: string)
    ensures !AllSpace(text) ==>
      ExtractFromText(text) == (ParseBlock(HeadingBlocks(text).0, "INC"), ParseBlock(HeadingBlocks(text).1, "EXC"))
  {
  }

  /** With nothing under either heading and no eligibility heading, the text
      yields no criteria at all. */
  lemma {:induction false} NothingUnderHeadingsNoCriteria(text: string, i: nat, k: nat, j: nat, i': nat, k': nat, j': nat)
    requires NothingUnder(text, InclusionHeading, ExclusionHeading, i, k, j)
    requires NothingUnder(text, ExclusionHeading, InclusionHeading, i', k', j')
    requires forall p: nat :: !AnyOccursAt(text, EligibilityHeadings, p)
    ensures ExtractFromText(text) == ([], [])
  {
    NothingUnderGivesEmptyBlock(text, InclusionHeading, ExclusionHeading, i, k, j);
    NothingUnderGivesEmptyBlock(text, ExclusionHeading, InclusionHeading, i', k', j');
    assert HeadingBlocks(text) == ("", "");
  }

  /** A text in which a heading occurs is not blank. */
  lemma HeadingIsNotBlank(text: string, heading: string, i: nat)
    requires heading != [] && heading[0] == 'e' && OccursAt(text, heading, i)
    ensures !AllSpace(text)
  {
    assert LowerChar(text[i]) == 'e';
    assert !IsSpace(text[i]);
  }

  /** A text with none of the headings yields no criteria at all. */
  lemma {:induction false} NoHeadingsNoCriteria(text: string)
    requires forall i: nat :: !AnyOccursAt(text, [InclusionHeading], i)
    requires forall i: nat :: !AnyOccursAt(text, [ExclusionHeading], i)
    requires forall i: nat :: !AnyOccursAt(text, EligibilityHeadings, i)
    ensures ExtractFromText(text) == ([], [])
  {
  }
}
