/** The language-model strategy of `utils/criteria_llm.py`: normalising the
    items of the structured response, and the guards around the hosted call.
    The call itself is not modelled: its outcome is an input, a parsed
    two-key object on success or a failure standing for any exception. */
module LlmExtraction {
  import opened Results
  import opened Text
  import opened Criteria

  /** One array element of the response; a key the element lacks is `None`. */
  datatype RawItem = RawItem(id: Option<string>, text: Option<string>)

  /** `result.output_parsed`: the `inclusion` and `exclusion` arrays, each possibly absent. */
  datatype ParsedObject = ParsedObject(inclusion: Option<seq<RawItem>>, exclusion: Option<seq<RawItem>>)

  /** `item.get("id") or f"{prefix}{position}"`: an absent or empty id is replaced. */
  function ItemId(item: RawItem, prefix: string, position: nat): (r: string)
    ensures r != []
    ensures item.id.Some? && item.id.value != [] ==> r == item.id.value
    ensures r == item.id.GetOr([]) || r == NumberedId(prefix, position)
  {
    if item.id.Some? && item.id.value != [] then item.id.value else NumberedId(prefix, position)
  }

  /** The normalised form of the item at 1-based `position`. */
  function NormalizeItem(item: RawItem, prefix: string, position: nat): Criterion {
    Criterion(ItemId(item, prefix, position), Trim(item.text.GetOr("")), TextKind)
  }

  /** `_normalize_items`: one criterion per item, in order, none dropped. */
  function NormalizeItems(items: seq<RawItem>, prefix: string): (r: seq<Criterion>)
    ensures |r| == |items|
    ensures forall i :: 0 <= i < |r| ==> r[i].kind == TextKind && IsTrimmed(r[i].text)
    ensures forall i :: 0 <= i < |r| ==> r[i].text == Trim(items[i].text.GetOr(""))
    ensures forall i :: 0 <= i < |r| ==>
      r[i].id == if items[i].id.Some? && items[i].id.value != [] then items[i].id.value else NumberedId(prefix, i + 1)
  {
    seq(|items|, i requires 0 <= i < |items| => NormalizeItem(items[i], prefix, i + 1))
  }

  /** Items without ids come out numbered `prefix1 .. prefixN`. */
  lemma {:induction false} NormalizeNumbersIdlessItems(items: seq<RawItem>, prefix: string)
    requires forall i :: 0 <= i < |items| ==> items[i].id.None?
    ensures IsNumberedList(NormalizeItems(items, prefix), prefix)
  {
  }

  /** The raw form of a normalised criterion, as the response would carry it. */
  function AsRaw(c: Criterion): RawItem {
    RawItem(Some(c.id), Some(c.text))
  }

  /** Normalising is idempotent: feeding the output back in changes nothing. */
  lemma {:induction false} NormalizeIdempotent(items: seq<RawItem>, prefix: string)
    ensures var r := NormalizeItems(items, prefix);
      NormalizeItems(seq(|r|, i requires 0 <= i < |r| => AsRaw(r[i])), prefix) == r
  {
    var r := NormalizeItems(items, prefix);
    var raw := seq(|r|, i requires 0 <= i < |r| => AsRaw(r[i]));
    var again := NormalizeItems(raw, prefix);
    forall i | 0 <= i < |r|
      ensures again[i] == r[i]
    {
      TrimOfTrimmed(r[i].text);
      assert r[i].id != [];
    }
  }

  /** `extract_criteria_via_llm`: blank text gives `([], [])` whatever the
      hosted call would have answered; a failed call gives `([], [])`; a
      successful one is normalised per key, an absent key counting as `[]`. */
  function ExtractViaLlm(text: string, response: Result<ParsedObject>): (r: (seq<Criterion>, seq<Criterion>))
    ensures AllSpace(text) || response.Failure? ==> r == ([], [])
    ensures !AllSpace(text) && response.Success? ==>
      && |r.0| == |response.value.inclusion.GetOr([])|
      && |r.1| == |response.value.exclusion.GetOr([])|
    ensures forall i :: 0 <= i < |r.0| ==> r.0[i].kind == TextKind && IsTrimmed(r.0[i].text)
    ensures forall i :: 0 <= i < |r.1| ==> r.1[i].kind == TextKind && IsTrimmed(r.1[i].text)
    ensures !AllSpace(text) && response.Success? ==>
      && r.0 == NormalizeItems(response.value.inclusion.GetOr([]), "INC")
      && r.1 == NormalizeItems(response.value.exclusion.GetOr([]), "EXC")
  {
    if Trim(text) == [] then ([], [])
    else
      match response
      case Failure(_) => ([], [])
      case Success(data) =>
        (NormalizeItems(data.inclusion.GetOr([]), "INC"), NormalizeItems(data.exclusion.GetOr([]), "EXC"))
  }

  /** For blank text the response is never consulted. */
  lemma {:induction false} BlankTextIgnoresResponse(text: string, a: Result<ParsedObject>, b: Result<ParsedObject>)
    requires AllSpace(text)
    ensures ExtractViaLlm(text, a) == ExtractViaLlm(text, b) == ([], [])
  {
  }
}
