/** The criterion record every extraction strategy emits, `{"id", "text", "type"}`,
    and the sequential id scheme `f"{prefix}{i}"` with `i` counted from 1. */
module Criteria {
  import opened Text

  /** `kind` holds the dict's `"type"` value, which is always `"text"`. */
  datatype Criterion = Criterion(id: string, text: string, kind: string)

  const TextKind: string := "text"

  /** `f"{prefix}{n}"` */
  function NumberedId(prefix: string, n: nat): string {
    prefix + NatToString(n)
  }

  /** Under one prefix, distinct counters give distinct ids. */
  lemma {:induction false} NumberedIdInjective(prefix: string, m: nat, n: nat)
    ensures NumberedId(prefix, m) == NumberedId(prefix, n) ==> m == n
  {
    if NumberedId(prefix, m) == NumberedId(prefix, n) {
      assert NatToString(m) == NumberedId(prefix, m)[|prefix|..];
      assert NatToString(n) == NumberedId(prefix, n)[|prefix|..];
      NatToStringInjective(m, n);
    }
  }

  /** Ids are `prefix1 .. prefixN` in list order and every entry is of type "text". */
  ghost predicate IsNumberedList(cs: seq<Criterion>, prefix: string) {
    forall i :: 0 <= i < |cs| ==> cs[i].id == NumberedId(prefix, i + 1) && cs[i].kind == TextKind
  }

  /** `[{"id": f"{prefix}{i}", "text": t, "type": "text"} for i, t in enumerate(texts, start=1)]` */
  function Numbered(texts: seq<string>, prefix: string): (r: seq<Criterion>)
    ensures |r| == |texts| && IsNumberedList(r, prefix)
    ensures forall i :: 0 <= i < |r| ==> r[i].text == texts[i]
  {
    seq(|texts|, i requires 0 <= i < |texts| => Criterion(NumberedId(prefix, i + 1), texts[i], TextKind))
  }

  /** A numbered list never repeats an id. */
  lemma {:induction false} NumberedListIdsUnique(cs: seq<Criterion>, prefix: string)
    requires IsNumberedList(cs, prefix)
    ensures forall i, j :: 0 <= i < j < |cs| ==> cs[i].id != cs[j].id
  {
    forall i, j | 0 <= i < j < |cs|
      ensures cs[i].id != cs[j].id
    {
      NumberedIdInjective(prefix, i + 1, j + 1);
    }
  }
}
