/** Where an accepted criterion came from, and how much that source is trusted
    (`utils/criteria_consensus.py`, lines 41-45 and 60). */
module Provenance {

  /** The three extraction strategies, named "llm", "ocr" and "heuristic" in the output. */
  datatype Source = Llm | Ocr | Heuristic

  /** The fixed confidence weights: llm 3, ocr 2, heuristic 1. */
  function Weight(s: Source): int {
    match s
    case Llm => 3
    case Ocr => 2
    case Heuristic => 1
  }

  /** An entry of the merger's `used` list: `{"text", "weight", "source"}`. */
  datatype Entry = Entry(text: string, weight: int, source: Source)
}
