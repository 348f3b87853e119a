/**
 * The merge-on-write layout history of `MiniPaint.generate_png`
 * (generate_png.py): the layouts of all pages live in one JSON object keyed
 * by image file name. Reading and writing the file and JSON text are outside
 * the model; the prior file is given as what parsing it produced.
 */
module LayoutHistory {

  /**
   * The prior history file: absent, not parseable as JSON, parsed to
   * something other than an object, or parsed to an object.
   */
  datatype Document<V> = Missing | Unparseable | NotAnObject | Object(entries: map<string, V>)

  /** The top-level key of the old single-layout format. */
  const LegacyKey: string := "elements"

  /** A prior document whose entries are kept: an object without the legacy key. */
  predicate IsHistory<V>(prior: Document<V>)
  {
    prior.Object? && LegacyKey !in prior.entries
  }

  /** The history after saving `layout` under `filename` on top of `prior`. */
  function Merged<V>(prior: Document<V>, filename: string, layout: V): map<string, V>
  {
    (if IsHistory(prior) then prior.entries else map[])[filename := layout]
  }

  /**
   * The merge block of `generate_png`: start empty, adopt the prior object
   * unless it is in the legacy format, then store the new layout.
   */
  method MergeLayoutHistory<V>(prior: Document<V>, filename: string, layout: V) returns (history: map<string, V>)
    ensures history == Merged(prior, filename, layout)
  {
    history := map[];
    match prior {
      case Missing =>
      case Unparseable =>
      case NotAnObject =>
      case Object(existing) =>
        if LegacyKey in existing {
        } else {
          history := existing;
        }
    }
    history := history[filename := layout];
  }

  /** The saved file holds the new layout under its file name. */
  lemma MergedStoresLayout<V>(prior: Document<V>, filename: string, layout: V)
    ensures filename in Merged(prior, filename, layout)
    ensures Merged(prior, filename, layout)[filename] == layout
  {
  }

  /** Over a valid prior history, every other page keeps its entry, and no page is added. */
  lemma MergedKeepsOthers<V>(prior: Document<V>, filename: string, layout: V, other: string)
    requires IsHistory(prior) && other != filename
    ensures other in Merged(prior, filename, layout) <==> other in prior.entries
    ensures other in prior.entries ==> Merged(prior, filename, layout)[other] == prior.entries[other]
  {
  }

  /** A missing, unreadable, non-object or legacy prior file is discarded. */
  lemma MergedDiscardsInvalid<V>(prior: Document<V>, filename: string, layout: V)
    requires !IsHistory(prior)
    ensures Merged(prior, filename, layout) == map[filename := layout]
  {
  }

  /** Saving the same layout again changes nothing. */
  lemma MergedIdempotent<V>(prior: Document<V>, filename: string, layout: V)
    requires filename != LegacyKey
    ensures Merged(Object(Merged(prior, filename, layout)), filename, layout) == Merged(prior, filename, layout)
  {
    assert IsHistory(Object(Merged(prior, filename, layout)));
  }

  /**
   * Two saves of different pages, the second reading back what the first
   * wrote, keep both layouts, whatever the prior file held.
   */
  lemma SuccessiveSavesKeepBoth<V>(prior: Document<V>, first: string, a: V, second: string, b: V)
    requires first != second && first != LegacyKey && second != LegacyKey
    ensures var h := Merged(Object(Merged(prior, first, a)), second, b);
      first in h && h[first] == a && second in h && h[second] == b
  {
    assert IsHistory(Object(Merged(prior, first, a)));
  }

  /**
   * The guard matters: a page saved under the legacy key turns the file into
   * one the next save discards, losing every other page.
   */
  lemma LegacyNameLosesHistory<V>(prior: Document<V>, a: V, second: string, b: V)
    requires second != LegacyKey
    ensures Merged(Object(Merged(prior, LegacyKey, a)), second, b) == map[second := b]
  {
    assert !IsHistory(Object(Merged(prior, LegacyKey, a)));
  }
}
