/** The document model of include/rio/lang.h: pairs, entries and the document (`struct lang`). */
module Document {

  /** `struct pair` and `pair_new`: a language tag and a string value, both kept verbatim. */
  datatype Pair = Pair(lang: string, value: string)

  /** The value of a `struct entry`: an identifier and its pairs in insertion order. */
  datatype EntryValue = EntryValue(id: string, pairs: seq<Pair>)

  /** A document is the sequence of entries of a `struct lang`. */
  type Doc = seq<EntryValue>

  /** `struct entry` while it is being filled in: `entry_add` appends through a pointer. */
  class Entry {
    const id: string
    var pairs: seq<Pair>

    /** `entry_new`: the given identifier and no pairs. */
    constructor (id: string)
      ensures this.id == id && pairs == []
    {
      this.id := id;
      pairs := [];
    }

    /** `entry_add`: the pair goes at the end; the earlier pairs and the identifier stay. */
    method Add(p: Pair)
      modifies this
      ensures pairs == old(pairs) + [p]
    {
      pairs := pairs + [p];
    }

    function Value(): EntryValue
      reads this
    {
      EntryValue(id, pairs)
    }
  }

  /** `struct lang`. `lang_add` takes its entry by value, so the document holds entry values. */
  class Lang {
    var entries: Doc

    /** `lang_new`: a document with no entries. */
    constructor ()
      ensures entries == []
    {
      entries := [];
    }

    /** `lang_add`: the entry goes at the end, with no check for a repeated identifier. */
    method Add(e: Entry)
      modifies this
      ensures entries == old(entries) + [e.Value()]
      ensures |entries| == |old(entries)| + 1
    {
      entries := entries + [e.Value()];
    }
  }
}
