/** The generator of rio/output.c: it writes a document as a C header in which every pair
    of an entry becomes a `#define` of a macro named after the entry's id and the pair's
    language, with the pair's quoted value as its replacement text. */
module Generator {
  import opened Document

  // ---------------------------------------------------------------------------------------
  // The text each helper of output.c writes.

  /** `premable`: the banner and a blank line. */
  const Banner: string := "/* THIS FILE WAS AUTO GENERATED BY RIO. PLEASE DO NOT MODIFY */\n\n"

  /** `guard_end`: closes the include guard, with no newline after it. */
  const GuardEndText: string := "#endif"

  /** `define_lang`: the token-pasting macro that names a string in a given language. */
  const LangMacroText: string := "#define rio_lang(id, lang) __RIO__ ## id ## __ ## lang ## __\n"

  /** The include-guard macro `guard_start` opens for a given name. */
  function GuardName(name: string): string
  {
    "__RIO__AUTOGEN__" + name + "__H"
  }

  /** `guard_start`: the `#ifndef` and `#define` of the include guard. */
  function GuardStartText(name: string): string
  {
    "#ifndef " + GuardName(name) + "\n#define " + GuardName(name) + "\n"
  }

  /** The macro that `rio_lang(id, lang)` expands to, and that `define` defines. */
  function MacroName(id: string, lang: string): string
  {
    "__RIO__" + id + "__" + lang + "__"
  }

  /** `define`: one string of one language. */
  function DefineText(id: string, value: string, lang: string): string
  {
    "#define " + MacroName(id, lang) + " " + value + "\n"
  }

  /** `define_default`: `rio(id)` picks the default language. */
  function DefaultText(lang: string): string
  {
    "#define rio(id) rio_lang(id, " + lang + ")\n"
  }

  /** `define_default_lang`: names the default language. */
  function DefaultLangText(lang: string): string
  {
    "#define __RIO__DEFAULT__LANG__ " + lang + "\n"
  }

  /** What the inner loop of `body` writes for the pairs `ps` of the entry `id`, in order. */
  function PairsText(id: string, ps: seq<Pair>): string
  {
    if ps == [] then ""
    else PairsText(id, ps[..|ps| - 1]) + DefineText(id, ps[|ps| - 1].value, ps[|ps| - 1].lang)
  }

  /** What the outer loop of `body` writes for the entries of `doc`, in order. */
  function EntriesText(doc: Doc): string
  {
    if doc == [] then ""
    else EntriesText(doc[..|doc| - 1]) + PairsText(doc[|doc| - 1].id, doc[|doc| - 1].pairs)
  }

  /** The whole file `output` writes for the default language `lg`. */
  function OutputText(lg: string, doc: Doc): string
  {
    Banner + GuardStartText("") + "\n" + DefaultLangText(lg) + DefaultText(lg) + LangMacroText +
    EntriesText(doc) + "\n" + GuardEndText
  }

  // ---------------------------------------------------------------------------------------
  // The output file.

  /** An open output stream: everything written to it so far. */
  class File {
    var text: string

    constructor()
      ensures text == ""
    {
      text := "";
    }

    /** `fprintf`: appends to the stream. */
    method Write(s: string)
      modifies this
      ensures text == old(text) + s
    {
      text := text + s;
    }
  }

  method Preamble(f: File)
    modifies f
    ensures f.text == old(f.text) + Banner
  {
    f.Write(Banner);
  }

  method GuardStart(f: File, name: string)
    modifies f
    ensures f.text == old(f.text) + GuardStartText(name)
  {
    f.Write("#ifndef " + GuardName(name) + "\n");
    f.Write("#define " + GuardName(name) + "\n");
  }

  method GuardEnd(f: File)
    modifies f
    ensures f.text == old(f.text) + GuardEndText
  {
    f.Write(GuardEndText);
  }

  method Define(f: File, id: string, value: string, lang: string)
    modifies f
    ensures f.text == old(f.text) + DefineText(id, value, lang)
  {
    f.Write(DefineText(id, value, lang));
  }

  method DefineDefault(f: File, lang: string)
    modifies f
    ensures f.text == old(f.text) + DefaultText(lang)
  {
    f.Write(DefaultText(lang));
  }

  method DefineDefaultLang(f: File, lang: string)
    modifies f
    ensures f.text == old(f.text) + DefaultLangText(lang)
  {
    f.Write(DefaultLangText(lang));
  }

  method DefineLang(f: File)
    modifies f
    ensures f.text == old(f.text) + LangMacroText
  {
    f.Write(LangMacroText);
  }

  /** The inner loop of `body`: one define per pair of the entry `id`, in order. */
  method DefinePairs(f: File, id: string, ps: seq<Pair>)
    modifies f
    ensures f.text == old(f.text) + PairsText(id, ps)
  {
    var j := 0;
    while j < |ps|
      invariant 0 <= j <= |ps|
      invariant f.text == old(f.text) + PairsText(id, ps[..j])
    {
      var p := ps[j];
      Define(f, id, p.value, p.lang);
      PairsTextStep(id, ps, j);
      Associate(old(f.text), PairsText(id, ps[..j]), DefineText(id, p.value, p.lang));
      j := j + 1;
    }
    assert ps[..j] == ps;
  }

  /** The outer loop of `body`: the defines of every entry, in order. */
  method DefineEntries(f: File, entries: Doc)
    modifies f
    ensures f.text == old(f.text) + EntriesText(entries)
  {
    var i := 0;
    while i < |entries|
      invariant 0 <= i <= |entries|
      invariant f.text == old(f.text) + EntriesText(entries[..i])
    {
      var e := entries[i];
      DefinePairs(f, e.id, e.pairs);
      EntriesTextStep(entries, i);
      Associate(old(f.text), EntriesText(entries[..i]), PairsText(e.id, e.pairs));
      i := i + 1;
    }
    assert entries[..i] == entries;
  }

  lemma Associate(a: string, b: string, c: string)
    ensures a + b + c == a + (b + c)
  {
  }

  lemma PairsTextStep(id: string, ps: seq<Pair>, j: nat)
    requires j < |ps|
    ensures PairsText(id, ps[..j + 1]) == PairsText(id, ps[..j]) + DefineText(id, ps[j].value, ps[j].lang)
  {
    assert ps[..j + 1][..j] == ps[..j];
  }

  lemma EntriesTextStep(doc: Doc, i: nat)
    requires i < |doc|
    ensures EntriesText(doc[..i + 1]) == EntriesText(doc[..i]) + PairsText(doc[i].id, doc[i].pairs)
  {
    assert doc[..i + 1][..i] == doc[..i];
  }

  /** `body`: the default-language lines, one define per pair of every entry, a blank line. */
  method Body(f: File, lg: string, l: Lang)
    modifies f
    ensures f.text == old(f.text) + "\n" + DefaultLangText(lg) + DefaultText(lg) + LangMacroText +
      EntriesText(l.entries) + "\n"
  {
    f.Write("\n");
    DefineDefaultLang(f, lg);
    DefineDefault(f, lg);
    DefineLang(f);
    DefineEntries(f, l.entries);
    f.Write("\n");
  }

  /** `output`: `isOpen` says whether `fopen` gave a stream. Without one the result is -1 and
      nothing is written; with one the file holds the whole header and the result is 0. */
  method Output(isOpen: bool, lg: string, l: Lang) returns (rc: int, f: File?)
    ensures !isOpen ==> rc == -1 && f == null
    ensures isOpen ==> rc == 0 && f != null && fresh(f) && f.text == OutputText(lg, l.entries)
  {
    if !isOpen {
      return -1, null;
    }
    f := new File();
    Preamble(f);
    assert f.text == Banner;
    GuardStart(f, "");
    ghost var opening := f.text;
    Body(f, lg, l);
    GuardEnd(f);
    assert f.text == opening + "\n" + DefaultLangText(lg) + DefaultText(lg) + LangMacroText +
      EntriesText(l.entries) + "\n" + GuardEndText;
    rc := 0;
  }

  // ---------------------------------------------------------------------------------------
  // A reference reading of the defines: one record per pair, entries in order.

  /** A string of one language, as a define names it. */
  datatype Definition = Definition(id: string, lang: string, value: string)

  function PairDefinitions(id: string, ps: seq<Pair>): (ds: seq<Definition>)
    ensures |ds| == |ps|
    ensures forall k :: 0 <= k < |ps| ==> ds[k] == Definition(id, ps[k].lang, ps[k].value)
  {
    seq(|ps|, k requires 0 <= k < |ps| => Definition(id, ps[k].lang, ps[k].value))
  }

  /** Every pair of every entry, entries in order and pairs in order inside each entry. */
  function Definitions(doc: Doc): seq<Definition>
  {
    if doc == [] then [] else PairDefinitions(doc[0].id, doc[0].pairs) + Definitions(doc[1..])
  }

  /** The pieces `output` writes, joined in order. */
  function Join(parts: seq<string>): string
  {
    if parts == [] then "" else Join(parts[..|parts| - 1]) + parts[|parts| - 1]
  }

  /** One define line per definition. */
  function DefineLines(ds: seq<Definition>): (r: seq<string>)
    ensures |r| == |ds|
    ensures forall k :: 0 <= k < |ds| ==> r[k] == DefineText(ds[k].id, ds[k].value, ds[k].lang)
  {
    seq(|ds|, k requires 0 <= k < |ds| => DefineText(ds[k].id, ds[k].value, ds[k].lang))
  }

  /** The number of pairs in a document. */
  function PairCount(doc: Doc): nat
  {
    if doc == [] then 0 else |doc[0].pairs| + PairCount(doc[1..])
  }

  lemma {:induction false} JoinAppend(a: seq<string>, b: seq<string>)
    ensures Join(a + b) == Join(a) + Join(b)
    decreases |b|
  {
    if b == [] {
      assert a + b == a;
    } else {
      var init, last := b[..|b| - 1], b[|b| - 1];
      assert (a + b)[..|a + b| - 1] == a + init;
      JoinAppend(a, init);
    }
  }

  lemma DefineLinesAppend(a: seq<Definition>, b: seq<Definition>)
    ensures DefineLines(a + b) == DefineLines(a) + DefineLines(b)
  {
  }

  /** The inner loop writes exactly the define lines of the pairs' definitions. */
  lemma {:induction false} PairsTextIsLines(id: string, ps: seq<Pair>)
    ensures PairsText(id, ps) == Join(DefineLines(PairDefinitions(id, ps)))
    decreases |ps|
  {
    if ps != [] {
      var init, last := ps[..|ps| - 1], ps[|ps| - 1];
      PairsTextIsLines(id, init);
      var ls := DefineLines(PairDefinitions(id, ps));
      assert ls[..|ls| - 1] == DefineLines(PairDefinitions(id, init));
    }
  }

  lemma {:induction false} DefinitionsAppend(doc: Doc, e: EntryValue)
    ensures Definitions(doc + [e]) == Definitions(doc) + PairDefinitions(e.id, e.pairs)
    decreases |doc|
  {
    if doc == [] {
      assert [] + [e] == [e];
      assert Definitions([e]) == PairDefinitions(e.id, e.pairs) + Definitions([]);
    } else {
      assert (doc + [e])[1..] == doc[1..] + [e];
      DefinitionsAppend(doc[1..], e);
    }
  }

  /** The defines `body` writes are the define lines of the document's definitions, in order. */
  lemma {:induction false} EntriesTextIsLines(doc: Doc)
    ensures EntriesText(doc) == Join(DefineLines(Definitions(doc)))
    decreases |doc|
  {
    if doc != [] {
      var init, last := doc[..|doc| - 1], doc[|doc| - 1];
      assert init + [last] == doc;
      EntriesTextIsLines(init);
      PairsTextIsLines(last.id, last.pairs);
      DefinitionsAppend(init, last);
      DefineLinesAppend(Definitions(init), PairDefinitions(last.id, last.pairs));
      JoinAppend(DefineLines(Definitions(init)), DefineLines(PairDefinitions(last.id, last.pairs)));
    }
  }

  /** One define per pair: none is dropped and none is merged. */
  lemma {:induction false} DefinitionsCount(doc: Doc)
    ensures |Definitions(doc)| == PairCount(doc)
    decreases |doc|
  {
    if doc != [] {
      DefinitionsCount(doc[1..]);
    }
  }

  /** When every entry has one pair, the k-th define is that of the k-th entry. */
  lemma {:induction false} OnePairEach(doc: Doc)
    requires forall k :: 0 <= k < |doc| ==> |doc[k].pairs| == 1
    ensures |Definitions(doc)| == |doc|
    ensures forall k :: 0 <= k < |doc| ==>
      Definitions(doc)[k] == Definition(doc[k].id, doc[k].pairs[0].lang, doc[k].pairs[0].value)
    decreases |doc|
  {
    if doc != [] {
      assert forall k :: 0 <= k < |doc[1..]| ==> doc[1..][k] == doc[k + 1];
      OnePairEach(doc[1..]);
    }
  }

  /** A definition is written exactly when some entry of the document has a pair of that
      language and value under that id. */
  lemma {:induction false} DefinitionsComplete(doc: Doc, d: Definition)
    ensures d in Definitions(doc) <==>
      exists i, j :: 0 <= i < |doc| && 0 <= j < |doc[i].pairs| &&
        d == Definition(doc[i].id, doc[i].pairs[j].lang, doc[i].pairs[j].value)
    decreases |doc|
  {
    if doc != [] {
      DefinitionsComplete(doc[1..], d);
      var here := PairDefinitions(doc[0].id, doc[0].pairs);
      if d in Definitions(doc) {
        if d in here {
          var j :| 0 <= j < |here| && here[j] == d;
          assert doc[0].pairs[j] == doc[0].pairs[j];
        } else {
          assert d in Definitions(doc[1..]);
          var i, j :| 0 <= i < |doc[1..]| && 0 <= j < |doc[1..][i].pairs| &&
            d == Definition(doc[1..][i].id, doc[1..][i].pairs[j].lang, doc[1..][i].pairs[j].value);
          assert doc[i + 1] == doc[1..][i];
        }
      } else {
        forall i, j | 0 <= i < |doc| && 0 <= j < |doc[i].pairs|
          ensures d != Definition(doc[i].id, doc[i].pairs[j].lang, doc[i].pairs[j].value)
        {
          if i == 0 {
            assert here[j] == Definition(doc[i].id, doc[i].pairs[j].lang, doc[i].pairs[j].value);
          } else {
            assert doc[1..][i - 1] == doc[i];
          }
        }
      }
    }
  }

  // ---------------------------------------------------------------------------------------
  // Macro names.

  predicate NoUnderscore(s: string)
  {
    forall k :: 0 <= k < |s| ==> s[k] != '_'
  }

  lemma FirstUnderscore(id1: string, l1: string, id2: string, l2: string)
    requires NoUnderscore(id1) && NoUnderscore(id2) && |id1| < |id2|
    ensures id1 + "__" + l1 + "__" != id2 + "__" + l2 + "__"
  {
    var t1, t2 := id1 + "__" + l1 + "__", id2 + "__" + l2 + "__";
    assert t1[|id1|] == '_';
    assert t2[|id1|] == id2[|id1|];
  }

  /** Two defines name the same macro only for the same id and language, as long as neither
      holds an underscore: the `__` separators then cannot be confused with the names. */
  lemma MacroNameInjective(id1: string, l1: string, id2: string, l2: string)
    requires NoUnderscore(id1) && NoUnderscore(l1) && NoUnderscore(id2) && NoUnderscore(l2)
    requires MacroName(id1, l1) == MacroName(id2, l2)
    ensures id1 == id2 && l1 == l2
  {
    var t1, t2 := id1 + "__" + l1 + "__", id2 + "__" + l2 + "__";
    assert MacroName(id1, l1) == "__RIO__" + t1;
    assert MacroName(id2, l2) == "__RIO__" + t2;
    assert t1 == MacroName(id1, l1)[7..] == MacroName(id2, l2)[7..] == t2;
    if |id1| < |id2| {
      FirstUnderscore(id1, l1, id2, l2);
    } else if |id2| < |id1| {
      FirstUnderscore(id2, l2, id1, l1);
    }
    assert id1 == t1[..|id1|] == t2[..|id2|] == id2;
    assert l1 == t1[|id1| + 2..|t1| - 2] == t2[|id2| + 2..|t2| - 2] == l2;
  }

  /** Identifiers may hold underscores, and then two different pairs can define the same
      macro: the compiler sees a redefinition. */
  lemma MacroNamesCollide()
    ensures MacroName("a__b", "c") == MacroName("a", "b__c")
    ensures DefineText("a__b", "\"x\"", "c") != DefineText("a", "\"y\"", "b__c")
  {
    assert DefineText("a__b", "\"x\"", "c")[|"#define __RIO__a__b__c__ "| + 1] == 'x';
    assert DefineText("a", "\"y\"", "b__c")[|"#define __RIO__a__b__c__ "| + 1] == 'y';
  }

  // ---------------------------------------------------------------------------------------
  // The file as a whole.

  /** What `output` writes before the defines: the banner, the two guard lines, the blank
      line `body` starts with, the default-language line, `rio(id)` and `rio_lang`. */
  function HeadLines(lg: string): seq<string>
  {
    [Banner, "#ifndef " + GuardName("") + "\n", "#define " + GuardName("") + "\n", "\n",
     DefaultLangText(lg), DefaultText(lg), LangMacroText]
  }

  /** The guard's name is empty, so its macro is `__RIO__AUTOGEN____H`; the default
      language appears in the fifth and the sixth piece, lines 6 and 7 of the file. */
  lemma OpeningLines(lg: string)
    ensures HeadLines(lg) == [Banner, "#ifndef __RIO__AUTOGEN____H\n", "#define __RIO__AUTOGEN____H\n", "\n",
      "#define __RIO__DEFAULT__LANG__ " + lg + "\n", "#define rio(id) rio_lang(id, " + lg + ")\n", LangMacroText]
  {
    EmptyGuardName();
    EmptyGuardLines();
  }

  lemma EmptyGuardName()
    ensures GuardName("") == "__RIO__AUTOGEN____H"
  {
    assert "__RIO__AUTOGEN__" + "" == "__RIO__AUTOGEN__";
  }

  lemma EmptyGuardLines()
    ensures "#ifndef " + "__RIO__AUTOGEN____H" + "\n" == "#ifndef __RIO__AUTOGEN____H\n"
    ensures "#define " + "__RIO__AUTOGEN____H" + "\n" == "#define __RIO__AUTOGEN____H\n"
  {
  }

  /** What `output` writes after the defines: the blank line that ends `body`, then `#endif`. */
  const TailLines: seq<string> := ["\n", GuardEndText]

  /** Every line `output` writes for a default language and a document, in order. */
  function OutputLines(lg: string, doc: Doc): seq<string>
  {
    HeadLines(lg) + DefineLines(Definitions(doc)) + TailLines
  }

  lemma JoinSeven(a: string, b: string, c: string, d: string, e: string, f: string, g: string)
    ensures Join([a, b, c, d, e, f, g]) == a + b + c + d + e + f + g
  {
    assert Join([a]) == a by { assert [a][..0] == []; assert "" + a == a; }
    assert Join([a, b]) == a + b by { assert [a, b][..1] == [a]; }
    assert Join([a, b, c]) == a + b + c by { assert [a, b, c][..2] == [a, b]; }
    assert Join([a, b, c, d]) == a + b + c + d by { assert [a, b, c, d][..3] == [a, b, c]; }
    assert Join([a, b, c, d, e]) == a + b + c + d + e by { assert [a, b, c, d, e][..4] == [a, b, c, d]; }
    assert Join([a, b, c, d, e, f]) == a + b + c + d + e + f by {
      assert [a, b, c, d, e, f][..5] == [a, b, c, d, e];
    }
    assert [a, b, c, d, e, f, g][..6] == [a, b, c, d, e, f];
  }

  lemma JoinHead(lg: string)
    ensures Join(HeadLines(lg)) ==
      Banner + GuardStartText("") + "\n" + DefaultLangText(lg) + DefaultText(lg) + LangMacroText
  {
    var g := GuardName("");
    var g1, g2 := "#ifndef " + g + "\n", "#define " + g + "\n";
    JoinSeven(Banner, g1, g2, "\n", DefaultLangText(lg), DefaultText(lg), LangMacroText);
    GuardStartSplit("");
  }

  /** `guard_start` writes its two lines one after the other. */
  lemma GuardStartSplit(name: string)
    ensures GuardStartText(name) == ("#ifndef " + GuardName(name) + "\n") + ("#define " + GuardName(name) + "\n")
  {
    var g := GuardName(name);
    assert "\n#define " == "\n" + "#define ";
    assert ("#ifndef " + g + "\n") + ("#define " + g + "\n") == "#ifndef " + g + ("\n" + "#define ") + g + "\n";
  }

  /** The file is, in order: the banner, the guard, the blank line, the three macros, one
      define per pair in entry order and then pair order, the blank line and `#endif`. */
  lemma OutputIsLines(lg: string, doc: Doc)
    ensures OutputText(lg, doc) == Join(OutputLines(lg, doc))
  {
    var h, d := HeadLines(lg), DefineLines(Definitions(doc));
    JoinAppend(h + d, TailLines);
    JoinAppend(h, d);
    JoinHead(lg);
    EntriesTextIsLines(doc);
    assert TailLines[..1] == ["\n"];
    assert Join(["\n"]) == "\n" by { assert ["\n"][..0] == []; assert "" + "\n" == "\n"; }
    assert Join(TailLines) == "\n" + GuardEndText;
    var head := Banner + GuardStartText("") + "\n" + DefaultLangText(lg) + DefaultText(lg) + LangMacroText;
    var e := EntriesText(doc);
    assert OutputText(lg, doc) == head + e + "\n" + GuardEndText;
  }

  /** The default language shows only in the `__RIO__DEFAULT__LANG__` line and the `rio(id)`
      line: for two default languages every other line is the same. */
  lemma DefaultLanguageConfined(lg1: string, lg2: string, doc: Doc)
    ensures |OutputLines(lg1, doc)| == |OutputLines(lg2, doc)|
    ensures forall k :: 0 <= k < |OutputLines(lg1, doc)| && k != 4 && k != 5 ==>
      OutputLines(lg1, doc)[k] == OutputLines(lg2, doc)[k]
    ensures OutputLines(lg1, doc)[4] == DefaultLangText(lg1) && OutputLines(lg1, doc)[5] == DefaultText(lg1)
  {
  }

  /** No define line is written exactly when the document has no pairs: no entries, or
      entries without pairs. */
  lemma NoPairsNoDefines(doc: Doc)
    ensures EntriesText(doc) == "" <==> PairCount(doc) == 0
  {
    DefinitionsCount(doc);
    EntriesTextIsLines(doc);
    var ds := Definitions(doc);
    if ds != [] {
      assert |DefineText(ds[0].id, ds[0].value, ds[0].lang)| > 0;
    }
  }
}
