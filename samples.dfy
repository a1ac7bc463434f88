/** Two concrete examples: the tool's own message header, and a small input file taken
    from text to header. */
module Samples {
  import opened Wrappers
  import opened Document
  import opened Lexer
  import opened Parser
  import opened Generator
  import opened Pipeline

  // ---------------------------------------------------------------------------------------
  // include/rio/strings.h: the tool's own messages, one entry per message, English only.

  /** A value with backslash escapes, which are copied as they stand. */
  const HelpValue: string :=
    "\"usage: rio [flags] [options] <INPUT>\\n\\nflags:\\n\\t-h\\t\\tPrint help message\\n\\t-v\\t\\tPrint version message\\n\\noptions:\\n\\t-l\\t\\tSelected as the default language\\n\\t-o\\t\\tOutput filename\""

  const AboutEntry: EntryValue := EntryValue("about", [Pair("en", "\"string language generator\"")])
  const HelpEntry: EntryValue := EntryValue("help", [Pair("en", HelpValue)])
  const ErrorEntry: EntryValue := EntryValue("error", [Pair("en", "\"error\"")])
  const ArgumentEntry: EntryValue := EntryValue("argument", [Pair("en", "\"argument error\"")])
  const OutputEntry: EntryValue := EntryValue("output", [Pair("en", "\"expected output name\"")])
  const OptionEntry: EntryValue := EntryValue("option", [Pair("en", "\"no such option\"")])
  const MultipleEntry: EntryValue := EntryValue("multiple", [Pair("en", "\"multiple files given\"")])
  const AndEntry: EntryValue := EntryValue("and", [Pair("en", "\"and\"")])

  const StringsDoc: Doc :=
    [AboutEntry, HelpEntry, ErrorEntry, ArgumentEntry, OutputEntry, OptionEntry, MultipleEntry, AndEntry]

  /** Lines 1 to 8 of the header: banner, guard and macros. */
  const StringsOpening: seq<string> := [
    "/* THIS FILE WAS AUTO GENERATED BY RIO. PLEASE DO NOT MODIFY */\n\n",
    "#ifndef __RIO__AUTOGEN____H\n",
    "#define __RIO__AUTOGEN____H\n",
    "\n",
    "#define __RIO__DEFAULT__LANG__ en\n",
    "#define rio(id) rio_lang(id, en)\n",
    "#define rio_lang(id, lang) __RIO__ ## id ## __ ## lang ## __\n"]

  /** Lines 9 to 16 of the header, each split after its macro name. */
  const AboutLine: string := "#define __RIO__about__en__ " + "\"string language generator\"" + "\n"
  const HelpLine: string := "#define __RIO__help__en__ " + HelpValue + "\n"
  const ErrorLine: string := "#define __RIO__error__en__ " + "\"error\"" + "\n"
  const ArgumentLine: string := "#define __RIO__argument__en__ " + "\"argument error\"" + "\n"
  const OutputLine: string := "#define __RIO__output__en__ " + "\"expected output name\"" + "\n"
  const OptionLine: string := "#define __RIO__option__en__ " + "\"no such option\"" + "\n"
  const MultipleLine: string := "#define __RIO__multiple__en__ " + "\"multiple files given\"" + "\n"
  const AndLine: string := "#define __RIO__and__en__ " + "\"and\"" + "\n"

  /** include/rio/strings.h, line by line. */
  const StringsHeader: seq<string> :=
    StringsOpening + StringsLines + ["\n", "#endif"]

  /** The define of a string in English. */
  lemma EnglishDefine(id: string, value: string)
    ensures DefineText(id, value, "en") == "#define __RIO__" + id + "__en__ " + value + "\n"
  {
  }

  /** Lines 9 to 16 of the header, one per message. */
  const StringsLines: seq<string> :=
    [AboutLine, HelpLine, ErrorLine, ArgumentLine, OutputLine, OptionLine, MultipleLine, AndLine]

  /** The start of an English define, up to the value, for a given id. */
  predicate EnglishPrefix(id: string, prefix: string)
  {
    "#define __RIO__" + id + "__en__ " == prefix
  }

  /** The k-th message gives the k-th define line of the header; the first four here. */
  lemma StringsDefineFirst(k: nat)
    requires k < 4
    ensures DefineText(StringsDoc[k].id, StringsDoc[k].pairs[0].value, "en") == StringsLines[k]
  {
    EnglishDefine(StringsDoc[k].id, StringsDoc[k].pairs[0].value);
    if k == 0 {
      assert EnglishPrefix("about", "#define __RIO__about__en__ ");
    } else if k == 1 {
      assert EnglishPrefix("help", "#define __RIO__help__en__ ");
    } else if k == 2 {
      assert EnglishPrefix("error", "#define __RIO__error__en__ ");
    } else {
      assert EnglishPrefix("argument", "#define __RIO__argument__en__ ");
    }
  }

  /** The last four define lines. */
  lemma StringsDefineLast(k: nat)
    requires 4 <= k < |StringsDoc|
    ensures DefineText(StringsDoc[k].id, StringsDoc[k].pairs[0].value, "en") == StringsLines[k]
  {
    EnglishDefine(StringsDoc[k].id, StringsDoc[k].pairs[0].value);
    if k == 4 {
      assert EnglishPrefix("output", "#define __RIO__output__en__ ");
    } else if k == 5 {
      assert EnglishPrefix("option", "#define __RIO__option__en__ ");
    } else if k == 6 {
      assert EnglishPrefix("multiple", "#define __RIO__multiple__en__ ");
    } else {
      assert EnglishPrefix("and", "#define __RIO__and__en__ ");
    }
  }

  lemma StringsDefines()
    ensures DefineLines(Definitions(StringsDoc)) == StringsLines
  {
    OnePairEach(StringsDoc);
    forall k | 0 <= k < |StringsDoc|
      ensures DefineText(StringsDoc[k].id, StringsDoc[k].pairs[0].value, "en") == StringsLines[k]
    {
      if k < 4 {
        StringsDefineFirst(k);
      } else {
        StringsDefineLast(k);
      }
    }
  }

  /** Generating the messages with default language en gives that header exactly. */
  lemma StringsHeaderSample()
    ensures OutputText("en", StringsDoc) == Join(StringsHeader)
  {
    OutputIsLines("en", StringsDoc);
    StringsOpens();
    StringsDefines();
    assert TailLines == ["\n", "#endif"];
  }

  lemma StringsOpens()
    ensures HeadLines("en") == StringsOpening
  {
    OpeningLines("en");
    EnglishDefaults();
  }

  lemma EnglishDefaults()
    ensures "#define __RIO__DEFAULT__LANG__ " + "en" + "\n" == "#define __RIO__DEFAULT__LANG__ en\n"
    ensures "#define rio(id) rio_lang(id, " + "en" + ")\n" == "#define rio(id) rio_lang(id, en)\n"
  {
  }

  // ---------------------------------------------------------------------------------------
  // From input text to header.

  const Hello: Pair := Pair("en", "\"hello\"")
  const Bonjour: Pair := Pair("fr", "\"bonjour\"")
  const GreetDoc: Doc := [EntryValue("greet", [Hello, Bonjour])]

  /** The input text for GreetDoc. */
  const GreetText: string :=
    "[greet]\n" +
    "en = \"hello\"\n" +
    "fr = \"bonjour\"\n"

  /** Lines 1 to 7 of the header for GreetDoc with default language fr. */
  const GreetOpening: seq<string> := [
    "/* THIS FILE WAS AUTO GENERATED BY RIO. PLEASE DO NOT MODIFY */\n\n",
    "#ifndef __RIO__AUTOGEN____H\n",
    "#define __RIO__AUTOGEN____H\n",
    "\n",
    "#define __RIO__DEFAULT__LANG__ fr\n",
    "#define rio(id) rio_lang(id, fr)\n",
    "#define rio_lang(id, lang) __RIO__ ## id ## __ ## lang ## __\n"]

  const HelloLine: string := "#define __RIO__greet__en__ " + "\"hello\"" + "\n"
  const BonjourLine: string := "#define __RIO__greet__fr__ " + "\"bonjour\"" + "\n"

  const GreetHeader: seq<string> := GreetOpening + [HelloLine, BonjourLine] + ["\n", "#endif"]

  lemma GreetWellFormed()
    ensures WellFormedDoc(GreetDoc)
  {
    assert IsIdentifier("greet") && IsIdentifier("en") && IsIdentifier("fr");
    assert IsQuoted("\"hello\"") && IsQuoted("\"bonjour\"");
    assert WellFormedPair(Hello) && WellFormedPair(Bonjour);
  }

  lemma GreetRendered()
    ensures Render(GreetDoc) == GreetText
  {
    var h, e, f := "[greet]\n", "en = \"hello\"\n", "fr = \"bonjour\"\n";
    RenderSingle(GreetDoc[0]);
    PairLinesTwo(Hello, Bonjour);
    GreetLines();
    assert h + (e + f) == h + e + f;
  }

  lemma GreetLines()
    ensures HeaderLine("greet") == "[greet]\n"
    ensures PairLine(Hello) == "en = \"hello\"\n"
    ensures PairLine(Bonjour) == "fr = \"bonjour\"\n"
  {
  }

  lemma FrenchDefaults()
    ensures "#define __RIO__DEFAULT__LANG__ " + "fr" + "\n" == "#define __RIO__DEFAULT__LANG__ fr\n"
    ensures "#define rio(id) rio_lang(id, " + "fr" + ")\n" == "#define rio(id) rio_lang(id, fr)\n"
  {
  }

  lemma GreetOpens()
    ensures HeadLines("fr") == GreetOpening
  {
    OpeningLines("fr");
    FrenchDefaults();
  }

  lemma GreetPrefixes()
    ensures "#define " + MacroName("greet", "en") + " " == "#define __RIO__greet__en__ "
    ensures "#define " + MacroName("greet", "fr") + " " == "#define __RIO__greet__fr__ "
  {
  }

  lemma GreetDefines()
    ensures DefineLines(Definitions(GreetDoc)) == [HelloLine, BonjourLine]
  {
    assert Definitions(GreetDoc[1..]) == [];
    assert Definitions(GreetDoc) == [Definition("greet", "en", Hello.value), Definition("greet", "fr", Bonjour.value)];
    GreetPrefixes();
  }

  /** The text GreetText scans to the tokens of its three lines and is read into one entry
      with two pairs, and generating it with default language fr gives one define per pair,
      in order. */
  lemma GreetScenario()
    ensures NoNul(GreetText)
    ensures Lex(GreetText) == Some(TokensOf(GreetDoc))
    ensures Lex(GreetText).Some? && ParseTokens(Lex(GreetText).value) == Parsed(true, GreetDoc)
    ensures OutputText("fr", ParseTokens(Lex(GreetText).value).entries) == Join(GreetHeader)
  {
    GreetWellFormed();
    ReadInvertsRender(GreetDoc);
    GreetRendered();
    GreetOutput();
  }

  lemma GreetOutput()
    ensures OutputText("fr", GreetDoc) == Join(GreetHeader)
  {
    OutputIsLines("fr", GreetDoc);
    GreetOpens();
    GreetDefines();
  }
}
