/** The reader and the writer together: a document written out as input text scans and
    parses back to the same document, which the generator then turns into its header. */
module Pipeline {
  import opened Wrappers
  import opened Document
  import opened Lexer
  import opened Parser

  /** The documents that can come out of a scan of C text: ids and languages are
      identifiers, values are quoted strings without a NUL. */
  predicate WellFormedPair(p: Pair)
  {
    IsIdentifier(p.lang) && IsQuoted(p.value) && NoNul(p.value)
  }

  predicate WellFormedEntry(e: EntryValue)
  {
    IsIdentifier(e.id) && forall k :: 0 <= k < |e.pairs| ==> WellFormedPair(e.pairs[k])
  }

  predicate WellFormedDoc(doc: Doc)
  {
    forall k :: 0 <= k < |doc| ==> WellFormedEntry(doc[k])
  }

  // ---------------------------------------------------------------------------------------
  // Writing a document as input text: a header line `[id]` per entry, then a line
  // `lang = value` per pair.

  function HeaderLine(id: string): string
  {
    "[" + id + "]\n"
  }

  function PairLine(p: Pair): string
  {
    p.lang + " = " + p.value + "\n"
  }

  function PairLines(ps: seq<Pair>): string
  {
    if ps == [] then "" else PairLine(ps[0]) + PairLines(ps[1..])
  }

  function Render(doc: Doc): string
  {
    if doc == [] then "" else HeaderLine(doc[0].id) + PairLines(doc[0].pairs) + Render(doc[1..])
  }

  lemma RenderSingle(e: EntryValue)
    ensures Render([e]) == HeaderLine(e.id) + PairLines(e.pairs)
  {
    assert [e][1..] == [];
    assert HeaderLine(e.id) + PairLines(e.pairs) + "" == HeaderLine(e.id) + PairLines(e.pairs);
  }

  lemma PairLinesTwo(p: Pair, q: Pair)
    ensures PairLines([p, q]) == PairLine(p) + PairLine(q)
  {
    assert [p, q][1..] == [q] && [q][1..] == [];
    assert PairLines([q]) == PairLine(q) by { assert PairLine(q) + "" == PairLine(q); }
  }

  // ---------------------------------------------------------------------------------------
  // Scanning the text back.

  /** s holds t from i on. */
  predicate TextAt(s: string, i: nat, t: string)
  {
    i + |t| <= |s| && s[i..i + |t|] == t
  }

  lemma TextAtSplit(s: string, i: nat, x: string, y: string)
    requires TextAt(s, i, x + y)
    ensures TextAt(s, i, x) && TextAt(s, i + |x|, y)
  {
    SliceConcat(s, i, x, y);
  }

  lemma TextAtChar(s: string, i: nat, t: string, k: nat)
    requires TextAt(s, i, t) && k < |t|
    ensures s[i + k] == t[k]
  {
    assert s[i + k] == s[i..i + |t|][k];
  }

  lemma PrefixAppend(a: seq<Token>, b: seq<Token>, r: Option<seq<Token>>)
    ensures Prefix(a, Prefix(b, r)) == Prefix(a + b, r)
  {
    match r
    case None =>
    case Some(ts) =>
      assert a + (b + ts) == (a + b) + ts;
  }

  lemma PrefixChain(a: seq<Token>, b: seq<Token>, r0: Option<seq<Token>>, r1: Option<seq<Token>>, r2: Option<seq<Token>>)
    requires r0 == Prefix(a, r1) && r1 == Prefix(b, r2)
    ensures r0 == Prefix(a + b, r2)
  {
    PrefixAppend(a, b, r2);
  }

  lemma ConsFour(a: Token, b: Token, c: Token, d: Token, r: Option<seq<Token>>)
    ensures Cons(a, Cons(b, Cons(c, Cons(d, r)))) == Prefix([a, b, c, d], r)
  {
    match r
    case None =>
    case Some(ts) =>
      assert [a] + ([b] + ([c] + ([d] + ts))) == [a, b, c, d] + ts;
  }

  /** The characters of a header line. */
  lemma HeaderChars(s: string, i: nat, id: string)
    requires TextAt(s, i, HeaderLine(id))
    ensures var n := |id|;
      && i + n + 3 <= |s| && s[i] == '[' && s[i + 1..i + 1 + n] == id
      && s[i + 1 + n] == ']' && s[i + 2 + n] == '\n'
  {
    assert HeaderLine(id) == ("[" + id) + "]\n";
    TextAtSplit(s, i, "[" + id, "]\n");
    TextAtSplit(s, i, "[", id);
    TextAtChar(s, i, "[", 0);
    TextAtChar(s, i + 1 + |id|, "]\n", 0);
    TextAtChar(s, i + 1 + |id|, "]\n", 1);
  }

  /** A header line scans to the header's four tokens. */
  lemma LexHeaderLine(s: string, i: nat, id: string, e: nat)
    requires IsIdentifier(id) && TextAt(s, i, HeaderLine(id)) && e == i + |HeaderLine(id)|
    ensures e <= |s| && LexFrom(s, i) == Prefix(HeaderTokens(id), LexFrom(s, e))
  {
    var j := i + 1 + |id|;
    LexHeaderOpen(s, i, id, j);
    LexHeaderClose(s, i, id, j, e);
    HeaderChain(id, LexFrom(s, i), LexFrom(s, j), LexFrom(s, e));
  }

  /** `[id` scans to an LBRACE and an ID token. */
  lemma LexHeaderOpen(s: string, i: nat, id: string, j: nat)
    requires IsIdentifier(id) && TextAt(s, i, HeaderLine(id)) && j == i + 1 + |id|
    ensures j <= |s| && LexFrom(s, i) == Cons(Token(LBrace, ""), Cons(Token(Id, id), LexFrom(s, j)))
  {
    HeaderChars(s, i, id);
    LexMark(s, i, Token(LBrace, ""));
    LexIdentifier(s, i + 1, id);
  }

  /** `]` and the newline scan to an RBRACE and a NEWLINE token. */
  lemma LexHeaderClose(s: string, i: nat, id: string, j: nat, e: nat)
    requires TextAt(s, i, HeaderLine(id)) && j == i + 1 + |id| && e == i + |HeaderLine(id)|
    ensures j <= e <= |s| && LexFrom(s, j) == Cons(Token(RBrace, ""), Cons(Token(Newline, ""), LexFrom(s, e)))
  {
    HeaderChars(s, i, id);
    LexMark(s, j, Token(RBrace, ""));
    LexMark(s, j + 1, Token(Newline, ""));
  }

  /** The two halves of a header line, chained. */
  lemma HeaderChain(id: string, r0: Option<seq<Token>>, r1: Option<seq<Token>>, r2: Option<seq<Token>>)
    requires r0 == Cons(Token(LBrace, ""), Cons(Token(Id, id), r1))
    requires r1 == Cons(Token(RBrace, ""), Cons(Token(Newline, ""), r2))
    ensures r0 == Prefix(HeaderTokens(id), r2)
  {
    ConsFour(Token(LBrace, ""), Token(Id, id), Token(RBrace, ""), Token(Newline, ""), r2);
  }

  /** The characters of a pair line. */
  lemma PairChars(s: string, i: nat, p: Pair)
    requires TextAt(s, i, PairLine(p))
    ensures var m, v := |p.lang|, |p.value|;
      && i + m + v + 4 <= |s| && s[i..i + m] == p.lang
      && s[i + m] == ' ' && s[i + m + 1] == '=' && s[i + m + 2] == ' '
      && s[i + m + 3..i + m + 3 + v] == p.value && s[i + m + 3 + v] == '\n'
  {
    var m, v := |p.lang|, |p.value|;
    assert PairLine(p) == ((p.lang + " = ") + p.value) + "\n";
    TextAtSplit(s, i, (p.lang + " = ") + p.value, "\n");
    TextAtSplit(s, i, p.lang + " = ", p.value);
    TextAtSplit(s, i, p.lang, " = ");
    TextAtChar(s, i + m, " = ", 0);
    TextAtChar(s, i + m, " = ", 1);
    TextAtChar(s, i + m, " = ", 2);
    TextAtChar(s, i + m + 3 + v, "\n", 0);
  }

  /** A pair line scans to the pair's four tokens. */
  lemma LexPairLine(s: string, i: nat, p: Pair, e: nat)
    requires WellFormedPair(p) && TextAt(s, i, PairLine(p)) && e == i + |PairLine(p)|
    ensures e <= |s| && LexFrom(s, i) == Prefix(PairTokens(p), LexFrom(s, e))
  {
    var j := i + |p.lang| + 3;
    LexPairHead(s, i, p, j);
    LexPairValue(s, i, p, j, e);
    PairChain(p, LexFrom(s, i), LexFrom(s, j), LexFrom(s, e));
  }

  /** `lang = ` scans to an ID and an EQUAL token. */
  lemma LexPairHead(s: string, i: nat, p: Pair, j: nat)
    requires WellFormedPair(p) && TextAt(s, i, PairLine(p)) && j == i + |p.lang| + 3
    ensures j <= |s| && LexFrom(s, i) == Cons(Token(Id, p.lang), Cons(Token(Equal, ""), LexFrom(s, j)))
  {
    var m := |p.lang|;
    PairChars(s, i, p);
    LexIdentifier(s, i, p.lang);
    LexSpace(s, i + m);
    LexMarkSpace(s, i + m + 1, Token(Equal, ""));
  }

  /** A one-character token and the space after it. */
  lemma LexMarkSpace(s: string, i: nat, t: Token)
    requires t.kind != Str && t.kind != Id && t.value == ""
    requires i + 1 < |s| && s[i] == Spell(t)[0] && s[i + 1] == ' '
    ensures LexFrom(s, i) == Cons(t, LexFrom(s, i + 2))
  {
    LexMark(s, i, t);
    LexSpace(s, i + 1);
  }

  /** The quoted value and its newline scan to a STRING and a NEWLINE token. */
  lemma LexPairValue(s: string, i: nat, p: Pair, j: nat, e: nat)
    requires WellFormedPair(p) && TextAt(s, i, PairLine(p))
    requires j == i + |p.lang| + 3 && e == i + |PairLine(p)|
    ensures j <= e <= |s| && LexFrom(s, j) == Cons(Token(Str, p.value), Cons(Token(Newline, ""), LexFrom(s, e)))
  {
    var v := |p.value|;
    PairChars(s, i, p);
    LexString(s, j, p.value);
    LexMark(s, j + v, Token(Newline, ""));
  }

  /** The two halves of a pair line, chained. */
  lemma PairChain(p: Pair, r0: Option<seq<Token>>, r1: Option<seq<Token>>, r2: Option<seq<Token>>)
    requires r0 == Cons(Token(Id, p.lang), Cons(Token(Equal, ""), r1))
    requires r1 == Cons(Token(Str, p.value), Cons(Token(Newline, ""), r2))
    ensures r0 == Prefix(PairTokens(p), r2)
  {
    ConsFour(Token(Id, p.lang), Token(Equal, ""), Token(Str, p.value), Token(Newline, ""), r2);
  }

  lemma {:induction false} LexPairLines(s: string, i: nat, ps: seq<Pair>, e: nat)
    requires forall k :: 0 <= k < |ps| ==> WellFormedPair(ps[k])
    requires TextAt(s, i, PairLines(ps)) && e == i + |PairLines(ps)|
    ensures e <= |s| && LexFrom(s, i) == Prefix(PairsTokens(ps), LexFrom(s, e))
    decreases |ps|
  {
    if ps == [] {
      PrefixEmpty(LexFrom(s, i));
    } else {
      var j := LexFirstPair(s, i, ps);
      LexPairLines(s, j, ps[1..], e);
      PrefixChain(PairTokens(ps[0]), PairsTokens(ps[1..]), LexFrom(s, i), LexFrom(s, j), LexFrom(s, e));
    }
  }

  /** The first pair line of a body, and where the rest starts. */
  lemma LexFirstPair(s: string, i: nat, ps: seq<Pair>) returns (j: nat)
    requires ps != [] && forall k :: 0 <= k < |ps| ==> WellFormedPair(ps[k])
    requires TextAt(s, i, PairLines(ps))
    ensures j + |PairLines(ps[1..])| == i + |PairLines(ps)|
    ensures TextAt(s, j, PairLines(ps[1..])) && forall k :: 0 <= k < |ps[1..]| ==> WellFormedPair(ps[1..][k])
    ensures LexFrom(s, i) == Prefix(PairTokens(ps[0]), LexFrom(s, j))
  {
    var x, y := PairLine(ps[0]), PairLines(ps[1..]);
    assert PairLines(ps) == x + y;
    TextAtSplit(s, i, x, y);
    assert WellFormedPair(ps[0]);
    assert forall k :: 0 <= k < |ps[1..]| ==> ps[1..][k] == ps[k + 1];
    j := i + |x|;
    LexPairLine(s, i, ps[0], j);
  }

  lemma {:induction false} LexRender(s: string, i: nat, doc: Doc, e: nat)
    requires WellFormedDoc(doc)
    requires TextAt(s, i, Render(doc)) && e == i + |Render(doc)|
    ensures e <= |s| && LexFrom(s, i) == Prefix(TokensOf(doc), LexFrom(s, e))
    decreases |doc|
  {
    if doc == [] {
      PrefixEmpty(LexFrom(s, i));
    } else {
      var j := LexFirstEntry(s, i, doc);
      LexRender(s, j, doc[1..], e);
      EntryChain(doc, LexFrom(s, i), LexFrom(s, j), LexFrom(s, e));
    }
  }

  /** The first entry of a document, and where the rest starts. */
  lemma LexFirstEntry(s: string, i: nat, doc: Doc) returns (j: nat)
    requires doc != [] && WellFormedDoc(doc) && TextAt(s, i, Render(doc))
    ensures j + |Render(doc[1..])| == i + |Render(doc)|
    ensures TextAt(s, j, Render(doc[1..])) && WellFormedDoc(doc[1..])
    ensures LexFrom(s, i) == Prefix(HeaderTokens(doc[0].id) + PairsTokens(doc[0].pairs), LexFrom(s, j))
  {
    var en := doc[0];
    var h, b, r := HeaderLine(en.id), PairLines(en.pairs), Render(doc[1..]);
    assert WellFormedEntry(en);
    assert forall k :: 0 <= k < |doc[1..]| ==> doc[1..][k] == doc[k + 1];
    assert Render(doc) == h + b + r;
    TextAtSplit(s, i, h + b, r);
    TextAtSplit(s, i, h, b);
    var k := i + |h|;
    j := k + |b|;
    LexHeaderLine(s, i, en.id, k);
    LexPairLines(s, k, en.pairs, j);
    PrefixChain(HeaderTokens(en.id), PairsTokens(en.pairs), LexFrom(s, i), LexFrom(s, k), LexFrom(s, j));
  }

  lemma EntryChain(doc: Doc, r0: Option<seq<Token>>, r1: Option<seq<Token>>, r2: Option<seq<Token>>)
    requires doc != []
    requires r0 == Prefix(HeaderTokens(doc[0].id) + PairsTokens(doc[0].pairs), r1)
    requires r1 == Prefix(TokensOf(doc[1..]), r2)
    ensures r0 == Prefix(TokensOf(doc), r2)
  {
    PrefixAppend(HeaderTokens(doc[0].id) + PairsTokens(doc[0].pairs), TokensOf(doc[1..]), r2);
  }

  // The text is a C string.

  lemma NoNulAppend(x: string, y: string)
    requires NoNul(x) && NoNul(y)
    ensures NoNul(x + y)
  {
    forall k | 0 <= k < |x + y|
      ensures (x + y)[k] != '\0'
    {
      if k >= |x| {
        assert (x + y)[k] == y[k - |x|];
      }
    }
  }

  lemma IdentifierNoNul(x: string)
    requires IsIdentifier(x)
    ensures NoNul(x)
  {
    forall k | 0 <= k < |x|
      ensures x[k] != '\0'
    {
      if k > 0 {
        assert IsIdentChar(x[k]);
      }
    }
  }

  lemma {:induction false} PairLinesNoNul(ps: seq<Pair>)
    requires forall k :: 0 <= k < |ps| ==> WellFormedPair(ps[k])
    ensures NoNul(PairLines(ps))
    decreases |ps|
  {
    if ps != [] {
      var p := ps[0];
      assert WellFormedPair(p);
      PairLinesNoNul(ps[1..]);
      IdentifierNoNul(p.lang);
      NoNulAppend(p.lang, " = ");
      NoNulAppend(p.lang + " = ", p.value);
      NoNulAppend(p.lang + " = " + p.value, "\n");
      NoNulAppend(PairLine(p), PairLines(ps[1..]));
    }
  }

  lemma {:induction false} RenderNoNul(doc: Doc)
    requires WellFormedDoc(doc)
    ensures NoNul(Render(doc))
    decreases |doc|
  {
    if doc != [] {
      var en := doc[0];
      assert WellFormedEntry(en);
      assert WellFormedDoc(doc[1..]) by {
        assert forall k :: 0 <= k < |doc[1..]| ==> doc[1..][k] == doc[k + 1];
      }
      RenderNoNul(doc[1..]);
      PairLinesNoNul(en.pairs);
      IdentifierNoNul(en.id);
      NoNulAppend("[", en.id);
      NoNulAppend("[" + en.id, "]\n");
      NoNulAppend(HeaderLine(en.id), PairLines(en.pairs));
      NoNulAppend(HeaderLine(en.id) + PairLines(en.pairs), Render(doc[1..]));
    }
  }

  /** Reading inverts writing: the text of a well-formed document is a C string that scans
      to the document's tokens and parses back to the document. */
  lemma ReadInvertsRender(doc: Doc)
    requires WellFormedDoc(doc)
    ensures NoNul(Render(doc))
    ensures Lex(Render(doc)) == Some(TokensOf(doc))
    ensures ParseTokens(TokensOf(doc)) == Parsed(true, doc)
  {
    var s := Render(doc);
    RenderNoNul(doc);
    assert s[0..|s|] == s;
    LexRender(s, 0, doc, |s|);
    assert TokensOf(doc) + [] == TokensOf(doc);
    ParseInvertsTokens(doc);
  }
}
