/** The recursive-descent parser of rio/input.c: `struct parser`, its cursor helpers,
    `parse_nl`, `parse_pair`, `parse_entry`, `parse` and the scanning half of `input`. */
module Parser {
  import opened Wrappers
  import opened Lexer
  import opened Document

  // ---------------------------------------------------------------------------------------
  // What the parser does to a token sequence, as functions of the token index.

  /** Whether a run of cursor steps matched, and where the cursor stands after it. */
  datatype Run = Run(matched: bool, next: nat)

  /** The result of a parsing step, and where the cursor stands after it. */
  datatype Step<T> = Step(result: Option<T>, next: nat)

  /** The pairs gathered by an entry body, and where the cursor stands after it. */
  datatype Body = Body(pairs: seq<Pair>, next: nat)

  /** The entries gathered by `parse`, and whether it returned 0. The entries appended
      before a failure stay in the document. */
  datatype Parsed = Parsed(ok: bool, entries: Doc)

  /** A run of `parser_assert` calls expecting the kinds ks in turn from index i. Each call
      consumes one token, matching or not; the run stops at the first mismatch and at the
      end of the tokens, where a call consumes nothing. */
  function AssertRun(ts: seq<Token>, i: nat, ks: seq<TokenType>): (r: Run)
    requires i <= |ts|
    ensures i <= r.next <= |ts| && r.next <= i + |ks|
    ensures r.matched ==> r.next == i + |ks|
    ensures ks != [] && i < |ts| ==> i < r.next
    decreases ks
  {
    if ks == [] then Run(true, i)
    else if i == |ts| then Run(false, i)
    else if ts[i].kind != ks[0] then Run(false, i + 1)
    else AssertRun(ts, i + 1, ks[1..])
  }

  /** `parse_nl`: a NEWLINE token, or the end of the tokens. */
  function Nl(ts: seq<Token>, i: nat): (r: Run)
    requires i <= |ts|
    ensures r.next == if i == |ts| then i else i + 1
    ensures r.matched <==> i == |ts| || ts[i].kind == Newline
  {
    if i == |ts| then Run(true, i) else Run(ts[i].kind == Newline, i + 1)
  }

  /** `parse_pair` from index i: ID, '=', STRING, then a NEWLINE or the end. */
  function PairAt(ts: seq<Token>, i: nat): (s: Step<Pair>)
    requires i <= |ts|
    ensures i <= s.next <= |ts|
    ensures i < |ts| ==> i < s.next  // progress: the entry-body loop terminates
    ensures i == |ts| ==> s == Step(None, i)
  {
    var r := AssertRun(ts, i, [Id, Equal, Str]);
    if !r.matched then Step(None, r.next)
    else
      var n := Nl(ts, r.next);
      Step(if n.matched then Some(Pair(ts[i].value, ts[i + 2].value)) else None, n.next)
  }

  /** The entry-body loop of `parse_entry` from index i: pairs up to the next '[' or the end
      of the tokens; a step that fails appends nothing and the loop goes on. */
  function BodyFrom(ts: seq<Token>, i: nat): (b: Body)
    requires i <= |ts|
    ensures i <= b.next <= |ts|
    ensures b.next == |ts| || ts[b.next].kind == LBrace
    decreases |ts| - i
  {
    if i == |ts| || ts[i].kind == LBrace then Body([], i)
    else
      var s := PairAt(ts, i);
      var rest := BodyFrom(ts, s.next);
      Body(s.result.ToSeq() + rest.pairs, rest.next)
  }

  /** `parse_entry` from index i: '[', ID, ']', a NEWLINE or the end, then the entry body. */
  function EntryAt(ts: seq<Token>, i: nat): (s: Step<EntryValue>)
    requires i <= |ts|
    ensures i <= s.next <= |ts|
    ensures s.result.Some? ==> i + 3 <= s.next
  {
    var h := AssertRun(ts, i, [LBrace, Id, RBrace]);
    if !h.matched then Step(None, h.next)
    else
      var n := Nl(ts, h.next);
      if !n.matched then Step(None, n.next)
      else
        var b := BodyFrom(ts, n.next);
        Step(Some(EntryValue(ts[i + 1].value, b.pairs)), b.next)
  }

  /** The loop of `parse` from index i: an optional NEWLINE, then an entry, until the tokens
      run out; the first entry that fails ends the parse. */
  function DocumentFrom(ts: seq<Token>, i: nat): Parsed
    requires i <= |ts|
    decreases |ts| - i
  {
    if i == |ts| then Parsed(true, [])
    else
      var j := if ts[i].kind == Newline then i + 1 else i;
      var e := EntryAt(ts, j);
      if e.result.None? then Parsed(false, [])
      else
        var rest := DocumentFrom(ts, e.next);
        Parsed(rest.ok, [e.result.value] + rest.entries)
  }

  /** What `parse` does with the whole token sequence. */
  function ParseTokens(ts: seq<Token>): Parsed
  {
    DocumentFrom(ts, 0)
  }

  // ---------------------------------------------------------------------------------------
  // `struct parser` and the parser proper.

  /** `struct parser`: the tokens and a cursor into them. */
  class Parser {
    var index: nat
    const max: nat
    const tokens: seq<Token>

    ghost predicate Valid()
      reads this
    {
      max == |tokens| && index <= max
    }

    /** `parser_init` */
    constructor (tokens: seq<Token>)
      ensures Valid() && this.tokens == tokens && index == 0
    {
      index := 0;
      max := |tokens|;
      this.tokens := tokens;
    }

    /** `parser_read`: the token under the cursor. */
    function Read(): (t: Token)
      reads this
      requires Valid() && index < max
      ensures t == tokens[index]
    {
      tokens[index]
    }

    /** `parser_next`: the token under the cursor, which then moves on by one. */
    method Next() returns (t: Token)
      requires Valid() && index < max
      modifies this
      ensures Valid() && index == old(index) + 1 && t == tokens[old(index)]
    {
      t := tokens[index];
      index := index + 1;
    }

    /** `parser_has_next`: a token remains. */
    function HasNext(): (b: bool)
      reads this
      requires Valid()
      ensures b <==> index < |tokens|
    {
      index < max
    }

    /** `parser_end`: every token has been consumed. */
    function End(): (b: bool)
      reads this
      requires Valid()
      ensures b <==> index == |tokens|
    {
      index == max
    }

    /** `parser_assert`: when a token remains it is consumed whether or not it has the
        expected kind; it is returned only if it has. */
    method Assert(kind: TokenType) returns (t: Option<Token>)
      requires Valid()
      modifies this
      ensures Valid()
      ensures old(index) == max ==> index == old(index) && t == None
      ensures old(index) < max ==> (index == old(index) + 1 &&
        t == if tokens[old(index)].kind == kind then Some(tokens[old(index)]) else None)
    {
      if !HasNext() {
        return None;
      }
      var u := Next();
      if u.kind != kind {
        return None;
      }
      return Some(u);
    }

    /** `parser_assert_read`: the token is consumed and returned only if it has the
        expected kind. */
    method AssertRead(kind: TokenType) returns (t: Option<Token>)
      requires Valid()
      modifies this
      ensures Valid()
      ensures old(index) < max && tokens[old(index)].kind == kind ==>
        index == old(index) + 1 && t == Some(tokens[old(index)])
      ensures !(old(index) < max && tokens[old(index)].kind == kind) ==>
        index == old(index) && t == None
    {
      if !HasNext() {
        return None;
      }
      var u := Read();
      if u.kind != kind {
        return None;
      }
      var skipped := Next();
      return Some(u);
    }

    /** `parser_assert_type`: whether the token under the cursor has the given kind; the
        cursor never moves. */
    function AssertType(kind: TokenType): (b: bool)
      reads this
      requires Valid()
      ensures b <==> index < |tokens| && tokens[index].kind == kind
    {
      HasNext() && Read().kind == kind
    }
  }

  /** `parse_nl` */
  method ParseNl(p: Parser) returns (rc: int)
    requires p.Valid()
    modifies p
    ensures p.Valid()
    ensures var n := Nl(p.tokens, old(p.index));
      p.index == n.next && (rc == 0 <==> n.matched) && (rc == 0 || rc == -1)
  {
    if !p.End() {
      var t := p.Assert(Newline);
      if t.None? {
        return -1;
      }
    }
    return 0;
  }

  /** `parse_pair`: appends a pair to e exactly when the pair is well formed; the cursor
      ends where `PairAt` says, one token or more further on when a token remained. */
  method ParsePair(p: Parser, e: Entry) returns (rc: int)
    requires p.Valid()
    modifies p, e
    ensures p.Valid()
    ensures var s := PairAt(p.tokens, old(p.index));
      && p.index == s.next
      && (rc == 0 <==> s.result.Some?) && (rc == 0 || rc == -1)
      && e.pairs == old(e.pairs) + s.result.ToSeq()
  {
    ghost var i := p.index;
    ghost var ts := p.tokens;
    var t := p.Assert(Id);
    if t.None? {
      return -1;
    }
    var lang := t.value.value;
    var eq := p.Assert(Equal);
    if eq.None? {
      return -1;
    }
    t := p.Assert(Str);
    if t.None? {
      return -1;
    }
    var value := t.value.value;
    assert AssertRun(ts, i, [Id, Equal, Str]) == Run(true, i + 3) by {
      assert [Id, Equal, Str][1..] == [Equal, Str];
      assert [Equal, Str][1..] == [Str];
    }
    rc := ParseNl(p);
    if rc != 0 {
      return -1;
    }
    e.Add(Pair(lang, value));
    return 0;
  }

  /** A body that had already gathered the pairs acc when it went on to produce b. */
  function Continued(acc: seq<Pair>, b: Body): Body
  {
    Body(acc + b.pairs, b.next)
  }

  lemma BodyGoesOn(ts: seq<Token>, i: nat)
    requires i < |ts| && ts[i].kind != LBrace
    ensures BodyFrom(ts, i) == Continued(PairAt(ts, i).result.ToSeq(), BodyFrom(ts, PairAt(ts, i).next))
  {
  }

  lemma ContinuedTwice(acc: seq<Pair>, more: seq<Pair>, b: Body)
    ensures Continued(acc, Continued(more, b)) == Continued(acc + more, b)
  {
    assert acc + (more + b.pairs) == (acc + more) + b.pairs;
  }

  /** The entry-body loop of `parse_entry`: `parse_pair` until the next '[' or the end of
      the tokens, ignoring the pairs that fail. */
  method ParseBody(p: Parser, e: Entry)
    requires p.Valid()
    modifies p, e
    ensures p.Valid()
    ensures var b := BodyFrom(p.tokens, old(p.index));
      p.index == b.next && e.pairs == old(e.pairs) + b.pairs
  {
    ghost var start := p.index;
    ghost var ts := p.tokens;
    ghost var acc: seq<Pair> := [];
    while p.HasNext() && !p.AssertType(LBrace)
      invariant p.Valid() && p.tokens == ts && start <= p.index
      invariant e.pairs == old(e.pairs) + acc
      invariant BodyFrom(ts, start) == Continued(acc, BodyFrom(ts, p.index))
      decreases |ts| - p.index
    {
      ghost var before := p.index;
      var ignored := ParsePair(p, e);
      BodyGoesOn(ts, before);
      ContinuedTwice(acc, PairAt(ts, before).result.ToSeq(), BodyFrom(ts, p.index));
      acc := acc + PairAt(ts, before).result.ToSeq();
    }
    assert BodyFrom(ts, p.index) == Body([], p.index);
    assert acc + [] == acc;
  }

  /** `parse_entry`: appends an entry to l exactly when its header is well formed, with the
      pairs of its body; the body loop stops at the next '[' or the end of the tokens. */
  method ParseEntry(p: Parser, l: Lang) returns (rc: int)
    requires p.Valid()
    modifies p, l
    ensures p.Valid()
    ensures var s := EntryAt(p.tokens, old(p.index));
      && p.index == s.next
      && (rc == 0 <==> s.result.Some?) && (rc == 0 || rc == -1)
      && l.entries == old(l.entries) + s.result.ToSeq()
  {
    ghost var i := p.index;
    ghost var ts := p.tokens;
    var lb := p.Assert(LBrace);
    if lb.None? {
      return -1;
    }
    var t := p.Assert(Id);
    if t.None? {
      return -1;
    }
    var rb := p.Assert(RBrace);
    if rb.None? {
      return -1;
    }
    assert AssertRun(ts, i, [LBrace, Id, RBrace]) == Run(true, i + 3) by {
      assert [LBrace, Id, RBrace][1..] == [Id, RBrace];
      assert [Id, RBrace][1..] == [RBrace];
    }
    rc := ParseNl(p);
    if rc != 0 {
      return -1;
    }
    ghost var start := p.index;
    var e := new Entry(t.value.value);
    ParseBody(p, e);
    assert e.pairs == BodyFrom(ts, start).pairs;
    l.Add(e);
    return 0;
  }

  lemma DocumentFails(ts: seq<Token>, i: nat)
    requires i < |ts|
    requires EntryAt(ts, if ts[i].kind == Newline then i + 1 else i).result.None?
    ensures DocumentFrom(ts, i) == Parsed(false, [])
  {
  }

  lemma DocumentGoesOn(ts: seq<Token>, i: nat)
    requires i < |ts|
    requires EntryAt(ts, if ts[i].kind == Newline then i + 1 else i).result.Some?
    ensures var e := EntryAt(ts, if ts[i].kind == Newline then i + 1 else i);
      && DocumentFrom(ts, i).ok == DocumentFrom(ts, e.next).ok
      && DocumentFrom(ts, i).entries == [e.result.value] + DocumentFrom(ts, e.next).entries
  {
  }

  /** A parse that had already read the entries acc when it went on to produce r. */
  function Resumed(acc: Doc, r: Parsed): Parsed
  {
    Parsed(r.ok, acc + r.entries)
  }

  /** One turn of the loop of `parse` after an entry that parsed. */
  lemma DocumentResumes(ts: seq<Token>, i: nat, acc: Doc)
    requires i < |ts|
    requires EntryAt(ts, if ts[i].kind == Newline then i + 1 else i).result.Some?
    ensures var e := EntryAt(ts, if ts[i].kind == Newline then i + 1 else i);
      Resumed(acc, DocumentFrom(ts, i)) == Resumed(acc + [e.result.value], DocumentFrom(ts, e.next))
  {
    var e := EntryAt(ts, if ts[i].kind == Newline then i + 1 else i);
    DocumentGoesOn(ts, i);
    var r := DocumentFrom(ts, e.next);
    assert acc + ([e.result.value] + r.entries) == (acc + [e.result.value]) + r.entries;
  }

  /** The body of the loop of `parse`: an optional NEWLINE, then an entry. */
  method ParseBlock(p: Parser, l: Lang) returns (rc: int)
    requires p.Valid() && p.index < |p.tokens|
    modifies p, l
    ensures p.Valid()
    ensures var i := old(p.index);
      var s := EntryAt(p.tokens, if p.tokens[i].kind == Newline then i + 1 else i);
      && p.index == s.next
      && (rc == 0 <==> s.result.Some?) && (rc == 0 || rc == -1)
      && l.entries == old(l.entries) + s.result.ToSeq()
  {
    var nl := p.AssertRead(Newline);
    rc := ParseEntry(p, l);
  }

  /** `parse`: appends the entries of the tokens to l in order; it returns 0 exactly when
      every entry header is well formed, and the entries before a failure stay appended. */
  method Parse(l: Lang, tokens: seq<Token>) returns (rc: int)
    modifies l
    ensures var r := ParseTokens(tokens);
      && (rc == 0 <==> r.ok) && (rc == 0 || rc == -1)
      && l.entries == old(l.entries) + r.entries
  {
    var p := new Parser(tokens);
    ghost var acc: Doc := [];
    while p.HasNext()
      invariant p.Valid() && p.tokens == tokens && fresh(p)
      invariant l.entries == old(l.entries) + acc
      invariant Resumed(acc, DocumentFrom(tokens, p.index)) == ParseTokens(tokens)
      decreases |tokens| - p.index
    {
      ghost var i := p.index;
      rc := ParseBlock(p, l);
      if rc != 0 {
        DocumentFails(tokens, i);
        assert acc + [] == acc;
        return -1;
      }
      acc := ParseGoesOn(tokens, i, p.index, acc, old(l.entries), l.entries);
    }
    assert acc + [] == acc;
    return 0;
  }

  /** A turn of the loop of `parse` whose entry was appended. */
  lemma ParseGoesOn(ts: seq<Token>, i: nat, next: nat, acc: Doc, base: Doc, now: Doc) returns (acc2: Doc)
    requires i < |ts|
    requires var s := EntryAt(ts, if ts[i].kind == Newline then i + 1 else i);
      s.result.Some? && next == s.next && now == base + acc + s.result.ToSeq()
    ensures next <= |ts| && now == base + acc2
    ensures Resumed(acc2, DocumentFrom(ts, next)) == Resumed(acc, DocumentFrom(ts, i))
  {
    var s := EntryAt(ts, if ts[i].kind == Newline then i + 1 else i);
    DocumentResumes(ts, i, acc);
    acc2 := acc + [s.result.value];
  }

  /** `input` after the file has been read: scan the text, then parse the tokens into l.
      A scan that fails returns -1 and leaves l alone. */
  method Input(text: string, l: Lang) returns (rc: int)
    requires NoNul(text)
    modifies l
    ensures Lex(text).None? ==> rc == -1 && l.entries == old(l.entries)
    ensures Lex(text).Some? ==> var r := ParseTokens(Lex(text).value);
      && (rc == 0 <==> r.ok) && (rc == 0 || rc == -1)
      && l.entries == old(l.entries) + r.entries
  {
    var tokens := Scan(text);
    if tokens.None? {
      return -1;
    }
    rc := Parse(l, tokens.value);
  }

  // ---------------------------------------------------------------------------------------
  // The grammar the parser accepts.

  /** A run of `parser_assert` calls matches exactly when the next tokens have the expected
      kinds, in order. */
  lemma {:induction false} AssertRunMatches(ts: seq<Token>, i: nat, ks: seq<TokenType>)
    requires i <= |ts|
    ensures AssertRun(ts, i, ks).matched <==>
      i + |ks| <= |ts| && forall k :: 0 <= k < |ks| ==> ts[i + k].kind == ks[k]
    decreases ks
  {
    if ks != [] && i < |ts| && ts[i].kind == ks[0] {
      AssertRunMatches(ts, i + 1, ks[1..]);
      if i + |ks| <= |ts| && forall k :: 0 <= k < |ks[1..]| ==> ts[i + 1 + k].kind == ks[1..][k] {
        forall k | 0 <= k < |ks|
          ensures ts[i + k].kind == ks[k]
        {
          if k > 0 {
            assert ts[i + 1 + (k - 1)].kind == ks[1..][k - 1];
          }
        }
      }
      if i + |ks| <= |ts| && forall k :: 0 <= k < |ks| ==> ts[i + k].kind == ks[k] {
        forall k | 0 <= k < |ks[1..]|
          ensures ts[i + 1 + k].kind == ks[1..][k]
        {
          assert ts[i + (k + 1)].kind == ks[k + 1];
        }
      }
    }
  }

  /** A pair line at i: ID, '=', STRING, then a NEWLINE or the end of the tokens. */
  predicate PairLineAt(ts: seq<Token>, i: nat)
  {
    && i + 3 <= |ts|
    && ts[i].kind == Id && ts[i + 1].kind == Equal && ts[i + 2].kind == Str
    && (i + 3 == |ts| || ts[i + 3].kind == Newline)
  }

  /** An entry header at i: '[', ID, ']', then a NEWLINE or the end of the tokens. */
  predicate HeaderLineAt(ts: seq<Token>, i: nat)
  {
    && i + 3 <= |ts|
    && ts[i].kind == LBrace && ts[i + 1].kind == Id && ts[i + 2].kind == RBrace
    && (i + 3 == |ts| || ts[i + 3].kind == Newline)
  }

  /** Where the cursor stands after a pair line or a header line at i. */
  function LineEnd(ts: seq<Token>, i: nat): nat
    requires i + 3 <= |ts|
  {
    if i + 3 == |ts| then i + 3 else i + 4
  }

  /** `parse_pair` appends a pair exactly for a pair line, made of the text of its ID and
      STRING tokens, and then leaves the cursor after the line; otherwise it appends nothing. */
  lemma PairAtShape(ts: seq<Token>, i: nat)
    requires i <= |ts|
    ensures PairAt(ts, i).result ==
      if PairLineAt(ts, i) then Some(Pair(ts[i].value, ts[i + 2].value)) else None
    ensures PairLineAt(ts, i) ==> PairAt(ts, i).next == LineEnd(ts, i)
  {
    AssertRunMatches(ts, i, [Id, Equal, Str]);
  }

  /** `parse_entry` appends an entry exactly when a header line stands at i; the entry's
      identifier is the header's and its pairs are those of the body after the header. */
  lemma EntryAtShape(ts: seq<Token>, i: nat)
    requires i <= |ts|
    ensures EntryAt(ts, i).result.Some? <==> HeaderLineAt(ts, i)
    ensures HeaderLineAt(ts, i) ==>
      var b := BodyFrom(ts, LineEnd(ts, i));
      EntryAt(ts, i) == Step(Some(EntryValue(ts[i + 1].value, b.pairs)), b.next)
  {
    AssertRunMatches(ts, i, [LBrace, Id, RBrace]);
  }

  /** The first block that does not start with a header line, after at most one NEWLINE,
      makes `parse` fail, and that block adds no entry. */
  lemma HeaderFailureStops(ts: seq<Token>, i: nat)
    requires i < |ts|
    requires !HeaderLineAt(ts, if ts[i].kind == Newline then i + 1 else i)
    ensures DocumentFrom(ts, i) == Parsed(false, [])
  {
    EntryAtShape(ts, if ts[i].kind == Newline then i + 1 else i);
  }

  /** Every pair an entry body gathers comes from a pair line inside that body. */
  lemma {:induction false} BodyPairsFromPairLines(ts: seq<Token>, i: nat)
    requires i <= |ts|
    ensures var b := BodyFrom(ts, i);
      forall p :: p in b.pairs ==> exists k :: i <= k < b.next && PairLineAt(ts, k) && p == Pair(ts[k].value, ts[k + 2].value)
    decreases |ts| - i
  {
    if !(i == |ts| || ts[i].kind == LBrace) {
      var s := PairAt(ts, i);
      BodyPairsFromPairLines(ts, s.next);
      PairAtShape(ts, i);
      var b := BodyFrom(ts, i);
      forall p | p in b.pairs
        ensures exists k :: i <= k < b.next && PairLineAt(ts, k) && p == Pair(ts[k].value, ts[k + 2].value)
      {
        if p in s.result.ToSeq() {
          assert PairLineAt(ts, i) && p == Pair(ts[i].value, ts[i + 2].value);
        } else {
          assert p in BodyFrom(ts, s.next).pairs;
        }
      }
    }
  }

  // ---------------------------------------------------------------------------------------
  // Writing a document out as tokens, and parsing it back.

  function PairTokens(p: Pair): seq<Token>
  {
    [Token(Id, p.lang), Token(Equal, ""), Token(Str, p.value), Token(Newline, "")]
  }

  function PairsTokens(ps: seq<Pair>): (r: seq<Token>)
    ensures |r| == 4 * |ps|
  {
    if ps == [] then [] else PairTokens(ps[0]) + PairsTokens(ps[1..])
  }

  function HeaderTokens(id: string): seq<Token>
  {
    [Token(LBrace, ""), Token(Id, id), Token(RBrace, ""), Token(Newline, "")]
  }

  /** The tokens of a document: every entry as a header line followed by one line per pair. */
  function TokensOf(doc: Doc): seq<Token>
  {
    if doc == [] then [] else HeaderTokens(doc[0].id) + PairsTokens(doc[0].pairs) + TokensOf(doc[1..])
  }

  lemma {:induction false} BodyFromPairs(ts: seq<Token>, i: nat, ps: seq<Pair>)
    requires i + 4 * |ps| <= |ts| && ts[i..i + 4 * |ps|] == PairsTokens(ps)
    requires i + 4 * |ps| == |ts| || ts[i + 4 * |ps|].kind == LBrace
    ensures BodyFrom(ts, i) == Body(ps, i + 4 * |ps|)
    decreases ps
  {
    if ps != [] {
      SliceConcat(ts, i, PairTokens(ps[0]), PairsTokens(ps[1..]));
      assert ts[i..i + 4] == PairTokens(ps[0]);
      assert ts[i].kind == Id && ts[i + 1].kind == Equal && ts[i + 2].kind == Str && ts[i + 3].kind == Newline by {
        assert ts[i] == ts[i..i + 4][0] && ts[i + 1] == ts[i..i + 4][1];
        assert ts[i + 2] == ts[i..i + 4][2] && ts[i + 3] == ts[i..i + 4][3];
      }
      assert ts[i].value == ps[0].lang && ts[i + 2].value == ps[0].value by {
        assert ts[i] == ts[i..i + 4][0] && ts[i + 2] == ts[i..i + 4][2];
      }
      PairAtShape(ts, i);
      BodyFromPairs(ts, i + 4, ps[1..]);
      assert [ps[0]] + ps[1..] == ps;
    }
  }

  lemma EntryTokensSplit(ts: seq<Token>, i: nat, e: EntryValue, rest: seq<Token>)
    requires i <= |ts| && ts[i..] == HeaderTokens(e.id) + PairsTokens(e.pairs) + rest
    ensures HeaderLineAt(ts, i) && ts[i + 1].value == e.id && LineEnd(ts, i) == i + 4
    ensures i + 4 + 4 * |e.pairs| <= |ts|
    ensures ts[i + 4..i + 4 + 4 * |e.pairs|] == PairsTokens(e.pairs)
    ensures ts[i + 4 + 4 * |e.pairs|..] == rest
  {
    var h, b := HeaderTokens(e.id), PairsTokens(e.pairs);
    var m := i + 4 + 4 * |e.pairs|;
    assert |ts| == i + |h| + |b| + |rest|;
    assert ts[i..i + |h| + |b| + |rest|] == (h + b) + rest;
    SliceConcat(ts, i, h + b, rest);
    SliceConcat(ts, i, h, b);
    assert ts[i] == h[0] && ts[i + 1] == h[1] && ts[i + 2] == h[2] && ts[i + 3] == h[3];
    assert ts[m..] == ts[m..|ts|];
  }

  lemma {:induction false} DocumentFromEntries(ts: seq<Token>, i: nat, doc: Doc)
    requires i <= |ts| && ts[i..] == TokensOf(doc)
    ensures DocumentFrom(ts, i) == Parsed(true, doc)
    decreases doc
  {
    if doc == [] {
      assert |ts[i..]| == 0;
    } else {
      var m := EntryFromTokens(ts, i, doc);
      DocumentGoesOn(ts, i);
      DocumentFromEntries(ts, m, doc[1..]);
      assert [doc[0]] + doc[1..] == doc;
    }
  }

  /** The first entry of a document written out as tokens parses back, and the rest of
      the tokens follow it. */
  lemma EntryFromTokens(ts: seq<Token>, i: nat, doc: Doc) returns (m: nat)
    requires doc != [] && i <= |ts| && ts[i..] == TokensOf(doc)
    ensures i < |ts| && ts[i].kind == LBrace
    ensures EntryAt(ts, i) == Step(Some(doc[0]), m)
    ensures m <= |ts| && ts[m..] == TokensOf(doc[1..])
  {
    var e, rest := doc[0], TokensOf(doc[1..]);
    m := i + 4 + 4 * |e.pairs|;
    assert TokensOf(doc) == HeaderTokens(e.id) + PairsTokens(e.pairs) + rest;
    EntryTokensSplit(ts, i, e, rest);
    if doc[1..] != [] {
      assert ts[m] == ts[m..][0] == rest[0];
    }
    BodyFromPairs(ts, i + 4, e.pairs);
    EntryAtShape(ts, i);
  }

  /** Parsing inverts writing a document out as tokens: every document comes back whole,
      with its entries and pairs in order and repeated identifiers and tags kept. */
  lemma ParseInvertsTokens(doc: Doc)
    ensures ParseTokens(TokensOf(doc)) == Parsed(true, doc)
  {
    var ts := TokensOf(doc);
    assert ts[0..] == ts;
    DocumentFromEntries(ts, 0, doc);
  }

  // ---------------------------------------------------------------------------------------
  // Consequences of the leniency inside entry bodies and of the single optional NEWLINE.

  /** The tokens of `[a]`, `en = "x" [b]`, `fr = "y"`: the second line lacks its NEWLINE. */
  const SwallowTokens: seq<Token> :=
    [Token(LBrace, ""), Token(Id, "a"), Token(RBrace, ""), Token(Newline, ""),
     Token(Id, "en"), Token(Equal, ""), Token(Str, "\"x\""), Token(LBrace, ""),
     Token(Id, "b"), Token(RBrace, ""), Token(Newline, ""),
     Token(Id, "fr"), Token(Equal, ""), Token(Str, "\"y\"")]

  /** A pair line missing its NEWLINE consumes the '[' of the header after it, because
      `parse_nl` consumes the token it rejects: the pair en is lost, the header b is read as
      failed pairs, and b's pair fr joins entry a. `parse` still returns 0. */
  lemma MalformedPairSwallowsHeader()
    ensures ParseTokens(SwallowTokens) == Parsed(true, [EntryValue("a", [Pair("fr", "\"y\"")])])
  {
    var ts := SwallowTokens;
    var a := EntryValue("a", [Pair("fr", "\"y\"")]);
    SwallowedHeader();
    SwallowedBody();
    EntryAtShape(ts, 0);
    assert EntryAt(ts, 0) == Step(Some(a), 14);
    assert DocumentFrom(ts, 14) == Parsed(true, []);
    assert DocumentFrom(ts, 0) == Parsed(true, [a] + []);
  }

  /** The header of entry a in SwallowTokens. */
  lemma SwallowedHeader()
    ensures HeaderLineAt(SwallowTokens, 0) && LineEnd(SwallowTokens, 0) == 4
    ensures SwallowTokens[1].value == "a"
  {
  }

  /** The body of entry a in SwallowTokens: the pair en fails at '[', the rest of header b
      fails as two pairs, and only fr is kept. */
  lemma SwallowedBody()
    ensures BodyFrom(SwallowTokens, 4) == Body([Pair("fr", "\"y\"")], 14)
  {
    var ts := SwallowTokens;
    SwallowedTail();
    assert AssertRun(ts, 8, [Id, Equal, Str]) == Run(false, 10) by {
      assert [Id, Equal, Str][1..] == [Equal, Str];
    }
    assert PairAt(ts, 8) == Step(None, 10);
    assert BodyFrom(ts, 8) == Body([Pair("fr", "\"y\"")], 14);
    AssertRunMatches(ts, 4, [Id, Equal, Str]);
    assert PairAt(ts, 4) == Step(None, 8);
  }

  lemma SwallowedTail()
    ensures BodyFrom(SwallowTokens, 10) == Body([Pair("fr", "\"y\"")], 14)
  {
    var ts := SwallowTokens;
    AssertRunMatches(ts, 11, [Id, Equal, Str]);
    assert PairAt(ts, 11) == Step(Some(Pair("fr", "\"y\"")), 14);
    assert BodyFrom(ts, 11) == Body([Pair("fr", "\"y\"")], 14);
    assert PairAt(ts, 10) == Step(None, 11);
  }

  /** One NEWLINE may precede the first header, two may not, and a lone NEWLINE is a
      failed parse rather than an empty document. */
  lemma LeadingNewlines()
    ensures ParseTokens([Token(Newline, ""), Token(LBrace, ""), Token(Id, "a"), Token(RBrace, "")])
      == Parsed(true, [EntryValue("a", [])])
    ensures ParseTokens([Token(Newline, ""), Token(Newline, ""), Token(LBrace, ""), Token(Id, "a"), Token(RBrace, "")])
      == Parsed(false, [])
    ensures ParseTokens([Token(Newline, "")]) == Parsed(false, [])
    ensures ParseTokens([]) == Parsed(true, [])
  {
    var one := [Token(Newline, ""), Token(LBrace, ""), Token(Id, "a"), Token(RBrace, "")];
    EntryAtShape(one, 1);
    assert EntryAt(one, 1) == Step(Some(EntryValue("a", [])), 4);
    var two := [Token(Newline, ""), Token(Newline, ""), Token(LBrace, ""), Token(Id, "a"), Token(RBrace, "")];
    HeaderFailureStops(two, 0);
    HeaderFailureStops([Token(Newline, "")], 0);
  }

  /** The tokens of `[a]`, three blank lines, `[b]`. */
  const BlankTokens: seq<Token> :=
    [Token(LBrace, ""), Token(Id, "a"), Token(RBrace, ""), Token(Newline, ""), Token(Newline, ""),
     Token(Newline, ""), Token(LBrace, ""), Token(Id, "b"), Token(RBrace, "")]

  /** Before a later header any number of blank lines is accepted: the body of the entry
      before it consumes them as failed pairs, since it stops only at '[' or the end. */
  lemma BlankLinesBeforeLaterHeader()
    ensures ParseTokens(BlankTokens) == Parsed(true, [EntryValue("a", []), EntryValue("b", [])])
  {
    var ts := BlankTokens;
    var a, b := EntryValue("a", []), EntryValue("b", []);
    BlankBody();
    assert HeaderLineAt(ts, 0) && LineEnd(ts, 0) == 4 && ts[1].value == "a";
    EntryAtShape(ts, 0);
    assert EntryAt(ts, 0) == Step(Some(a), 6);
    assert HeaderLineAt(ts, 6) && LineEnd(ts, 6) == 9 && ts[7].value == "b";
    EntryAtShape(ts, 6);
    assert EntryAt(ts, 6) == Step(Some(b), 9);
    assert DocumentFrom(ts, 6) == Parsed(true, [b] + []);
    assert DocumentFrom(ts, 0) == Parsed(true, [a] + [b]);
  }

  /** The body of entry a in BlankTokens: two failed pairs, one per blank line. */
  lemma BlankBody()
    ensures BodyFrom(BlankTokens, 4) == Body([], 6)
  {
    var ts := BlankTokens;
    assert PairAt(ts, 5) == Step(None, 6);
    assert BodyFrom(ts, 5) == Body([], 6);
    assert PairAt(ts, 4) == Step(None, 5);
  }
}
