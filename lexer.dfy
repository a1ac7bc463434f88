/** The lexer of rio/input.c: `struct lex`, `get_string` and `scan`. */
module Lexer {
  import opened Wrappers

  /** `enum type`; LBrace and RBrace are the square brackets. */
  datatype TokenType = Id | Str | LBrace | RBrace | BSlash | Equal | Newline

  /** `struct token`. `value` is the captured text of an Id or Str token; it is empty for the
      other kinds, whose value is NULL in the C code. */
  datatype Token = Token(kind: TokenType, value: string)

  // The character classes of the "C" locale.

  predicate IsSpace(c: char)
  {
    c == ' ' || c == '\t' || c == '\n' || c == '\r' || c as int == 11 || c as int == 12
  }

  predicate IsAlpha(c: char)
  {
    ('a' <= c <= 'z') || ('A' <= c <= 'Z')
  }

  predicate IsAlnum(c: char)
  {
    IsAlpha(c) || ('0' <= c <= '9')
  }

  /** The characters an identifier continues over. */
  predicate IsIdentChar(c: char)
  {
    c == '_' || IsAlnum(c)
  }

  /** The input is a C string: it holds no NUL before its terminator. */
  predicate NoNul(s: string)
  {
    forall k :: 0 <= k < |s| ==> s[k] != '\0'
  }

  /** A character that no rule of `scan` accepts outside a comment or a string; the NUL
      is not one, since it ends the input. */
  predicate IsUnknown(c: char)
  {
    c != '\0' && !IsSpace(c) && !IsAlpha(c) && c !in "#=[]\\\""
  }

  /** `get_string`: a fresh copy of the n characters that start at p. */
  function GetString(s: string, p: nat, n: nat): (r: string)
    requires p + n <= |s|
    ensures |r| == n
    ensures forall k :: 0 <= k < n ==> r[k] == s[p + k]
  {
    s[p..p + n]
  }

  // Where the inner loops of `scan` stop.

  /** The index just past the first newline at or after i, or |s| if there is none:
      the comment loop consumes its terminating newline. */
  function CommentEnd(s: string, i: nat): (j: nat)
    requires i <= |s|
    ensures i <= j <= |s|
    ensures (i < j && s[j - 1] == '\n') || (j == |s| && forall k :: i <= k < |s| ==> s[k] != '\n')
    ensures forall k :: i <= k && k + 1 < j ==> s[k] != '\n'
    decreases |s| - i
  {
    if i == |s| then i
    else if s[i] == '\n' then i + 1
    else CommentEnd(s, i + 1)
  }

  /** The index of the first double quote at or after i, or |s| if there is none. */
  function NextQuote(s: string, i: nat): (q: nat)
    requires i <= |s|
    ensures i <= q <= |s|
    ensures q < |s| ==> s[q] == '"'
    ensures forall k :: i <= k < q ==> s[k] != '"'
    decreases |s| - i
  {
    if i == |s| then i
    else if s[i] == '"' then i
    else NextQuote(s, i + 1)
  }

  /** The index of the first character at or after i that cannot continue an identifier,
      or |s| if the identifier runs to the end. */
  function IdentEnd(s: string, i: nat): (j: nat)
    requires i <= |s|
    ensures i <= j <= |s|
    ensures forall k :: i <= k < j ==> IsIdentChar(s[k])
    ensures j < |s| ==> !IsIdentChar(s[j])
    decreases |s| - i
  {
    if i == |s| || !IsIdentChar(s[i]) then i
    else IdentEnd(s, i + 1)
  }

  /** A token in front of a scan result; a failed scan stays failed. */
  function Cons(t: Token, r: Option<seq<Token>>): Option<seq<Token>>
  {
    match r
    case None => None
    case Some(ts) => Some([t] + ts)
  }

  /** Tokens already pushed, in front of the result of the rest of the scan. */
  function Prefix(acc: seq<Token>, r: Option<seq<Token>>): Option<seq<Token>>
  {
    match r
    case None => None
    case Some(ts) => Some(acc + ts)
  }

  /** What `scan` produces from the characters of s starting at i: one case per rule of
      its loop, tried in the same order. */
  function LexFrom(s: string, i: nat): Option<seq<Token>>
    requires i <= |s|
    decreases |s| - i
  {
    if i == |s| then Some([])
    else
      var c := s[i];
      if c == '\n' then Cons(Token(Newline, ""), LexFrom(s, i + 1))
      else if IsSpace(c) then LexFrom(s, i + 1)
      else if c == '#' then LexFrom(s, CommentEnd(s, i + 1))
      else if c == '=' then Cons(Token(Equal, ""), LexFrom(s, i + 1))
      else if c == '[' then Cons(Token(LBrace, ""), LexFrom(s, i + 1))
      else if c == ']' then Cons(Token(RBrace, ""), LexFrom(s, i + 1))
      else if c == '\\' then Cons(Token(BSlash, ""), LexFrom(s, i + 1))
      else if c == '"' then
        var q := NextQuote(s, i + 1);
        if q == |s| then Some([])  // no closing quote: the scan ends and succeeds
        else Cons(Token(Str, s[i..q + 1]), LexFrom(s, q + 1))
      else if IsAlpha(c) then
        var j := IdentEnd(s, i + 1);
        if j == |s| && i + 1 < j then Some([])  // a longer identifier that reaches the end is dropped
        else Cons(Token(Id, s[i..j]), LexFrom(s, j))
      else None
  }

  /** The result of `scan` on the whole input. */
  function Lex(s: string): Option<seq<Token>>
  {
    LexFrom(s, 0)
  }

  /** `struct lex`: the input and a cursor into it. */
  class Lexer {
    const input: string
    var pos: nat

    ghost predicate Valid()
      reads this
    {
      pos <= |input| && NoNul(input)
    }

    /** `lex_init` */
    constructor (input: string)
      requires NoNul(input)
      ensures Valid() && this.input == input && pos == 0
    {
      this.input := input;
      pos := 0;
    }

    /** `lex_read`: the character under the cursor; at the end it is the terminating NUL. */
    function Read(): (c: char)
      reads this
      requires Valid()
      ensures c == '\0' <==> pos == |input|
      ensures pos < |input| ==> c == input[pos]
    {
      if pos < |input| then input[pos] else '\0'
    }

    /** `lex_has_next`: the C test for the terminator is the test for the end of the input. */
    function HasNext(): (b: bool)
      reads this
      requires Valid()
      ensures b <==> Read() != '\0'
    {
      pos < |input|
    }

    /** `lex_next`: the character under the cursor, which then moves on by one. */
    method Next() returns (c: char)
      requires Valid() && HasNext()
      modifies this
      ensures Valid() && pos == old(pos) + 1 && c == input[old(pos)]
    {
      c := input[pos];
      pos := pos + 1;
    }

    /** The comment loop of `scan`: characters up to and including the next newline. */
    method SkipComment()
      requires Valid()
      modifies this
      ensures Valid() && pos == CommentEnd(input, old(pos))
    {
      ghost var start := pos;
      while HasNext()
        invariant Valid() && start <= pos
        invariant CommentEnd(input, pos) == CommentEnd(input, start)
        decreases |input| - pos
      {
        var d := Next();
        if d == '\n' {
          break;
        }
      }
    }

    /** The string loop of `scan`, entered just past the opening quote at p: the token runs
        from that quote through the next one, or there is none if no quote follows. */
    method ScanString(p: nat) returns (t: Option<Token>)
      requires Valid() && p < |input| && pos == p + 1 && input[p] == '"'
      modifies this
      ensures Valid()
      ensures var q := NextQuote(input, p + 1);
        if q == |input| then t == None && pos == |input|
        else t == Some(Token(Str, input[p..q + 1])) && pos == q + 1
    {
      var n := 1;
      t := None;
      while HasNext()
        invariant Valid() && pos == p + n
        invariant NextQuote(input, pos) == NextQuote(input, p + 1)
        decreases |input| - pos
      {
        var d := Next();
        if d == '"' {
          t := Some(Token(Str, GetString(input, p, n + 1)));
          break;
        }
        n := n + 1;
      }
    }

    /** The identifier loop of `scan`, entered just past the letter at p. It stops, without
        consuming it, at the first character that cannot continue the identifier; at the end
        of the input it reads the terminating NUL only if no character followed the letter. */
    method ScanIdent(p: nat) returns (t: Option<Token>)
      requires Valid() && p < |input| && pos == p + 1 && IsAlpha(input[p])
      modifies this
      ensures Valid()
      ensures var j := IdentEnd(input, p + 1);
        if j == |input| && p + 1 < j then t == None && pos == |input|
        else t == Some(Token(Id, input[p..j])) && pos == j
    {
      var n := 1;
      t := None;
      while true
        invariant Valid() && pos == p + n
        invariant pos == |input| ==> n == 1
        invariant IdentEnd(input, pos) == IdentEnd(input, p + 1)
        decreases |input| - pos
      {
        var d := Read();
        if !(d == '_' || IsAlnum(d)) {
          t := Some(Token(Id, GetString(input, p, n)));
          break;
        }
        var skipped := Next();
        n := n + 1;
        if !HasNext() {
          break;
        }
      }
    }
  }

  lemma PrefixCons(acc: seq<Token>, t: Token, r: Option<seq<Token>>)
    ensures Prefix(acc, Cons(t, r)) == Prefix(acc + [t], r)
  {
    match r
    case None =>
    case Some(ts) =>
      assert acc + ([t] + ts) == (acc + [t]) + ts;
  }

  lemma PrefixEmpty(r: Option<seq<Token>>)
    ensures Prefix([], r) == r
  {
    match r
    case None =>
    case Some(ts) =>
      assert [] + ts == ts;
  }

  /** `scan`: the tokens of the input, or None on a character that no rule accepts. */
  method Scan(input: string) returns (r: Option<seq<Token>>)
    requires NoNul(input)
    ensures r == Lex(input)
  {
    var v: seq<Token> := [];
    var lex := new Lexer(input);
    PrefixEmpty(Lex(input));
    while lex.HasNext()
      invariant lex.Valid() && lex.input == input
      invariant Lex(input) == Prefix(v, LexFrom(input, lex.pos))
      decreases |input| - lex.pos
    {
      var p := lex.pos;
      var c := lex.Next();
      if c == '\n' {
        PrefixCons(v, Token(Newline, ""), LexFrom(input, p + 1));
        v := v + [Token(Newline, "")];
      } else if IsSpace(c) {
      } else if c == '#' {
        lex.SkipComment();
      } else if c == '=' {
        PrefixCons(v, Token(Equal, ""), LexFrom(input, p + 1));
        v := v + [Token(Equal, "")];
      } else if c == '[' {
        PrefixCons(v, Token(LBrace, ""), LexFrom(input, p + 1));
        v := v + [Token(LBrace, "")];
      } else if c == ']' {
        PrefixCons(v, Token(RBrace, ""), LexFrom(input, p + 1));
        v := v + [Token(RBrace, "")];
      } else if c == '\\' {
        PrefixCons(v, Token(BSlash, ""), LexFrom(input, p + 1));
        v := v + [Token(BSlash, "")];
      } else if c == '"' {
        var t := lex.ScanString(p);
        if t.Some? {
          PrefixCons(v, t.value, LexFrom(input, lex.pos));
          v := v + [t.value];
        }
      } else if IsAlpha(c) {
        var t := lex.ScanIdent(p);
        if t.Some? {
          PrefixCons(v, t.value, LexFrom(input, lex.pos));
          v := v + [t.value];
        }
      } else {
        return None;
      }
    }
    assert v + [] == v;
    r := Some(v);
  }

  // ---------------------------------------------------------------------------------------
  // What a scan produces.

  /** The text of an identifier token: a letter, then letters, digits and underscores. */
  predicate IsIdentifier(x: string)
  {
    |x| > 0 && IsAlpha(x[0]) && forall k :: 0 < k < |x| ==> IsIdentChar(x[k])
  }

  /** The text of a string token: two double quotes around text that holds none. */
  predicate IsQuoted(x: string)
  {
    |x| >= 2 && x[0] == '"' && x[|x| - 1] == '"' && forall k :: 0 < k < |x| - 1 ==> x[k] != '"'
  }

  /** The tokens `scan` can produce. */
  predicate WellFormed(t: Token)
  {
    match t.kind
    case Id => IsIdentifier(t.value)
    case Str => IsQuoted(t.value)
    case _ => t.value == ""
  }

  predicate AllWellFormed(ts: seq<Token>)
  {
    forall k :: 0 <= k < |ts| ==> WellFormed(ts[k])
  }

  /** Every token of a successful scan is well formed: identifiers start with a letter and
      continue over letters, digits and underscores; strings carry both quotes and no escape
      processing; the other kinds carry no text. */
  lemma {:induction false} LexWellFormed(s: string, i: nat)
    requires i <= |s|
    ensures LexFrom(s, i).Some? ==> AllWellFormed(LexFrom(s, i).value)
    decreases |s| - i, 1
  {
    if i < |s| {
      var c := s[i];
      if c == '\n' || c == '=' || c == '[' || c == ']' || c == '\\' {
        MarkWellFormed(s, i);
      } else if IsSpace(c) {
        LexWellFormed(s, i + 1);
      } else if c == '#' {
        LexWellFormed(s, CommentEnd(s, i + 1));
      } else if c == '"' {
        StringWellFormed(s, i);
      } else if IsAlpha(c) {
        IdentifierWellFormed(s, i);
      }
    }
  }

  lemma {:induction false} MarkWellFormed(s: string, i: nat)
    requires i < |s| && s[i] in "\n=[]\\"
    ensures LexFrom(s, i).Some? ==> AllWellFormed(LexFrom(s, i).value)
    decreases |s| - i, 0
  {
    var c := s[i];
    LexWellFormed(s, i + 1);
    var t := Token(if c == '\n' then Newline else if c == '=' then Equal
      else if c == '[' then LBrace else if c == ']' then RBrace else BSlash, "");
    ConsWellFormed(t, LexFrom(s, i + 1));
  }

  lemma {:induction false} StringWellFormed(s: string, i: nat)
    requires i < |s| && s[i] == '"'
    ensures LexFrom(s, i).Some? ==> AllWellFormed(LexFrom(s, i).value)
    decreases |s| - i, 0
  {
    var q := NextQuote(s, i + 1);
    if q < |s| {
      LexWellFormed(s, q + 1);
      assert IsQuoted(s[i..q + 1]);
      ConsWellFormed(Token(Str, s[i..q + 1]), LexFrom(s, q + 1));
    }
  }

  lemma {:induction false} IdentifierWellFormed(s: string, i: nat)
    requires i < |s| && IsAlpha(s[i])
    ensures LexFrom(s, i).Some? ==> AllWellFormed(LexFrom(s, i).value)
    decreases |s| - i, 0
  {
    var j := IdentEnd(s, i + 1);
    if !(j == |s| && i + 1 < j) {
      LexWellFormed(s, j);
      assert IsIdentifier(s[i..j]);
      ConsWellFormed(Token(Id, s[i..j]), LexFrom(s, j));
    }
  }

  lemma ConsWellFormed(t: Token, r: Option<seq<Token>>)
    requires WellFormed(t) && (r.Some? ==> AllWellFormed(r.value))
    ensures Cons(t, r).Some? ==> AllWellFormed(Cons(t, r).value)
  {
    if r.Some? {
      forall k | 0 <= k < |Cons(t, r).value|
        ensures WellFormed(Cons(t, r).value[k])
      {
        if k > 0 {
          assert Cons(t, r).value[k] == r.value[k - 1];
        }
      }
    }
  }

  // ---------------------------------------------------------------------------------------
  // Spelling tokens out, and scanning them back.

  /** The characters that stand for a token in the input. */
  function Spell(t: Token): string
  {
    match t.kind
    case Id => t.value
    case Str => t.value
    case LBrace => "["
    case RBrace => "]"
    case BSlash => "\\"
    case Equal => "="
    case Newline => "\n"
  }

  /** A token sequence written out with a space after every token. */
  function SpellAll(ts: seq<Token>): string
  {
    if ts == [] then "" else Spell(ts[0]) + " " + SpellAll(ts[1..])
  }

  lemma NextQuoteAt(s: string, i: nat, q: nat)
    requires i <= q < |s| && s[q] == '"'
    requires forall k :: i <= k < q ==> s[k] != '"'
    ensures NextQuote(s, i) == q
  {
  }

  lemma IdentEndAt(s: string, i: nat, j: nat)
    requires i <= j < |s| && !IsIdentChar(s[j])
    requires forall k :: i <= k < j ==> IsIdentChar(s[k])
    ensures IdentEnd(s, i) == j
  {
  }

  lemma CommentEndAt(s: string, i: nat, j: nat)
    requires i <= j < |s| && s[j] == '\n'
    requires forall k :: i <= k < j ==> s[k] != '\n'
    ensures CommentEnd(s, i) == j + 1
  {
  }

  /** A well-formed token spelled out at i scans as that token, provided an identifier is
      followed by a character that cannot continue it. */
  lemma LexToken(s: string, i: nat, t: Token)
    requires WellFormed(t)
    requires i + |Spell(t)| <= |s| && s[i..i + |Spell(t)|] == Spell(t)
    requires t.kind == Id ==> i + |Spell(t)| < |s| && !IsIdentChar(s[i + |Spell(t)|])
    ensures LexFrom(s, i) == Cons(t, LexFrom(s, i + |Spell(t)|))
  {
    if t.kind == Str {
      assert t == Token(Str, t.value) && Spell(t) == t.value;
      LexString(s, i, t.value);
    } else if t.kind == Id {
      assert t == Token(Id, t.value) && Spell(t) == t.value;
      LexIdentifier(s, i, t.value);
    } else {
      LexMark(s, i, t);
    }
  }

  /** A one-character token. */
  lemma LexMark(s: string, i: nat, t: Token)
    requires t.kind != Str && t.kind != Id && t.value == ""
    requires i < |s| && s[i] == Spell(t)[0]
    ensures LexFrom(s, i) == Cons(t, LexFrom(s, i + 1))
  {
  }

  lemma LexString(s: string, i: nat, v: string)
    requires IsQuoted(v)
    requires i + |v| <= |s| && s[i..i + |v|] == v
    ensures LexFrom(s, i) == Cons(Token(Str, v), LexFrom(s, i + |v|))
  {
    var n := |v|;
    assert s[i] == v[0];
    forall k | i + 1 <= k < i + n - 1
      ensures s[k] != '"'
    {
      assert s[k] == v[k - i];
    }
    assert s[i + n - 1] == v[n - 1];
    NextQuoteAt(s, i + 1, i + n - 1);
  }

  lemma LexIdentifier(s: string, i: nat, v: string)
    requires IsIdentifier(v)
    requires i + |v| < |s| && s[i..i + |v|] == v && !IsIdentChar(s[i + |v|])
    ensures LexFrom(s, i) == Cons(Token(Id, v), LexFrom(s, i + |v|))
  {
    var n := |v|;
    assert s[i] == v[0];
    forall k | i + 1 <= k < i + n
      ensures IsIdentChar(s[k])
    {
      assert s[k] == v[k - i];
    }
    IdentEndAt(s, i + 1, i + n);
  }

  lemma ConsPrefix(t: Token, ts: seq<Token>, r: Option<seq<Token>>)
    ensures Cons(t, Prefix(ts, r)) == Prefix([t] + ts, r)
  {
    match r
    case None =>
    case Some(us) =>
      assert [t] + (ts + us) == ([t] + ts) + us;
  }

  lemma ConsChain(ts: seq<Token>, a: Option<seq<Token>>, b: Option<seq<Token>>, r: Option<seq<Token>>)
    requires ts != [] && a == Cons(ts[0], b) && b == Prefix(ts[1..], r)
    ensures a == Prefix(ts, r)
  {
    ConsPrefix(ts[0], ts[1..], r);
    assert [ts[0]] + ts[1..] == ts;
  }

  /** A space is skipped. */
  lemma LexSpace(s: string, i: nat)
    requires i < |s| && s[i] == ' '
    ensures LexFrom(s, i) == LexFrom(s, i + 1)
  {
  }

  /** A slice that spells a concatenation splits into slices spelling its parts. */
  lemma SliceConcat<T>(s: seq<T>, i: nat, x: seq<T>, y: seq<T>)
    requires i + |x| + |y| <= |s| && s[i..i + |x| + |y|] == x + y
    ensures s[i..i + |x|] == x && s[i + |x|..i + |x| + |y|] == y
  {
    assert s[i..i + |x|] == s[i..i + |x| + |y|][..|x|];
    assert s[i + |x|..i + |x| + |y|] == s[i..i + |x| + |y|][|x|..];
  }

  /** s holds the spelling of ts from i on. */
  predicate SpelledAt(s: string, i: nat, ts: seq<Token>)
  {
    i + |SpellAll(ts)| <= |s| && s[i..i + |SpellAll(ts)|] == SpellAll(ts)
  }

  /** The spelling of a non-empty sequence: its first token, a space, then the rest. */
  lemma SpellAllSplit(s: string, i: nat, ts: seq<Token>)
    requires ts != [] && SpelledAt(s, i, ts)
    ensures var n := |Spell(ts[0])|;
      && i + n < |s| && s[i..i + n] == Spell(ts[0]) && s[i + n] == ' '
      && i + n + 1 + |SpellAll(ts[1..])| == i + |SpellAll(ts)|
      && SpelledAt(s, i + n + 1, ts[1..])
  {
    var x, y := Spell(ts[0]), SpellAll(ts[1..]);
    assert SpellAll(ts) == x + " " + y;
    SliceSpaced(s, i, x, y);
  }

  /** A slice holding x, a space and y splits into the three. */
  lemma SliceSpaced(s: string, i: nat, x: string, y: string)
    requires i + |x| + 1 + |y| <= |s| && s[i..i + |x| + 1 + |y|] == x + " " + y
    ensures i + |x| < |s| && s[i..i + |x|] == x && s[i + |x|] == ' '
    ensures s[i + |x| + 1..i + |x| + 1 + |y|] == y
  {
    SliceConcat(s, i, x + " ", y);
    SliceConcat(s, i, x, " ");
    assert s[i + |x|] == s[i + |x|..i + |x| + 1][0];
  }

  lemma RestWellFormed(ts: seq<Token>)
    requires ts != [] && AllWellFormed(ts)
    ensures AllWellFormed(ts[1..]) && WellFormed(ts[0])
  {
    forall k | 0 <= k < |ts[1..]|
      ensures WellFormed(ts[1..][k])
    {
      assert ts[1..][k] == ts[k + 1];
    }
  }

  /** Scanning a spelled-out token sequence yields exactly those tokens, in order, in front
      of whatever the rest of the input yields. */
  lemma {:induction false} LexSpelled(s: string, i: nat, ts: seq<Token>)
    requires AllWellFormed(ts)
    requires i + |SpellAll(ts)| <= |s| && s[i..i + |SpellAll(ts)|] == SpellAll(ts)
    ensures LexFrom(s, i) == Prefix(ts, LexFrom(s, i + |SpellAll(ts)|))
  {
    LexSpelledAt(s, i, ts, i + |SpellAll(ts)|);
  }

  lemma {:induction false} LexSpelledAt(s: string, i: nat, ts: seq<Token>, e: nat)
    requires AllWellFormed(ts) && SpelledAt(s, i, ts) && e == i + |SpellAll(ts)|
    ensures e <= |s| && LexFrom(s, i) == Prefix(ts, LexFrom(s, e))
    decreases ts
  {
    if ts == [] {
      PrefixEmpty(LexFrom(s, i));
    } else {
      var j := LexFirst(s, i, ts);
      LexSpelledAt(s, j, ts[1..], e);
      ConsChain(ts, LexFrom(s, i), LexFrom(s, j), LexFrom(s, e));
    }
  }

  /** The first spelled token and its space scan to that token. */
  lemma LexFirst(s: string, i: nat, ts: seq<Token>) returns (j: nat)
    requires ts != [] && AllWellFormed(ts)
    requires SpelledAt(s, i, ts)
    ensures j == i + |Spell(ts[0])| + 1
    ensures j + |SpellAll(ts[1..])| == i + |SpellAll(ts)|
    ensures SpelledAt(s, j, ts[1..]) && AllWellFormed(ts[1..])
    ensures LexFrom(s, i) == Cons(ts[0], LexFrom(s, j))
  {
    var t := ts[0];
    SpellAllSplit(s, i, ts);
    RestWellFormed(ts);
    LexTokenSpace(s, i, t);
    j := i + |Spell(t)| + 1;
  }

  /** A token and the space after it. */
  lemma LexTokenSpace(s: string, i: nat, t: Token)
    requires WellFormed(t)
    requires i + |Spell(t)| < |s| && s[i..i + |Spell(t)|] == Spell(t) && s[i + |Spell(t)|] == ' '
    ensures LexFrom(s, i) == Cons(t, LexFrom(s, i + |Spell(t)| + 1))
  {
    LexToken(s, i, t);
    LexSpace(s, i + |Spell(t)|);
  }

  /** `scan` inverts spelling: every sequence of well-formed tokens is recovered exactly. */
  lemma LexInvertsSpell(ts: seq<Token>)
    requires AllWellFormed(ts)
    ensures Lex(SpellAll(ts)) == Some(ts)
  {
    var s := SpellAll(ts);
    assert s[0..|s|] == s;
    LexSpelled(s, 0, ts);
    assert ts + [] == ts;
  }

  /** A character that no rule accepts makes the whole scan fail: the tokens read before it
      are discarded, whatever follows it. */
  lemma UnknownCharacterDiscardsTokens(ts: seq<Token>, c: char, rest: string)
    requires AllWellFormed(ts) && IsUnknown(c)
    ensures Lex(SpellAll(ts) + [c] + rest) == None
  {
    var s := SpellAll(ts) + [c] + rest;
    assert s[0..|SpellAll(ts)|] == SpellAll(ts);
    LexSpelled(s, 0, ts);
    assert s[|SpellAll(ts)|] == c;
  }

  // ---------------------------------------------------------------------------------------
  // The rules one at a time.

  /** The number of newline characters in s from i on. */
  function NewlinesFrom(s: string, i: nat): nat
    requires i <= |s|
    decreases |s| - i
  {
    if i == |s| then 0 else (if s[i] == '\n' then 1 else 0) + NewlinesFrom(s, i + 1)
  }

  /** n NEWLINE tokens. */
  function Newlines(n: nat): seq<Token>
  {
    if n == 0 then [] else [Token(Newline, "")] + Newlines(n - 1)
  }

  /** The number of NEWLINE tokens in ts. */
  function NewlineTokens(ts: seq<Token>): nat
  {
    if ts == [] then 0 else (if ts[0].kind == Newline then 1 else 0) + NewlineTokens(ts[1..])
  }

  lemma {:induction false} NoNewlinesFrom(s: string, i: nat, j: nat)
    requires i <= j <= |s|
    requires forall k :: i <= k < j ==> s[k] != '\n'
    ensures NewlinesFrom(s, i) == NewlinesFrom(s, j)
    decreases j - i
  {
    if i < j {
      NoNewlinesFrom(s, i + 1, j);
    }
  }

  /** Input made only of white space scans to one NEWLINE token per newline character and
      nothing for the other white space. */
  lemma {:induction false} BlankInput(s: string, i: nat)
    requires i <= |s|
    requires forall k :: i <= k < |s| ==> IsSpace(s[k])
    ensures LexFrom(s, i) == Some(Newlines(NewlinesFrom(s, i)))
    decreases |s| - i
  {
    if i < |s| {
      BlankInput(s, i + 1);
    }
  }

  /** In input with no `#` and no `"` from i on, every newline character yields exactly one
      NEWLINE token when the scan succeeds, and nothing else does. */
  lemma {:induction false} NewlineTokensCount(s: string, i: nat)
    requires i <= |s|
    requires forall k :: i <= k < |s| ==> s[k] != '#' && s[k] != '"'
    ensures LexFrom(s, i).Some? ==> NewlineTokens(LexFrom(s, i).value) == NewlinesFrom(s, i)
    decreases |s| - i
  {
    if i < |s| {
      var c := s[i];
      if c == '\n' || IsSpace(c) || c == '=' || c == '[' || c == ']' || c == '\\' {
        NewlineTokensCount(s, i + 1);
        if LexFrom(s, i + 1).Some? && !IsSpace(c) {
          var t := Token(if c == '=' then Equal else if c == '[' then LBrace else if c == ']' then RBrace else BSlash, "");
          assert LexFrom(s, i).value == [t] + LexFrom(s, i + 1).value;
          assert ([t] + LexFrom(s, i + 1).value)[1..] == LexFrom(s, i + 1).value;
        } else if LexFrom(s, i + 1).Some? && c == '\n' {
          var t := Token(Newline, "");
          assert LexFrom(s, i).value == [t] + LexFrom(s, i + 1).value;
          assert ([t] + LexFrom(s, i + 1).value)[1..] == LexFrom(s, i + 1).value;
        }
      } else if IsAlpha(c) {
        var j := IdentEnd(s, i + 1);
        NoNewlinesFrom(s, i, j);
        if !(j == |s| && i + 1 < j) {
          NewlineTokensCount(s, j);
          if LexFrom(s, j).Some? {
            var t := Token(Id, s[i..j]);
            assert LexFrom(s, i).value == [t] + LexFrom(s, j).value;
            assert ([t] + LexFrom(s, j).value)[1..] == LexFrom(s, j).value;
          }
        }
      }
    }
  }

  /** A comment swallows the newline that ends it: from the '#' through that newline the
      input contributes no token at all. */
  lemma CommentEmitsNothing(s: string, i: nat, j: nat)
    requires i < j < |s| && s[i] == '#' && s[j] == '\n'
    requires forall k :: i < k < j ==> s[k] != '\n'
    ensures LexFrom(s, i) == LexFrom(s, j + 1)
  {
    CommentEndAt(s, i + 1, j);
  }

  /** A comment with no newline after it runs to the end of the input: the scan ends there
      and succeeds with no token from the comment. */
  lemma CommentToEnd(s: string, i: nat)
    requires i < |s| && s[i] == '#'
    requires forall k :: i < k < |s| ==> s[k] != '\n'
    ensures LexFrom(s, i) == Some([])
  {
    assert CommentEnd(s, i + 1) == |s|;
  }

  /** A double quote followed by a closing one makes a STRING token holding exactly the
      characters from the opening quote through the closing one. */
  lemma StringVerbatim(s: string, i: nat, q: nat)
    requires i < q < |s| && s[i] == '"' && s[q] == '"'
    requires forall k :: i < k < q ==> s[k] != '"'
    ensures LexFrom(s, i) == Cons(Token(Str, s[i..q + 1]), LexFrom(s, q + 1))
    ensures s[i..q + 1][0] == '"' && s[i..q + 1][q - i] == '"'
  {
    NextQuoteAt(s, i + 1, q);
  }

  /** A double quote with no closing one ends the scan: no token for it, nothing after it,
      and the scan still succeeds. */
  lemma UnterminatedString(s: string, i: nat)
    requires i < |s| && s[i] == '"'
    requires forall k :: i < k < |s| ==> s[k] != '"'
    ensures LexFrom(s, i) == Some([])
  {
    assert NextQuote(s, i + 1) == |s|;
  }

  /** An identifier stops at the first character that cannot continue it, and that
      character is scanned next. */
  lemma IdentifierToken(s: string, i: nat, j: nat)
    requires i < j < |s| && IsAlpha(s[i]) && !IsIdentChar(s[j])
    requires forall k :: i < k < j ==> IsIdentChar(s[k])
    ensures LexFrom(s, i) == Cons(Token(Id, s[i..j]), LexFrom(s, j))
  {
    IdentEndAt(s, i + 1, j);
  }

  /** An identifier that runs to the end of the input is dropped unless it is one letter. */
  lemma IdentifierAtEnd(s: string, i: nat)
    requires i < |s| && IsAlpha(s[i])
    requires forall k :: i < k < |s| ==> IsIdentChar(s[k])
    ensures LexFrom(s, i) == if i + 1 == |s| then Some([Token(Id, s[i..])]) else Some([])
  {
    assert IdentEnd(s, i + 1) == |s|;
    assert LexFrom(s, |s|) == Some([]);
    if i + 1 == |s| {
      assert s[i..|s|] == s[i..];
      assert [Token(Id, s[i..])] + [] == [Token(Id, s[i..])];
    }
  }
}
