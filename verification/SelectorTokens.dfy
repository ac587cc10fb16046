/** What a nested selector resolves to, said in the tokens of its text. */
module SelectorTokens {
  import opened Options
  import opened JsText
  import opened CssScan
  import opened CssTokens
  import N = NestedSelectors

  /** The scanner outside quotes and escapes. */
  function Within(parentheses: nat, brackets: nat): N.Lexer {
    N.Lexer(None, false, parentheses, brackets)
  }

  /** What an ampersand that stands by itself is replaced by. */
  function SpellWith(ts: seq<Token>, replacement: JsString): JsString {
    if ts == [] then []
    else SpellWith(ts[..|ts| - 1], replacement)
         + if ts[|ts| - 1] == Sole(N.AMPERSAND) then replacement else SpellToken(ts[|ts| - 1])
  }

  /** A comma that stands by itself, outside parentheses and brackets. */
  ghost predicate HasListComma(ts: seq<Token>) {
    exists n :: 0 <= n < |ts| && ts[n] == Sole(N.COMMA)
      && Depth(ts[..n], OPEN, CLOSE) == 0 && Depth(ts[..n], N.OPEN_BRACKET, N.CLOSE_BRACKET) == 0
  }

  /** Parentheses and brackets are each balanced; how they cross each other does not matter. */
  ghost predicate Balanced(ts: seq<Token>) {
    && Nested(ts, OPEN, CLOSE) && Nested(ts, N.OPEN_BRACKET, N.CLOSE_BRACKET)
    && Depth(ts, OPEN, CLOSE) == 0 && Depth(ts, N.OPEN_BRACKET, N.CLOSE_BRACKET) == 0
  }

  /** Two texts that the scanner ends alike after, with what it found in them. */
  ghost predicate Same(a: JsString, b: JsString, more: JsString, replacement: JsString) {
    && N.Lex(N.OUTSIDE, b) == N.Lex(N.OUTSIDE, a)
    && N.Substituted(N.OUTSIDE, b, replacement) == N.Substituted(N.OUTSIDE, a, replacement) + more
    && N.Nests(N.OUTSIDE, b) == N.Nests(N.OUTSIDE, a) && N.Lists(N.OUTSIDE, b) == N.Lists(N.OUTSIDE, a)
  }

  lemma {:induction false} OverSigns(t: JsString, m: CodeUnit, ss: seq<Sign>, replacement: JsString)
    requires ProperInside(m, ss)
    requires N.Lex(N.OUTSIDE, t).Some? && !N.Lex(N.OUTSIDE, t).value.escaped && N.Lex(N.OUTSIDE, t).value.quote == Some(m)
    ensures Same(t, t + SpellSigns(ss), SpellSigns(ss), replacement)
  {
    hide N.Lex, N.Substituted, N.Nests, N.Lists, SpellSigns;
    if ss == [] {
      NoSigns();
      assert t + [] == t;
    } else {
      var init, last := ss[..|ss| - 1], ss[|ss| - 1];
      OverSigns(t, m, init, replacement);
      assert ss == init + [last];
      SignsSnoc(init, last);
      var u := t + SpellSigns(init);
      match last
      case Bare(c) =>
        N.Snoc(N.OUTSIDE, u, c, replacement);
        assert t + (SpellSigns(init) + [c]) == u + [c];
      case Behind(c) =>
        N.Snoc(N.OUTSIDE, u, BACKSLASH, replacement);
        N.Snoc(N.OUTSIDE, u + [BACKSLASH], c, replacement);
        assert t + (SpellSigns(init) + ([BACKSLASH] + [c])) == u + [BACKSLASH] + [c];
    }
  }

  lemma OverBehind(t: JsString, c: CodeUnit, replacement: JsString)
    requires N.Lex(N.OUTSIDE, t).Some? && N.Counts(N.Lex(N.OUTSIDE, t).value)
    ensures Same(t, t + ([BACKSLASH] + [c]), [BACKSLASH] + [c], replacement)
  {
    hide N.Lex, N.Substituted, N.Nests, N.Lists;
    N.Snoc(N.OUTSIDE, t, BACKSLASH, replacement);
    N.Snoc(N.OUTSIDE, t + [BACKSLASH], c, replacement);
    assert t + ([BACKSLASH] + [c]) == t + [BACKSLASH] + [c];
  }

  lemma OverQuoted(t: JsString, m: CodeUnit, inside: seq<Sign>, replacement: JsString)
    requires N.Lex(N.OUTSIDE, t).Some? && N.Counts(N.Lex(N.OUTSIDE, t).value) && IsMark(m) && ProperInside(m, inside)
    ensures var out := [m] + SpellSigns(inside) + [m]; Same(t, t + out, out, replacement)
  {
    hide N.Lex, N.Substituted, N.Nests, N.Lists, SpellSigns;
    N.Snoc(N.OUTSIDE, t, m, replacement);
    OverSigns(t + [m], m, inside, replacement);
    N.Snoc(N.OUTSIDE, t + [m] + SpellSigns(inside), m, replacement);
    assert t + ([m] + SpellSigns(inside) + [m]) == t + [m] + SpellSigns(inside) + [m];
  }

  /** What the scanner and the replacement know after one more token. */
  ghost predicate Moves(t: JsString, next: JsString, token: Token, p: nat, b: nat, replacement: JsString) {
    && N.Lex(N.OUTSIDE, next)
       == (if (token == Sole(CLOSE) && p == 0) || (token == Sole(N.CLOSE_BRACKET) && b == 0) then None
           else Some(Within(p + Deeper(token, OPEN, CLOSE), b + Deeper(token, N.OPEN_BRACKET, N.CLOSE_BRACKET))))
    && N.Substituted(N.OUTSIDE, next, replacement)
       == N.Substituted(N.OUTSIDE, t, replacement) + (if token == Sole(N.AMPERSAND) then replacement else SpellToken(token))
    && (N.Nests(N.OUTSIDE, next) <==> N.Nests(N.OUTSIDE, t) || token == Sole(N.AMPERSAND))
    && (N.Lists(N.OUTSIDE, next) <==> N.Lists(N.OUTSIDE, t) || (token == Sole(N.COMMA) && p == 0 && b == 0))
  }

  lemma OverBare(t: JsString, c: CodeUnit, p: nat, b: nat, replacement: JsString)
    requires ProperToken(Sole(c)) && N.Lex(N.OUTSIDE, t) == Some(Within(p, b))
    ensures Moves(t, t + [c], Sole(c), p, b, replacement)
  {
    hide N.Lex, N.Substituted, N.Nests, N.Lists;
    N.Snoc(N.OUTSIDE, t, c, replacement);
  }

  lemma OverToken(t: JsString, token: Token, p: nat, b: nat, replacement: JsString)
    requires ProperToken(token) && N.Lex(N.OUTSIDE, t) == Some(Within(p, b))
    ensures Moves(t, t + SpellToken(token), token, p, b, replacement)
  {
    hide N.Lex, N.Substituted, N.Nests, N.Lists, SpellSigns;
    match token
    case One(Bare(c)) => OverBare(t, c, p, b, replacement);
    case One(Behind(c)) => OverBehind(t, c, replacement);
    case Quoted(m, inside) => OverQuoted(t, m, inside, replacement);
  }

  lemma NoTokens(replacement: JsString)
    ensures Spell([]) == [] && SpellWith([], replacement) == [] && N.Lex(N.OUTSIDE, []) == Some(N.OUTSIDE)
    ensures N.Substituted(N.OUTSIDE, [], replacement) == [] && !N.Nests(N.OUTSIDE, []) && !N.Lists(N.OUTSIDE, [])
    ensures forall up, down :: Depth([], up, down) == 0 && Nested([], up, down)
  {
  }

  lemma WithSnoc(ts: seq<Token>, t: Token, replacement: JsString)
    ensures SpellWith(ts + [t], replacement)
         == SpellWith(ts, replacement) + if t == Sole(N.AMPERSAND) then replacement else SpellToken(t)
  {
    assert (ts + [t])[..|ts|] == ts;
  }

  lemma CommaSnoc(ts: seq<Token>, t: Token)
    ensures HasListComma(ts + [t]) <==>
            HasListComma(ts)
            || (t == Sole(N.COMMA) && Depth(ts, OPEN, CLOSE) == 0 && Depth(ts, N.OPEN_BRACKET, N.CLOSE_BRACKET) == 0)
  {
    hide Depth;
    var more := ts + [t];
    assert forall n :: 0 <= n <= |ts| ==> more[..n] == ts[..n];
    if HasListComma(ts) {
      var n :| 0 <= n < |ts| && ts[n] == Sole(N.COMMA)
        && Depth(ts[..n], OPEN, CLOSE) == 0 && Depth(ts[..n], N.OPEN_BRACKET, N.CLOSE_BRACKET) == 0;
      assert more[n] == ts[n];
    }
    assert more[|ts|] == t;
  }

  lemma NestedDeep(ts: seq<Token>, up: CodeUnit, down: CodeUnit)
    requires Nested(ts, up, down)
    ensures Depth(ts, up, down) >= 0
  {
    assert ts[..|ts|] == ts;
  }

  lemma {:induction false} NoneStays(t: JsString, more: JsString)
    requires N.Lex(N.OUTSIDE, t).None?
    ensures N.Lex(N.OUTSIDE, t + more).None?
  {
    N.LexConcat(N.OUTSIDE, t, more);
  }

  /** The scanner over tokens, with what is replaced in them and whether they are a list. */
  lemma {:induction false} LexTokens(ts: seq<Token>, replacement: JsString)
    requires Proper(ts)
    ensures var t := Spell(ts);
      var nested := Nested(ts, OPEN, CLOSE) && Nested(ts, N.OPEN_BRACKET, N.CLOSE_BRACKET);
      && (!nested ==> N.Lex(N.OUTSIDE, t) == None)
      && (nested ==>
            && Depth(ts, OPEN, CLOSE) >= 0 && Depth(ts, N.OPEN_BRACKET, N.CLOSE_BRACKET) >= 0
            && N.Lex(N.OUTSIDE, t) == Some(Within(Depth(ts, OPEN, CLOSE), Depth(ts, N.OPEN_BRACKET, N.CLOSE_BRACKET)))
            && N.Substituted(N.OUTSIDE, t, replacement) == SpellWith(ts, replacement)
            && (N.Nests(N.OUTSIDE, t) <==> Sole(N.AMPERSAND) in ts) && (N.Lists(N.OUTSIDE, t) <==> HasListComma(ts)))
  {
    hide N.Lex, N.Substituted, N.Nests, N.Lists, Spell, SpellWith, Depth, Nested, HasListComma, Proper, SpellToken;
    NoTokens(replacement);
    if ts == [] {
      NoComma();
    } else {
      var init, last := ts[..|ts| - 1], ts[|ts| - 1];
      assert ts == init + [last];
      Snoc(init, last);
      LexTokens(init, replacement);
      NestedSnoc(init, last, OPEN, CLOSE);
      NestedSnoc(init, last, N.OPEN_BRACKET, N.CLOSE_BRACKET);
      WithSnoc(init, last, replacement);
      CommaSnoc(init, last);
      if Nested(init, OPEN, CLOSE) && Nested(init, N.OPEN_BRACKET, N.CLOSE_BRACKET) {
        OverToken(Spell(init), last, Depth(init, OPEN, CLOSE), Depth(init, N.OPEN_BRACKET, N.CLOSE_BRACKET), replacement);
      } else {
        NoneStays(Spell(init), SpellToken(last));
      }
    }
  }

  lemma NoComma()
    ensures !HasListComma([])
  {
  }

  /** A text that ends behind a backslash or within quotes is not well-formed. */
  lemma RestIsInvalid(ts: seq<Token>, rest: Rest)
    requires Proper(ts) && ProperRest(rest) && rest != Complete
    ensures !N.LexicallyValid(Spell(ts) + SpellRest(rest))
  {
    hide N.Lex, N.Substituted, N.Nests, N.Lists, Spell, SpellSigns, Depth, Nested, Proper;
    var t := Spell(ts);
    LexTokens(ts, []);
    if N.Lex(N.OUTSIDE, t).None? {
      NoneStays(t, SpellRest(rest));
    } else {
      match rest
      case Backslash => N.Snoc(N.OUTSIDE, t, BACKSLASH, []);
      case Open(m, inside, escaped) =>
        N.Snoc(N.OUTSIDE, t, m, []);
        OverSigns(t + [m], m, inside, []);
        var u := t + [m] + SpellSigns(inside);
        assert t + ([m] + SpellSigns(inside) + []) == u && t + ([m] + SpellSigns(inside) + [BACKSLASH]) == u + [BACKSLASH];
        if escaped { N.Snoc(N.OUTSIDE, u, BACKSLASH, []); }
    }
  }

  /** A text is well-formed exactly if it is tokens whose parentheses and brackets are balanced. */
  lemma ValidByTokens(ts: seq<Token>, rest: Rest)
    requires Proper(ts) && ProperRest(rest)
    ensures N.LexicallyValid(Spell(ts) + SpellRest(rest)) <==> rest == Complete && Balanced(ts)
  {
    hide N.Lex, Spell, Depth, Nested, Proper, SpellRest;
    LexTokens(ts, []);
    if rest == Complete {
      NoRest();
      assert Spell(ts) + [] == Spell(ts);
    } else {
      RestIsInvalid(ts, rest);
    }
  }

  lemma NoRest()
    ensures SpellRest(Complete) == []
  {
  }

  function Parented(parent: JsString): JsString {
    Ascii(":is(") + parent + Ascii(")")
  }

  lemma ParentedIs(parent: JsString)
    ensures Parented(parent) == N.Replacement(parent)
  {
    assert Ascii(":is(") == N.IsPrefix() && Ascii(")") == [CLOSE];
  }

  /**
   * What a nested selector resolves to. In balanced tokens every ampersand that stands by itself becomes the parent in
   * `:is()`; without any, and without a comma outside parentheses and brackets, the parent is put before the trimmed
   * selector. The answer is there unless it is too long.
   */
  lemma ResolvedByTokens(limit: nat, ts: seq<Token>, rest: Rest, parent: JsString)
    requires Proper(ts) && ProperRest(rest)
    ensures var text := Spell(ts) + SpellRest(rest);
      var r := N.ResolveNested(limit, text, parent);
      var nests := Sole(N.AMPERSAND) in ts;
      var out := if nests then SpellWith(ts, Parented(parent)) else Parented(parent) + Ascii(" ") + Trim(text);
      && (r.Some? ==> rest == Complete && Balanced(ts) && (nests || !HasListComma(ts)) && r.value == out && |out| <= limit + 1)
      && (rest == Complete && Balanced(ts) && (nests || !HasListComma(ts)) && |out| <= limit
          && |SpellWith(ts, Parented(parent))| <= limit ==>
            r == Some(out))
  {
    hide N.Lex, N.Substituted, N.Nests, N.Lists, Spell, SpellWith, Depth, Nested, HasListComma, Proper, SpellRest, Trim;
    hide N.Walk, N.ResolveNested, N.EndsInEscapedPair, N.LexicallyValid, Balanced, N.Replacement, Parented;
    var text := Spell(ts) + SpellRest(rest);
    N.ResolvesExactly(limit, text, parent);
    ParentedIs(parent);
    ValidByTokens(ts, rest);
    NoRest();
    if rest == Complete && Balanced(ts) {
      assert text == Spell(ts);
      BalancedNested(ts);
      LexTokens(ts, N.Replacement(parent));
      assert Ascii(" ") == [SPACE];
    }
  }

  lemma BalancedNested(ts: seq<Token>)
    requires Balanced(ts)
    ensures Nested(ts, OPEN, CLOSE) && Nested(ts, N.OPEN_BRACKET, N.CLOSE_BRACKET)
  {
  }
}
