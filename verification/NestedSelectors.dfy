/** Nested style selectors, resolved against their parent: what is replaced, and that the result stays well-formed. */
module NestedSelectors {
  import opened Options
  import opened JsText
  import opened CssScan

  const AMPERSAND: CodeUnit := 38
  const OPEN_BRACKET: CodeUnit := 91
  const CLOSE_BRACKET: CodeUnit := 93
  const COMMA: CodeUnit := 44

  // ---- The lexical scan ----

  datatype Lexer = Lexer(quote: Option<CodeUnit>, escaped: bool, parentheses: nat, brackets: nat)

  const OUTSIDE: Lexer := Lexer(None, false, 0, 0)

  predicate Counts(s: Lexer) {
    !s.escaped && s.quote.None?
  }

  predicate IsQuote(c: CodeUnit) {
    c == DOUBLE_QUOTE || c == SINGLE_QUOTE
  }

  /** One character; closing what is not open is an error. */
  function Lex1(s: Lexer, c: CodeUnit): Option<Lexer> {
    if s.escaped then Some(s.(escaped := false))
    else if c == BACKSLASH then Some(s.(escaped := true))
    else if s.quote.Some? then Some(if s.quote == Some(c) then s.(quote := None) else s)
    else if IsQuote(c) then Some(s.(quote := Some(c)))
    else if c == OPEN then Some(s.(parentheses := s.parentheses + 1))
    else if c == CLOSE then if s.parentheses == 0 then None else Some(s.(parentheses := s.parentheses - 1))
    else if c == OPEN_BRACKET then Some(s.(brackets := s.brackets + 1))
    else if c == CLOSE_BRACKET then if s.brackets == 0 then None else Some(s.(brackets := s.brackets - 1))
    else Some(s)
  }

  function Lex(s: Lexer, t: JsString): Option<Lexer> {
    if t == [] then Some(s)
    else
      var before := Lex(s, t[..|t| - 1]);
      if before.None? then None else Lex1(before.value, t[|t| - 1])
  }

  /** `lexicallyValidSelector` */
  predicate LexicallyValid(t: JsString) {
    Lex(OUTSIDE, t) == Some(OUTSIDE)
  }

  /** The text with every ampersand that counts replaced. */
  function Substituted(s: Lexer, t: JsString, replacement: JsString): JsString {
    if t == [] then []
    else
      var init, c := t[..|t| - 1], t[|t| - 1];
      var at := Lex(s, init);
      Substituted(s, init, replacement) + if at.Some? && Counts(at.value) && c == AMPERSAND then replacement else [c]
  }

  /** Some ampersand counts. */
  predicate Nests(s: Lexer, t: JsString) {
    t != [] &&
    var init, c := t[..|t| - 1], t[|t| - 1];
    var at := Lex(s, init);
    Nests(s, init) || (at.Some? && Counts(at.value) && c == AMPERSAND)
  }

  /** Some comma separates two selectors of a list. */
  predicate Lists(s: Lexer, t: JsString) {
    t != [] &&
    var init, c := t[..|t| - 1], t[|t| - 1];
    var at := Lex(s, init);
    Lists(s, init) || (at.Some? && Counts(at.value) && c == COMMA && at.value.parentheses == 0 && at.value.brackets == 0)
  }

  lemma Snoc(s: Lexer, t: JsString, c: CodeUnit, replacement: JsString)
    ensures Lex(s, t + [c]) == if Lex(s, t).None? then None else Lex1(Lex(s, t).value, c)
    ensures Substituted(s, t + [c], replacement)
         == Substituted(s, t, replacement) + if Lex(s, t).Some? && Counts(Lex(s, t).value) && c == AMPERSAND then replacement else [c]
    ensures Nests(s, t + [c]) <==> Nests(s, t) || (Lex(s, t).Some? && Counts(Lex(s, t).value) && c == AMPERSAND)
    ensures Lists(s, t + [c]) <==> Lists(s, t) || (Lex(s, t).Some? && Counts(Lex(s, t).value) && c == COMMA
                                                   && Lex(s, t).value.parentheses == 0 && Lex(s, t).value.brackets == 0)
  {
    assert (t + [c])[..|t|] == t;
  }

  lemma LexNothing(s: Lexer)
    ensures Lex(s, []) == Some(s) && !Nests(s, []) && !Lists(s, [])
    ensures forall replacement :: Substituted(s, [], replacement) == []
  {
  }

  lemma {:induction false} LexConcat(s: Lexer, a: JsString, b: JsString)
    ensures Lex(s, a + b) == if Lex(s, a).None? then None else Lex(Lex(s, a).value, b)
  {
    if b == [] {
      assert a + b == a;
    } else {
      var init, last := b[..|b| - 1], b[|b| - 1];
      assert a + b == (a + init) + [last] && b == init + [last];
      LexConcat(s, a, init);
      Snoc(s, a + init, last, []);
      if Lex(s, a).Some? { Snoc(Lex(s, a).value, init, last, []); }
    }
  }

  /** A scanner inside more parentheses and brackets. */
  function Deeper(s: Lexer, base: Lexer): Lexer {
    Lexer(s.quote, s.escaped, s.parentheses + base.parentheses, s.brackets + base.brackets)
  }

  lemma {:induction false} LexDeeper(s: Lexer, base: Lexer, t: JsString)
    requires Lex(s, t).Some?
    ensures Lex(Deeper(s, base), t) == Some(Deeper(Lex(s, t).value, base))
  {
    if t != [] {
      var init, last := t[..|t| - 1], t[|t| - 1];
      assert t == init + [last];
      LexDeeper(s, base, init);
    }
  }

  /** Well-formed text can stand anywhere that counts and leaves the scanner as it was. */
  lemma ValidAnywhere(s: Lexer, t: JsString)
    requires LexicallyValid(t) && Counts(s)
    ensures Lex(s, t) == Some(s)
  {
    LexDeeper(OUTSIDE, s, t);
  }

  // ---- Resolution ----

  function IsPrefix(): JsString {
    [COLON, 105, 115, OPEN]
  }

  /** `:is(` the parent `)` */
  function Replacement(parent: JsString): JsString {
    IsPrefix() + parent + [CLOSE]
  }

  lemma ReplacementValid(s: Lexer, parent: JsString)
    requires LexicallyValid(parent) && Counts(s)
    ensures Lex(s, Replacement(parent)) == Some(s)
  {
    hide Lex, Substituted, Nests, Lists, LexicallyValid;
    var inside := s.(parentheses := s.parentheses + 1);
    assert Lex(s, IsPrefix()) == Some(inside) by {
      LexNothing(s);
      assert IsPrefix() == [] + [COLON] + [105] + [115] + [OPEN];
      Snoc(s, [], COLON, []);
      Snoc(s, [] + [COLON], 105, []);
      Snoc(s, [] + [COLON] + [105], 115, []);
      Snoc(s, [] + [COLON] + [105] + [115], OPEN, []);
    }
    LexConcat(s, IsPrefix(), parent);
    ValidAnywhere(inside, parent);
    Snoc(s, IsPrefix() + parent, CLOSE, []);
  }

  /** How many units the character at a position takes: two for a surrogate pair. */
  function Width(t: JsString, i: nat): (w: nat)
    requires i < |t|
    ensures 1 <= w <= 2 && i + w <= |t|
  {
    if i + 1 < |t| && 0xd800 <= t[i] <= 0xdbff && 0xdc00 <= t[i + 1] <= 0xdfff then 2 else 1
  }

  datatype Walked = Walked(result: JsString, nests: bool, lists: bool)

  /** The scanner after a whole character; the units of a pair mean nothing by themselves. */
  function LexCharacter(s: Lexer, c: JsString): Option<Lexer>
    requires 1 <= |c| <= 2
  {
    Lex1(s, c[0])
  }

  /** The rest of the loop over a selector's characters. */
  function Walk(limit: nat, replacement: JsString, t: JsString, i: nat, s: Lexer, w: Walked): Option<Walked>
    requires i <= |t|
    decreases |t| - i
  {
    if i == |t| then if s == OUTSIDE then Some(w) else None
    else
      var c := t[i..i + Width(t, i)];
      var next := LexCharacter(s, c);
      if next.None? then None
      else if !Counts(s) || c[0] == BACKSLASH || IsQuote(c[0]) then
        if |w.result| >= limit then None
        else Walk(limit, replacement, t, i + Width(t, i), next.value, w.(result := w.result + c))
      else
        var addition := if c[0] == AMPERSAND then replacement else c;
        if |w.result| + |addition| > limit then None
        else Walk(limit, replacement, t, i + Width(t, i), next.value,
                  Walked(w.result + addition, w.nests || c[0] == AMPERSAND,
                         w.lists || (c[0] == COMMA && s.parentheses == 0 && s.brackets == 0)))
  }

  /** One more character of the loop. */
  lemma WalkOn(limit: nat, replacement: JsString, t: JsString, i: nat, s: Lexer, w: Walked)
    requires i < |t|
    ensures var c := t[i..i + Width(t, i)]; var next := LexCharacter(s, c);
      var addition := if Counts(s) && c[0] == AMPERSAND then replacement else c;
      var full := if Counts(s) && c[0] != BACKSLASH && !IsQuote(c[0]) then |w.result| + |addition| > limit else |w.result| >= limit;
      Walk(limit, replacement, t, i, s, w) == if next.None? || full then None
        else Walk(limit, replacement, t, i + Width(t, i), next.value,
                  Walked(w.result + addition, w.nests || (Counts(s) && c[0] == AMPERSAND),
                         w.lists || (Counts(s) && c[0] == COMMA && s.parentheses == 0 && s.brackets == 0)))
  {
  }

  lemma WalkEnds(limit: nat, replacement: JsString, t: JsString, s: Lexer, w: Walked)
    ensures Walk(limit, replacement, t, |t|, s, w) == if s == OUTSIDE then Some(w) else None
  {
  }

  /** `resolveNestedSelector` */
  function ResolveNested(limit: nat, selector: JsString, parent: JsString): Option<JsString> {
    var walked := Walk(limit, Replacement(parent), selector, 0, OUTSIDE, Walked([], false, false));
    if walked.None? then None
    else if walked.value.nests then Some(walked.value.result)
    else if walked.value.lists then None
    else
      var descendant := Replacement(parent) + [SPACE] + Trim(selector);
      if |descendant| <= limit then Some(descendant) else None
  }

  /** What the loop knows at a position: everything about the text before it. */
  ghost predicate WalkedTo(replacement: JsString, t: JsString, i: nat, s: Lexer, w: Walked) {
    && i <= |t| && Lex(OUTSIDE, t[..i]) == Some(s) && w.result == Substituted(OUTSIDE, t[..i], replacement)
    && w.nests == Nests(OUTSIDE, t[..i]) && w.lists == Lists(OUTSIDE, t[..i])
  }

  lemma PairMeansNothing(s: Lexer, c: CodeUnit)
    requires !s.escaped && 0xdc00 <= c <= 0xdfff && (s.quote.Some? ==> IsQuote(s.quote.value))
    ensures Lex1(s, c) == Some(s) && c != AMPERSAND && c != COMMA
  {
  }

  lemma {:induction false} QuotesOnly(s: Lexer, t: JsString)
    requires Lex(s, t).Some? && (s.quote.Some? ==> IsQuote(s.quote.value))
    ensures Lex(s, t).value.quote.Some? ==> IsQuote(Lex(s, t).value.quote.value)
  {
    if t != [] { QuotesOnly(s, t[..|t| - 1]); }
  }

  /** One character further. */
  lemma WalkStep(replacement: JsString, t: JsString, i: nat, s: Lexer, w: Walked)
    requires WalkedTo(replacement, t, i, s, w) && i < |t|
    ensures var c := t[i..i + Width(t, i)]; var next := LexCharacter(s, c);
      && (next.None? ==> Lex(OUTSIDE, t[..i + Width(t, i)]).None?)
      && (next.Some? ==>
            WalkedTo(replacement, t, i + Width(t, i), next.value,
                     if !Counts(s) || c[0] == BACKSLASH || IsQuote(c[0]) then w.(result := w.result + c)
                     else Walked(w.result + (if c[0] == AMPERSAND then replacement else c), w.nests || c[0] == AMPERSAND,
                                 w.lists || (c[0] == COMMA && s.parentheses == 0 && s.brackets == 0))))
  {
    hide Lex, Substituted, Nests, Lists;
    var width := Width(t, i);
    Snoc(OUTSIDE, t[..i], t[i], replacement);
    assert t[..i + 1] == t[..i] + [t[i]];
    if width == 2 {
      assert t[..i + 2] == t[..i + 1] + [t[i + 1]];
      Snoc(OUTSIDE, t[..i + 1], t[i + 1], replacement);
      var next := Lex1(s, t[i]);
      if next.Some? {
        OutsideQuotes(t[..i]);
        HighMeansNothing(s, t[i]);
        PairMeansNothing(next.value, t[i + 1]);
      }
      assert t[i..i + 2] == [t[i]] + [t[i + 1]];
    } else {
      assert t[i..i + 1] == [t[i]];
    }
  }

  lemma OutsideQuotes(t: JsString)
    requires Lex(OUTSIDE, t).Some?
    ensures Lex(OUTSIDE, t).value.quote.Some? ==> IsQuote(Lex(OUTSIDE, t).value.quote.value)
  {
    QuotesOnly(OUTSIDE, t);
  }

  lemma HighMeansNothing(s: Lexer, c: CodeUnit)
    requires 0xd800 <= c <= 0xdbff && (s.quote.Some? ==> IsQuote(s.quote.value))
    ensures Lex1(s, c) == Some(s.(escaped := false)) && c != AMPERSAND && c != COMMA && c != BACKSLASH && !IsQuote(c)
  {
  }

  lemma NextCharacter(t: JsString, i: nat)
    requires i < |t|
    ensures |t[i..i + Width(t, i)]| == Width(t, i)
  {
  }

  predicate PairAt(t: JsString, i: nat) {
    i + 1 < |t| && 0xd800 <= t[i] <= 0xdbff && 0xdc00 <= t[i + 1] <= 0xdfff
  }

  /** The last character is an escaped surrogate pair. */
  predicate EndsInEscapedPair(t: JsString) {
    |t| >= 2 && PairAt(t, |t| - 2) && Lex(OUTSIDE, t[..|t| - 2]).Some? && Lex(OUTSIDE, t[..|t| - 2]).value.escaped
  }

  /** Short enough for the loop, which lets an escaped pair at the end stand out by one unit. */
  predicate Fits(limit: nat, replacement: JsString, t: JsString) {
    var length := |Substituted(OUTSIDE, t, replacement)|;
    length <= limit || (length == limit + 1 && EndsInEscapedPair(t))
  }

  /** No character starts within a pair. */
  predicate AtCharacter(t: JsString, i: nat) {
    i <= |t| && (i > 0 ==> !PairAt(t, i - 1))
  }

  /** What is beyond the limit before the end stays so. */
  lemma WalkFull(limit: nat, replacement: JsString, t: JsString, i: nat, s: Lexer, w: Walked)
    requires i < |t| && |w.result| > limit && replacement != []
    ensures Walk(limit, replacement, t, i, s, w).None?
  {
    hide Lex1;
    NextCharacter(t, i);
    WalkOn(limit, replacement, t, i, s, w);
  }

  /** The characters before an escaped pair at the end leave room for it. */
  lemma BeforeLastPair(replacement: JsString, t: JsString, i: nat)
    requires EndsInEscapedPair(t) && AtCharacter(t, i) && i < |t|
    ensures i <= |t| - 2
    ensures i == |t| - 2 ==> Width(t, i) == 2 && |Substituted(OUTSIDE, t, replacement)| == |Substituted(OUTSIDE, t[..i], replacement)| + 2
    ensures i < |t| - 2 ==>
      && i + Width(t, i) <= |t| - 2
      && |Substituted(OUTSIDE, t[..i + Width(t, i)], replacement)| + 2 <= |Substituted(OUTSIDE, t, replacement)|
  {
    hide Lex, Substituted, Nests, Lists;
    assert PairAt(t, |t| - 2);
    var before, high := t[..|t| - 2], t[..|t| - 1];
    assert high == before + [t[|t| - 2]] && t == high + [t[|t| - 1]];
    Snoc(OUTSIDE, before, t[|t| - 2], replacement);
    Snoc(OUTSIDE, high, t[|t| - 1], replacement);
    if i < |t| - 2 {
      SubstitutedGrows(before, i + Width(t, i), replacement);
      assert before[..i + Width(t, i)] == t[..i + Width(t, i)];
    }
  }

  /** A character that ends the walk one unit beyond the limit is an escaped pair. */
  lemma LastIsPair(replacement: JsString, t: JsString, i: nat, s: Lexer, w: Walked)
    requires WalkedTo(replacement, t, i, s, w) && i < |t| && i + Width(t, i) == |t| && Width(t, i) == 2
    requires !Counts(s) && LexCharacter(s, t[i..|t|]) == Some(OUTSIDE)
    ensures EndsInEscapedPair(t)
  {
    hide Lex, Substituted, Nests, Lists;
    assert t[i..|t|][0] == t[i];
    OutsideQuotes(t[..i]);
    HighMeansNothing(s, t[i]);
  }

  /** The loop after a character. */
  function Next(replacement: JsString, c: JsString, s: Lexer, w: Walked): Walked
    requires c != []
  {
    if !Counts(s) || c[0] == BACKSLASH || IsQuote(c[0]) then w.(result := w.result + c)
    else Walked(w.result + (if c[0] == AMPERSAND then replacement else c), w.nests || c[0] == AMPERSAND,
                w.lists || (c[0] == COMMA && s.parentheses == 0 && s.brackets == 0))
  }

  /** The loop stops for length at this character. */
  predicate Overflows(limit: nat, replacement: JsString, c: JsString, s: Lexer, w: Walked)
    requires c != []
  {
    if !Counts(s) || c[0] == BACKSLASH || IsQuote(c[0]) then |w.result| >= limit
    else |Next(replacement, c, s, w).result| > limit
  }

  lemma WalkNext(limit: nat, replacement: JsString, t: JsString, i: nat, s: Lexer, w: Walked)
    requires i < |t|
    ensures var c := t[i..i + Width(t, i)]; var next := LexCharacter(s, c);
      Walk(limit, replacement, t, i, s, w) == if next.None? || Overflows(limit, replacement, c, s, w) then None
        else Walk(limit, replacement, t, i + Width(t, i), next.value, Next(replacement, c, s, w))
  {
  }

  /** When the loop stops for length, the text does not fit. */
  lemma OverflowMeans(limit: nat, replacement: JsString, t: JsString, i: nat, s: Lexer, w: Walked)
    requires WalkedTo(replacement, t, i, s, w) && i < |t| && AtCharacter(t, i) && replacement != []
    requires var c := t[i..i + Width(t, i)]; LexCharacter(s, c).Some? && Overflows(limit, replacement, c, s, w)
    ensures !Fits(limit, replacement, t)
  {
    hide Lex, Substituted, Nests, Lists, Lex1;
    var c := t[i..i + Width(t, i)];
    WalkStep(replacement, t, i, s, w);
    SubstitutedGrows(t, i + Width(t, i), replacement);
    if EndsInEscapedPair(t) { BeforeLastPair(replacement, t, i); }
  }

  /** What is within the limit after a character, and what is one unit beyond it. */
  lemma NextLength(limit: nat, replacement: JsString, t: JsString, i: nat, s: Lexer, w: Walked)
    requires i < |t| && |w.result| <= limit
    requires !Overflows(limit, replacement, t[i..i + Width(t, i)], s, w)
    ensures var more := |Next(replacement, t[i..i + Width(t, i)], s, w).result|;
      more <= limit + 1 && (more == limit + 1 ==> Width(t, i) == 2 && (!Counts(s) || t[i] == BACKSLASH || IsQuote(t[i])))
  {
  }

  /** The loop's answer is the substitution of the whole selector, exactly when the scan accepts the selector and it fits. */
  lemma {:induction false} WalkMeans(limit: nat, replacement: JsString, t: JsString, i: nat, s: Lexer, w: Walked)
    requires WalkedTo(replacement, t, i, s, w) && AtCharacter(t, i) && |w.result| <= limit && replacement != []
    ensures var end := Walk(limit, replacement, t, i, s, w);
      && (end.Some? <==> LexicallyValid(t) && Fits(limit, replacement, t))
      && (end.Some? ==> WalkedTo(replacement, t, |t|, OUTSIDE, end.value))
    decreases |t| - i
  {
    hide Lex, Lex1, Substituted, Nests, Lists, Next, Overflows, EndsInEscapedPair, Walk;
    if i == |t| {
      assert t[..i] == t;
      WalkEnds(limit, replacement, t, s, w);
    } else {
      var n := i + Width(t, i);
      var c := t[i..n];
      var next := LexCharacter(s, c);
      WalkNext(limit, replacement, t, i, s, w);
      Stepped(replacement, t, i, s, w);
      if next.Some? && Overflows(limit, replacement, c, s, w) {
        OverflowMeans(limit, replacement, t, i, s, w);
      } else if next.Some? {
        var more := Next(replacement, c, s, w);
        NextLength(limit, replacement, t, i, s, w);
        if |more.result| <= limit {
          WalkMeans(limit, replacement, t, n, next.value, more);
        } else {
          OneBeyond(limit, replacement, t, i, s, w);
        }
      }
    }
  }

  /** `WalkStep` with the names above. */
  lemma Stepped(replacement: JsString, t: JsString, i: nat, s: Lexer, w: Walked)
    requires WalkedTo(replacement, t, i, s, w) && AtCharacter(t, i) && i < |t|
    ensures var c := t[i..i + Width(t, i)]; var next := LexCharacter(s, c);
      && AtCharacter(t, i + Width(t, i))
      && (next.None? ==> !LexicallyValid(t))
      && (next.Some? ==> WalkedTo(replacement, t, i + Width(t, i), next.value, Next(replacement, c, s, w)))
  {
    hide Lex, Lex1, Substituted, Nests, Lists;
    WalkStep(replacement, t, i, s, w);
    SubstitutedGrows(t, i + Width(t, i), replacement);
  }

  /** A character that goes one unit beyond the limit is the last one or the walk fails. */
  lemma OneBeyond(limit: nat, replacement: JsString, t: JsString, i: nat, s: Lexer, w: Walked)
    requires WalkedTo(replacement, t, i, s, w) && AtCharacter(t, i) && i < |t| && replacement != []
    requires var c := t[i..i + Width(t, i)]; LexCharacter(s, c).Some? && !Overflows(limit, replacement, c, s, w)
    requires |w.result| <= limit && |Next(replacement, t[i..i + Width(t, i)], s, w).result| == limit + 1
    ensures var end := Walk(limit, replacement, t, i, s, w);
      && (end.Some? <==> LexicallyValid(t) && Fits(limit, replacement, t))
      && (end.Some? ==> WalkedTo(replacement, t, |t|, OUTSIDE, end.value))
  {
    hide Lex, Lex1, Substituted, Nests, Lists, EndsInEscapedPair, Walk;
    var n := i + Width(t, i);
    var c := t[i..n];
    var next, more := LexCharacter(s, c).value, Next(replacement, c, s, w);
    NextLength(limit, replacement, t, i, s, w);
    WalkNext(limit, replacement, t, i, s, w);
    Stepped(replacement, t, i, s, w);
    assert !Counts(s);
    if n < |t| {
      WalkFull(limit, replacement, t, n, next, more);
      SubstitutedGrows(t, n, replacement);
      if EndsInEscapedPair(t) { BeforeLastPair(replacement, t, i); }
    } else {
      assert t[..n] == t;
      WalkEnds(limit, replacement, t, next, more);
      if next == OUTSIDE { LastIsPair(replacement, t, i, s, w); }
    }
  }

  lemma {:induction false} SubstitutedGrows(t: JsString, n: nat, replacement: JsString)
    requires n <= |t|
    ensures |Substituted(OUTSIDE, t[..n], replacement)| <= |Substituted(OUTSIDE, t, replacement)|
    ensures Lex(OUTSIDE, t[..n]).None? ==> !LexicallyValid(t)
    decreases |t|
  {
    if n == |t| {
      assert t[..n] == t;
    } else {
      SubstitutedGrows(t[..|t| - 1], n, replacement);
      assert t[..|t| - 1][..n] == t[..n];
      LexConcat(OUTSIDE, t[..n], t[n..]);
      assert t == t[..n] + t[n..];
    }
  }

  lemma StartOfWalk(replacement: JsString, t: JsString)
    ensures WalkedTo(replacement, t, 0, OUTSIDE, Walked([], false, false))
  {
    assert t[..0] == [];
  }

  /** What resolving a selector against its parent means. */
  function Resolved(selector: JsString, parent: JsString): JsString {
    if Nests(OUTSIDE, selector) then Substituted(OUTSIDE, selector, Replacement(parent))
    else Replacement(parent) + [SPACE] + Trim(selector)
  }

  /** The selectors that are resolved. */
  predicate Resolvable(limit: nat, selector: JsString, parent: JsString) {
    && LexicallyValid(selector) && Fits(limit, Replacement(parent), selector)
    && (Nests(OUTSIDE, selector) || (!Lists(OUTSIDE, selector) && |Resolved(selector, parent)| <= limit))
  }

  /**
   * A nested selector resolves to itself with every ampersand that counts, and no other, replaced by its parent, or
   * without any to a descendant of its parent. It is resolved exactly when it is well-formed, is no list unless it has
   * such an ampersand, and is short enough.
   */
  lemma ResolvesExactly(limit: nat, selector: JsString, parent: JsString)
    ensures ResolveNested(limit, selector, parent)
         == if Resolvable(limit, selector, parent) then Some(Resolved(selector, parent)) else None
  {
    hide Lex, Substituted, Nests, Lists, Walk, Trim, Replacement, Fits, LexicallyValid;
    StartOfWalk(Replacement(parent), selector);
    SomeReplacement(parent);
    WalkMeans(limit, Replacement(parent), selector, 0, OUTSIDE, Walked([], false, false));
    assert selector[..|selector|] == selector;
  }

  lemma SomeReplacement(parent: JsString)
    ensures Replacement(parent) != []
  {
  }

  /**
   * A result is longer than the limit, by exactly one unit, exactly when an ampersand was replaced in a well-formed
   * selector that ends in an escaped surrogate pair and comes out at that length.
   */
  lemma OneUnitTooLongExactly(limit: nat, selector: JsString, parent: JsString)
    ensures var r := ResolveNested(limit, selector, parent);
      r.Some? && |r.value| > limit <==>
        LexicallyValid(selector) && Nests(OUTSIDE, selector) && EndsInEscapedPair(selector)
        && |Substituted(OUTSIDE, selector, Replacement(parent))| == limit + 1
  {
    hide Lex, Substituted, Nests, Lists, Walk, Trim, Replacement, EndsInEscapedPair, LexicallyValid, ResolveNested;
    ResolvesExactly(limit, selector, parent);
  }

  // ---- Validity at every depth ----

  /** Substitution keeps a well-formed text well-formed, wherever its ampersands are. */
  lemma {:induction false} SubstitutionValid(t: JsString, parent: JsString)
    requires LexicallyValid(parent) && Lex(OUTSIDE, t).Some?
    ensures Lex(OUTSIDE, Substituted(OUTSIDE, t, Replacement(parent))) == Lex(OUTSIDE, t)
  {
    if t != [] {
      var init, c := t[..|t| - 1], t[|t| - 1];
      assert t == init + [c];
      Snoc(OUTSIDE, init, c, Replacement(parent));
      SubstitutionValid(init, parent);
      var at := Lex(OUTSIDE, init).value;
      var done := Substituted(OUTSIDE, init, Replacement(parent));
      if Counts(at) && c == AMPERSAND {
        ReplacementValid(at, parent);
        LexConcat(OUTSIDE, done, Replacement(parent));
      } else {
        Snoc(OUTSIDE, done, c, []);
      }
    }
  }

  /** The selector ends in an escape once its trailing spaces are trimmed: the escape was for the first of them. */
  predicate EndsInEscapedSpace(selector: JsString) {
    Lex(OUTSIDE, Trim(selector)).Some? && Lex(OUTSIDE, Trim(selector)).value.escaped
  }

  lemma {:induction false} LexSpaces(s: Lexer, t: JsString)
    requires AllSpaces(t) && (s.quote.Some? ==> IsQuote(s.quote.value))
    ensures Lex(s, t) == Some(if t == [] then s else s.(escaped := false))
  {
    if t != [] { LexSpaces(s, t[..|t| - 1]); }
  }

  /** Trimming keeps a well-formed selector well-formed unless it cuts off an escaped space. */
  lemma TrimValid(selector: JsString)
    requires LexicallyValid(selector)
    ensures Lex(OUTSIDE, Trim(selector)).Some?
    ensures LexicallyValid(Trim(selector)) <==> !EndsInEscapedSpace(selector)
    ensures Lex(OUTSIDE, Trim(selector)).value == OUTSIDE.(escaped := EndsInEscapedSpace(selector))
  {
    hide Trim, Lex, IsSpace;
    var lead, tail := TrimSplits(selector);
    LexConcat(OUTSIDE, lead + Trim(selector), tail);
    LexConcat(OUTSIDE, lead, Trim(selector));
    LexSpaces(OUTSIDE, lead);
    OutsideQuotes(Trim(selector));
    LexSpaces(Lex(OUTSIDE, Trim(selector)).value, tail);
  }

  /**
   * Under a well-formed parent a resolved selector passes the same scan as a top-level one exactly when it has an
   * ampersand that counts, or does not end in an escaped space.
   */
  lemma ResolvedValidExactly(limit: nat, selector: JsString, parent: JsString)
    requires LexicallyValid(parent) && ResolveNested(limit, selector, parent).Some?
    ensures LexicallyValid(ResolveNested(limit, selector, parent).value) <==>
      Nests(OUTSIDE, selector) || !EndsInEscapedSpace(selector)
  {
    hide Lex, Substituted, Nests, Lists, Walk, Trim, Replacement, ResolveNested, EndsInEscapedSpace;
    ResolvesExactly(limit, selector, parent);
    SubstitutionValid(selector, parent);
    TrimValid(selector);
    ReplacementValid(OUTSIDE, parent);
    Snoc(OUTSIDE, Replacement(parent), SPACE, []);
    LexConcat(OUTSIDE, Replacement(parent) + [SPACE], Trim(selector));
  }

  /** `resolveStyleSelector`: at the top level the selector itself, further in resolved against what encloses it. */
  function ResolveStyle(limit: nat, selector: JsString, parent: Option<JsString>): Option<JsString> {
    if selector == [] || |selector| > limit then None
    else if parent.Some? then ResolveNested(limit, selector, parent.value)
    else if LexicallyValid(selector) then Some(selector) else None
  }

  /** The resolution of the innermost of some nested rules, outermost first. */
  function ResolveChain(limit: nat, selectors: seq<JsString>): Option<JsString> {
    if selectors == [] then None
    else if |selectors| == 1 then ResolveStyle(limit, selectors[0], None)
    else
      var outer := ResolveChain(limit, selectors[..|selectors| - 1]);
      if outer.None? then None else ResolveStyle(limit, selectors[|selectors| - 1], outer)
  }

  /** The scan ends in the middle of an escape or before a parenthesis is closed. */
  predicate Unfinished(t: JsString) {
    var end := Lex(OUTSIDE, t);
    end.Some? && end.value.quote.None? && (end.value.escaped || end.value.parentheses > 0)
  }

  /** Under an unfinished parent the replacement leaves a parenthesis open. */
  lemma ReplacementUnfinished(parent: JsString) returns (open: Lexer)
    requires Unfinished(parent)
    ensures Lex(OUTSIDE, Replacement(parent)) == Some(open) && Counts(open) && open.parentheses > 0
  {
    hide Lex, Substituted, Nests, Lists;
    var inside := OUTSIDE.(parentheses := 1);
    assert Lex(OUTSIDE, IsPrefix()) == Some(inside) by { PrefixOpens(); }
    LexConcat(OUTSIDE, IsPrefix(), parent);
    LexDeeper(OUTSIDE, inside, parent);
    Snoc(OUTSIDE, IsPrefix() + parent, CLOSE, []);
    open := Lex(OUTSIDE, Replacement(parent)).value;
  }

  lemma PrefixOpens()
    ensures Lex(OUTSIDE, IsPrefix()) == Some(OUTSIDE.(parentheses := 1))
  {
    hide Lex, Substituted, Nests, Lists;
    LexNothing(OUTSIDE);
    assert IsPrefix() == [] + [COLON] + [105] + [115] + [OPEN];
    Snoc(OUTSIDE, [], COLON, []);
    Snoc(OUTSIDE, [] + [COLON], 105, []);
    Snoc(OUTSIDE, [] + [COLON] + [105], 115, []);
    Snoc(OUTSIDE, [] + [COLON] + [105] + [115], OPEN, []);
  }

  /** Every replacement goes one step deeper, and nothing in the selector closes what it did not open. */
  lemma {:induction false} SubstitutionDeepens(t: JsString, parent: JsString, open: Lexer) returns (base: Lexer)
    requires Lex(OUTSIDE, t).Some? && Lex(OUTSIDE, Replacement(parent)) == Some(open) && Counts(open) && open.parentheses > 0
    ensures Lex(OUTSIDE, Substituted(OUTSIDE, t, Replacement(parent))) == Some(Deeper(Lex(OUTSIDE, t).value, base))
    ensures Counts(base) && (Nests(OUTSIDE, t) ==> base.parentheses > 0)
  {
    hide Lex, Substituted, Nests, Lists, Replacement;
    LexNothing(OUTSIDE);
    if t == [] {
      base := OUTSIDE;
    } else {
      var init, c := t[..|t| - 1], t[|t| - 1];
      assert t == init + [c];
      Snoc(OUTSIDE, init, c, Replacement(parent));
      base := SubstitutionDeepens(init, parent, open);
      var at := Lex(OUTSIDE, init).value;
      var done := Substituted(OUTSIDE, init, Replacement(parent));
      if Counts(at) && c == AMPERSAND {
        LexConcat(OUTSIDE, done, Replacement(parent));
        LexDeeper(OUTSIDE, Deeper(at, base), Replacement(parent));
        base := Deeper(open, base);
      } else {
        Snoc(OUTSIDE, done, c, []);
      }
    }
  }

  /** What is resolved under an unfinished parent is unfinished, too. */
  lemma ResolvedUnfinished(limit: nat, selector: JsString, parent: JsString)
    requires Unfinished(parent) && ResolveNested(limit, selector, parent).Some?
    ensures Unfinished(ResolveNested(limit, selector, parent).value)
  {
    hide Lex, Substituted, Nests, Lists, Trim, Replacement, ResolveNested, EndsInEscapedSpace;
    ResolvesExactly(limit, selector, parent);
    var open := ReplacementUnfinished(parent);
    var base := SubstitutionDeepens(selector, parent, open);
    TrimValid(selector);
    Snoc(OUTSIDE, Replacement(parent), SPACE, []);
    LexConcat(OUTSIDE, Replacement(parent) + [SPACE], Trim(selector));
    LexDeeper(OUTSIDE, open, Trim(selector));
  }

  /** A resolution that is not well-formed under a well-formed parent is unfinished. */
  lemma InvalidIsUnfinished(limit: nat, selector: JsString, parent: JsString)
    requires LexicallyValid(parent) && ResolveNested(limit, selector, parent).Some?
    requires !Nests(OUTSIDE, selector) && EndsInEscapedSpace(selector)
    ensures Unfinished(ResolveNested(limit, selector, parent).value)
  {
    hide Lex, Substituted, Nests, Lists, Trim, Replacement, ResolveNested, EndsInEscapedSpace;
    ResolvesExactly(limit, selector, parent);
    TrimValid(selector);
    ReplacementValid(OUTSIDE, parent);
    Snoc(OUTSIDE, Replacement(parent), SPACE, []);
    LexConcat(OUTSIDE, Replacement(parent) + [SPACE], Trim(selector));
  }

  /**
   * At every depth what is resolved is well-formed exactly when every selector but the outermost, which is never put after
   * another, has an ampersand that counts or does not end in an escaped space. What once was not well-formed stays so.
   */
  lemma {:induction false} ChainValid(limit: nat, selectors: seq<JsString>)
    requires ResolveChain(limit, selectors).Some?
    ensures LexicallyValid(ResolveChain(limit, selectors).value)
      <==> forall i :: 1 <= i < |selectors| ==> Nests(OUTSIDE, selectors[i]) || !EndsInEscapedSpace(selectors[i])
    ensures LexicallyValid(ResolveChain(limit, selectors).value) || Unfinished(ResolveChain(limit, selectors).value)
    ensures 0 < |ResolveChain(limit, selectors).value| <= limit + 1
  {
    hide Lex, Nests, EndsInEscapedSpace, ResolveNested, Replacement, Substituted, Lists, Trim, LexicallyValid, Unfinished;
    if |selectors| > 1 {
      var init, last := selectors[..|selectors| - 1], selectors[|selectors| - 1];
      var outer := ResolveChain(limit, init).value;
      ChainValid(limit, init);
      ResolvesExactly(limit, last, outer);
      SomethingResolved(last, outer);
      assert forall i :: 1 <= i < |init| ==> init[i] == selectors[i];
      if LexicallyValid(outer) {
        ResolvedValidExactly(limit, last, outer);
        if !Nests(OUTSIDE, last) && EndsInEscapedSpace(last) { InvalidIsUnfinished(limit, last, outer); }
      } else {
        ResolvedUnfinished(limit, last, outer);
        NotFinished(ResolveNested(limit, last, outer).value);
      }
    }
  }

  lemma NotFinished(t: JsString)
    requires Unfinished(t)
    ensures !LexicallyValid(t)
  {
  }

  lemma SomethingResolved(selector: JsString, parent: JsString)
    requires selector != []
    ensures |Resolved(selector, parent)| > 0
  {
    hide Lex, Nests, Lists, Trim;
    var init, c := selector[..|selector| - 1], selector[|selector| - 1];
    assert selector == init + [c];
    Snoc(OUTSIDE, init, c, Replacement(parent));
  }

  /** `a\ ` is a selector, and under `b` it resolves to one that ends in the middle of its escape. */
  lemma EscapedSpaceBreaks(limit: nat)
    requires limit >= 9
    ensures var selector: JsString, parent: JsString := [97, BACKSLASH, SPACE], [98];
      && LexicallyValid(selector) && LexicallyValid(parent) && EndsInEscapedSpace(selector) && !Nests(OUTSIDE, selector)
      && ResolveNested(limit, selector, parent) == Some(Ascii(":is(b) a\\"))
      && !LexicallyValid(Ascii(":is(b) a\\"))
  {
    hide Lex, Nests, Substituted, Lists, Trim, ResolveNested;
    var selector: JsString, parent: JsString := [97, BACKSLASH, SPACE], [98];
    LexNothing(OUTSIDE);
    assert selector == [] + [97] + [BACKSLASH] + [SPACE] && parent == [] + [98];
    Snoc(OUTSIDE, [], 97, Replacement(parent));
    Snoc(OUTSIDE, [] + [97], BACKSLASH, Replacement(parent));
    Snoc(OUTSIDE, [] + [97] + [BACKSLASH], SPACE, Replacement(parent));
    Snoc(OUTSIDE, [], 98, []);
    assert AllSpaces([SPACE]) && AllSpaces([]) && Trimmed([97, BACKSLASH]);
    TrimOf([], [97, BACKSLASH], [SPACE]);
    assert selector == [] + [97, BACKSLASH] + [SPACE] && [97, BACKSLASH] == [] + [97] + [BACKSLASH];
    assert |Substituted(OUTSIDE, selector, Replacement(parent))| == 3;
    assert Resolved(selector, parent) == Ascii(":is(b) a\\");
    ResolvesExactly(limit, selector, parent);
    ResolvedValidExactly(limit, selector, parent);
  }

  function Letters(n: nat): (r: JsString)
    ensures |r| == n
  {
    if n == 0 then [] else Letters(n - 1) + [97]
  }

  /** An ampersand, some letters and an escaped surrogate pair. */
  function LongSelector(letters: nat): JsString {
    AmpersandAndLetters(letters) + [BACKSLASH] + [0xd83d] + [0xde00]
  }

  function AmpersandAndLetters(letters: nat): JsString {
    [AMPERSAND] + Letters(letters)
  }

  lemma {:induction false} LettersMeanNothing(letters: nat, replacement: JsString)
    ensures Lex(OUTSIDE, AmpersandAndLetters(letters)) == Some(OUTSIDE) && Nests(OUTSIDE, AmpersandAndLetters(letters))
    ensures |Substituted(OUTSIDE, AmpersandAndLetters(letters), replacement)| == |replacement| + letters
  {
    hide Lex, Substituted, Nests, Lists;
    LexNothing(OUTSIDE);
    if letters == 0 {
      assert AmpersandAndLetters(0) == [] + [AMPERSAND];
      Snoc(OUTSIDE, [], AMPERSAND, replacement);
    } else {
      LettersMeanNothing(letters - 1, replacement);
      assert AmpersandAndLetters(letters) == AmpersandAndLetters(letters - 1) + [97];
      Snoc(OUTSIDE, AmpersandAndLetters(letters - 1), 97, replacement);
    }
  }

  /** At every limit an escaped surrogate pair at the end can make the result one unit longer than the limit. */
  lemma OneUnitTooLong(limit: nat)
    requires limit >= 8
    ensures var r := ResolveNested(limit, LongSelector(limit - 8), [97]); r.Some? && |r.value| == limit + 1
  {
    hide Lex, Substituted, Nests, Lists, ResolveNested;
    var t := AmpersandAndLetters(limit - 8);
    var replacement := Replacement([97]);
    assert |replacement| == 6;
    LettersMeanNothing(limit - 8, replacement);
    Snoc(OUTSIDE, t, BACKSLASH, replacement);
    Snoc(OUTSIDE, t + [BACKSLASH], 0xd83d, replacement);
    Snoc(OUTSIDE, t + [BACKSLASH] + [0xd83d], 0xde00, replacement);
    var selector := LongSelector(limit - 8);
    assert selector[..|selector| - 2] == t + [BACKSLASH];
    OneUnitTooLongExactly(limit, selector, [97]);
    ResolvesExactly(limit, selector, [97]);
  }

  // ---- The loops ----

  method IsLexicallyValid(selector: JsString) returns (valid: bool)
    ensures valid == LexicallyValid(selector)
  {
    hide Lex, Substituted, Nests, Lists, Walk;
    LexNothing(OUTSIDE);
    var quote: Option<CodeUnit> := None;
    var escaped := false;
    var parentheses: nat, brackets: nat := 0, 0;
    for i := 0 to |selector|
      invariant Lex(OUTSIDE, selector[..i]) == Some(Lexer(quote, escaped, parentheses, brackets))
    {
      var character := selector[i];
      Snoc(OUTSIDE, selector[..i], character, []);
      assert selector[..i + 1] == selector[..i] + [character];
      if escaped {
        escaped := false;
      } else if character == BACKSLASH {
        escaped := true;
      } else if quote.Some? {
        if quote == Some(character) { quote := None; }
      } else if IsQuote(character) {
        quote := Some(character);
      } else if character == OPEN {
        parentheses := parentheses + 1;
      } else if character == CLOSE {
        if parentheses == 0 {
          SubstitutedGrows(selector, i + 1, []);
          return false;
        }
        parentheses := parentheses - 1;
      } else if character == OPEN_BRACKET {
        brackets := brackets + 1;
      } else if character == CLOSE_BRACKET {
        if brackets == 0 {
          SubstitutedGrows(selector, i + 1, []);
          return false;
        }
        brackets := brackets - 1;
      }
    }
    assert selector[..|selector|] == selector;
    return !escaped && quote.None? && parentheses == 0 && brackets == 0;
  }

  method ResolveNestedSelector(limit: nat, selector: JsString, parent: JsString) returns (r: Option<JsString>)
    ensures r == ResolveNested(limit, selector, parent)
  {
    hide Trim, Replacement, Walk;
    var replacement := Replacement(parent);
    var result: JsString, i: nat := [], 0;
    var quote: Option<CodeUnit> := None;
    var escaped, nestingSelectorFound, topLevelComma := false, false, false;
    var parentheses: nat, brackets: nat := 0, 0;
    while i < |selector|
      invariant i <= |selector|
      invariant Walk(limit, replacement, selector, 0, OUTSIDE, Walked([], false, false))
             == Walk(limit, replacement, selector, i, Lexer(quote, escaped, parentheses, brackets),
                     Walked(result, nestingSelectorFound, topLevelComma))
    {
      WalkOn(limit, replacement, selector, i, Lexer(quote, escaped, parentheses, brackets),
             Walked(result, nestingSelectorFound, topLevelComma));
      var character := selector[i..i + Width(selector, i)];
      var c := character[0];
      i := i + Width(selector, i);
      if escaped || c == BACKSLASH || quote.Some? || IsQuote(c) {
        if |result| >= limit { return None; }
        result := result + character;
        if escaped {
          escaped := false;
        } else if c == BACKSLASH {
          escaped := true;
        } else if quote.Some? {
          if quote == Some(c) { quote := None; }
        } else {
          quote := Some(c);
        }
        continue;
      }
      if c == OPEN {
        parentheses := parentheses + 1;
      } else if c == CLOSE {
        if parentheses == 0 { return None; }
        parentheses := parentheses - 1;
      } else if c == OPEN_BRACKET {
        brackets := brackets + 1;
      } else if c == CLOSE_BRACKET {
        if brackets == 0 { return None; }
        brackets := brackets - 1;
      } else if c == COMMA && parentheses == 0 && brackets == 0 {
        topLevelComma := true;
      }
      var addition := if c == AMPERSAND then replacement else character;
      if |result| + |addition| > limit { return None; }
      result := result + addition;
      nestingSelectorFound := nestingSelectorFound || c == AMPERSAND;
    }
    WalkEnds(limit, replacement, selector, Lexer(quote, escaped, parentheses, brackets),
             Walked(result, nestingSelectorFound, topLevelComma));
    if escaped || quote.Some? || parentheses != 0 || brackets != 0 { return None; }
    if nestingSelectorFound { return Some(result); }
    if topLevelComma { return None; }
    var descendant := replacement + [SPACE] + Trim(selector);
    return if |descendant| <= limit then Some(descendant) else None;
  }
}
