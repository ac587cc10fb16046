/**
 * CSS text as a sequence of tokens, which is how it reads without any scanner: a character by itself, a character behind
 * a backslash, or a quoted text. What the two scanners make of a text, said in its tokens.
 */
module CssTokens {
  import opened Options
  import opened JsText
  import opened CssScan
  import A = AuthoredDeclarations
  import N = NestedSelectors

  datatype Sign = Bare(unit: CodeUnit) | Behind(unit: CodeUnit)

  datatype Token = One(sign: Sign) | Quoted(mark: CodeUnit, inside: seq<Sign>)

  /** What is left at the end of a text: nothing, a backslash, or a quote that is not closed. */
  datatype Rest = Complete | Backslash | Open(mark: CodeUnit, inside: seq<Sign>, escaped: bool)

  function SpellSign(s: Sign): JsString {
    match s
    case Bare(u) => [u]
    case Behind(u) => [BACKSLASH] + [u]
  }

  function SpellSigns(ss: seq<Sign>): JsString {
    if ss == [] then [] else SpellSigns(ss[..|ss| - 1]) + SpellSign(ss[|ss| - 1])
  }

  function SpellToken(t: Token): JsString {
    match t
    case One(s) => SpellSign(s)
    case Quoted(m, inside) => [m] + SpellSigns(inside) + [m]
  }

  function Spell(ts: seq<Token>): JsString {
    if ts == [] then [] else Spell(ts[..|ts| - 1]) + SpellToken(ts[|ts| - 1])
  }

  function SpellRest(r: Rest): JsString {
    match r
    case Complete => []
    case Backslash => [BACKSLASH]
    case Open(m, inside, escaped) => [m] + SpellSigns(inside) + if escaped then [BACKSLASH] else []
  }

  predicate IsMark(u: CodeUnit) {
    u == DOUBLE_QUOTE || u == SINGLE_QUOTE
  }

  predicate ProperInside(m: CodeUnit, ss: seq<Sign>) {
    forall s :: s in ss && s.Bare? ==> s.unit != BACKSLASH && s.unit != m
  }

  predicate ProperToken(t: Token) {
    match t
    case One(s) => s.Bare? ==> s.unit != BACKSLASH && !IsMark(s.unit)
    case Quoted(m, inside) => IsMark(m) && ProperInside(m, inside)
  }

  predicate Proper(ts: seq<Token>) {
    forall t :: t in ts ==> ProperToken(t)
  }

  predicate ProperRest(r: Rest) {
    r.Open? ==> IsMark(r.mark) && ProperInside(r.mark, r.inside)
  }

  /** A character that stands by itself. */
  function Sole(u: CodeUnit): Token {
    One(Bare(u))
  }

  /** By how much a token is deeper. */
  function Deeper(t: Token, up: CodeUnit, down: CodeUnit): int {
    if t == Sole(up) then 1 else if t == Sole(down) then -1 else 0
  }

  /** How many more of one character than of another stand by themselves. */
  function Depth(ts: seq<Token>, up: CodeUnit, down: CodeUnit): int {
    if ts == [] then 0
    else Depth(ts[..|ts| - 1], up, down) + Deeper(ts[|ts| - 1], up, down)
  }

  /** Nothing closes what was not opened before it. */
  ghost predicate Nested(ts: seq<Token>, up: CodeUnit, down: CodeUnit) {
    forall n :: 0 <= n <= |ts| ==> Depth(ts[..n], up, down) >= 0
  }

  lemma Snoc(ts: seq<Token>, t: Token)
    ensures Spell(ts + [t]) == Spell(ts) + SpellToken(t)
    ensures Proper(ts + [t]) <==> Proper(ts) && ProperToken(t)
    ensures forall up, down ::
              Depth(ts + [t], up, down) == Depth(ts, up, down) + Deeper(t, up, down)
  {
    assert (ts + [t])[..|ts|] == ts;
  }

  lemma NestedSnoc(ts: seq<Token>, t: Token, up: CodeUnit, down: CodeUnit)
    ensures Nested(ts + [t], up, down) <==> Nested(ts, up, down) && Depth(ts + [t], up, down) >= 0
  {
    hide Depth;
    assert forall n :: 0 <= n <= |ts| ==> (ts + [t])[..n] == ts[..n];
    assert (ts + [t])[..|ts| + 1] == ts + [t];
  }

  lemma SignsSnoc(ss: seq<Sign>, s: Sign)
    ensures SpellSigns(ss + [s]) == SpellSigns(ss) + SpellSign(s)
  {
    assert (ss + [s])[..|ss|] == ss;
  }

  // ---- Every text is tokens ----

  /** One more character, after tokens and what was left. */
  lemma OneMore(ts: seq<Token>, rest: Rest, c: CodeUnit) returns (ts': seq<Token>, rest': Rest)
    requires Proper(ts) && ProperRest(rest)
    ensures Proper(ts') && ProperRest(rest') && Spell(ts') + SpellRest(rest') == Spell(ts) + SpellRest(rest) + [c]
  {
    hide Spell, Proper, SpellSigns;
    ts', rest' := ts, rest;
    match rest
    case Complete =>
      if c == BACKSLASH { rest' := Backslash; }
      else if IsMark(c) { rest' := Open(c, [], false); NoSigns(); }
      else { ts' := ts + [Sole(c)]; Snoc(ts, Sole(c)); }
    case Backslash =>
      ts', rest' := ts + [One(Behind(c))], Complete;
      Snoc(ts, One(Behind(c)));
      assert Spell(ts) + [BACKSLASH] + [c] == Spell(ts) + ([BACKSLASH] + [c]) + [];
    case Open(m, inside, escaped) =>
      if escaped {
        rest' := Open(m, inside + [Behind(c)], false);
        SignsSnoc(inside, Behind(c));
        assert Spell(ts) + ([m] + SpellSigns(inside) + [BACKSLASH]) + [c]
            == Spell(ts) + ([m] + (SpellSigns(inside) + ([BACKSLASH] + [c])) + []);
      } else if c == m {
        ts', rest' := ts + [Quoted(m, inside)], Complete;
        Snoc(ts, Quoted(m, inside));
        assert Spell(ts) + ([m] + SpellSigns(inside) + []) + [m] == Spell(ts) + ([m] + SpellSigns(inside) + [m]) + [];
      } else if c == BACKSLASH {
        rest' := Open(m, inside, true);
        assert Spell(ts) + ([m] + SpellSigns(inside) + []) + [c] == Spell(ts) + ([m] + SpellSigns(inside) + [c]);
      } else {
        rest' := Open(m, inside + [Bare(c)], false);
        SignsSnoc(inside, Bare(c));
        assert Spell(ts) + ([m] + SpellSigns(inside) + []) + [c] == Spell(ts) + ([m] + (SpellSigns(inside) + [c]) + []);
      }
  }

  lemma NoSigns()
    ensures SpellSigns([]) == []
  {
  }

  lemma {:induction false} EveryTextIsTokens(text: JsString) returns (ts: seq<Token>, rest: Rest)
    ensures Proper(ts) && ProperRest(rest) && text == Spell(ts) + SpellRest(rest)
  {
    if text == [] {
      ts, rest := [], Complete;
    } else {
      hide Spell, Proper;
      var before, left := EveryTextIsTokens(text[..|text| - 1]);
      ts, rest := OneMore(before, left, text[|text| - 1]);
      assert text == text[..|text| - 1] + [text[|text| - 1]];
    }
  }

  // ---- The scanner of declarations ----

  /** Nothing within quotes counts, and an escape takes the mark with it. */
  lemma {:induction false} RunSigns(m: CodeUnit, depth: int, ss: seq<Sign>)
    requires ProperInside(m, ss)
    ensures var s := Scan(Some(m), false, depth);
      Run(s, SpellSigns(ss)) == s && Quiet(s, SpellSigns(ss)) && NoColon(s, SpellSigns(ss))
  {
    var s := Scan(Some(m), false, depth);
    if ss != [] {
      var init, last := ss[..|ss| - 1], ss[|ss| - 1];
      RunSigns(m, depth, init);
      assert ss == init + [last];
      hide Run, Quiet, NoColon, SpellSigns;
      SignsSnoc(init, last);
      match last
      case Bare(u) => RunSnoc(s, SpellSigns(init), u);
      case Behind(u) =>
        RunSnoc(s, SpellSigns(init), BACKSLASH);
        RunSnoc(s, SpellSigns(init) + [BACKSLASH], u);
        assert SpellSigns(init) + [BACKSLASH] + [u] == SpellSigns(init) + ([BACKSLASH] + [u]);
    }
  }

  lemma RunBare(depth: int, u: CodeUnit)
    requires ProperToken(Sole(u))
    ensures var s := Scan(None, false, depth);
      && Run(s, [u]) == s.(depth := depth + Deeper(Sole(u), OPEN, CLOSE))
      && (Quiet(s, [u]) <==> !(u == CLOSE && depth == 0) && !(u == SEMICOLON && depth <= 0))
      && (NoColon(s, [u]) <==> !(u == COLON && depth == 0))
  {
    hide Run, Quiet, NoColon;
    var s := Scan(None, false, depth);
    EmptyText(s);
    assert [u] == [] + [u];
    RunSnoc(s, [], u);
  }

  lemma RunBehind(depth: int, u: CodeUnit)
    ensures var s := Scan(None, false, depth);
      Run(s, [BACKSLASH] + [u]) == s && Quiet(s, [BACKSLASH] + [u]) && NoColon(s, [BACKSLASH] + [u])
  {
    hide Run, Quiet, NoColon;
    var s := Scan(None, false, depth);
    EmptyText(s);
    assert [BACKSLASH] == [] + [BACKSLASH];
    RunSnoc(s, [], BACKSLASH);
    RunSnoc(s, [BACKSLASH], u);
  }

  lemma RunOpened(depth: int, m: CodeUnit)
    requires IsMark(m)
    ensures var s := Scan(None, false, depth); Run(s, [m]) == s.(quote := Some(m)) && Quiet(s, [m]) && NoColon(s, [m])
  {
    hide Run, Quiet, NoColon;
    var s := Scan(None, false, depth);
    EmptyText(s);
    assert [m] == [] + [m];
    RunSnoc(s, [], m);
  }

  lemma RunQuoted(depth: int, m: CodeUnit, inside: seq<Sign>)
    requires ProperToken(Quoted(m, inside))
    ensures var s, out := Scan(None, false, depth), SpellToken(Quoted(m, inside));
      Run(s, out) == s && Quiet(s, out) && NoColon(s, out)
  {
    hide Run, Quiet, NoColon, SpellSigns;
    var s := Scan(None, false, depth);
    RunOpened(depth, m);
    RunSigns(m, depth, inside);
    RunConcat(s, [m], SpellSigns(inside));
    RunSnoc(s, [m] + SpellSigns(inside), m);
  }

  /** A token moves the scanner only if it is a parenthesis, and only a character by itself can count. */
  lemma RunToken(depth: int, t: Token)
    requires ProperToken(t)
    ensures var s, out := Scan(None, false, depth), SpellToken(t);
      && Run(s, out) == s.(depth := depth + Deeper(t, OPEN, CLOSE))
      && (Quiet(s, out) <==> !(t == Sole(CLOSE) && depth == 0) && !(t == Sole(SEMICOLON) && depth <= 0))
      && (NoColon(s, out) <==> !(t == Sole(COLON) && depth == 0))
  {
    hide Run, Quiet, NoColon, SpellSigns;
    match t
    case One(Bare(u)) => RunBare(depth, u);
    case One(Behind(u)) => RunBehind(depth, u);
    case Quoted(m, inside) => RunQuoted(depth, m, inside);
  }

  lemma EmptyText(s: Scan)
    ensures Run(s, []) == s && Quiet(s, []) && NoColon(s, [])
  {
  }

  /** No semicolon and no closing parenthesis counts. */
  ghost predicate QuietTokens(ts: seq<Token>) {
    Nested(ts, OPEN, CLOSE)
    && forall n :: 0 <= n < |ts| && ts[n] == Sole(SEMICOLON) ==> Depth(ts[..n], OPEN, CLOSE) > 0
  }

  ghost predicate NoColonTokens(ts: seq<Token>) {
    forall n :: 0 <= n < |ts| && ts[n] == Sole(COLON) ==> Depth(ts[..n], OPEN, CLOSE) != 0
  }

  lemma QuietSnoc(ts: seq<Token>, t: Token)
    ensures QuietTokens(ts + [t]) <==>
            QuietTokens(ts) && Depth(ts + [t], OPEN, CLOSE) >= 0 && (t == Sole(SEMICOLON) ==> Depth(ts, OPEN, CLOSE) > 0)
    ensures NoColonTokens(ts + [t]) <==> NoColonTokens(ts) && (t == Sole(COLON) ==> Depth(ts, OPEN, CLOSE) != 0)
  {
    hide Depth;
    var more := ts + [t];
    NestedSnoc(ts, t, OPEN, CLOSE);
    assert forall n :: 0 <= n <= |ts| ==> more[..n] == ts[..n];
    assert forall n :: 0 <= n < |ts| ==> more[n] == ts[n];
    assert more[|ts|] == t && more[..|ts|] == ts;
    if QuietTokens(more) {
      forall n | 0 <= n < |ts| && ts[n] == Sole(SEMICOLON) ensures Depth(ts[..n], OPEN, CLOSE) > 0 { assert more[n] == ts[n]; }
    }
    if NoColonTokens(more) {
      forall n | 0 <= n < |ts| && ts[n] == Sole(COLON) ensures Depth(ts[..n], OPEN, CLOSE) != 0 { assert more[n] == ts[n]; }
    }
  }

  /** The scanner over tokens: how deep they are, and whether anything in them counts. */
  lemma {:induction false} RunTokens(ts: seq<Token>)
    requires Proper(ts)
    ensures Run(START, Spell(ts)) == Scan(None, false, Depth(ts, OPEN, CLOSE))
    ensures Quiet(START, Spell(ts)) <==> QuietTokens(ts)
    ensures NoColon(START, Spell(ts)) <==> NoColonTokens(ts)
  {
    if ts == [] {
      EmptyText(START);
    } else {
      var init, last := ts[..|ts| - 1], ts[|ts| - 1];
      assert ts == init + [last];
      RunTokens(init);
      hide Run, Quiet, NoColon, Spell, QuietTokens, NoColonTokens, Depth, SpellToken;
      Snoc(init, last);
      QuietSnoc(init, last);
      RunToken(Depth(init, OPEN, CLOSE), last);
      RunConcat(START, Spell(init), SpellToken(last));
      if QuietTokens(init) { QuietDeep(init); }
    }
  }

  lemma QuietDeep(ts: seq<Token>)
    requires QuietTokens(ts)
    ensures Depth(ts, OPEN, CLOSE) >= 0
  {
    assert ts[..|ts|] == ts;
  }

  /** The scanner at the end of a text. */
  function ScanOf(ts: seq<Token>, rest: Rest): Scan {
    Scan(if rest.Open? then Some(rest.mark) else None, rest.Backslash? || (rest.Open? && rest.escaped), Depth(ts, OPEN, CLOSE))
  }

  /**
   * Whatever tokens a text is read as, the scanner ends where they say: within the quote that is not closed, behind the
   * backslash, and as deep as the parentheses that stand by themselves.
   */
  lemma ScanTells(ts: seq<Token>, rest: Rest)
    requires Proper(ts) && ProperRest(rest)
    ensures Run(START, Spell(ts) + SpellRest(rest)) == ScanOf(ts, rest)
  {
    hide Run, Quiet, NoColon, Spell, SpellSigns, Depth;
    RunTokens(ts);
    var s := Run(START, Spell(ts));
    RunConcat(START, Spell(ts), SpellRest(rest));
    EmptyText(s);
    match rest
    case Complete =>
    case Backslash =>
      assert [BACKSLASH] == [] + [BACKSLASH];
      RunSnoc(s, [], BACKSLASH);
    case Open(m, inside, escaped) =>
      assert [m] == [] + [m];
      RunSnoc(s, [], m);
      RunSigns(m, s.depth, inside);
      RunConcat(s, [m], SpellSigns(inside));
      assert [m] + SpellSigns(inside) + [] == [m] + SpellSigns(inside);
      if escaped { RunSnoc(s, [m] + SpellSigns(inside), BACKSLASH); }
  }
}
