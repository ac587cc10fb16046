/** Scanning CSS text: which characters count, once quotes, escapes and parentheses are taken into account. */
module CssScan {
  import opened Options
  import opened JsText

  const BACKSLASH: CodeUnit := 92
  const DOUBLE_QUOTE: CodeUnit := 34
  const SINGLE_QUOTE: CodeUnit := 39
  const OPEN: CodeUnit := 40
  const CLOSE: CodeUnit := 41
  const SEMICOLON: CodeUnit := 59
  const COLON: CodeUnit := 58
  const SPACE: CodeUnit := 32
  const BANG: CodeUnit := 33

  /** White space and line terminators, as `trim` and `\s` know them. */
  predicate IsSpace(u: CodeUnit) {
    9 <= u <= 13 || u in {32, 160, 0x1680, 0x2028, 0x2029, 0x202f, 0x205f, 0x3000, 0xfeff} || 0x2000 <= u <= 0x200a
  }

  function TrimStart(s: JsString): (r: JsString)
    ensures r != [] ==> !IsSpace(r[0])
    decreases |s|
  {
    if s != [] && IsSpace(s[0]) then TrimStart(s[1..]) else s
  }

  function TrimEnd(s: JsString): (r: JsString)
    ensures r <= s && (r != [] ==> !IsSpace(r[|r| - 1]))
    decreases |s|
  {
    if s != [] && IsSpace(s[|s| - 1]) then TrimEnd(s[..|s| - 1]) else s
  }

  function Trim(s: JsString): JsString {
    TrimEnd(TrimStart(s))
  }

  predicate AllSpaces(s: JsString) {
    forall i :: 0 <= i < |s| ==> IsSpace(s[i])
  }

  /** Neither starts nor ends with a space. */
  predicate Trimmed(s: JsString) {
    s != [] ==> !IsSpace(s[0]) && !IsSpace(s[|s| - 1])
  }

  lemma {:induction false} TrimStartSplits(s: JsString)
    ensures exists lead :: AllSpaces(lead) && s == lead + TrimStart(s)
    decreases |s|
  {
    hide IsSpace;
    if s != [] && IsSpace(s[0]) {
      TrimStartSplits(s[1..]);
      var rest :| AllSpaces(rest) && s[1..] == rest + TrimStart(s[1..]);
      assert s == [s[0]] + s[1..] && s == ([s[0]] + rest) + TrimStart(s);
      assert AllSpaces([s[0]] + rest);
    } else {
      assert s == [] + s && AllSpaces([]);
    }
  }

  lemma {:induction false} TrimEndSplits(s: JsString)
    ensures exists tail :: AllSpaces(tail) && s == TrimEnd(s) + tail
    decreases |s|
  {
    hide IsSpace;
    if s != [] && IsSpace(s[|s| - 1]) {
      TrimEndSplits(s[..|s| - 1]);
      var rest :| AllSpaces(rest) && s[..|s| - 1] == TrimEnd(s[..|s| - 1]) + rest;
      assert s == s[..|s| - 1] + [s[|s| - 1]] && s == TrimEnd(s) + (rest + [s[|s| - 1]]);
      assert AllSpaces(rest + [s[|s| - 1]]);
    } else {
      assert s == s + [] && AllSpaces([]);
    }
  }

  /** A trimmed text has spaces only around it, and is what is between them. */
  lemma TrimSplits(s: JsString) returns (lead: JsString, tail: JsString)
    ensures AllSpaces(lead) && AllSpaces(tail) && s == lead + Trim(s) + tail && Trimmed(Trim(s))
  {
    TrimStartSplits(s);
    lead :| AllSpaces(lead) && s == lead + TrimStart(s);
    TrimEndSplits(TrimStart(s));
    tail :| AllSpaces(tail) && TrimStart(s) == TrimEnd(TrimStart(s)) + tail;
    if Trim(s) != [] { assert Trim(s)[0] == TrimStart(s)[0]; }
  }

  lemma {:induction false} TrimStartDrops(lead: JsString, s: JsString)
    requires AllSpaces(lead) && (s != [] ==> !IsSpace(s[0]))
    ensures TrimStart(lead + s) == s
    decreases |lead|
  {
    if lead == [] {
      assert [] + s == s;
    } else {
      assert (lead + s)[1..] == lead[1..] + s;
      TrimStartDrops(lead[1..], s);
    }
  }

  lemma {:induction false} TrimEndDrops(s: JsString, tail: JsString)
    requires AllSpaces(tail) && (s != [] ==> !IsSpace(s[|s| - 1]))
    ensures TrimEnd(s + tail) == s
    decreases |tail|
  {
    if tail == [] {
      assert s + [] == s;
    } else {
      assert (s + tail)[..|s + tail| - 1] == s + tail[..|tail| - 1];
      TrimEndDrops(s, tail[..|tail| - 1]);
    }
  }

  lemma TrimOf(lead: JsString, s: JsString, tail: JsString)
    requires AllSpaces(lead) && AllSpaces(tail) && Trimmed(s)
    ensures Trim(lead + s + tail) == s
  {
    if s == [] {
      assert lead + s + tail == (lead + tail) + [];
      TrimStartDrops(lead + tail, []);
    } else {
      assert lead + s + tail == lead + (s + tail);
      TrimStartDrops(lead, s + tail);
      TrimEndDrops(s, tail);
    }
  }

  // ---- The scanner ----

  datatype Scan = Scan(quote: Option<CodeUnit>, escaped: bool, depth: int)

  const START: Scan := Scan(None, false, 0)
  const ESCAPED: Scan := Scan(None, true, 0)

  /** Neither escaped nor quoted: the next character counts. */
  predicate Plain(s: Scan) {
    !s.escaped && s.quote.None?
  }

  function Step(s: Scan, c: CodeUnit): Scan {
    if s.escaped then s.(escaped := false)
    else if c == BACKSLASH then s.(escaped := true)
    else if s.quote.Some? then (if s.quote == Some(c) then s.(quote := None) else s)
    else if c == DOUBLE_QUOTE || c == SINGLE_QUOTE then s.(quote := Some(c))
    else if c == OPEN then s.(depth := s.depth + 1)
    else if c == CLOSE then s.(depth := s.depth - 1)
    else s
  }

  function Run(s: Scan, t: JsString): Scan {
    if t == [] then s else Step(Run(s, t[..|t| - 1]), t[|t| - 1])
  }

  /** The character ends a declaration, or closes what was not open. */
  predicate StopsAt(s: Scan, c: CodeUnit) {
    Plain(s) && ((c == CLOSE && s.depth == 0) || (c == SEMICOLON && s.depth <= 0))
  }

  /** Nothing in the text stops a declaration list's scanner. */
  predicate Quiet(s: Scan, t: JsString) {
    t == [] || (Quiet(s, t[..|t| - 1]) && !StopsAt(Run(s, t[..|t| - 1]), t[|t| - 1]))
  }

  /** No colon in the text counts. */
  predicate NoColon(s: Scan, t: JsString) {
    t == [] || (NoColon(s, t[..|t| - 1]) && !ColonAt(Run(s, t[..|t| - 1]), t[|t| - 1]))
  }

  predicate ColonAt(s: Scan, c: CodeUnit) {
    Plain(s) && s.depth == 0 && c == COLON
  }

  lemma RunSnoc(s: Scan, t: JsString, c: CodeUnit)
    ensures Run(s, t + [c]) == Step(Run(s, t), c)
    ensures Quiet(s, t + [c]) <==> Quiet(s, t) && !StopsAt(Run(s, t), c)
    ensures NoColon(s, t + [c]) <==> NoColon(s, t) && !ColonAt(Run(s, t), c)
  {
    assert (t + [c])[..|t|] == t;
  }

  lemma {:induction false} RunConcat(s: Scan, a: JsString, b: JsString)
    ensures Run(s, a + b) == Run(Run(s, a), b)
    ensures Quiet(s, a + b) <==> Quiet(s, a) && Quiet(Run(s, a), b)
    ensures NoColon(s, a + b) <==> NoColon(s, a) && NoColon(Run(s, a), b)
  {
    if b == [] {
      assert a + b == a;
    } else {
      var init, last := b[..|b| - 1], b[|b| - 1];
      RunConcat(s, a, init);
      assert a + b == (a + init) + [last] && b == init + [last];
      hide Run, Quiet, NoColon;
      RunSnoc(s, a + init, last);
      RunSnoc(Run(s, a), init, last);
    }
  }

  /** Characters that mean nothing to the scanner: spaces, bangs and letters. */
  predicate Inert(c: CodeUnit) {
    c !in {BACKSLASH, DOUBLE_QUOTE, SINGLE_QUOTE, OPEN, CLOSE, SEMICOLON, COLON}
  }

  predicate AllInert(t: JsString) {
    forall i :: 0 <= i < |t| ==> Inert(t[i])
  }

  predicate Sound(s: Scan) {
    s.quote.Some? ==> s.quote.value in {DOUBLE_QUOTE, SINGLE_QUOTE}
  }

  lemma {:induction false} RunSound(s: Scan, t: JsString)
    requires Sound(s)
    ensures Sound(Run(s, t))
  {
    if t != [] { RunSound(s, t[..|t| - 1]); }
  }

  /** Inert text only ends an escape. */
  lemma {:induction false} RunInert(s: Scan, t: JsString)
    requires AllInert(t) && Sound(s)
    ensures Run(s, t) == if t == [] then s else s.(escaped := false)
    ensures Quiet(s, t) && NoColon(s, t)
  {
    if t != [] {
      assert AllInert(t[..|t| - 1]);
      RunInert(s, t[..|t| - 1]);
    }
  }

  lemma SpacesInert(t: JsString)
    requires AllSpaces(t)
    ensures AllInert(t)
  {
  }

  /** A quiet text never closes more than it opened. */
  lemma {:induction false} QuietDepth(s: Scan, t: JsString)
    requires Quiet(s, t) && s.depth >= 0
    ensures Run(s, t).depth >= 0
  {
    if t != [] { QuietDepth(s, t[..|t| - 1]); }
  }

  /** An escape at the end of a text is its last backslash. */
  lemma EscapedLast(s: Scan, t: JsString)
    requires t != [] && Run(s, t).escaped
    ensures t[|t| - 1] == BACKSLASH
  {
  }
}
