/** What a declaration list is read as, said in the tokens of its text. */
module DeclarationTokens {
  import opened Options
  import opened JsText
  import opened CssScan
  import opened AuthoredDeclarations
  import opened CssTokens

  // ---- What an important declaration ends in ----

  /** `important` in any mixture of cases. */
  predicate SpellsImportant(letters: JsString) {
    |letters| == 9 && forall i :: 0 <= i < 9 ==> letters[i] == Ascii("important")[i] || letters[i] == Ascii("IMPORTANT")[i]
  }

  /** A text is another one with a bang and the word behind it. */
  ghost predicate Marks(text: JsString, before: JsString) {
    exists spaces, letters :: AllSpaces(spaces) && SpellsImportant(letters) && text == before + [BANG] + spaces + letters
  }

  lemma LowerSpells(letters: JsString)
    requires |letters| == 9
    ensures SpellsImportant(letters) <==> forall i :: 0 <= i < 9 ==> Lower(letters[i]) == ImportantWord()[i]
  {
    var small, big := Ascii("important"), Ascii("IMPORTANT");
    assert forall i :: 0 <= i < 9 ==> small[i] == big[i] + 32 && 65 <= big[i] <= 90;
  }

  lemma LettersNoSpace(letters: JsString)
    requires SpellsImportant(letters)
    ensures |letters| == 9 && !IsSpace(letters[8])
  {
    assert Ascii("important")[8] == 116 && Ascii("IMPORTANT")[8] == 84;
  }

  lemma Parts(before: JsString, spaces: JsString, letters: JsString)
    requires |letters| == 9
    ensures var s, head := before + [BANG] + spaces + letters, before + [BANG];
      && s[..|s| - 9] == head + spaces && s[|s| - 9..] == letters && s[|s| - 1] == letters[8]
      && head[..|head| - 1] == before && head[|head| - 1] == BANG
  {
  }

  lemma MarkedIsTaken(before: JsString, spaces: JsString, letters: JsString)
    requires AllSpaces(spaces) && SpellsImportant(letters)
    ensures WithoutImportant(before + [BANG] + spaces + letters) == Some(Trim(before))
  {
    hide ImportantWord, TrimEnd, Trim, IsSpace, Lower, SpellsImportant;
    var s := before + [BANG] + spaces + letters;
    ImportantLetters();
    LettersNoSpace(letters);
    Parts(before, spaces, letters);
    LowerSpells(letters);
    TrimEndKeeps(s);
    SpaceAndBang();
    TrimEndDrops(before + [BANG], spaces);
    forall i | 0 <= i < 9 ensures Lower(s[|s| - 9 + i]) == ImportantWord()[i] {
      assert s[|s| - 9 + i] == s[|s| - 9..][i] == letters[i];
    }
  }

  /** A trimmed text is important exactly if it ends in a bang and the word, and then its value is what is before them. */
  lemma ImportantExactly(s: JsString)
    requires Trimmed(s)
    ensures WithoutImportant(s).Some? <==> exists before :: Marks(s, before)
    ensures forall before :: Marks(s, before) ==> WithoutImportant(s) == Some(Trim(before))
  {
    hide WithoutImportant, TrimEnd, Trim, IsSpace, SpellsImportant, ImportantWord;
    forall before | Marks(s, before) ensures WithoutImportant(s) == Some(Trim(before)) {
      var spaces, letters :| AllSpaces(spaces) && SpellsImportant(letters) && s == before + [BANG] + spaces + letters;
      MarkedIsTaken(before, spaces, letters);
    }
    if WithoutImportant(s).Some? {
      ImportantOfNothing();
      TrimEndKeeps(s);
      var before, spaces, letters := MarkedPieces(s);
      assert Marks(s, before);
    }
  }

  lemma MarkedPieces(s: JsString) returns (before: JsString, spaces: JsString, letters: JsString)
    requires TrimEnd(s) == s && WithoutImportant(s).Some?
    ensures AllSpaces(spaces) && SpellsImportant(letters) && s == before + [BANG] + spaces + letters
  {
    hide Trim, TrimEnd, ImportantWord, Lower, AllSpaces, SpellsImportant;
    var head := s[..|s| - 9];
    letters := s[|s| - 9..];
    LowerSpells(letters);
    TrimEndSplits(head);
    spaces :| AllSpaces(spaces) && head == TrimEnd(head) + spaces;
    before := TrimEnd(head)[..|TrimEnd(head)| - 1];
    Pieces(s, letters, TrimEnd(head), spaces);
  }

  // ---- Printed tokens are read back ----

  datatype Written = Written(name: seq<Token>, value: seq<Token>, important: bool)

  /** Balanced, and trimmed to something. */
  ghost predicate Sealed(ts: seq<Token>) {
    Proper(ts) && QuietTokens(ts) && Depth(ts, OPEN, CLOSE) == 0 && Spell(ts) != [] && Trimmed(Spell(ts))
  }

  /**
   * A name without a colon outside parentheses, and a value; quotes, escapes and parentheses may hold anything. Only an
   * important value may look important.
   */
  ghost predicate Writable(limits: Limits, w: Written) {
    && Sealed(w.name) && NoColonTokens(w.name) && |Spell(w.name)| <= limits.propertyNameLength
    && Sealed(w.value) && (!w.important ==> !exists before :: Marks(Spell(w.value), before))
  }

  function Text(w: Written): Declaration {
    Declaration(Spell(w.name), Spell(w.value), w.important)
  }

  lemma WritableIsWellFormed(limits: Limits, w: Written)
    requires Writable(limits, w)
    ensures WellFormed(limits, Text(w))
  {
    hide Run, Quiet, NoColon, Spell, QuietTokens, NoColonTokens, Depth, WithoutImportant, IsSpace, Marks, Proper;
    RunTokens(w.name);
    RunTokens(w.value);
    ImportantExactly(Spell(w.value));
  }

  function Texts(ws: seq<Written>): (ds: seq<Declaration>)
    ensures |ds| == |ws| && forall i :: 0 <= i < |ws| ==> ds[i] == Text(ws[i])
  {
    seq(|ws|, i requires 0 <= i < |ws| => Text(ws[i]))
  }

  /** Whatever tokens declarations are written in, their printed list is read back as they are. */
  lemma WrittenIsReadBack(limits: Limits, ws: seq<Written>)
    requires |ws| <= limits.declarationsPerRule && forall w :: w in ws ==> Writable(limits, w)
    ensures ParseList(limits, Print(Texts(ws))) == Some(Texts(ws))
  {
    hide Writable, WellFormed, Text, ParseList, Print;
    var ds := Texts(ws);
    forall d | d in ds ensures WellFormed(limits, d) {
      var i: nat :| i < |ds| && ds[i] == d;
      assert ws[i] in ws && d == Text(ws[i]);
      WritableIsWellFormed(limits, ws[i]);
    }
    PrintThenParse(limits, ds);
  }

  // ---- One declaration ----

  /** What the text after the colon says. */
  ghost predicate Says(text: JsString, value: JsString, important: bool) {
    if important then exists before :: Marks(text, before) && value == Trim(before)
    else value == text && !exists before :: Marks(text, before)
  }

  /** A chunk is a declaration as its first colon outside quotes, escapes and parentheses divides it. */
  lemma DividedByColon(limits: Limits, name: seq<Token>, after: JsString, d: Declaration)
    requires Proper(name) && NoColonTokens(name) && Depth(name, OPEN, CLOSE) == 0
    ensures ParseDeclaration(limits, Spell(name) + [COLON] + after) == Some(d) <==>
            && d.property == Trim(Spell(name)) && 0 < |d.property| <= limits.propertyNameLength
            && d.value != [] && Says(Trim(after), d.value, d.important)
  {
    hide Run, Quiet, NoColon, Spell, NoColonTokens, Depth, WithoutImportant, Trim, Marks, FirstColon, Proper;
    var chunk := Spell(name) + [COLON] + after;
    RunTokens(name);
    ColonAfter(Spell(name), after);
    assert chunk[..|Spell(name)|] == Spell(name) && chunk[|Spell(name)| + 1..] == after;
    var lead, tail := TrimSplits(after);
    ImportantExactly(Trim(after));
  }

  lemma NoFirstColon(text: JsString)
    requires NoColon(START, text)
    ensures FirstColon(text, 0, START).None?
  {
    hide Run, NoColon;
    assert text[..|text|] == text;
    ColonSkips(text, |text|);
  }

  /** Without such a colon it is none. */
  lemma NoColonNoDeclaration(limits: Limits, ts: seq<Token>)
    requires Proper(ts) && NoColonTokens(ts)
    ensures ParseDeclaration(limits, Spell(ts)).None?
  {
    hide Run, Quiet, NoColon, Spell, NoColonTokens, Depth, FirstColon, Proper, WithoutImportant, Trim;
    RunTokens(ts);
    NoFirstColon(Spell(ts));
  }

  // ---- The list's scanner and its breaks ----

  lemma ListSnoc(t: JsString, c: CodeUnit)
    ensures ListScan(t + [c]) == if ListScan(t).None? || (Plain(ListScan(t).value) && c == CLOSE && ListScan(t).value.depth == 0)
                                 then None else Some(Step(ListScan(t).value, c))
    ensures LastBreak(t + [c]) == if BreaksAt(t, c) then |t| + 1 else LastBreak(t)
  {
    assert (t + [c])[..|t|] == t;
  }

  lemma {:induction false} OverSigns(t: JsString, m: CodeUnit, ss: seq<Sign>)
    requires ProperInside(m, ss)
    requires ListScan(t).Some? && !ListScan(t).value.escaped && ListScan(t).value.quote == Some(m)
    ensures ListScan(t + SpellSigns(ss)) == ListScan(t) && LastBreak(t + SpellSigns(ss)) == LastBreak(t)
  {
    hide ListScan, LastBreak, SpellSigns;
    if ss == [] {
      NoSigns();
      assert t + [] == t;
    } else {
      var init, last := ss[..|ss| - 1], ss[|ss| - 1];
      OverSigns(t, m, init);
      assert ss == init + [last];
      SignsSnoc(init, last);
      var u := t + SpellSigns(init);
      match last
      case Bare(c) =>
        ListSnoc(u, c);
        assert t + (SpellSigns(init) + [c]) == u + [c];
      case Behind(c) =>
        ListSnoc(u, BACKSLASH);
        ListSnoc(u + [BACKSLASH], c);
        assert t + (SpellSigns(init) + ([BACKSLASH] + [c])) == u + [BACKSLASH] + [c];
    }
  }

  lemma OverBehind(t: JsString, c: CodeUnit)
    requires ListScan(t).Some? && Plain(ListScan(t).value)
    ensures ListScan(t + ([BACKSLASH] + [c])) == ListScan(t) && LastBreak(t + ([BACKSLASH] + [c])) == LastBreak(t)
  {
    hide ListScan, LastBreak;
    ListSnoc(t, BACKSLASH);
    ListSnoc(t + [BACKSLASH], c);
    assert t + ([BACKSLASH] + [c]) == t + [BACKSLASH] + [c];
  }

  lemma OverQuoted(t: JsString, m: CodeUnit, inside: seq<Sign>)
    requires ListScan(t).Some? && Plain(ListScan(t).value) && IsMark(m) && ProperInside(m, inside)
    ensures var out := [m] + SpellSigns(inside) + [m]; ListScan(t + out) == ListScan(t) && LastBreak(t + out) == LastBreak(t)
  {
    hide ListScan, LastBreak, SpellSigns;
    ListSnoc(t, m);
    OverSigns(t + [m], m, inside);
    ListSnoc(t + [m] + SpellSigns(inside), m);
    assert t + ([m] + SpellSigns(inside) + [m]) == t + [m] + SpellSigns(inside) + [m];
  }

  lemma OverBare(t: JsString, c: CodeUnit)
    requires ProperToken(Sole(c)) && ListScan(t).Some? && Plain(ListScan(t).value)
    ensures var s, next := ListScan(t).value, t + [c];
      && ListScan(next) == (if c == CLOSE && s.depth == 0 then None
                            else Some(s.(depth := s.depth + Deeper(Sole(c), OPEN, CLOSE))))
      && LastBreak(next) == if c == SEMICOLON && s.depth <= 0 then |t| + 1 else LastBreak(t)
  {
    hide ListScan, LastBreak;
    ListSnoc(t, c);
  }

  /** One token further. */
  lemma OverToken(t: JsString, token: Token)
    requires ProperToken(token) && ListScan(t).Some? && Plain(ListScan(t).value)
    ensures var s, next := ListScan(t).value, t + SpellToken(token);
      && ListScan(next) == (if token == Sole(CLOSE) && s.depth == 0 then None
                            else Some(s.(depth := s.depth + Deeper(token, OPEN, CLOSE))))
      && LastBreak(next) == if token == Sole(SEMICOLON) && s.depth <= 0 then |t| + 1 else LastBreak(t)
  {
    hide ListScan, LastBreak, SpellSigns;
    match token
    case One(Bare(c)) => OverBare(t, c);
    case One(Behind(c)) => OverBehind(t, c);
    case Quoted(m, inside) => OverQuoted(t, m, inside);
  }

  lemma {:induction false} NoneStays(t: JsString, more: JsString)
    requires ListScan(t).None?
    ensures ListScan(t + more).None?
  {
    if more == [] {
      assert t + [] == t;
    } else {
      NoneStays(t, more[..|more| - 1]);
      assert t + more == (t + more[..|more| - 1]) + [more[|more| - 1]];
      ListSnoc(t + more[..|more| - 1], more[|more| - 1]);
    }
  }

  /** How many tokens there are up to the last semicolon outside quotes, escapes and parentheses. */
  function LastTop(ts: seq<Token>): (n: nat)
    ensures n <= |ts|
    ensures n > 0 ==> ts[n - 1] == Sole(SEMICOLON) && Depth(ts[..n - 1], OPEN, CLOSE) <= 0
    ensures forall k :: n <= k < |ts| && ts[k] == Sole(SEMICOLON) ==> Depth(ts[..k], OPEN, CLOSE) > 0
  {
    if ts == [] then 0
    else
      var init := ts[..|ts| - 1];
      if ts[|ts| - 1] == Sole(SEMICOLON) && Depth(init, OPEN, CLOSE) <= 0 then |ts|
      else
        var n := LastTop(init);
        assert forall k :: 0 <= k <= |init| ==> init[..k] == ts[..k];
        n
  }

  lemma LastTopSnoc(ts: seq<Token>, t: Token)
    ensures LastTop(ts + [t]) == if t == Sole(SEMICOLON) && Depth(ts, OPEN, CLOSE) <= 0 then |ts| + 1 else LastTop(ts)
  {
    assert (ts + [t])[..|ts|] == ts;
  }

  lemma SnocSlice(ts: seq<Token>, t: Token, n: nat)
    requires n <= |ts|
    ensures (ts + [t])[..n] == ts[..n] && (ts + [t])[..|ts| + 1] == ts + [t]
  {
  }

  /** The list's scanner over tokens. */
  lemma {:induction false} ListScanTells(ts: seq<Token>)
    requires Proper(ts)
    ensures ListScan(Spell(ts)) == if Nested(ts, OPEN, CLOSE) then Some(Scan(None, false, Depth(ts, OPEN, CLOSE))) else None
    ensures Nested(ts, OPEN, CLOSE) ==> LastBreak(Spell(ts)) == |Spell(ts[..LastTop(ts)])|
  {
    hide ListScan, LastBreak, Spell, LastTop, Depth, SpellToken, Nested, Proper;
    if ts == [] {
      NoTokens();
      assert ts[..0] == [];
    } else {
      var init, last := ts[..|ts| - 1], ts[|ts| - 1];
      assert ts == init + [last];
      Snoc(init, last);
      ListScanTells(init);
      NestedSnoc(init, last, OPEN, CLOSE);
      LastTopSnoc(init, last);
      LastTopFits(init);
      SnocSlice(init, last, LastTop(init));
      if Nested(init, OPEN, CLOSE) {
        NestedDeep(init);
        OverToken(Spell(init), last);
        SpellOne(last);
      } else {
        NoneStays(Spell(init), SpellToken(last));
      }
    }
  }

  lemma NoTokens()
    ensures Nested([], OPEN, CLOSE) && Depth([], OPEN, CLOSE) == 0 && LastTop([]) == 0 && Spell([]) == []
    ensures ListScan([]) == Some(START) && LastBreak([]) == 0
  {
  }

  lemma SpellOne(t: Token)
    ensures t.One? && t.sign.Bare? ==> |SpellToken(t)| == 1
  {
  }

  lemma NestedDeep(ts: seq<Token>)
    requires Nested(ts, OPEN, CLOSE)
    ensures Depth(ts, OPEN, CLOSE) >= 0
  {
    assert ts[..|ts|] == ts;
  }

  lemma RestTells(t: JsString, rest: Rest)
    requires ProperRest(rest) && ListScan(t).Some? && Plain(ListScan(t).value)
    ensures var s := ListScan(t).value;
      ListScan(t + SpellRest(rest)) == Some(Scan(if rest.Open? then Some(rest.mark) else None,
                                                 rest.Backslash? || (rest.Open? && rest.escaped), s.depth))
    ensures LastBreak(t + SpellRest(rest)) == LastBreak(t)
  {
    hide ListScan, LastBreak, SpellSigns;
    match rest
    case Complete => assert t + [] == t;
    case Backslash => ListSnoc(t, BACKSLASH);
    case Open(m, inside, escaped) =>
      ListSnoc(t, m);
      OverSigns(t + [m], m, inside);
      var u := t + [m] + SpellSigns(inside);
      assert t + ([m] + SpellSigns(inside) + []) == u && t + ([m] + SpellSigns(inside) + [BACKSLASH]) == u + [BACKSLASH];
      if escaped { ListSnoc(u, BACKSLASH); }
  }

  // ---- The list ----

  /** A semicolon that ends a declaration adds nothing to the end of the text. */
  lemma SemicolonAdds(limits: Limits, t: JsString)
    requires BreaksAt(t, SEMICOLON)
    ensures ParseList(limits, t + [SEMICOLON]) == ParseList(limits, t)
  {
    hide ListScan, LastBreak, Ended, Take, ParseFrom, ParseList, Step;
    var more := t + [SEMICOLON];
    EndedSnoc(limits, t, SEMICOLON);
    Reaches(limits, t, |t|);
    Reaches(limits, more, |more|);
    assert t[..|t|] == t && more[..|more|] == more && more[|more|..] == [];
    if Ended(limits, t).Some? {
      AtTheEnd(limits, t, LastBreak(t), ListScan(t).value, Ended(limits, t).value);
      SemicolonStays(ListScan(t).value);
      if Ended(limits, more).Some? {
        AtTheEnd(limits, more, |more|, ListScan(more).value, Ended(limits, more).value);
        BlankAdds(limits, Ended(limits, more).value);
      }
    }
  }

  lemma SemicolonStays(s: Scan)
    requires Plain(s)
    ensures Step(s, SEMICOLON) == s
  {
  }

  /** What stands after the last semicolon, added to what was read before it. */
  ghost predicate Adds(limits: Limits, chunk: JsString, before: seq<Declaration>, r: Option<seq<Declaration>>) {
    if AllSpaces(chunk) then r == Some(before)
    else if ParseDeclaration(limits, chunk).Some? && |before| < limits.declarationsPerRule
    then r == Some(before + [ParseDeclaration(limits, chunk).value])
    else r == None
  }

  lemma TakeAdds(limits: Limits, chunk: JsString, before: seq<Declaration>)
    ensures Adds(limits, chunk, before, Take(limits, chunk, before))
  {
    hide ParseDeclaration, Trim, IsSpace;
    if AllSpaces(chunk) {
      assert chunk == chunk + [] + [];
      TrimOf(chunk, [], []);
    } else {
      var i: nat :| i < |chunk| && !IsSpace(chunk[i]);
      TrimSplitsNonempty(chunk, i);
    }
  }

  lemma SpelledParts(ts: seq<Token>, n: nat, rest: Rest)
    requires n <= |ts|
    ensures Spell(ts) == Spell(ts[..n]) + Spell(ts[n..])
    ensures var text := Spell(ts) + SpellRest(rest);
      |Spell(ts[..n])| <= |text| && text[..|Spell(ts[..n])|] == Spell(ts[..n])
      && text[|Spell(ts[..n])|..] == Spell(ts[n..]) + SpellRest(rest)
  {
    hide SpellRest, Spell;
    SpellConcat(ts[..n], ts[n..]);
    assert ts == ts[..n] + ts[n..];
    TextParts(Spell(ts[..n]), Spell(ts[n..]), SpellRest(rest));
  }

  lemma TextParts(a: JsString, b: JsString, c: JsString)
    ensures |a| <= |a + b + c| && (a + b + c)[..|a|] == a && (a + b + c)[|a|..] == b + c
  {
  }

  lemma {:induction false} SpellConcat(a: seq<Token>, b: seq<Token>)
    ensures Spell(a + b) == Spell(a) + Spell(b)
  {
    hide SpellToken;
    if b == [] {
      assert a + b == a;
    } else {
      SpellConcat(a, b[..|b| - 1]);
      assert (a + b)[..|a + b| - 1] == a + b[..|b| - 1];
    }
  }

  /** The tokens up to the last semicolon are read like those before it. */
  lemma BeforeTop(limits: Limits, ts: seq<Token>)
    requires Proper(ts) && Nested(ts, OPEN, CLOSE)
    ensures var n := LastTop(ts);
      ParseList(limits, Spell(ts[..n])) == if n == 0 then Some([]) else ParseList(limits, Spell(ts[..n - 1]))
  {
    hide ParseList, Spell, Depth, LastTop, ListScan, Proper;
    var n := LastTop(ts);
    if n == 0 {
      EmptyList(limits);
      assert ts[..0] == [];
    } else {
      LastTopIs(ts);
      var front := ts[..n - 1];
      assert ts[..n] == front + [Sole(SEMICOLON)];
      ProperPart(ts, n - 1);
      NestedPart(ts, n - 1);
      ListScanTells(front);
      Snoc(front, Sole(SEMICOLON));
      SemicolonAdds(limits, Spell(front));
    }
  }

  lemma EmptyList(limits: Limits)
    ensures ParseList(limits, []) == Some([]) && Spell([]) == []
  {
    Nothing(limits, [], 0, []);
  }

  lemma LastTopIs(ts: seq<Token>)
    requires LastTop(ts) > 0
    ensures var n := LastTop(ts); n <= |ts| && ts[n - 1] == Sole(SEMICOLON) && Depth(ts[..n - 1], OPEN, CLOSE) <= 0
  {
  }

  lemma ProperPart(ts: seq<Token>, n: nat)
    requires Proper(ts) && n <= |ts|
    ensures Proper(ts[..n])
  {
  }

  lemma NestedPart(ts: seq<Token>, n: nat)
    requires Nested(ts, OPEN, CLOSE) && n <= |ts|
    ensures Nested(ts[..n], OPEN, CLOSE)
  {
    hide Depth;
    assert forall k :: 0 <= k <= n ==> ts[..n][..k] == ts[..k];
  }

  /**
   * What a list is read as: a list that closes what it did not open, or ends within parentheses or quotes, is refused,
   * and so is one with a part that is no declaration or with too many of them. A part that breaks off behind a backslash
   * is dropped.
   */
  lemma ListByTokens(limits: Limits, ts: seq<Token>, rest: Rest)
    requires Proper(ts) && ProperRest(rest)
    ensures var n := LastTop(ts);
      var before := if n == 0 then Some([]) else ParseList(limits, Spell(ts[..n - 1]));
      var r := ParseList(limits, Spell(ts) + SpellRest(rest));
      if !Nested(ts, OPEN, CLOSE) || rest.Open? || Depth(ts, OPEN, CLOSE) > 0 || before.None? then r == None
      else if rest.Backslash? then r == before
      else Adds(limits, Spell(ts[n..]), before.value, r)
  {
    hide ParseList, Spell, Depth, LastTop, Nested, ListScan, LastBreak, Adds, Take, SpellRest, Proper;
    var n := LastTop(ts);
    var text := Spell(ts) + SpellRest(rest);
    EndOfList(limits, text);
    ListScanTells(ts);
    if Nested(ts, OPEN, CLOSE) {
      RestTells(Spell(ts), rest);
      LastTopFits(ts);
      SpelledParts(ts, n, rest);
      BeforeTop(limits, ts);
      var before := ParseList(limits, Spell(ts[..n]));
      if before.Some? { TakeAdds(limits, Spell(ts[n..]), before.value); }
      NoRest();
    } else {
      NoneStays(Spell(ts), SpellRest(rest));
    }
  }

  lemma LastTopFits(ts: seq<Token>)
    ensures LastTop(ts) <= |ts|
  {
  }

  lemma NoRest()
    ensures SpellRest(Complete) == [] && forall t: JsString :: t + [] == t
  {
  }
}
