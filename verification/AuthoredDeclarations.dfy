/** The declaration list of a rule's text: parsed, printed and parsed again, and matched with the rule's longhands. */
module AuthoredDeclarations {
  import opened Options
  import opened JsText
  import opened CssScan

  datatype Declaration = Declaration(property: JsString, value: JsString, important: bool)

  /** The limits of the inspect protocol: how many declarations, and how long a property name. */
  datatype Limits = Limits(declarationsPerRule: nat, propertyNameLength: nat, ruleTextLength: nat)

  function ImportantWord(): JsString {
    Ascii("important")
  }

  function Lower(u: CodeUnit): CodeUnit {
    if 65 <= u <= 90 then u + 32 else u
  }

  /** The text without a trailing `! important` in any case and spacing, if it has one. */
  function WithoutImportant(s: JsString): Option<JsString> {
    var t := TrimEnd(s);
    if |t| < 9 || !(forall i :: 0 <= i < 9 ==> Lower(t[|t| - 9 + i]) == ImportantWord()[i]) then None
    else
      var u := TrimEnd(t[..|t| - 9]);
      if u == [] || u[|u| - 1] != BANG then None else Some(Trim(u[..|u| - 1]))
  }

  /** The first colon that counts. */
  function FirstColon(chunk: JsString, index: nat, s: Scan): (r: Option<nat>)
    requires index <= |chunk|
    ensures r.Some? ==> index <= r.value < |chunk|
    decreases |chunk| - index
  {
    if index == |chunk| then None
    else if ColonAt(s, chunk[index]) then Some(index)
    else FirstColon(chunk, index + 1, Step(s, chunk[index]))
  }

  function ParseDeclaration(limits: Limits, chunk: JsString): Option<Declaration> {
    var colon := FirstColon(chunk, 0, START);
    if colon.None? then None
    else
      var property := Trim(chunk[..colon.value]);
      var rest := Trim(chunk[colon.value + 1..]);
      var stripped := WithoutImportant(rest);
      var value := if stripped.Some? then stripped.value else rest;
      if property == [] || |property| > limits.propertyNameLength || value == [] then None
      else Some(Declaration(property, value, stripped.Some?))
  }

  /** A finished chunk: nothing, one more declaration, or the end of the attempt. */
  function Take(limits: Limits, chunk: JsString, found: seq<Declaration>): Option<seq<Declaration>> {
    if Trim(chunk) == [] then Some(found)
    else
      var d := ParseDeclaration(limits, chunk);
      if d.None? || |found| >= limits.declarationsPerRule then None else Some(found + [d.value])
  }

  /** The rest of a list; one position past the end stands for a closing semicolon. */
  function ParseFrom(limits: Limits, text: JsString, start: nat, index: nat, s: Scan,
                     found: seq<Declaration>): Option<seq<Declaration>>
    requires start <= index <= |text| + 1
    decreases |text| + 1 - index
  {
    if index > |text| then if s.quote.Some? || s.depth > 0 then None else Some(found)
    else
      var c := if index < |text| then text[index] else SEMICOLON;
      if !StopsAt(s, c) then ParseFrom(limits, text, start, index + 1, Step(s, c), found)
      else if c == CLOSE then None
      else
        var taken := Take(limits, text[start..index], found);
        if taken.None? then None else ParseFrom(limits, text, index + 1, index + 1, s, taken.value)
  }

  function ParseList(limits: Limits, text: JsString): Option<seq<Declaration>> {
    ParseFrom(limits, text, 0, 0, START, [])
  }

  // ---- Printing ----

  function Suffix(important: bool): JsString {
    if important then [SPACE, BANG] + ImportantWord() else []
  }

  function PrintOne(d: Declaration): JsString {
    d.property + [COLON, SPACE] + d.value + Suffix(d.important) + [SEMICOLON]
  }

  /** As a rule's text is serialized: each declaration with its semicolon, and spaces between them. */
  function Print(ds: seq<Declaration>): JsString {
    if ds == [] then []
    else if |ds| == 1 then PrintOne(ds[0])
    else Print(ds[..|ds| - 1]) + [SPACE] + PrintOne(ds[|ds| - 1])
  }

  /** A name that the scanner passes over without a colon that counts. */
  predicate NameOk(limits: Limits, p: JsString) {
    p != [] && |p| <= limits.propertyNameLength && Trimmed(p) && Quiet(START, p) && NoColon(START, p) && Run(START, p) == START
  }

  /** An escape at the end is swallowed by the space before `!important`, and by nothing else. */
  predicate ValueOk(v: JsString, important: bool) {
    && v != [] && Trimmed(v) && Quiet(START, v)
    && (Run(START, v) == START || (important && Run(START, v) == ESCAPED))
    && (!important ==> WithoutImportant(v).None?)
  }

  predicate WellFormed(limits: Limits, d: Declaration) {
    NameOk(limits, d.property) && ValueOk(d.value, d.important)
  }

  // ---- One printed declaration is parsed back ----

  lemma ImportantLetters()
    ensures |ImportantWord()| == 9
    ensures forall i :: 0 <= i < 9 ==> Lower(ImportantWord()[i]) == ImportantWord()[i] && !IsSpace(ImportantWord()[i]) && Inert(ImportantWord()[i])
  {
  }

  lemma SuffixInert(important: bool)
    ensures AllInert(Suffix(important)) && (important ==> Suffix(important) != [])
  {
    hide ImportantWord;
    ImportantLetters();
  }

  /** What `important` adds is what it takes away. */
  lemma ImportantComesOff(v: JsString)
    requires v != [] && Trimmed(v)
    ensures WithoutImportant(v + Suffix(true)) == Some(v) && Trimmed(v + Suffix(true))
  {
    hide ImportantWord, TrimEnd, Trim, IsSpace, Inert, Lower;
    ImportantLetters();
    var s := v + Suffix(true);
    var head := v + [SPACE, BANG];
    SuffixPieces(v, ImportantWord());
    SpaceAndBang();
    TrimEndKeeps(s);
    TrimEndKeeps(head);
    TrimOf([], v, [SPACE]);
  }

  lemma SuffixPieces(v: JsString, letters: JsString)
    requires |letters| == 9 && v != []
    ensures var s, head := v + ([SPACE, BANG] + letters), v + [SPACE, BANG];
      && s == head + letters && s[..|s| - 9] == head && s[|s| - 1] == letters[8] && s[0] == v[0]
      && head[..|head| - 1] == [] + v + [SPACE] && head[|head| - 1] == BANG
      && forall i :: 0 <= i < 9 ==> s[|s| - 9 + i] == letters[i]
  {
  }

  lemma SpaceAndBang()
    ensures IsSpace(SPACE) && !IsSpace(BANG) && AllSpaces([SPACE]) && AllSpaces([])
  {
  }

  lemma TrimEndKeeps(s: JsString)
    requires s != [] && !IsSpace(s[|s| - 1])
    ensures TrimEnd(s) == s
  {
  }

  lemma {:induction false} ColonSkips(text: JsString, n: nat)
    requires n <= |text| && NoColon(START, text[..n])
    ensures FirstColon(text, 0, START) == FirstColon(text, n, Run(START, text[..n]))
  {
    if n > 0 {
      assert text[..n] == text[..n - 1] + [text[n - 1]];
      RunSnoc(START, text[..n - 1], text[n - 1]);
      hide Run, NoColon;
      ColonSkips(text, n - 1);
    } else {
      assert text[..0] == [];
    }
  }

  /** The first colon that counts comes right after a name. */
  lemma ColonAfter(name: JsString, post: JsString)
    requires NoColon(START, name) && Run(START, name) == START
    ensures FirstColon(name + [COLON] + post, 0, START) == Some(|name|)
  {
    hide Run, NoColon;
    var text := name + [COLON] + post;
    assert text[..|name|] == name && text[|name|] == COLON;
    ColonSkips(text, |name|);
  }

  /** What a declaration prints to, without its semicolon. */
  function Body(d: Declaration): JsString {
    d.property + [COLON] + ([SPACE] + (d.value + Suffix(d.important)))
  }

  /** A chunk with a name, a colon and some text is parsed into them. */
  lemma NamedChunk(limits: Limits, lead: JsString, name: JsString, post: JsString)
    requires AllSpaces(lead) && NameOk(limits, name)
    ensures var chunk := lead + name + [COLON] + post;
      && FirstColon(chunk, 0, START) == Some(|lead| + |name|)
      && chunk[..|lead| + |name|] == lead + name && chunk[|lead| + |name| + 1..] == post
      && Trim(lead + name) == name && Trim(chunk) != []
  {
    hide Run, Quiet, NoColon, Trim, IsSpace, FirstColon;
    var chunk := lead + name + [COLON] + post;
    SpacesInert(lead);
    RunInert(START, lead);
    RunConcat(START, lead, name);
    ColonAfter(lead + name, post);
    assert lead + name + [] == lead + name;
    SpaceAndBang();
    TrimOf(lead, name, []);
    assert chunk[|lead|] == name[0];
    TrimSplitsNonempty(chunk, |lead|);
  }

  lemma ChunkParses(limits: Limits, lead: JsString, d: Declaration)
    requires WellFormed(limits, d) && AllSpaces(lead)
    ensures ParseDeclaration(limits, lead + Body(d)) == Some(d) && Trim(lead + Body(d)) != []
  {
    hide Run, Quiet, NoColon, Trim, IsSpace, FirstColon, WithoutImportant, Suffix;
    var rest := d.value + Suffix(d.important);
    NamedChunk(limits, lead, d.property, [SPACE] + rest);
    Regroup(lead, d.property, [COLON], [SPACE] + rest);
    if d.important {
      ImportantComesOff(d.value);
    } else {
      NoSuffix();
      assert rest == d.value;
    }
    SpaceAndBang();
    TrimOf([SPACE], rest, []);
    assert [SPACE] + rest + [] == [SPACE] + rest;
  }

  lemma NoSuffix()
    ensures Suffix(false) == []
  {
  }

  /** A character that is no space is in none of the spaces around a text. */
  lemma Inside(s: JsString, lead: JsString, word: JsString, tail: JsString, i: nat)
    requires s == lead + word + tail && AllSpaces(lead) && AllSpaces(tail) && i < |s| && !IsSpace(s[i])
    ensures |lead| <= i < |lead| + |word|
  {
    forall k | 0 <= k < |lead| ensures IsSpace(s[k]) { assert s[k] == lead[k]; }
    forall k | |lead| + |word| <= k < |s| ensures IsSpace(s[k]) { assert s[k] == tail[k - |lead| - |word|]; }
  }

  /** A text with a character that is no space does not trim to nothing. */
  lemma TrimSplitsNonempty(s: JsString, i: nat)
    requires i < |s| && !IsSpace(s[i])
    ensures Trim(s) != []
  {
    hide Trim, IsSpace;
    var lead, tail := TrimSplits(s);
    Inside(s, lead, Trim(s), tail, i);
  }

  /** The body of a well-formed declaration passes the list's scanner and leaves it where it started. */
  lemma BodyQuiet(limits: Limits, lead: JsString, d: Declaration)
    requires WellFormed(limits, d) && AllSpaces(lead)
    ensures Quiet(START, lead + Body(d)) && Run(START, lead + Body(d)) == START
  {
    hide Run, Quiet, NoColon, IsSpace, Inert, Suffix, WithoutImportant;
    SpacesInert(lead);
    RunInert(START, lead);
    SuffixInert(d.important);
    if !d.important { NoSuffix(); }
    var rest := [SPACE] + (d.value + Suffix(d.important));
    RunConcat(START, lead, Body(d));
    assert Body(d) == d.property + ([COLON] + rest);
    RunConcat(START, d.property, [COLON] + rest);
    RunConcat(START, [COLON], rest);
    SmallSteps();
    RunConcat(START, [SPACE], d.value + Suffix(d.important));
    RunConcat(START, d.value, Suffix(d.important));
    RunInert(Run(START, d.value), Suffix(d.important));
  }

  lemma SmallSteps()
    ensures Run(START, [COLON]) == START && Quiet(START, [COLON]) && Run(START, [SPACE]) == START
    ensures Quiet(START, [SPACE])
  {
    assert [COLON] == [] + [COLON] && [SPACE] == [] + [SPACE];
    RunSnoc(START, [], COLON);
    RunSnoc(START, [], SPACE);
  }

  // ---- The list ----

  /** The parser passes over quiet text. */
  lemma {:induction false} ListSkips(limits: Limits, text: JsString, start: nat, n: nat, found: seq<Declaration>)
    requires start <= n <= |text| && Quiet(START, text[start..n])
    ensures ParseFrom(limits, text, start, start, START, found) == ParseFrom(limits, text, start, n, Run(START, text[start..n]), found)
    decreases n
  {
    if n > start {
      assert text[start..n] == text[start..n - 1] + [text[n - 1]];
      RunSnoc(START, text[start..n - 1], text[n - 1]);
      hide Run, Quiet, Take;
      ListSkips(limits, text, start, n - 1, found);
    } else {
      assert text[start..n] == [];
    }
  }

  lemma SliceParts(text: JsString, at: nat, body: JsString, c: CodeUnit, more: JsString)
    requires at <= |text| && text[at..] == body + [c] + more
    ensures var n: nat := at + |body|;
      n < |text| && text[at..n] == body && text[n] == c && text[n + 1..] == more
  {
    var n: nat := at + |body|;
    assert |text| - at == |body| + 1 + |more|;
    assert text[at..][|body|] == c;
    assert text[at..n] == text[at..][..|body|] && text[n + 1..] == text[at..][|body| + 1..];
  }

  /** One printed declaration, with any spaces before it, is taken as it is. */
  lemma OneDeclaration(limits: Limits, text: JsString, at: nat, lead: JsString, d: Declaration, more: JsString,
                       found: seq<Declaration>)
    requires WellFormed(limits, d) && AllSpaces(lead) && |found| < limits.declarationsPerRule
    requires at <= |text| && text[at..] == lead + Body(d) + [SEMICOLON] + more
    ensures var n: nat := at + |lead + Body(d)|;
      && n < |text| && text[n + 1..] == more
      && ParseFrom(limits, text, at, at, START, found) == ParseFrom(limits, text, n + 1, n + 1, START, found + [d])
  {
    hide Run, Quiet, WellFormed, Body, ParseDeclaration, Trim;
    var n: nat := at + |lead + Body(d)|;
    SliceParts(text, at, lead + Body(d), SEMICOLON, more);
    BodyQuiet(limits, lead, d);
    ChunkParses(limits, lead, d);
    ListSkips(limits, text, at, n, found);
  }

  /** Printing from the front: the first declaration, then the others, each after a space. */
  function PrintRest(ds: seq<Declaration>): JsString {
    if ds == [] then [] else [SPACE] + PrintOne(ds[0]) + PrintRest(ds[1..])
  }

  lemma PrintRestFirst(ds: seq<Declaration>)
    requires ds != []
    ensures PrintRest(ds) == [SPACE] + Body(ds[0]) + [SEMICOLON] + PrintRest(ds[1..])
  {
    hide PrintOne, Body;
    PrintedBody(ds[0]);
    Regroup([SPACE], Body(ds[0]), [SEMICOLON], PrintRest(ds[1..]));
  }

  lemma Regroup(a: JsString, b: JsString, c: JsString, rest: JsString)
    ensures a + (b + c) + rest == a + b + c + rest
    ensures a + (b + c + rest) == a + b + c + rest
  {
  }

  lemma {:induction false} PrintSnoc(ds: seq<Declaration>, d: Declaration)
    ensures PrintRest(ds + [d]) == PrintRest(ds) + [SPACE] + PrintOne(d)
  {
    hide PrintOne;
    if ds == [] {
      assert ([] + [d])[1..] == [];
    } else {
      assert (ds + [d])[1..] == ds[1..] + [d];
      PrintSnoc(ds[1..], d);
    }
  }

  lemma {:induction false} PrintFront(ds: seq<Declaration>)
    requires ds != []
    ensures [SPACE] + Print(ds) == PrintRest(ds)
  {
    hide PrintOne;
    var init, last := ds[..|ds| - 1], ds[|ds| - 1];
    assert ds == init + [last];
    if init == [] {
      assert ds[1..] == [];
    } else {
      PrintFront(init);
      PrintSnoc(init, last);
      assert [SPACE] + (Print(init) + [SPACE] + PrintOne(last)) == ([SPACE] + Print(init)) + [SPACE] + PrintOne(last);
    }
  }

  lemma PrintedBody(d: Declaration)
    ensures PrintOne(d) == Body(d) + [SEMICOLON]
  {
    hide Suffix;
    assert [COLON, SPACE] == [COLON] + [SPACE];
    assert d.property + [COLON, SPACE] + d.value + Suffix(d.important)
        == d.property + [COLON] + ([SPACE] + (d.value + Suffix(d.important)));
  }

  lemma {:induction false} RestParses(limits: Limits, text: JsString, at: nat, ds: seq<Declaration>,
                                      found: seq<Declaration>)
    requires at <= |text| && text[at..] == PrintRest(ds) && |found| + |ds| <= limits.declarationsPerRule
    requires forall d :: d in ds ==> WellFormed(limits, d)
    ensures ParseFrom(limits, text, at, at, START, found) == Some(found + ds)
    decreases |ds|
  {
    hide ParseFrom, WellFormed, Body, PrintRest, AllSpaces;
    if ds == [] {
      NothingToPrint();
      Nothing(limits, text, at, found);
      assert found + ds == found;
    } else {
      var d, more := ds[0], ds[1..];
      PrintRestFirst(ds);
      SpaceAndBang();
      OneDeclaration(limits, text, at, [SPACE], d, PrintRest(more), found);
      RestParses(limits, text, at + |[SPACE] + Body(d)| + 1, more, found + [d]);
      OneFurther(found, ds, |ds|);
    }
  }

  lemma NothingToPrint()
    ensures PrintRest([]) == []
  {
  }

  /** The first declaration moves from what is to come to what was found. */
  lemma OneFurther(found: seq<Declaration>, ds: seq<Declaration>, k: nat)
    requires 0 < k <= |ds|
    ensures found + [ds[0]] + ds[1..][..k - 1] == found + ds[..k] && ds[1..][k - 1..] == ds[k..]
    ensures k == |ds| ==> found + [ds[0]] + ds[1..] == found + ds
  {
  }

  /** The end of the text adds nothing. */
  lemma Nothing(limits: Limits, text: JsString, at: nat, found: seq<Declaration>)
    requires at == |text|
    ensures ParseFrom(limits, text, at, at, START, found) == Some(found)
  {
    assert text[at..at] == [];
  }

  /** Printing a list of well-formed declarations and parsing it gives the same list back. */
  lemma PrintThenParse(limits: Limits, ds: seq<Declaration>)
    requires forall d :: d in ds ==> WellFormed(limits, d)
    requires |ds| <= limits.declarationsPerRule
    ensures ParseList(limits, Print(ds)) == Some(ds)
  {
    hide ParseFrom, WellFormed, Body, Print, PrintRest, AllSpaces;
    var text := Print(ds);
    assert text[0..] == text;
    if ds == [] {
      PrintNothing();
      Nothing(limits, text, 0, []);
    } else {
      var d, more := ds[0], ds[1..];
      PrintedFirst(ds);
      SpaceAndBang();
      assert [] + Body(d) == Body(d);
      OneDeclaration(limits, text, 0, [], d, PrintRest(more), []);
      RestParses(limits, text, |Body(d)| + 1, more, [d]);
      assert [] + [d] == [d] && [d] + more == ds;
    }
  }

  lemma PrintNothing()
    ensures Print([]) == []
  {
  }

  lemma PrintedFirst(ds: seq<Declaration>)
    requires ds != []
    ensures Print(ds) == Body(ds[0]) + [SEMICOLON] + PrintRest(ds[1..])
  {
    hide Print, PrintRest, Body;
    PrintFront(ds);
    PrintRestFirst(ds);
    assert ([SPACE] + Print(ds))[1..] == Print(ds);
    Regroup([SPACE], Body(ds[0]), [SEMICOLON], PrintRest(ds[1..]));
    assert ([SPACE] + (Body(ds[0]) + [SEMICOLON] + PrintRest(ds[1..])))[1..] == Body(ds[0]) + [SEMICOLON] + PrintRest(ds[1..]);
  }

  // ---- What parsing gives, and when it is stable ----

  /** What every parsed declaration is: well-formed but for an escape that may stand at the end of its parts. */
  ghost predicate Parsed(limits: Limits, d: Declaration) {
    && d.property != [] && |d.property| <= limits.propertyNameLength && Trimmed(d.property)
    && Quiet(START, d.property) && NoColon(START, d.property) && Run(START, d.property) in {START, ESCAPED}
    && d.value != [] && Trimmed(d.value) && Quiet(START, d.value) && Run(START, d.value) in {START, ESCAPED}
    && (!d.important ==> WithoutImportant(d.value).None?)
  }

  /** The name, or the value before nothing else, ends in an escape: what followed it was a trimmed space. */
  predicate Stray(d: Declaration) {
    Run(START, d.property).escaped || (!d.important && Run(START, d.value).escaped)
  }

  lemma ParsedAndNotStray(limits: Limits, d: Declaration)
    requires Parsed(limits, d)
    ensures WellFormed(limits, d) <==> !Stray(d)
  {
    hide Run, Quiet, NoColon, WithoutImportant;
  }

  lemma {:induction false} ColonMeans(text: JsString, n: nat)
    requires n <= |text| && NoColon(START, text[..n]) && FirstColon(text, n, Run(START, text[..n])).Some?
    ensures var k := FirstColon(text, n, Run(START, text[..n])).value;
      NoColon(START, text[..k]) && ColonAt(Run(START, text[..k]), text[k])
    decreases |text| - n
  {
    hide Run, NoColon;
    if n < |text| && !ColonAt(Run(START, text[..n]), text[n]) {
      assert text[..n + 1] == text[..n] + [text[n]];
      RunSnoc(START, text[..n], text[n]);
      ColonMeans(text, n + 1);
    }
  }

  /** Trimming a quiet text that leaves the scanner where it was can only cut off a space after an escape. */
  lemma TrimmedRun(s: JsString)
    requires Quiet(START, s) && Run(START, s) == START
    ensures Quiet(START, Trim(s)) && Run(START, Trim(s)) in {START, ESCAPED}
    ensures (NoColon(START, s) ==> NoColon(START, Trim(s)))
  {
    hide Run, Quiet, NoColon, Trim, IsSpace;
    var lead, tail := TrimSplits(s);
    SpacesInert(lead);
    SpacesInert(tail);
    RunConcat(START, lead + Trim(s), tail);
    RunConcat(START, lead, Trim(s));
    RunInert(START, lead);
    RunSound(START, Trim(s));
    RunInert(Run(START, Trim(s)), tail);
  }

  /** The pieces that `WithoutImportant` looks at. */
  lemma ImportantPieces(s: JsString) returns (pre: JsString, spaces: JsString, letters: JsString)
    requires TrimEnd(s) == s && WithoutImportant(s).Some?
    ensures s == pre + [BANG] + spaces + letters && AllSpaces(spaces) && AllInert(letters) && letters != []
    ensures WithoutImportant(s) == Some(Trim(pre))
  {
    hide Trim, TrimEnd, ImportantWord, Lower, AllSpaces, AllInert;
    var head := s[..|s| - 9];
    letters := s[|s| - 9..];
    ImportantInert(letters);
    TrimEndSplits(head);
    spaces :| AllSpaces(spaces) && head == TrimEnd(head) + spaces;
    var u := TrimEnd(head);
    pre := u[..|u| - 1];
    Pieces(s, letters, u, spaces);
  }

  lemma Pieces(s: JsString, letters: JsString, u: JsString, spaces: JsString)
    requires |s| >= 9 && letters == s[|s| - 9..] && s[..|s| - 9] == u + spaces && u != []
    ensures s == u[..|u| - 1] + [u[|u| - 1]] + spaces + letters
  {
    assert s == s[..|s| - 9] + letters;
  }

  /** What comes off before an `!important` is inert. */
  lemma ImportantWas(s: JsString) returns (suffix: JsString)
    requires s != [] && Trimmed(s) && WithoutImportant(s).Some? && WithoutImportant(s).value != []
    ensures s == WithoutImportant(s).value + suffix && AllInert(suffix) && suffix != []
    ensures Trimmed(WithoutImportant(s).value) && !Run(START, s).escaped
  {
    hide TrimEnd, Trim, Run, WithoutImportant, IsSpace, Inert;
    TrimEndKeeps(s);
    var pre, spaces, letters := ImportantPieces(s);
    var lead, tail := TrimSplits(pre);
    suffix := tail + [BANG] + spaces + letters;
    assert s == lead + (Trim(pre) + suffix) + [];
    SpaceAndBang();
    Inside(s, lead, Trim(pre) + suffix, [], 0);
    assert s == Trim(pre) + suffix;
    SpacesInert(spaces);
    SpacesInert(tail);
    BangInert();
    assert s[|s| - 1] == letters[|letters| - 1];
    if Run(START, s).escaped { EscapedLast(START, s); }
  }

  lemma BangInert()
    ensures Inert(BANG) && !Inert(BACKSLASH)
  {
  }

  lemma ImportantOfNothing()
    ensures WithoutImportant([]).None?
  {
  }

  lemma ImportantInert(letters: JsString)
    requires |letters| == 9 && forall i :: 0 <= i < 9 ==> Lower(letters[i]) == ImportantWord()[i]
    ensures AllInert(letters)
  {
    hide ImportantWord;
    ImportantLetters();
    forall i | 0 <= i < 9 ensures Inert(letters[i]) {
      assert Lower(letters[i]) == ImportantWord()[i];
      assert Inert(ImportantWord()[i]);
    }
  }

  lemma ChunkParsed(limits: Limits, chunk: JsString)
    requires Quiet(START, chunk) && Run(START, chunk) == START && ParseDeclaration(limits, chunk).Some?
    ensures Parsed(limits, ParseDeclaration(limits, chunk).value)
  {
    hide Run, Quiet, NoColon, Trim, WithoutImportant, FirstColon;
    var colon := FirstColon(chunk, 0, START).value;
    EmptyRun(chunk);
    ColonMeans(chunk, 0);
    var name, rest := chunk[..colon], chunk[colon + 1..];
    assert chunk == name + ([COLON] + rest);
    RunConcat(START, name, [COLON] + rest);
    RunSound(START, name);
    QuietDepth(START, name);
    assert Run(START, name) == START;
    RunConcat(START, [COLON], rest);
    SmallSteps();
    TrimmedRun(name);
    TrimmedRun(rest);
    var l1, t1 := TrimSplits(name);
    var l2, t2 := TrimSplits(rest);
    var value := Trim(rest);
    if WithoutImportant(value).Some? {
      ImportantOfNothing();
      var suffix := ImportantWas(value);
      var v := WithoutImportant(value).value;
      RunConcat(START, v, suffix);
      RunSound(START, v);
      RunInert(Run(START, v), suffix);
    }
  }

  lemma EmptyRun(text: JsString)
    ensures text[..0] == [] && Run(START, []) == START && NoColon(START, []) && Quiet(START, [])
  {
  }

  lemma {:induction false} ListParsed(limits: Limits, text: JsString, start: nat, index: nat, found: seq<Declaration>)
    requires start <= index <= |text| && Quiet(START, text[start..index]) && |found| <= limits.declarationsPerRule
    requires forall d :: d in found ==> Parsed(limits, d)
    requires ParseFrom(limits, text, start, index, Run(START, text[start..index]), found).Some?
    ensures var ds := ParseFrom(limits, text, start, index, Run(START, text[start..index]), found).value;
      |ds| <= limits.declarationsPerRule && forall d :: d in ds ==> Parsed(limits, d)
    decreases |text| - index
  {
    hide Run, Quiet, NoColon, Trim, Parsed, ParseDeclaration;
    var s := Run(START, text[start..index]);
    QuietDepth(START, text[start..index]);
    var c := if index < |text| then text[index] else SEMICOLON;
    if StopsAt(s, c) {
      var chunk := text[start..index];
      var taken := Take(limits, chunk, found).value;
      if taken != found { ChunkParsed(limits, chunk); }
      if index < |text| {
        assert text[index + 1..index + 1] == [];
        EmptyRun(text);
        ListParsed(limits, text, index + 1, index + 1, taken);
      }
    } else if index < |text| {
      assert text[start..index + 1] == text[start..index] + [c];
      RunSnoc(START, text[start..index], c);
      ListParsed(limits, text, start, index + 1, found);
    }
  }

  /** Every parsed list is short enough and of parsed declarations. */
  lemma ParsedList(limits: Limits, text: JsString)
    requires ParseList(limits, text).Some?
    ensures var ds := ParseList(limits, text).value; |ds| <= limits.declarationsPerRule && forall d :: d in ds ==> Parsed(limits, d)
  {
    EmptyRun(text);
    assert text[0..0] == [];
    ListParsed(limits, text, 0, 0, []);
  }

  lemma {:induction false} FoundStays(limits: Limits, text: JsString, start: nat, index: nat, s: Scan,
                                      found: seq<Declaration>)
    requires start <= index <= |text| + 1 && ParseFrom(limits, text, start, index, s, found).Some?
    ensures found <= ParseFrom(limits, text, start, index, s, found).value
    decreases |text| + 1 - index
  {
    hide Trim, ParseDeclaration;
    if index <= |text| {
      var c := if index < |text| then text[index] else SEMICOLON;
      if !StopsAt(s, c) {
        FoundStays(limits, text, start, index + 1, Step(s, c), found);
      } else {
        FoundStays(limits, text, index + 1, index + 1, s, Take(limits, text[start..index], found).value);
      }
    }
  }

  /** The chunk under way, if it is not blank, is what the next declaration is read from. */
  lemma {:induction false} NextChunk(limits: Limits, text: JsString, start: nat, index: nat, s: Scan,
                                     found: seq<Declaration>, k: nat)
    returns (end: nat)
    requires start <= k < index <= |text| + 1 && k < |text| && !IsSpace(text[k])
    requires ParseFrom(limits, text, start, index, s, found).Some?
    requires |ParseFrom(limits, text, start, index, s, found).value| > |found|
    ensures index <= end <= |text|
    ensures ParseDeclaration(limits, text[start..end]) == Some(ParseFrom(limits, text, start, index, s, found).value[|found|])
    decreases |text| + 1 - index
  {
    hide Trim, ParseDeclaration, IsSpace;
    var c := if index < |text| then text[index] else SEMICOLON;
    if !StopsAt(s, c) {
      end := NextChunk(limits, text, start, index + 1, Step(s, c), found, k);
    } else {
      end := index;
      assert text[start..index][k - start] == text[k];
      TrimSplitsNonempty(text[start..index], k - start);
      FoundStays(limits, text, index + 1, index + 1, s, Take(limits, text[start..index], found).value);
    }
  }

  /** Two ways to trim a text to one word: there is no other character after it than a space. */
  lemma NothingAfter(lead: JsString, word: JsString, c: CodeUnit, more: JsString)
    requires AllSpaces(lead) && word != [] && Trimmed(word) && !IsSpace(c)
    ensures Trim(lead + word + [c] + more) != word
  {
    hide Trim, IsSpace;
    var s := lead + word + [c] + more;
    var l, t := TrimSplits(s);
    assert s[|lead|] == word[0] && s[|lead| + |word|] == c;
    Inside(s, l, Trim(s), t, |lead|);
    Inside(s, l, Trim(s), t, |lead| + |word|);
    assert s[|l|] == Trim(s)[0];
    forall k | 0 <= k < |lead| ensures IsSpace(s[k]) { assert s[k] == lead[k]; }
    assert !IsSpace(s[|l|]);
  }

  /** A name that ends in an escape takes the printed colon with it. */
  lemma StrayName(limits: Limits, lead: JsString, d: Declaration, more: JsString)
    requires AllSpaces(lead) && Parsed(limits, d) && Run(START, d.property).escaped
    ensures ParseDeclaration(limits, lead + d.property + [COLON] + more) != Some(d)
  {
    hide Run, Quiet, NoColon, Trim, IsSpace, WithoutImportant;
    var w := lead + d.property + [COLON];
    var chunk := w + more;
    NameSwallowsColon(limits, lead, d);
    assert chunk[..|w|] == w;
    ColonSkips(chunk, |w|);
    if FirstColon(chunk, 0, START).Some? {
      var k := FirstColon(chunk, 0, START).value;
      assert chunk[..k] == w + chunk[|w|..k];
      ColonIsNoSpace();
      NothingAfter(lead, d.property, COLON, chunk[|w|..k]);
    }
  }

  lemma ColonIsNoSpace()
    ensures !IsSpace(COLON) && !IsSpace(SEMICOLON)
  {
  }

  lemma NameSwallowsColon(limits: Limits, lead: JsString, d: Declaration)
    requires AllSpaces(lead) && Parsed(limits, d) && Run(START, d.property).escaped
    ensures var w := lead + d.property + [COLON]; Quiet(START, w) && NoColon(START, w) && Run(START, w) == START
  {
    hide Run, Quiet, NoColon, IsSpace, WithoutImportant;
    SpacesInert(lead);
    RunInert(START, lead);
    RunConcat(START, lead, d.property);
    RunSnoc(START, lead + d.property, COLON);
  }

  /** A value that ends in an escape takes the printed semicolon with it. */
  lemma StrayValue(limits: Limits, lead: JsString, d: Declaration, more: JsString)
    requires AllSpaces(lead) && Parsed(limits, d) && !Run(START, d.property).escaped && !d.important
    ensures ParseDeclaration(limits, lead + Body(d) + [SEMICOLON] + more) != Some(d)
  {
    hide Run, Quiet, NoColon, Trim, IsSpace, WithoutImportant, FirstColon;
    NoSuffix();
    var post := [SPACE] + d.value + [SEMICOLON] + more;
    assert d.value + Suffix(false) == d.value;
    assert lead + Body(d) + [SEMICOLON] + more == lead + d.property + [COLON] + post;
    NamedChunk(limits, lead, d.property, post);
    SpaceAndBang();
    ColonIsNoSpace();
    NothingAfter([SPACE], d.value, SEMICOLON, more);
  }

  lemma ValueSwallowsSemicolon(limits: Limits, lead: JsString, d: Declaration)
    requires AllSpaces(lead) && Parsed(limits, d) && !Run(START, d.property).escaped && !d.important
    requires Run(START, d.value).escaped
    ensures var w := lead + Body(d) + [SEMICOLON]; Quiet(START, w) && Run(START, w) == START
  {
    hide Run, Quiet, NoColon, IsSpace, WithoutImportant;
    NoSuffix();
    SpacesInert(lead);
    RunInert(START, lead);
    assert d.value + Suffix(false) == d.value;
    assert lead + Body(d) == lead + (d.property + ([COLON] + ([SPACE] + d.value)));
    RunConcat(START, lead, d.property + ([COLON] + ([SPACE] + d.value)));
    RunConcat(START, d.property, [COLON] + ([SPACE] + d.value));
    RunConcat(START, [COLON], [SPACE] + d.value);
    RunConcat(START, [SPACE], d.value);
    SmallSteps();
    RunSnoc(START, lead + Body(d), SEMICOLON);
  }

  /** A printed declaration with a stray escape is not read back as it is. */
  lemma StrayBreaks(limits: Limits, text: JsString, at: nat, lead: JsString, d: Declaration, more: JsString,
                    found: seq<Declaration>)
    requires Parsed(limits, d) && Stray(d) && AllSpaces(lead)
    requires at <= |text| && text[at..] == lead + Body(d) + [SEMICOLON] + more
    ensures var all := ParseFrom(limits, text, at, at, START, found);
      all.Some? && |all.value| > |found| ==> all.value[|found|] != d
  {
    hide Run, Quiet, NoColon, IsSpace, WithoutImportant, ParseDeclaration, Parsed, ParseFrom, Suffix;
    var all := ParseFrom(limits, text, at, at, START, found);
    if all.Some? && |all.value| > |found| {
      var w: JsString;
      var byName := Run(START, d.property).escaped;
      if byName {
        w := lead + d.property + [COLON];
        NameSwallowsColon(limits, lead, d);
      } else {
        w := lead + Body(d) + [SEMICOLON];
        ValueSwallowsSemicolon(limits, lead, d);
      }
      NameStarts(limits, d);
      var rest := PrefixOf(text, at, lead, d, more, w, byName);
      var n: nat := at + |w|;
      ListSkips(limits, text, at, n, found);
      var end := NextChunk(limits, text, at, n, START, found, at + |lead|);
      assert text[at..end] == w + text[n..end];
      if byName {
        StrayName(limits, lead, d, text[n..end]);
      } else {
        StrayValue(limits, lead, d, text[n..end]);
      }
    }
  }

  lemma NameStarts(limits: Limits, d: Declaration)
    requires Parsed(limits, d)
    ensures d.property != [] && !IsSpace(d.property[0])
  {
  }

  lemma PrefixOf(text: JsString, at: nat, lead: JsString, d: Declaration, more: JsString, w: JsString,
                 byName: bool) returns (rest: JsString)
    requires at <= |text| && text[at..] == lead + Body(d) + [SEMICOLON] + more && d.property != []
    requires w == if byName then lead + d.property + [COLON] else lead + Body(d) + [SEMICOLON]
    ensures at + |w| <= |text| && text[at..at + |w|] == w && |lead| < |w| && text[at + |lead|] == d.property[0]
  {
    hide Suffix;
    rest := if byName then [SPACE] + (d.value + Suffix(d.important)) + [SEMICOLON] + more else more;
    assert text[at..] == w + rest;
    assert text[at..][..|w|] == w && text[at..][|lead|] == d.property[0];
  }

  /** The parser gets as far as the declarations are well-formed. */
  lemma {:induction false} RestReaches(limits: Limits, text: JsString, at: nat, ds: seq<Declaration>,
                                       found: seq<Declaration>, k: nat)
    returns (reached: nat)
    requires at <= |text| && text[at..] == PrintRest(ds) && |found| + |ds| <= limits.declarationsPerRule && k <= |ds|
    requires forall i :: 0 <= i < k ==> WellFormed(limits, ds[i])
    ensures reached <= |text| && text[reached..] == PrintRest(ds[k..])
    ensures ParseFrom(limits, text, at, at, START, found) == ParseFrom(limits, text, reached, reached, START, found + ds[..k])
    decreases |ds|
  {
    hide ParseFrom, WellFormed, Body, PrintRest, AllSpaces;
    if k == 0 {
      reached := at;
      assert ds[0..] == ds && found + ds[..0] == found;
    } else {
      var d, more := ds[0], ds[1..];
      PrintRestFirst(ds);
      SpaceAndBang();
      OneDeclaration(limits, text, at, [SPACE], d, PrintRest(more), found);
      assert forall i :: 0 <= i < k - 1 ==> more[i] == ds[i + 1];
      reached := RestReaches(limits, text, at + |[SPACE] + Body(d)| + 1, more, found + [d], k - 1);
      OneFurther(found, ds, k);
    }
  }

  /** A printed list is not read back when one of its declarations has a stray escape. */
  lemma StrayListBreaks(limits: Limits, ds: seq<Declaration>, k: nat)
    requires k < |ds| <= limits.declarationsPerRule && (forall d :: d in ds ==> Parsed(limits, d)) && Stray(ds[k])
    requires forall i :: 0 <= i < k ==> WellFormed(limits, ds[i])
    ensures ParseList(limits, Print(ds)) != Some(ds)
  {
    hide ParseFrom, WellFormed, Parsed, Stray, Body, Print, PrintRest, AllSpaces;
    var text := Print(ds);
    assert text[0..] == text;
    PrintedFirst(ds);
    SpaceAndBang();
    assert [] + Body(ds[0]) == Body(ds[0]) && [] + [ds[0]] == [ds[0]];
    if k == 0 {
      StrayBreaks(limits, text, 0, [], ds[0], PrintRest(ds[1..]), []);
    } else {
      OneDeclaration(limits, text, 0, [], ds[0], PrintRest(ds[1..]), []);
      StrayRestBreaks(limits, text, |Body(ds[0])| + 1, ds, k);
    }
  }

  lemma StrayRestBreaks(limits: Limits, text: JsString, at: nat, ds: seq<Declaration>, k: nat)
    requires 0 < k < |ds| <= limits.declarationsPerRule && Parsed(limits, ds[k]) && Stray(ds[k])
    requires forall i :: 0 <= i < k ==> WellFormed(limits, ds[i])
    requires at <= |text| && text[at..] == PrintRest(ds[1..])
    ensures ParseFrom(limits, text, at, at, START, [ds[0]]) != Some(ds)
  {
    hide ParseFrom, WellFormed, Parsed, Stray, Body, PrintRest, AllSpaces;
    var more := ds[1..];
    assert forall i :: 0 <= i < k - 1 ==> more[i] == ds[i + 1];
    var reached := RestReaches(limits, text, at, more, [ds[0]], k - 1);
    OneFurther([], ds, k);
    assert [] + [ds[0]] == [ds[0]] && [] + ds[..k] == ds[..k] && ds[k..][1..] == ds[k + 1..] && ds[k..][0] == ds[k];
    PrintRestFirst(ds[k..]);
    SpaceAndBang();
    StrayBreaks(limits, text, reached, [SPACE], ds[k], PrintRest(ds[k + 1..]), ds[..k]);
  }

  /**
   * Parsing, printing and parsing again gives the same list exactly when no name and no plain value ends in an escape. A
   * parsed one does so only when trimming cut off the space that was escaped.
   */
  lemma ReparsesExactly(limits: Limits, text: JsString)
    requires ParseList(limits, text).Some?
    ensures var ds := ParseList(limits, text).value;
      ParseList(limits, Print(ds)) == Some(ds) <==> forall d :: d in ds ==> !Stray(d)
  {
    hide ParseFrom, ParseList, Parsed, Stray, Print, WellFormed;
    var ds := ParseList(limits, text).value;
    ParsedList(limits, text);
    if k :| 0 <= k < |ds| && Stray(ds[k]) {
      var first := FirstStray(ds, k);
      forall i | 0 <= i < first ensures WellFormed(limits, ds[i]) { ParsedAndNotStray(limits, ds[i]); }
      StrayListBreaks(limits, ds, first);
    } else {
      forall d | d in ds ensures WellFormed(limits, d) {
        var i :| 0 <= i < |ds| && ds[i] == d;
        ParsedAndNotStray(limits, d);
      }
      PrintThenParse(limits, ds);
    }
  }

  lemma {:induction false} FirstStray(ds: seq<Declaration>, k: nat) returns (first: nat)
    requires k < |ds| && Stray(ds[k])
    ensures first <= k && Stray(ds[first]) && forall i :: 0 <= i < first ==> !Stray(ds[i])
    decreases k
  {
    if i :| 0 <= i < k && Stray(ds[i]) { first := FirstStray(ds, i); } else { first := k; }
  }

  // ---- Where a list breaks off ----

  /** The list's scanner over a text, unless the text closes what was not open. */
  function ListScan(t: JsString): (s: Option<Scan>)
    ensures s.Some? ==> s.value.depth >= 0 && Sound(s.value)
  {
    if t == [] then Some(START)
    else
      var before, c := ListScan(t[..|t| - 1]), t[|t| - 1];
      if before.None? || (Plain(before.value) && c == CLOSE && before.value.depth == 0) then None
      else Some(Step(before.value, c))
  }

  predicate BreaksAt(t: JsString, c: CodeUnit) {
    ListScan(t).Some? && Plain(ListScan(t).value) && ListScan(t).value.depth <= 0 && c == SEMICOLON
  }

  /** The position after the last semicolon that ends a declaration. */
  function LastBreak(t: JsString): (n: nat)
    ensures n <= |t|
  {
    if t == [] then 0
    else if BreaksAt(t[..|t| - 1], t[|t| - 1]) then |t| else LastBreak(t[..|t| - 1])
  }

  /** The declarations that end within the text. */
  function Ended(limits: Limits, t: JsString): Option<seq<Declaration>> {
    if t == [] then Some([])
    else
      var init := t[..|t| - 1];
      var before := Ended(limits, init);
      if before.None? || !BreaksAt(init, t[|t| - 1]) then before else Take(limits, init[LastBreak(init)..], before.value)
  }

  lemma EndedSnoc(limits: Limits, t: JsString, c: CodeUnit)
    ensures ListScan(t + [c]) == if ListScan(t).None? || (Plain(ListScan(t).value) && c == CLOSE && ListScan(t).value.depth == 0)
                                 then None else Some(Step(ListScan(t).value, c))
    ensures LastBreak(t + [c]) == if BreaksAt(t, c) then |t| + 1 else LastBreak(t)
    ensures Ended(limits, t + [c]) == if Ended(limits, t).None? || !BreaksAt(t, c) then Ended(limits, t)
                                      else Take(limits, t[LastBreak(t)..], Ended(limits, t).value)
  {
    assert (t + [c])[..|t|] == t;
  }

  /** How far the parser is after a part of the text. */
  lemma {:induction false} Reaches(limits: Limits, text: JsString, n: nat)
    requires n <= |text|
    ensures ParseList(limits, text)
         == if ListScan(text[..n]).None? || Ended(limits, text[..n]).None? then None
            else ParseFrom(limits, text, LastBreak(text[..n]), n, ListScan(text[..n]).value, Ended(limits, text[..n]).value)
  {
    hide ListScan, LastBreak, Ended, Take, Step, Sound, ParseFrom;
    if n == 0 {
      assert text[..0] == [] && ParseList(limits, text) == ParseFrom(limits, text, 0, 0, START, []);
      NothingEnded(limits);
    } else {
      Reaches(limits, text, n - 1);
      var init, c := text[..n - 1], text[n - 1];
      assert text[..n] == init + [c] && init[LastBreak(init)..] == text[LastBreak(init)..n - 1];
      EndedSnoc(limits, init, c);
      if ListScan(init).Some? && Ended(limits, init).Some? {
        OneFurtherOn(limits, text, LastBreak(init), n - 1, ListScan(init).value, Ended(limits, init).value);
      }
    }
  }

  lemma OneFurtherOn(limits: Limits, text: JsString, start: nat, index: nat, s: Scan, found: seq<Declaration>)
    requires start <= index < |text| && s.depth >= 0
    ensures var c := text[index];
      ParseFrom(limits, text, start, index, s, found)
      == if !StopsAt(s, c) then ParseFrom(limits, text, start, index + 1, Step(s, c), found)
         else if c == CLOSE then None
         else var taken := Take(limits, text[start..index], found);
              if taken.None? then None else ParseFrom(limits, text, index + 1, index + 1, Step(s, c), taken.value)
  {
    hide Take;
  }

  /** What ended within the text ended by its last break, where the scanner was as at the start. */
  lemma {:induction false} EndedByBreak(limits: Limits, t: JsString)
    requires ListScan(t).Some?
    ensures var b := LastBreak(t);
      LastBreak(t[..b]) == b && ListScan(t[..b]) == Some(START) && Ended(limits, t[..b]) == Ended(limits, t)
  {
    hide Take;
    var b := LastBreak(t);
    if t == [] || b == |t| {
      assert t[..b] == t;
    } else {
      EndedByBreak(limits, t[..|t| - 1]);
      assert t[..|t| - 1][..b] == t[..b];
    }
  }

  lemma PastTheEnd(limits: Limits, text: JsString, start: nat, s: Scan, found: seq<Declaration>)
    requires start <= |text| + 1
    ensures ParseFrom(limits, text, start, |text| + 1, s, found) == if s.quote.Some? || s.depth > 0 then None else Some(found)
  {
  }

  /** What the end of the text makes of what is under way there. */
  lemma AtTheEnd(limits: Limits, text: JsString, start: nat, s: Scan, found: seq<Declaration>)
    requires start <= |text| && s.depth >= 0 && Sound(s)
    ensures ParseFrom(limits, text, start, |text|, s, found)
         == if s.quote.Some? || s.depth > 0 then None
            else if s.escaped then Some(found) else Take(limits, text[start..], found)
  {
    hide Take;
    assert text[start..|text|] == text[start..];
    if StopsAt(s, SEMICOLON) {
      var taken := Take(limits, text[start..], found);
      if taken.Some? { PastTheEnd(limits, text, |text| + 1, s, taken.value); }
    } else {
      PastTheEnd(limits, text, start, Step(s, SEMICOLON), found);
    }
  }

  lemma BlankAdds(limits: Limits, found: seq<Declaration>)
    ensures Take(limits, [], found) == Some(found)
  {
  }

  /**
   * The whole of a list against the declarations up to its last semicolon: an open quote or parenthesis refuses it, an
   * unfinished escape leaves it at those, and otherwise what follows is one more declaration.
   */
  lemma EndOfList(limits: Limits, text: JsString)
    ensures var s, b := ListScan(text), LastBreak(text);
      var before := ParseList(limits, text[..b]);
      ParseList(limits, text) == if s.None? || s.value.quote.Some? || s.value.depth > 0 || before.None? then None
                                 else if s.value.escaped then before else Take(limits, text[b..], before.value)
  {
    hide ListScan, LastBreak, Ended, Take, ParseFrom, ParseList;
    var b := LastBreak(text);
    Reaches(limits, text, |text|);
    assert text[..|text|] == text;
    if ListScan(text).Some? {
      EndedByBreak(limits, text);
      var t := text[..b];
      Reaches(limits, t, b);
      assert t[..b] == t && t[b..] == [];
      if Ended(limits, text).Some? {
        AtTheEnd(limits, text, b, ListScan(text).value, Ended(limits, text).value);
        AtTheEnd(limits, t, b, START, Ended(limits, text).value);
        BlankAdds(limits, Ended(limits, text).value);
      }
    }
  }

  /**
   * A text that breaks off inside an escape, outside quotes and parentheses, is not refused: what was under way after the
   * last semicolon is dropped and the rest answered.
   */
  lemma UnfinishedEscapeIsDropped(limits: Limits, text: JsString)
    requires ListScan(text) == Some(ESCAPED)
    ensures ParseList(limits, text) == ParseList(limits, text[..LastBreak(text)])
  {
    hide ListScan, LastBreak, Take, ParseList;
    EndOfList(limits, text);
  }

  /** Of a list that is answered, what follows the last semicolon is dropped exactly when it breaks off inside an escape. */
  lemma LastChunkDroppedExactly(limits: Limits, text: JsString)
    requires ParseList(limits, text).Some? && Trim(text[LastBreak(text)..]) != []
    ensures var whole, before := ParseList(limits, text), ParseList(limits, text[..LastBreak(text)]);
      var last := ParseDeclaration(limits, text[LastBreak(text)..]);
      && ListScan(text).Some? && before.Some?
      && (whole == before <==> ListScan(text).value.escaped)
      && (whole != before ==> last.Some? && whole == Some(before.value + [last.value]))
  {
    hide ListScan, LastBreak, ParseList, Trim, ParseDeclaration;
    EndOfList(limits, text);
  }

  /** `a:b;c:d\` is answered with its first declaration alone. */
  lemma TruncatedList(limits: Limits)
    requires limits.declarationsPerRule >= 1 && limits.propertyNameLength >= 1
    ensures ListScan(Ascii("a:b;c:d\\")) == Some(ESCAPED)
    ensures ParseList(limits, Ascii("a:b;c:d\\")) == Some([Declaration(Ascii("a"), Ascii("b"), false)])
  {
    hide ListScan, LastBreak, Ended, Take, ParseFrom, ParseList;
    var a, b, c, d := 97 as CodeUnit, 98 as CodeUnit, 99 as CodeUnit, 100 as CodeUnit;
    var t3 := [] + [a] + [COLON] + [b];
    var t4 := t3 + [SEMICOLON];
    var text := t4 + [c] + [COLON] + [d] + [BACKSLASH];
    NothingEnded(limits);
    EndedSnoc(limits, [], a);
    EndedSnoc(limits, [] + [a], COLON);
    EndedSnoc(limits, [] + [a] + [COLON], b);
    EndedSnoc(limits, t3, SEMICOLON);
    EndedSnoc(limits, t4, c);
    EndedSnoc(limits, t4 + [c], COLON);
    EndedSnoc(limits, t4 + [c] + [COLON], d);
    EndedSnoc(limits, t4 + [c] + [COLON] + [d], BACKSLASH);
    assert Ascii("a:b;c:d\\") == text && t3[0..] == t3 && Ascii("a") == [a] && Ascii("b") == [b];
    assert t3 == [a, COLON] + [b] + [];
    SpaceAndBang();
    ShortChunk(limits, [b], []);
    Reaches(limits, text, |text|);
    assert text[..|text|] == text;
    AtTheEnd(limits, text, 4, ESCAPED, [Declaration([a], [b], false)]);
  }

  lemma NothingEnded(limits: Limits)
    ensures ListScan([]) == Some(START) && LastBreak([]) == 0 && Ended(limits, []) == Some([])
  {
  }

  lemma ShortWord(v: JsString, tail: JsString)
    requires v != [] && |v| < 9 && Trimmed(v) && AllSpaces(tail)
    ensures Trim(v + tail) == v && WithoutImportant(v).None?
  {
    TrimOf([], v, tail);
    assert [] + v + tail == v + tail;
  }

  /** `a:` and a short value, with spaces after it. */
  lemma ShortChunk(limits: Limits, v: JsString, tail: JsString)
    requires limits.declarationsPerRule >= 1 && limits.propertyNameLength >= 1
    requires v != [] && |v| < 9 && Trimmed(v) && AllSpaces(tail)
    ensures Take(limits, [97, COLON] + v + tail, []) == Some([Declaration([97], v, false)])
  {
    hide Trim, WithoutImportant;
    var chunk: JsString := [97, COLON] + v + tail;
    assert FirstColon(chunk, 0, START) == FirstColon(chunk, 1, START) == Some(1);
    assert chunk[..1] == [97] + [] && chunk[2..] == v + tail;
    ShortWord([97], []);
    ShortWord(v, tail);
    assert ParseDeclaration(limits, chunk) == Some(Declaration([97], v, false));
    TrimSplitsNonempty(chunk, 0);
    assert [] + [Declaration([97], v, false)] == [Declaration([97], v, false)];
  }

  /** `a:b\ ` loses its escaped space to trimming: the declaration read from it is printed as a text that reads otherwise. */
  lemma StrayText(limits: Limits)
    requires limits.declarationsPerRule >= 1 && limits.propertyNameLength >= 1
    ensures var stray := Declaration(Ascii("a"), Ascii("b\\"), false);
      && ParseList(limits, Ascii("a:b\\ ")) == Some([stray]) && Stray(stray)
      && ParseList(limits, Print([stray])) != Some([stray])
  {
    hide ListScan, LastBreak, Ended, Take, ParseFrom, ParseList, Print;
    var a, b := 97 as CodeUnit, 98 as CodeUnit;
    var text: JsString := [] + [a] + [COLON] + [b] + [BACKSLASH] + [SPACE];
    NothingEnded(limits);
    EndedSnoc(limits, [], a);
    EndedSnoc(limits, [] + [a], COLON);
    EndedSnoc(limits, [] + [a] + [COLON], b);
    EndedSnoc(limits, [] + [a] + [COLON] + [b], BACKSLASH);
    EndedSnoc(limits, [] + [a] + [COLON] + [b] + [BACKSLASH], SPACE);
    assert Ascii("a:b\\ ") == text && Ascii("a") == [a] && Ascii("b\\") == [b, BACKSLASH];
    assert text == [a, COLON] + [b, BACKSLASH] + [SPACE] && text[0..] == text && text[..|text|] == text;
    SpaceAndBang();
    ShortChunk(limits, [b, BACKSLASH], [SPACE]);
    Reaches(limits, text, |text|);
    AtTheEnd(limits, text, 0, START, []);
    RunSnoc(START, [], b);
    RunSnoc(START, [] + [b], BACKSLASH);
    assert [b, BACKSLASH] == [] + [b] + [BACKSLASH];
    ReparsesExactly(limits, text);
    assert Declaration([a], [b, BACKSLASH], false) in [Declaration([a], [b, BACKSLASH], false)];
  }

  // ---- The loops ----

  /** `topLevelColon` */
  method TopLevelColon(chunk: JsString) returns (r: Option<nat>)
    ensures r == FirstColon(chunk, 0, START)
  {
    var quote: Option<CodeUnit> := None;
    var escaped, depth := false, 0;
    for index := 0 to |chunk|
      invariant FirstColon(chunk, 0, START) == FirstColon(chunk, index, Scan(quote, escaped, depth))
    {
      var character := chunk[index];
      if escaped {
        escaped := false;
      } else if character == BACKSLASH {
        escaped := true;
      } else if quote.Some? {
        if quote == Some(character) { quote := None; }
      } else if character == DOUBLE_QUOTE || character == SINGLE_QUOTE {
        quote := Some(character);
      } else if character == OPEN {
        depth := depth + 1;
      } else if character == CLOSE {
        depth := depth - 1;
      } else if character == COLON && depth == 0 {
        return Some(index);
      }
    }
    return None;
  }

  method ReadDeclaration(limits: Limits, chunk: JsString) returns (d: Option<Declaration>)
    ensures d == ParseDeclaration(limits, chunk)
  {
    hide Trim, WithoutImportant;
    var separator := TopLevelColon(chunk);
    if separator.None? { return None; }
    var property := Trim(chunk[..separator.value]);
    if property == [] || |property| > limits.propertyNameLength { return None; }
    var remainder := Trim(chunk[separator.value + 1..]);
    var stripped := WithoutImportant(remainder);
    var value := if stripped.Some? then stripped.value else remainder;
    return if value == [] then None else Some(Declaration(property, value, stripped.Some?));
  }

  /** `parseDeclarationList` */
  method ParseDeclarationList(limits: Limits, text: JsString) returns (r: Option<seq<Declaration>>)
    ensures r == ParseList(limits, text)
  {
    hide Trim, ParseDeclaration;
    var declarations: seq<Declaration> := [];
    var start: nat, quote: Option<CodeUnit>, escaped, depth := 0, None, false, 0;
    for index := 0 to |text| + 1
      invariant start <= index
      invariant ParseList(limits, text) == ParseFrom(limits, text, start, index, Scan(quote, escaped, depth), declarations)
    {
      var character := if index < |text| then text[index] else SEMICOLON;
      if escaped {
        escaped := false;
      } else if character == BACKSLASH {
        escaped := true;
      } else if quote.Some? {
        if quote == Some(character) { quote := None; }
      } else if character == DOUBLE_QUOTE || character == SINGLE_QUOTE {
        quote := Some(character);
      } else if character == OPEN {
        depth := depth + 1;
      } else if character == CLOSE {
        if depth == 0 { return None; }
        depth := depth - 1;
      } else if character == SEMICOLON && depth <= 0 {
        var chunk := text[start..index];
        start := index + 1;
        if Trim(chunk) != [] {
          var declaration := ReadDeclaration(limits, chunk);
          if declaration.None? || |declarations| >= limits.declarationsPerRule { return None; }
          declarations := declarations + [declaration.value];
        }
      }
    }
    return if quote.Some? || depth > 0 then None else Some(declarations);
  }
}
