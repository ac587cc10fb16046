/** How a matching rule is shown: which longhands its block has, and when its records spell them as the rule's text does. */
module CssShown {
  import opened Options
  import opened JsText
  import opened CssScan
  import opened AuthoredDeclarations
  import opened AuthoredReading
  import opened CssPage

  // ---- The longhands of a block ----

  /** A value as a record shows it: without surrounding spaces, and no longer than a record may hold. */
  ghost predicate ShowsValue(limits: WalkLimits, raw: JsString, shown: JsString) {
    shown == Trim(if |raw| > limits.valueLength then raw[..limits.valueLength] else raw)
  }

  /** The block says something usable at this position: a name of proper length, a known priority and a value. */
  predicate Usable(limits: WalkLimits, style: Style, i: nat) {
    && style.item(i).Some? && 0 < |style.item(i).value| <= limits.text.propertyNameLength
    && var name := style.item(i).value;
    && (style.priority(name) == Some([]) || style.priority(name) == Some(ImportantWord())) && style.value(name).Some?
  }

  /** A longhand is what the block says at a position: the name there, the value shown, important if its priority says so. */
  ghost predicate SaysAt(limits: WalkLimits, style: Style, i: nat, l: Longhand)
    requires Usable(limits, style, i)
  {
    && l.property == style.item(i).value && ShowsValue(limits, style.value(l.property).value, l.value)
    && (l.important <==> style.priority(l.property) == Some(ImportantWord()))
  }

  /** The longhands are what the block says at these positions, one each, in order. */
  ghost predicate ReadAt(limits: WalkLimits, style: Style, at: seq<nat>, longhands: seq<Longhand>) {
    && |at| == |longhands| && (forall i, j :: 0 <= i < j < |at| ==> at[i] < at[j])
    && forall k :: 0 <= k < |at| ==> Usable(limits, style, at[k]) && SaysAt(limits, style, at[k], longhands[k])
  }

  /** ... and every usable position among the first ones is one of them. */
  ghost predicate AllRead(limits: WalkLimits, style: Style, count: nat, at: seq<nat>, longhands: seq<Longhand>) {
    && ReadAt(limits, style, at, longhands) && (forall k :: 0 <= k < |at| ==> at[k] < count)
    && forall i :: 0 <= i < count && Usable(limits, style, i) ==> i in at
  }

  lemma NameListed(limits: WalkLimits, style: Style, count: nat)
    requires count > 0
    ensures LonghandsOf(limits, style, Names(limits, style, count))
         == LonghandsOf(limits, style, Names(limits, style, count - 1))
            + (if style.item(count - 1).Some? && 0 < |style.item(count - 1).value| <= limits.text.propertyNameLength
               then LonghandOf(limits, style, style.item(count - 1).value) else [])
  {
    hide LonghandOf;
    var names, name := Names(limits, style, count - 1), style.item(count - 1);
    if name.Some? && 0 < |name.value| <= limits.text.propertyNameLength {
      assert (names + [name.value])[..|names|] == names;
    } else {
      assert names + [] == names;
    }
  }

  lemma LonghandSays(limits: WalkLimits, style: Style, i: nat)
    requires style.item(i).Some? && 0 < |style.item(i).value| <= limits.text.propertyNameLength
    ensures var read := LonghandOf(limits, style, style.item(i).value);
      if Usable(limits, style, i) then |read| == 1 && SaysAt(limits, style, i, read[0]) else read == []
  {
    hide Trim;
    assert ImportantWord() != [];
  }

  /** The longhands of a block are what it says at its usable positions, in order, all of them. */
  lemma {:induction false} LonghandsSay(limits: WalkLimits, style: Style, count: nat) returns (at: seq<nat>)
    ensures AllRead(limits, style, count, at, LonghandsOf(limits, style, Names(limits, style, count)))
  {
    hide LonghandsOf, Names, LonghandOf, Usable, SaysAt;
    at := [];
    if count == 0 {
      NothingSaid(limits, style);
    } else {
      at := LonghandsSay(limits, style, count - 1);
      NameListed(limits, style, count);
      if style.item(count - 1).Some? && 0 < |style.item(count - 1).value| <= limits.text.propertyNameLength {
        LonghandSays(limits, style, count - 1);
      } else {
        NotUsable(limits, style, count - 1);
      }
      if Usable(limits, style, count - 1) { at := at + [count - 1]; }
    }
  }

  lemma NotUsable(limits: WalkLimits, style: Style, i: nat)
    requires style.item(i).None? || style.item(i).value == [] || |style.item(i).value| > limits.text.propertyNameLength
    ensures !Usable(limits, style, i)
  {
  }

  lemma NothingSaid(limits: WalkLimits, style: Style)
    ensures LonghandsOf(limits, style, Names(limits, style, 0)) == []
  {
  }

  /** A matching rule is a fact if its block has a length, and the fact has the longhands of the whole block. */
  lemma FactSays(limits: WalkLimits, selector: JsString, style: Style) returns (at: seq<nat>)
    ensures StyleFacts(limits, selector, style) == [] <==> style.length.None?
    ensures style.length.Some? ==>
      var facts := StyleFacts(limits, selector, style);
      && |facts| == 1 && facts[0].selector == selector
      && AllRead(limits, style, if style.length.value > 0 then style.length.value else 0, at, facts[0].longhands)
  {
    hide LonghandsOf, Names, AllRead;
    at := [];
    if style.length.Some? { at := LonghandsSay(limits, style, BoundedLength(style.length.value, style.length.value)); }
  }

  // ---- The text of a rule ----

  /** The longhands read are all the block declares, and its text fits the bytes left and accounts for them. */
  ghost predicate WrittenOut(limits: WalkLimits, page: Page, style: Style, longhands: seq<Longhand>, left: int) {
    && style.length == Some(|longhands|) && style.cssText.Some? && style.cssText.value != []
    && var text := style.cssText.value;
    && page.bytes(text).Some? && page.bytes(text).value <= left
    && |text| <= limits.text.ruleTextLength && ParseList(limits.text, text).Some?
    && Accounts(longhands, ParseList(limits.text, text).value, page.expand)
  }

  /** A record shows the property and importance of a declaration and its value, and lists the longhands it stands for. */
  ghost predicate ShowsDeclaration(limits: WalkLimits, longhands: seq<Longhand>, d: Declaration, shown: Authored, expand: Expander) {
    && shown.declaration.property == d.property && shown.declaration.important == d.important
    && ShowsValue(limits, d.value, shown.declaration.value) && StandsFor(d, shown.longhands, longhands, expand)
  }

  /** The records show the declarations of a text, one for each, in order. */
  ghost predicate ShowsText(limits: WalkLimits, page: Page, text: JsString, longhands: seq<Longhand>, ds: seq<Authored>) {
    var parsed := ParseList(limits.text, text);
    && parsed.Some? && |ds| == |parsed.value|
    && forall i :: 0 <= i < |ds| ==> ShowsDeclaration(limits, longhands, parsed.value[i], ds[i], page.expand)
  }

  lemma ShownText(limits: WalkLimits, page: Page, text: JsString, longhands: seq<Longhand>, ds: seq<Authored>)
    requires ParseList(limits.text, text).Some? && |ds| == |ParseList(limits.text, text).value|
    requires forall i :: 0 <= i < |ds| ==>
      ds[i].declaration == ParseList(limits.text, text).value[i] && StandsFor(ds[i].declaration, ds[i].longhands, longhands, page.expand)
    ensures ShowsText(limits, page, text, longhands, Shown(limits, ds))
  {
    hide StandsFor, ParseList, Trim;
  }

  /** What one rule was read as, and how many bytes were left when its text was asked for. */
  datatype Reading = Reading(selector: JsString, style: Style, longhands: seq<Longhand>, left: int)

  /** A rule that is written out is shown declaration by declaration as its text spells it, any other longhand by longhand. */
  ghost predicate ShownAs(limits: WalkLimits, page: Page, r: Reading, e: Emission) {
    e.selector == r.selector &&
    if WrittenOut(limits, page, r.style, r.longhands, r.left)
    then e.AsWritten? && ShowsText(limits, page, r.style.cssText.value, r.longhands, e.declarations)
    else e.InLonghands? && e.longhands == r.longhands
  }

  /** What was read is some of what the block says. */
  ghost predicate ReadsSome(limits: WalkLimits, r: Reading) {
    |StyleFacts(limits, r.selector, r.style)| == 1 && r.longhands <= StyleFacts(limits, r.selector, r.style)[0].longhands
  }

  /** Each rule shown is the fact that was recorded, as its reading says. */
  ghost predicate AllShown(limits: WalkLimits, page: Page, readings: seq<Reading>, emissions: seq<Emission>, facts: seq<Fact>) {
    && |readings| == |emissions| == |facts|
    && forall i :: 0 <= i < |readings| ==>
         && facts[i] == Fact(readings[i].selector, readings[i].longhands)
         && ReadsSome(limits, readings[i]) && ShownAs(limits, page, readings[i], emissions[i])
  }
}
