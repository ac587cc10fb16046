/**
 * The budgeted walk over a page's stylesheets. Other walks spend from the same budget whenever this one yields a record.
 * A walk that gives no reason for stopping short has reported every fact a walk without budgets would report.
 */
module CssWalk {
  import opened Options
  import opened JsText
  import opened CssScan
  import opened AuthoredDeclarations
  import opened AuthoredReading
  import opened NestedSelectors
  import opened CssPage
  import opened CssCost
  import opened CssPart
  import opened CssShown
  import CssBeyond

  class CssRuleWalkBudget {
    var remainingStylesheets: int
    var remainingRules: int
    var remainingDeclarations: int
    var remainingBytes: int

    ghost predicate Nonnegative()
      reads this
    {
      remainingStylesheets >= 0 && remainingRules >= 0 && remainingDeclarations >= 0 && remainingBytes >= 0
    }

    constructor (stylesheets: nat, rules: nat, declarations: nat, bytes: nat)
      ensures Nonnegative() && remainingStylesheets == stylesheets && remainingRules == rules
      ensures remainingDeclarations == declarations && remainingBytes == bytes
    {
      remainingStylesheets, remainingRules, remainingDeclarations, remainingBytes := stylesheets, rules, declarations, bytes;
    }
  }

  class CssRuleWalk {
    const limits: WalkLimits
    const page: Page
    const budget: CssRuleWalkBudget
    var rulesVisited: int
    var stylesheetsVisited: int
    var recordsEmitted: int
    var runtimeBoundaryProbes: int
    var stylesheetBoundaryClosed: bool
    var inaccessibleStylesheets: int
    var truncationReasons: set<Truncation>
    // What was reported so far, one emission for each matching rule.
    var emissions: seq<Emission>
    ghost var facts: seq<Fact>
    ghost var readings: seq<Reading>
    // What the budget held at first, what this walk charged for declarations and what the other walks took meanwhile.
    ghost const initial: Totals
    ghost var charged: int
    ghost var others: Totals

    /** What the budget lost is what this walk visited and charged and what the others took; no limit is exceeded. */
    ghost predicate Valid()
      reads this, budget
    {
      && budget.Nonnegative()
      && budget.remainingStylesheets + stylesheetsVisited + others.stylesheets == initial.stylesheets
      && budget.remainingRules + rulesVisited + others.rules == initial.rules
      && budget.remainingDeclarations + charged + others.declarations == initial.declarations
      && 0 <= stylesheetsVisited <= limits.stylesheets && 0 <= rulesVisited <= limits.cssRules
      && 0 <= recordsEmitted <= limits.factsPerTarget && recordsEmitted <= charged
      && others.stylesheets >= 0 && others.rules >= 0 && others.declarations >= 0 && others.bytes >= 0
      && 0 <= inaccessibleStylesheets <= limits.inaccessibleStylesheets && runtimeBoundaryProbes <= limits.stylesheets
      && recordsEmitted == Total(emissions) && Faithful(emissions, facts) && AllShown(limits, page, readings, emissions, facts)
    }

    ghost function Now(): (m: Moment)
      reads this, budget
      ensures m.reasons == truncationReasons && m.others == others && m.rulesVisited == rulesVisited && (Full(m) <==> AtLimit())
    {
      Moment(Left(Min(limits.cssRules - rulesVisited, budget.remainingRules),
                  Min(limits.stylesheets - stylesheetsVisited, budget.remainingStylesheets),
                  budget.remainingDeclarations, limits.factsPerTarget - recordsEmitted, budget.remainingBytes),
             rulesVisited, truncationReasons, others)
    }

    /** Visits, records and charges only add up, budgets only go down, and no reason is forgotten. */
    twostate predicate Forward()
      reads this, budget
    {
      && old(rulesVisited) <= rulesVisited && old(stylesheetsVisited) <= stylesheetsVisited
      && old(recordsEmitted) <= recordsEmitted && old(charged) <= charged && old(truncationReasons) <= truncationReasons
      && old(emissions) <= emissions && old(readings) <= readings
      && budget.remainingStylesheets <= old(budget.remainingStylesheets) && budget.remainingRules <= old(budget.remainingRules)
      && budget.remainingDeclarations <= old(budget.remainingDeclarations) && budget.remainingBytes <= old(budget.remainingBytes)
    }

    constructor (limits: WalkLimits, page: Page, budget: CssRuleWalkBudget)
      requires budget.Nonnegative()
      ensures Valid() && this.limits == limits && this.page == page && this.budget == budget
      ensures rulesVisited == 0 && stylesheetsVisited == 0 && recordsEmitted == 0 && truncationReasons == {}
      ensures facts == []
    {
      this.limits, this.page, this.budget := limits, page, budget;
      rulesVisited, stylesheetsVisited, recordsEmitted, runtimeBoundaryProbes, inaccessibleStylesheets := 0, 0, 0, 0, 0;
      stylesheetBoundaryClosed, truncationReasons := false, {};
      emissions, facts, readings := [], [], [];
      initial := Totals(budget.remainingStylesheets, budget.remainingRules, budget.remainingDeclarations, budget.remainingBytes);
      charged, others := 0, Totals(0, 0, 0, 0);
    }

    /** While a record is with the consumer, other walks may spend whatever the budget still holds. */
    method Yield()
      requires Valid()
      modifies budget, this`others
      ensures Valid() && budget.remainingStylesheets <= old(budget.remainingStylesheets)
      ensures budget.remainingRules <= old(budget.remainingRules)
      ensures budget.remainingDeclarations <= old(budget.remainingDeclarations)
      ensures budget.remainingBytes <= old(budget.remainingBytes)
      ensures Waits(old(Now()), Now())
    {
      var s: int :| 0 <= s <= budget.remainingStylesheets;
      var r: int :| 0 <= r <= budget.remainingRules;
      var d: int :| 0 <= d <= budget.remainingDeclarations;
      var b: int :| 0 <= b <= budget.remainingBytes;
      others := Totals(others.stylesheets + s, others.rules + r, others.declarations + d, others.bytes + b);
      budget.remainingStylesheets := budget.remainingStylesheets - s;
      budget.remainingRules := budget.remainingRules - r;
      budget.remainingDeclarations := budget.remainingDeclarations - d;
      budget.remainingBytes := budget.remainingBytes - b;
    }

    method MarkTruncation(reason: Truncation)
      modifies this`truncationReasons
      ensures truncationReasons == old(truncationReasons) + {reason} && (old(Valid()) ==> Valid())
      ensures Now() == old(Now()).(reasons := truncationReasons)
    {
      if reason !in truncationReasons { truncationReasons := truncationReasons + {reason}; }
    }

    /** One of the shared or own limits on rules, records and bytes is reached. */
    predicate AtLimit()
      reads `recordsEmitted, `rulesVisited, budget
    {
      recordsEmitted >= limits.factsPerTarget || budget.remainingDeclarations <= 0
      || rulesVisited >= limits.cssRules || budget.remainingRules <= 0 || budget.remainingBytes <= 0
    }

    /** `reachedWalkLimit`: a walk that stops says why. */
    method ReachedWalkLimit() returns (reached: bool)
      modifies this`truncationReasons
      ensures reached == AtLimit() && (reached ==> truncationReasons != {})
      ensures old(truncationReasons) <= truncationReasons && Costs(old(Now()), Now(), Some(NOTHING))
      ensures old(Valid()) ==> Valid()
    {
      hide Valid;
      var facts := recordsEmitted >= limits.factsPerTarget || budget.remainingDeclarations <= 0;
      var rules := rulesVisited >= limits.cssRules || budget.remainingRules <= 0;
      var bytes := budget.remainingBytes <= 0;
      if facts { MarkTruncation(FactsLimit); }
      if rules { MarkTruncation(RulesLimit); }
      if bytes { MarkTruncation(ByteLimit); }
      return facts || rules || bytes;
    }

    method StylesheetLimitReached(mark: bool) returns (reached: bool)
      modifies this`truncationReasons
      ensures reached == (stylesheetsVisited >= limits.stylesheets || budget.remainingStylesheets <= 0)
      ensures truncationReasons == old(truncationReasons) + if reached && mark then {StylesheetsLimit} else {}
      ensures Now() == old(Now()).(reasons := truncationReasons)
      ensures Costs(old(Now()), Now(), Some(NOTHING))
      ensures old(Valid()) ==> Valid()
    {
      reached := stylesheetsVisited >= limits.stylesheets || budget.remainingStylesheets <= 0;
      if reached && mark { MarkTruncation(StylesheetsLimit); }
    }

    method ConsumeStylesheetAuthority()
      requires Valid() && stylesheetsVisited < limits.stylesheets && budget.remainingStylesheets > 0
      modifies this`stylesheetsVisited, budget
      ensures Valid() && Forward() && stylesheetsVisited == old(stylesheetsVisited) + 1
      ensures Costs(old(Now()), Now(), Some(NOTHING.(sheets := 1)))
    {
      stylesheetsVisited := stylesheetsVisited + 1;
      budget.remainingStylesheets := budget.remainingStylesheets - 1;
    }

    /** `consumeWalkByteCount`: what does not fit closes the walk. */
    method ConsumeWalkByteCount(count: nat) returns (ok: bool)
      requires Valid()
      modifies this`truncationReasons, budget`remainingBytes
      ensures Valid() && ok == (count <= old(budget.remainingBytes)) && old(truncationReasons) <= truncationReasons
      ensures budget.remainingBytes == if ok then old(budget.remainingBytes) - count else 0
      ensures budget.remainingBytes <= old(budget.remainingBytes) && (!ok ==> ByteLimit in truncationReasons)
      ensures Costs(old(Now()), Now(), Some(NOTHING.(bytes := count)))
    {
      hide AllShown, Faithful, Total, Full;
      if count > budget.remainingBytes {
        budget.remainingBytes := 0;
        MarkTruncation(ByteLimit);
        return false;
      }
      budget.remainingBytes := budget.remainingBytes - count;
      return true;
    }

    method ConsumeWalkBytes(value: JsString) returns (ok: bool)
      requires Valid()
      modifies this`truncationReasons, budget`remainingBytes
      ensures Valid() && old(truncationReasons) <= truncationReasons && (!ok ==> ByteLimit in truncationReasons)
      ensures budget.remainingBytes <= old(budget.remainingBytes) && Costs(old(Now()), Now(), BytesNeed(page.bytes(value)))
      ensures ok ==> Took(BytesNeed(page.bytes(value)), old(budget.remainingBytes), budget.remainingBytes)
    {
      var count := page.bytes(value);
      if count.None? {
        budget.remainingBytes := 0;
        MarkTruncation(ByteLimit);
        return false;
      }
      ok := ConsumeWalkByteCount(count.value);
    }

    /** `offerWalkBytes`: what does not fit is declined and nothing is closed. */
    method OfferWalkBytes(value: JsString) returns (ok: bool)
      requires Valid()
      modifies budget`remainingBytes
      ensures Valid() && budget.remainingBytes <= old(budget.remainingBytes)
      ensures ok <==> page.bytes(value).Some? && page.bytes(value).value <= old(budget.remainingBytes)
      ensures budget.remainingBytes == old(budget.remainingBytes) - if ok then page.bytes(value).value else 0
      ensures Costs(old(Now()), Now(), Some(NOTHING.(bytes := if page.bytes(value).None? then 0 else page.bytes(value).value)))
    {
      var count := page.bytes(value);
      if count.None? || count.value > budget.remainingBytes { return false; }
      budget.remainingBytes := budget.remainingBytes - count.value;
      return true;
    }

    method ReportInaccessible()
      requires Valid()
      modifies this`inaccessibleStylesheets
      ensures Valid() && Now() == old(Now())
    {
      if inaccessibleStylesheets < limits.inaccessibleStylesheets { inaccessibleStylesheets := inaccessibleStylesheets + 1; }
    }

    method IsRuntimeStylesheet(sheet: nat) returns (runtime: bool)
      requires Valid()
      modifies this`truncationReasons, this`inaccessibleStylesheets
      ensures Valid() && old(truncationReasons) <= truncationReasons
      ensures if IsTool(page, sheet).None? then runtime && truncationReasons != {} else IsTool(page, sheet) == Some(runtime)
      ensures Now() == old(Now()).(reasons := truncationReasons)
      ensures Costs(old(Now()), Now(), if IsTool(page, sheet).None? then None else Some(NOTHING))
    {
      if !page.filtersRuntime { return false; }
      var answer := page.isRuntime(sheet);
      if answer.None? {
        MarkTruncation(ExclusionFailed);
        ReportInaccessible();
        return true;
      }
      return answer.value;
    }

    // ---- Declarations ----

    method ChargeDeclaration()
      requires Valid() && budget.remainingDeclarations > 0
      modifies this`charged, budget`remainingDeclarations
      ensures Valid() && charged == old(charged) + 1 && budget.remainingDeclarations == old(budget.remainingDeclarations) - 1
      ensures Forward() && Costs(old(Now()), Now(), Some(NOTHING.(declarations := 1)))
    {
      budget.remainingDeclarations := budget.remainingDeclarations - 1;
      charged := charged + 1;
    }

    /** Charge one declaration and read its name. */
    method ReadName(style: Style, index: nat) returns (name: seq<JsString>, paid: bool)
      requires Valid() && budget.remainingDeclarations > 0
      modifies this`truncationReasons, this`charged, budget`remainingDeclarations, budget`remainingBytes
      ensures Valid() && charged == old(charged) + 1 && budget.remainingDeclarations == old(budget.remainingDeclarations) - 1
      ensures Forward() && |name| <= 1 && (!paid ==> truncationReasons != {})
      ensures paid ==> Names(limits, style, index) + name == Names(limits, style, index + 1)
      ensures paid ==> Took(NameNeed(page, style.item(index)), old(budget.remainingBytes), budget.remainingBytes)
      ensures Costs(old(Now()), Now(), NameNeed(page, style.item(index)))
    {
      hide Valid, Costs, Now, Then;
      ghost var start := Now();
      ChargeDeclaration();
      ghost var charged := Now();
      NoCost(charged);
      var property := style.item(index);
      if property.None? {
        CostsThen(start, charged, charged, Some(NOTHING.(declarations := 1)), Some(NOTHING));
        TookThen(Some(NOTHING.(declarations := 1)), Some(NOTHING), budget.remainingBytes, budget.remainingBytes, budget.remainingBytes);
        return [], true;
      }
      ghost var bytes := budget.remainingBytes;
      paid := ConsumeWalkBytes(property.value);
      if paid {
        TookThen(Some(NOTHING.(declarations := 1)), BytesNeed(page.bytes(property.value)), bytes, bytes, budget.remainingBytes);
      }
      CostsThen(start, charged, Now(), Some(NOTHING.(declarations := 1)), BytesNeed(page.bytes(property.value)));
      name := if property.value != [] && |property.value| <= limits.text.propertyNameLength then [property.value] else [];
    }

    lemma {:induction false} NamesStop(a: Moment, b: Moment, style: Style, index: nat, count: nat)
      requires index <= count && Costs(a, b, NamesNeed(page, style, index)) && (b.reasons != {} || Full(b))
      ensures Costs(a, b, NamesNeed(page, style, count))
      decreases count
    {
      hide Costs, Then;
      if index < count {
        NamesStop(a, b, style, index, count - 1);
        CostsStop(a, b, NamesNeed(page, style, count - 1), NameNeed(page, style.item(count - 1)));
      }
    }

    lemma {:induction false} LonghandsStop(a: Moment, b: Moment, style: Style, names: seq<JsString>, index: nat)
      requires index <= |names| && Costs(a, b, LonghandsNeed(page, style, names[..index])) && (b.reasons != {} || Full(b))
      ensures Costs(a, b, LonghandsNeed(page, style, names))
      decreases |names|
    {
      hide Costs, Then;
      if index < |names| {
        assert names[..|names| - 1][..index] == names[..index];
        LonghandsStop(a, b, style, names[..|names| - 1], index);
        CostsStop(a, b, LonghandsNeed(page, style, names[..|names| - 1]), LonghandNeed(page, style, names[|names| - 1]));
      } else {
        assert names[..index] == names;
      }
    }

    /** Charge the declarations of a rule and collect their names. */
    method CollectNames(style: Style, count: nat) returns (names: seq<JsString>, open: bool)
      requires Valid() && count <= budget.remainingDeclarations
      modifies this`truncationReasons, this`charged, budget`remainingDeclarations, budget`remainingBytes
      ensures Valid() && old(charged) <= charged <= old(charged) + count && |names| <= charged - old(charged)
      ensures budget.remainingDeclarations == old(budget.remainingDeclarations) - (charged - old(charged)) && Forward()
      ensures if open then names == Names(limits, style, count) else truncationReasons != {}
      ensures open ==> Took(NamesNeed(page, style, count), old(budget.remainingBytes), budget.remainingBytes)
      ensures Costs(old(Now()), Now(), NamesNeed(page, style, count))
    {
      hide Valid, Costs, Now, Then, Names, NameNeed;
      ghost var start := Now();
      NoCost(start);
      NoNames(style);
      names := [];
      for index := 0 to count
        invariant Valid() && charged == old(charged) + index && names == Names(limits, style, index)
        invariant budget.remainingDeclarations == old(budget.remainingDeclarations) - index && Forward()
        invariant Took(NamesNeed(page, style, index), old(budget.remainingBytes), budget.remainingBytes)
        invariant Costs(start, Now(), NamesNeed(page, style, index))
      {
        ghost var before, bytes := Now(), budget.remainingBytes;
        var name, paid := ReadName(style, index);
        CostsThen(start, before, Now(), NamesNeed(page, style, index), NameNeed(page, style.item(index)));
        if !paid {
          NamesStop(start, Now(), style, index + 1, count);
          return names, false;
        }
        TookThen(NamesNeed(page, style, index), NameNeed(page, style.item(index)), old(budget.remainingBytes), bytes, budget.remainingBytes);
        names := names + name;
      }
      return names, true;
    }

    lemma NoNames(style: Style)
      ensures Names(limits, style, 0) == []
    {
    }

    /** Read the longhands of a rule, as far as the bytes last. */
    method CollectLonghands(style: Style, names: seq<JsString>) returns (longhands: seq<Longhand>)
      requires Valid()
      modifies this`truncationReasons, budget`remainingBytes
      ensures Valid() && |longhands| <= |names| && Forward()
      ensures truncationReasons == {} ==> longhands == LonghandsOf(limits, style, names)
      ensures longhands <= LonghandsOf(limits, style, names)
      ensures truncationReasons == {} ==> Took(LonghandsNeed(page, style, names), old(budget.remainingBytes), budget.remainingBytes)
      ensures Costs(old(Now()), Now(), LonghandsNeed(page, style, names))
    {
      hide LonghandOf, Valid, Costs, Now, Then, LonghandNeed;
      ghost var start := Now();
      NoCost(start);
      longhands := [];
      for i := 0 to |names|
        invariant Valid() && |longhands| <= i && Forward()
        invariant longhands == LonghandsOf(limits, style, names[..i])
        invariant Took(LonghandsNeed(page, style, names[..i]), old(budget.remainingBytes), budget.remainingBytes)
        invariant Costs(start, Now(), LonghandsNeed(page, style, names[..i]))
      {
        assert names[..i + 1][..i] == names[..i];
        ghost var before, bytes := Now(), budget.remainingBytes;
        var more, paid := ReadLonghand(style, names[i]);
        CostsThen(start, before, Now(), LonghandsNeed(page, style, names[..i]), LonghandNeed(page, style, names[i]));
        if !paid {
          LonghandsStop(start, Now(), style, names, i + 1);
          LonghandsPrefix(limits, style, names[..i], names);
          return;
        }
        TookThen(LonghandsNeed(page, style, names[..i]), LonghandNeed(page, style, names[i]), old(budget.remainingBytes), bytes,
                 budget.remainingBytes);
        longhands := longhands + more;
      }
      assert names[..|names|] == names;
    }

    /** The longhand of one name, if it can be read and the bytes last for it. */
    method ReadLonghand(style: Style, name: JsString) returns (more: seq<Longhand>, paid: bool)
      requires Valid()
      modifies this`truncationReasons, budget`remainingBytes
      ensures Valid() && |more| <= 1 && Forward() && (!paid ==> truncationReasons != {})
      ensures paid ==> more == LonghandOf(limits, style, name)
      ensures paid ==> Took(LonghandNeed(page, style, name), old(budget.remainingBytes), budget.remainingBytes)
      ensures Costs(old(Now()), Now(), LonghandNeed(page, style, name))
    {
      hide Trim, Valid, Costs, Now, Then;
      ghost var start := Now();
      NoCost(start);
      var priority := style.priority(name);
      if priority.None? { return [], true; }
      ghost var bytes := budget.remainingBytes;
      paid := ConsumeWalkBytes(priority.value);
      ghost var unspent := budget.remainingBytes;
      ghost var asked := Now();
      NoCost(asked);
      var value := style.value(name);
      ghost var rest := if (priority.value != [] && priority.value != ImportantWord()) || value.None? then Some(NOTHING)
        else BytesNeed(page.bytes(value.value));
      if !paid {
        CostsStop(start, asked, BytesNeed(page.bytes(priority.value)), rest);
        return [], false;
      }
      if (priority.value != [] && priority.value != ImportantWord()) || value.None? {
        CostsThen(start, asked, asked, BytesNeed(page.bytes(priority.value)), rest);
        TookThen(BytesNeed(page.bytes(priority.value)), rest, bytes, unspent, unspent);
        return [], true;
      }
      paid := ConsumeWalkBytes(value.value);
      CostsThen(start, asked, Now(), BytesNeed(page.bytes(priority.value)), rest);
      if !paid { return [], false; }
      TookThen(BytesNeed(page.bytes(priority.value)), rest, bytes, unspent, budget.remainingBytes);
      return [Longhand(name, Trim(Truncate(value.value, limits.valueLength)), priority.value != [])], true;
    }

    /** `authoredForm`: the declarations as the rule's own text spells them, when it accounts for every longhand. */
    method AuthoredForm(style: Style, longhands: seq<Longhand>) returns (presented: Option<seq<Authored>>)
      requires Valid() && style.length == Some(|longhands|)
      modifies budget`remainingBytes
      ensures Valid() && Forward()
      ensures presented.Some? <==> WrittenOut(limits, page, style, longhands, old(budget.remainingBytes))
      ensures presented.Some? ==> |presented.value| <= |longhands| && Partitions(presented.value, longhands)
      ensures presented.Some? ==> ShowsText(limits, page, style.cssText.value, longhands, presented.value)
      ensures Costs(old(Now()), Now(), Some(TextNeed(page, style)))
    {
      hide ParseList, Accounts, Costs, Now, ShowsText, StandsFor, Valid;
      ghost var start := Now();
      NoCost(start);
      CostsLess(start, start, NOTHING, TextNeed(page, style));
      if style.cssText.None? || style.cssText.value == [] { return None; }
      var offered := OfferWalkBytes(style.cssText.value);
      if !offered { return None; }
      var authored := ReadAuthoredDeclarations(limits.text, style.cssText.value, longhands, page.expand);
      if authored.None? { return None; }
      AccountsNoRepeats(longhands, ParseList(limits.text, style.cssText.value).value, page.expand);
      NoMoreThanLonghands(authored.value, longhands);
      ShownListsTheSame(limits, authored.value);
      ShownText(limits, page, style.cssText.value, longhands, authored.value);
      return Some(Shown(limits, authored.value));
    }

    /**
     * `walkDeclarations`: a rule never emits more records than the declarations charged for it. The charge is made, and
     * the records are counted, before the first of them is yielded.
     */
    method WalkDeclarations(selector: JsString, style: Style)
      returns (ghost chargedHere: int, ghost emittedHere: int, ghost left: int)
      requires Valid()
      modifies this, budget
      ensures Valid() && Forward()
      ensures chargedHere == charged - old(charged) && emittedHere == recordsEmitted - old(recordsEmitted)
      ensures 0 <= emittedHere <= chargedHere <= limits.text.declarationsPerRule
      ensures budget.remainingDeclarations <= old(budget.remainingDeclarations) - chargedHere
      ensures rulesVisited == old(rulesVisited) && stylesheetsVisited == old(stylesheetsVisited)
      ensures truncationReasons == {} ==> Adds(old(facts), facts, Some(StyleFacts(limits, selector, style)))
      ensures truncationReasons == {} ==> AddsReading(old(readings), readings, selector, style, left)
      ensures truncationReasons == {} && style.length.Some? ==>
        Took(BeforeText(style, BoundedLength(style.length.value, style.length.value)), old(budget.remainingBytes), left)
      ensures Costs(old(Now()), Now(), StyleNeed(limits, page, style))
      ensures Reports(old(facts), facts, StyleFacts(limits, selector, style))
    {
      hide Names, LonghandsOf, Valid, Presents, Partitions, Costs, Now, Then, ReadNeed, Full, Passes, Reports, PartOf, ShownAs,
        AllShown, BeforeText, Took;
      chargedHere, emittedHere, left := 0, 0, 0;
      ghost var start := Now();
      NoCost(start);
      ReportsNothing(facts, StyleFacts(limits, selector, style));
      if style.length.None? { return; }
      var declaredLength := style.length.value;
      var count := CountDeclarations(declaredLength);
      ghost var counted := Now();
      var emission: Option<Emission>;
      ghost var fact: Fact;
      emission, fact, left := ReadRule(selector, style, count, declaredLength);
      chargedHere := charged - old(charged);
      ghost var read := Now();
      if emission.Some? {
        FewerNames(selector, style, count, declaredLength, fact);
        ReportsFact(facts, fact, StyleFacts(limits, selector, style)[0]);
        CountRecords(emission.value, fact, Reading(selector, style, fact.longhands, left));
        emittedHere := Records(emission.value);
        ghost var kept := Now();
        YieldAll(Records(emission.value));
        CostsYielded(read, kept, Now(), emittedHere);
        CostsLess(read, Now(), NOTHING.(records := emittedHere), NOTHING.(records := count));
        CostsThen(counted, read, Now(), ReadNeed(limits, page, style, count), Some(NOTHING.(records := count)));
      } else {
        CostsStop(counted, read, ReadNeed(limits, page, style, count), Some(NOTHING.(records := count)));
      }
      StyleCosts(limits, page, start, counted, Now(), style, count);
    }

    lemma FewerNames(selector: JsString, style: Style, count: nat, declaredLength: int, fact: Fact)
      requires style.length == Some(declaredLength) && count <= BoundedLength(declaredLength, declaredLength)
      requires PartOf(fact, Fact(selector, LonghandsOf(limits, style, Names(limits, style, count))))
      ensures |StyleFacts(limits, selector, style)| == 1 && PartOf(fact, StyleFacts(limits, selector, style)[0])
      ensures fact == Fact(selector, fact.longhands) && forall left :: ReadsSome(limits, Reading(selector, style, fact.longhands, left))
      ensures [StyleFacts(limits, selector, style)[0]] == StyleFacts(limits, selector, style)
    {
      var all: nat := BoundedLength(declaredLength, declaredLength);
      NamesPrefix(limits, style, count, all);
      LonghandsPrefix(limits, style, Names(limits, style, count), Names(limits, style, all));
    }

    /** How many declarations of a rule are read: those there is room for, with a reason if that is not all of them. */
    method CountDeclarations(declaredLength: int) returns (count: nat)
      requires Valid()
      modifies this`truncationReasons
      ensures Valid() && Forward() && count <= limits.text.declarationsPerRule && count <= budget.remainingDeclarations
      ensures recordsEmitted + count <= limits.factsPerTarget && recordsEmitted <= charged
      ensures truncationReasons == {} ==> count == BoundedLength(declaredLength, declaredLength)
      ensures CountsAll(limits, old(Now()), Now(), declaredLength, count)
    {
      hide Total, Faithful;
      var remainingRecords := Min(limits.factsPerTarget - recordsEmitted, budget.remainingDeclarations);
      var declarationLimit := Min(limits.text.declarationsPerRule, remainingRecords);
      count := BoundedLength(declaredLength, declarationLimit);
      if declaredLength > limits.text.declarationsPerRule { MarkTruncation(DeclarationsLimit); }
      if declaredLength > remainingRecords { MarkTruncation(FactsLimit); }
    }

    /**
     * What a rule presents: its authored declarations, or else its longhands, but never more than were charged for. It is
     * all of the rule unless a reason says otherwise.
     */
    method ReadRule(selector: JsString, style: Style, count: nat, declaredLength: int)
      returns (emission: Option<Emission>, ghost fact: Fact, ghost left: int)
      requires Valid() && count <= budget.remainingDeclarations && style.length == Some(declaredLength)
      modifies this`truncationReasons, this`charged, budget`remainingDeclarations, budget`remainingBytes
      ensures Valid() && Forward() && charged - old(charged) <= count
      ensures budget.remainingDeclarations == old(budget.remainingDeclarations) - (charged - old(charged))
      ensures emission.None? ==> truncationReasons != {}
      ensures emission.Some? ==> Records(emission.value) <= charged - old(charged) && Presents(emission.value, fact)
      ensures emission.Some? ==> PartOf(fact, Fact(selector, LonghandsOf(limits, style, Names(limits, style, count))))
      ensures emission.Some? ==> ShownAs(limits, page, Reading(selector, style, fact.longhands, left), emission.value)
      ensures truncationReasons == {} ==> Took(BeforeText(style, count), old(budget.remainingBytes), left)
      ensures truncationReasons == {} ==>
        fact == Fact(selector, LonghandsOf(limits, style, Names(limits, style, count)))
      ensures Costs(old(Now()), Now(), ReadNeed(limits, page, style, count))
    {
      hide Valid, Partitions, Names, LonghandsOf, Costs, Now, Then, NamesNeed, LonghandsNeed, TextNeed, ShowsText, Accounts,
        ParseList;
      ghost var bytes := budget.remainingBytes;
      ghost var start := Now();
      ghost var rest := Then(LonghandsNeed(page, style, Names(limits, style, count)), Some(TextNeed(page, style)));
      fact := Fact(selector, []);
      var names, open := CollectNames(style, count);
      ghost var named, unspent := Now(), budget.remainingBytes;
      left := unspent;
      if !open {
        CostsStop(start, named, NamesNeed(page, style, count), rest);
        return None, fact, left;
      }
      var longhands := CollectLonghands(style, names);
      fact := Fact(selector, longhands);
      emission := Some(InLonghands(selector, longhands));
      ghost var read := Now();
      left := budget.remainingBytes;
      if truncationReasons == {} { TookThen(NamesNeed(page, style, count), LonghandsNeed(page, style, names), bytes, unspent, left); }
      TextMayWait(read, style);
      if |longhands| == declaredLength {
        var authored := AuthoredForm(style, longhands);
        if authored.Some? { emission := Some(AsWritten(selector, authored.value)); }
      }
      CostsThen(named, read, Now(), LonghandsNeed(page, style, names), Some(TextNeed(page, style)));
      CostsThen(start, named, Now(), NamesNeed(page, style, count), rest);
    }

    /** What is spent on a rule before its text is asked for. */
    ghost function BeforeText(style: Style, count: nat): Option<Use> {
      Then(NamesNeed(page, style, count), LonghandsNeed(page, style, Names(limits, style, count)))
    }

    /** One more rule was read, all of it, with this many bytes left for its text. */
    ghost predicate AddsReading(before: seq<Reading>, after: seq<Reading>, selector: JsString, style: Style, left: int) {
      var facts := StyleFacts(limits, selector, style);
      after == before + if facts == [] then [] else [Reading(selector, style, facts[0].longhands, left)]
    }

    lemma TextMayWait(a: Moment, style: Style)
      ensures Costs(a, a, Some(TextNeed(page, style)))
    {
      NoCost(a);
      CostsLess(a, a, NOTHING, TextNeed(page, style));
    }

    /** Count the records before any is yielded: there is room for all of them, since all of them were charged for. */
    method CountRecords(emission: Emission, ghost fact: Fact, ghost reading: Reading)
      requires Valid() && recordsEmitted + Records(emission) <= charged
      requires recordsEmitted + Records(emission) <= limits.factsPerTarget
      requires Presents(emission, fact) && fact == Fact(reading.selector, reading.longhands)
      requires ReadsSome(limits, reading) && ShownAs(limits, page, reading, emission)
      modifies this`recordsEmitted, this`emissions, this`facts, this`readings
      ensures Valid() && Forward() && recordsEmitted == old(recordsEmitted) + Records(emission)
      ensures emissions == old(emissions) + [emission] && facts == old(facts) + [fact] && readings == old(readings) + [reading]
      ensures Costs(old(Now()), Now(), Some(NOTHING.(records := Records(emission))))
    {
      hide Total, Presents, ReadsSome, ShownAs;
      var records := 0;
      while records < Records(emission) && recordsEmitted < limits.factsPerTarget
        invariant records <= Records(emission) && recordsEmitted == old(recordsEmitted) + records
        invariant emissions == old(emissions) && facts == old(facts) && readings == old(readings)
        decreases Records(emission) - records
      {
        records := records + 1;
        recordsEmitted := recordsEmitted + 1;
      }
      TotalSnoc(emissions, emission);
      emissions := emissions + [emission];
      facts := facts + [fact];
      readings := readings + [reading];
    }

    method YieldAll(records: nat)
      requires Valid()
      modifies budget, this`others
      ensures Valid() && Forward() && Waits(old(Now()), Now()) && (records == 0 ==> Now() == old(Now()))
    {
      hide Valid, Waits, Now;
      ghost var start := Now();
      WaitsNot(start);
      for yielded := 0 to records
        invariant Valid() && Forward() && Waits(start, Now()) && (yielded == 0 ==> Now() == start)
      {
        ghost var before := Now();
        Yield();
        WaitsThen(start, before, Now());
      }
    }

    lemma WaitsNot(a: Moment)
      ensures Waits(a, a)
    {
    }

    // ---- Rules and stylesheets ----

    method ChargeRule()
      requires Valid() && !AtLimit()
      modifies this`rulesVisited, budget`remainingRules
      ensures Valid() && Forward() && rulesVisited == old(rulesVisited) + 1
      ensures budget.remainingRules == old(budget.remainingRules) - 1
      ensures Costs(old(Now()), Now(), Some(NOTHING.(rules := 1)))
    {
      rulesVisited := rulesVisited + 1;
      budget.remainingRules := budget.remainingRules - 1;
    }

    /** How many rules of a list may be walked, with a reason if the list claims to be longer. */
    method OpenRules(rules: RuleList) returns (remaining: nat, open: bool)
      requires Valid()
      modifies this`truncationReasons
      ensures Valid() && Forward() && (!open ==> truncationReasons != {})
      ensures open ==> remaining == Min(limits.cssRules - rulesVisited, budget.remainingRules)
      ensures Costs(old(Now()), Now(), Some(Claim(rules)))
    {
      hide Valid, AtLimit;
      ghost var start := Now();
      var reached := ReachedWalkLimit();
      if reached {
        CostsHalt(start, Now(), Some(Claim(rules)));
        return 0, false;
      }
      RulesLeft(Min(limits.cssRules - rulesVisited, budget.remainingRules));
      remaining, open := Min(limits.cssRules - rulesVisited, budget.remainingRules), true;
      if rules.length.Some? && rules.length.value > remaining { MarkTruncation(RulesLimit); }
    }

    /**
     * `walkRules`: ends on any graph, since every step inwards uses up depth and every rule uses up the budget. Without a
     * reason to stop, all of the list is reported, or a limit is reached that the caller is about to give as a reason.
     */
    method WalkRules(list: nat, parent: Option<JsString>, depth: nat, active: set<nat>)
      requires Valid()
      modifies this, budget
      ensures Valid() && Forward()
      ensures truncationReasons == {} ==>
        AtLimit() || Adds(old(facts), facts, RulesFacts(limits, page, list, parent, depth, active))
      ensures Costs(old(Now()), Now(), RulesNeed(limits, page, list, parent, depth, active))
      ensures Reports(old(facts), facts, AllRules(limits, page, list, parent, depth, active))
      decreases Room(limits, depth), 4
    {
      hide Valid, AtLimit, FactsFrom, Adds, Costs, Now, Then, NeedFrom, Reports, AllFrom;
      ReportsNothing(facts, AllRules(limits, page, list, parent, depth, active));
      ghost var start := Now();
      if depth > limits.cssRuleDepth {
        MarkTruncation(DepthLimit);
        CostsReason(start, Now());
        return;
      }
      var remaining, open := OpenRules(page.lists(list));
      ghost var begun := Now();
      ghost var claim, rest := Some(Claim(page.lists(list))), NeedFrom(limits, page, list, 0, parent, depth, active);
      if !open {
        CostsStop(start, begun, claim, rest);
        return;
      }
      WalkOpened(list, remaining, parent, depth, active);
      CostsThen(start, begun, Now(), claim, rest);
    }

    method WalkOpened(list: nat, remaining: nat, parent: Option<JsString>, depth: nat, active: set<nat>)
      requires Valid() && depth <= limits.cssRuleDepth && remaining == Min(limits.cssRules - rulesVisited, budget.remainingRules)
      modifies this, budget
      ensures Valid() && Forward()
      ensures truncationReasons == {} ==>
        AtLimit() || Adds(old(facts), facts, FactsFrom(limits, page, list, 0, parent, depth, active))
      ensures Costs(old(Now()), Now(), NeedFrom(limits, page, list, 0, parent, depth, active))
      ensures Reports(old(facts), facts, AllFrom(limits, page, list, 0, parent, depth, active))
      decreases Room(limits, depth), 3
    {
      hide Valid, AtLimit, RuleFacts, FactsFrom, ToGo, Adds, Costs, Now, Then, NeedFrom, OneRuleNeed, Reports, AllFrom,
        AllOfRule, ReportsUpTo;
      ghost var all := AllFrom(limits, page, list, 0, parent, depth, active);
      UpToAll(facts, all);
      ghost var start, done := Now(), Some(NOTHING);
      NoCost(start);
      BelowRuleLimit();
      ThenLaws(NeedFrom(limits, page, list, 0, parent, depth, active), None, None);
      var rules := page.lists(list);
      var index := 0;
      ghost var whole := FactsFrom(limits, page, list, 0, parent, depth, active);
      AllToGo(facts, whole);
      while index < remaining
        invariant Valid() && 0 <= index && Forward()
        invariant rulesVisited >= old(rulesVisited) + index
        invariant budget.remainingRules <= old(budget.remainingRules) - index
        invariant truncationReasons == {} ==>
                    ToGo(old(facts), facts, whole, FactsFrom(limits, page, list, index, parent, depth, active))
        invariant Costs(start, Now(), done)
        invariant NeedFrom(limits, page, list, 0, parent, depth, active)
               == Then(done, NeedFrom(limits, page, list, index, parent, depth, active))
        invariant Reports(old(facts), facts, all)
        invariant ReportsUpTo(old(facts), facts, all, AllFrom(limits, page, list, index, parent, depth, active))
        decreases remaining - index
      {
        var rule := rules.at(index);
        ghost var before, at := facts, Now();
        NextFacts(limits, page, list, index, parent, depth, active);
        NextNeed(limits, page, list, index, parent, depth, active);
        NextAll(limits, page, list, index, parent, depth, active);
        if rule.None? {
          NoneToGo(old(facts), facts, whole);
          NoCost(at);
          CostsThen(start, at, at, done, Some(NOTHING));
          return;
        }
        ghost var one, rest := OneRuleNeed(limits, page, rule.value, parent, depth, active),
                               NeedFrom(limits, page, list, index + 1, parent, depth, active);
        var goOn := TakeRule(rule.value, parent, depth, active);
        UpToThen(old(facts), before, facts, all, AllOfRule(limits, page, rule.value, parent, depth, active),
                 AllFrom(limits, page, list, index + 1, parent, depth, active));
        CostsThen(start, at, Now(), done, one);
        ThenLaws(done, one, rest);
        done := Then(done, one);
        if !goOn {
          CostsStop(start, Now(), done, rest);
          return;
        }
        LessToGo(old(facts), before, facts, whole, RuleFacts(limits, page, rule.value, parent, depth, active),
                 FactsFrom(limits, page, list, index + 1, parent, depth, active));
        index := index + 1;
      }
      RulesSpent();
      CostsStop(start, Now(), done, NeedFrom(limits, page, list, index, parent, depth, active));
    }

    lemma RulesLeft(remaining: int)
      requires Valid() && remaining == Min(limits.cssRules - rulesVisited, budget.remainingRules)
      ensures 0 <= remaining
    {
    }

    lemma BelowRuleLimit()
      requires Valid()
      ensures 0 <= rulesVisited <= limits.cssRules
    {
    }

    /** One more rule of a list: charged, if there is room for one, and walked. */
    method TakeRule(rule: Rule, parent: Option<JsString>, depth: nat, active: set<nat>) returns (goOn: bool)
      requires Valid() && depth <= limits.cssRuleDepth
      modifies this, budget
      ensures Valid() && Forward()
      ensures goOn ==> rulesVisited > old(rulesVisited) && budget.remainingRules < old(budget.remainingRules)
      ensures !goOn ==> truncationReasons != {}
      ensures truncationReasons == {} ==> Adds(old(facts), facts, RuleFacts(limits, page, rule, parent, depth, active))
      ensures Costs(old(Now()), Now(), OneRuleNeed(limits, page, rule, parent, depth, active))
      ensures Reports(old(facts), facts, AllOfRule(limits, page, rule, parent, depth, active))
      decreases Room(limits, depth), 2, 1
    {
      hide Valid, AtLimit, RuleFacts, Adds, RuleNeed, Costs, Now, Then, Reports, AllOfRule;
      ReportsNothing(facts, AllOfRule(limits, page, rule, parent, depth, active));
      ghost var start := Now();
      var reached := ReachedWalkLimit();
      ghost var ready := Now();
      if reached {
        CostsHalt(start, ready, OneRuleNeed(limits, page, rule, parent, depth, active));
        return false;
      }
      ChargeRule();
      ghost var counted := Now();
      goOn := WalkRule(rule, parent, depth, active);
      CostsThen(ready, counted, Now(), Some(NOTHING.(rules := 1)), RuleNeed(limits, page, rule, parent, depth, active));
      CostsAfter(start, ready, Now(), OneRuleNeed(limits, page, rule, parent, depth, active));
    }

    twostate lemma RulesSpent()
      ensures rulesVisited >= limits.cssRules || budget.remainingRules <= 0 ==> AtLimit()
    {
    }

    /** One rule with everything inside it; the answer is whether the list goes on. */
    method WalkRule(rule: Rule, parent: Option<JsString>, depth: nat, active: set<nat>) returns (goOn: bool)
      requires Valid() && depth <= limits.cssRuleDepth
      modifies this, budget
      ensures Valid() && Forward() && (!goOn ==> truncationReasons != {})
      ensures truncationReasons == {} ==> Adds(old(facts), facts, RuleFacts(limits, page, rule, parent, depth, active))
      ensures Costs(old(Now()), Now(), RuleNeed(limits, page, rule, parent, depth, active))
      ensures Reports(old(facts), facts, AllOfRule(limits, page, rule, parent, depth, active))
      decreases Room(limits, depth), 2, 0
    {
      hide Valid, AtLimit, Costs, Now, Then, ImportFacts, ImportNeed, NestedFacts, NestedNeed, StyleFacts, StyleNeed,
        StyleRuleNeed, ResolveStyle, Full, Reports, AllNested, AllImported, OwnFact;
      ReportsNothing(facts, AllOfRule(limits, page, rule, parent, depth, active));
      ghost var start := Now();
      NoCost(start);
      goOn := true;
      match rule {
        case ImportRule(_, _, _, _) =>
          WalkImportedStylesheet(rule, depth, active);
          ghost var imported := Now();
          var reached := ReachedWalkLimit();
          CostsBefore(start, imported, Now(), ImportNeed(limits, page, rule, depth, active));
          goOn := !reached;
        case StyleRule(_, _, _) => goOn := WalkStyle(rule, parent, depth, active);
        case NestedRule(_, _) => goOn := WalkNestedRule(rule, parent, depth, active);
        case GroupRule(_, nested) => goOn := WalkInner(rule, nested, parent, depth, active);
        case OtherRule =>
      }
    }

    /** A style rule and then the rules inside it, unless its selector cannot be resolved or matched. */
    method WalkStyle(rule: Rule, parent: Option<JsString>, depth: nat, active: set<nat>) returns (goOn: bool)
      requires Valid() && depth <= limits.cssRuleDepth && rule.StyleRule?
      modifies this, budget
      ensures Valid() && Forward() && (!goOn ==> truncationReasons != {})
      ensures truncationReasons == {} ==> Adds(old(facts), facts, RuleFacts(limits, page, rule, parent, depth, active))
      ensures Costs(old(Now()), Now(), RuleNeed(limits, page, rule, parent, depth, active))
      ensures Reports(old(facts), facts, AllOfRule(limits, page, rule, parent, depth, active))
      decreases Room(limits, depth), 1, 2
    {
      hide Valid, AtLimit, ResolveStyle, StyleFacts, NestedFacts, Costs, Now, Then, StyleRuleNeed, NestedNeed, Full,
        Reports, AllNested, OwnFact;
      ghost var start, before := Now(), facts;
      var ok, resolved, skip := WalkStyleRule(rule.selector, rule.style, parent);
      ghost var walked, chosen := facts, ResolvedSelector(limits, rule.selector, parent);
      ghost var inner := if chosen.None? || page.matches(chosen.value).None? then []
        else AllNested(limits, page, rule.nested, chosen, depth, active);
      ReportsSome(before, walked, OwnFact(limits, page, chosen, rule.style), inner);
      ghost var mid, own := Now(), StyleRuleNeed(limits, page, rule.selector, rule.style, parent);
      if !ok {
        StyleRuleStops(start, mid, rule, parent, depth, active);
        return false;
      }
      if skip {
        NoCost(mid);
        CostsThen(start, mid, mid, own, Some(NOTHING));
        return true;
      }
      goOn := WalkInner(rule, rule.nested, resolved, depth, active);
      ReportsThen(before, walked, facts, OwnFact(limits, page, chosen, rule.style), inner);
      CostsThen(start, mid, Now(), own, NestedNeed(limits, page, rule, rule.nested, resolved, depth, active));
    }

    /** Declarations nested in a style rule and then the rules inside them. */
    method WalkNestedRule(rule: Rule, parent: Option<JsString>, depth: nat, active: set<nat>) returns (goOn: bool)
      requires Valid() && depth <= limits.cssRuleDepth && rule.NestedRule?
      modifies this, budget
      ensures Valid() && Forward() && (!goOn ==> truncationReasons != {})
      ensures truncationReasons == {} ==> Adds(old(facts), facts, RuleFacts(limits, page, rule, parent, depth, active))
      ensures Costs(old(Now()), Now(), RuleNeed(limits, page, rule, parent, depth, active))
      ensures Reports(old(facts), facts, AllOfRule(limits, page, rule, parent, depth, active))
      decreases Room(limits, depth), 1, 2
    {
      hide Valid, AtLimit, StyleFacts, NestedFacts, Costs, Now, Then, StyleNeed, NestedNeed, Full, Reports, AllNested,
        OwnFact;
      ghost var start, before := Now(), facts;
      NoCost(start);
      ReportsNothing(facts, AllOfRule(limits, page, rule, parent, depth, active));
      if parent.Some? && page.matches(parent.value).None? { return true; }
      WalkNestedDeclarations(rule.style, parent);
      ghost var mid, walked := Now(), facts;
      goOn := WalkInner(rule, rule.nested, parent, depth, active);
      ReportsThen(before, walked, facts, OwnFact(limits, page, parent, rule.style),
                  AllNested(limits, page, rule.nested, parent, depth, active));
      CostsThen(start, mid, Now(), NestedDeclarationsNeed(rule.style, parent),
                NestedNeed(limits, page, rule, rule.nested, parent, depth, active));
    }

    /** The rules inside a rule, if it has any. */
    method WalkInner(rule: Rule, nested: Option<nat>, child: Option<JsString>, depth: nat, active: set<nat>)
      returns (goOn: bool)
      requires Valid() && depth <= limits.cssRuleDepth
      modifies this, budget
      ensures Valid() && Forward() && (!goOn ==> truncationReasons != {})
      ensures truncationReasons == {} ==>
        Adds(old(facts), facts, NestedFacts(limits, page, nested, child, depth, active))
      ensures Costs(old(Now()), Now(), NestedNeed(limits, page, rule, nested, child, depth, active))
      ensures Reports(old(facts), facts, AllNested(limits, page, nested, child, depth, active))
      decreases Room(limits, depth), 1, 1
    {
      hide Valid, AtLimit, Costs, Now, RulesFacts, RulesNeed, Then, Reports, AllRules;
      NoCost(Now());
      ReportsNothing(facts, []);
      if nested.None? { return true; }
      goOn := WalkNested(rule, nested.value, child, depth, active);
    }

    ghost function NestedDeclarationsNeed(style: Style, parent: Option<JsString>): Option<Use> {
      if parent.Some? && page.matches(parent.value) == Some(true) then StyleNeed(limits, page, style) else Some(NOTHING)
    }

    /** Declarations nested in a style rule are under the selector of that rule. */
    method WalkNestedDeclarations(style: Style, parent: Option<JsString>)
      requires Valid()
      modifies this, budget
      ensures Valid() && Forward()
      ensures truncationReasons == {} ==>
        Adds(old(facts), facts, Some(if parent.Some? && page.matches(parent.value) == Some(true)
                                     then StyleFacts(limits, parent.value, style) else []))
      ensures Costs(old(Now()), Now(), NestedDeclarationsNeed(style, parent))
      ensures Reports(old(facts), facts, OwnFact(limits, page, parent, style))
    {
      hide Valid, AtLimit, StyleFacts, Costs, Now, StyleNeed, Full, Reports;
      NoCost(Now());
      ReportsNothing(facts, []);
      if parent.Some? && page.matches(parent.value) == Some(true) { ghost var _, _, _ := WalkDeclarations(parent.value, style); }
    }

    lemma StyleRuleStops(a: Moment, b: Moment, rule: Rule, parent: Option<JsString>, depth: nat, active: set<nat>)
      requires rule.StyleRule? && depth <= limits.cssRuleDepth && b.reasons != {}
      requires Costs(a, b, StyleRuleNeed(limits, page, rule.selector, rule.style, parent))
      ensures Costs(a, b, RuleNeed(limits, page, rule, parent, depth, active))
    {
      hide Costs, Then, StyleRuleNeed, NestedNeed, ResolveStyle;
      var resolved := if rule.selector.None? then None else ResolveStyle(limits.selectorLength, rule.selector.value, parent);
      CostsStop(a, b, StyleRuleNeed(limits, page, rule.selector, rule.style, parent),
                if resolved.None? || page.matches(resolved.value).None? then Some(NOTHING)
                else NestedNeed(limits, page, rule, rule.nested, resolved, depth, active));
    }

    /** The rules inside a rule, one level further in. */
    method WalkNested(rule: Rule, nested: nat, child: Option<JsString>, depth: nat,
                      active: set<nat>) returns (goOn: bool)
      requires Valid() && depth <= limits.cssRuleDepth
      modifies this, budget
      ensures Valid() && Forward() && (!goOn ==> truncationReasons != {})
      ensures truncationReasons == {} ==>
        Adds(old(facts), facts, NestedFacts(limits, page, Some(nested), child, depth, active))
      ensures Costs(old(Now()), Now(), NestedNeed(limits, page, rule, Some(nested), child, depth, active))
      ensures Reports(old(facts), facts, AllNested(limits, page, Some(nested), child, depth, active))
      decreases Room(limits, depth), 1, 0
    {
      hide Valid, AtLimit, RulesFacts, Costs, Now, Then, RulesNeed, Full, Reports, AllRules;
      ghost var start := Now();
      ReportsNothing(facts, AllNested(limits, page, Some(nested), child, depth, active));
      if depth >= limits.cssRuleDepth {
        MarkTruncation(DepthLimit);
        CostsReason(start, Now());
        return true;
      }
      NoCost(start);
      ghost var context, rest := Some(NOTHING.(bytes := ContextBytes(rule))), RulesNeed(limits, page, nested, child, depth + 1, active);
      if rule.GroupRule? {
        var paid := ConsumeWalkByteCount(rule.contextBytes);
        ghost var charged := Now();
        if !paid {
          CostsStop(start, charged, context, rest);
          return false;
        }
        var spent := ReachedWalkLimit();
        CostsBefore(start, charged, Now(), context);
        if spent {
          CostsStop(start, Now(), context, rest);
          return false;
        }
      }
      ghost var ready := Now();
      WalkRules(nested, child, depth + 1, active);
      ghost var walked := Now();
      CostsThen(start, ready, walked, context, rest);
      var over := ReachedWalkLimit();
      CostsBefore(start, walked, Now(), Then(context, rest));
      return !over;
    }

    /** A style rule: its selector resolved against its parent and matched, and its declarations. */
    method WalkStyleRule(selector: Option<JsString>, style: Style, parent: Option<JsString>)
      returns (goOn: bool, resolved: Option<JsString>, skip: bool)
      requires Valid()
      modifies this, budget
      ensures Valid() && Forward() && (!goOn ==> truncationReasons != {})
      ensures goOn ==>
        var chosen := if selector.None? then None else ResolveStyle(limits.selectorLength, selector.value, parent);
        (skip <==> chosen.None? || page.matches(chosen.value).None?) && (!skip ==> resolved == chosen)
      ensures truncationReasons == {} ==>
        var chosen := if selector.None? then None else ResolveStyle(limits.selectorLength, selector.value, parent);
        Adds(old(facts), facts, Some(if !skip && page.matches(chosen.value).value then StyleFacts(limits, chosen.value, style) else []))
      ensures Costs(old(Now()), Now(), StyleRuleNeed(limits, page, selector, style, parent))
      ensures Reports(old(facts), facts, OwnFact(limits, page, ResolvedSelector(limits, selector, parent), style))
    {
      hide ResolveStyle, Valid, AtLimit, StyleFacts, Costs, Now, Then, StyleNeed, Full, Reports;
      ReportsNothing(facts, OwnFact(limits, page, ResolvedSelector(limits, selector, parent), style));
      resolved := None;
      ghost var start := Now();
      NoCost(start);
      if selector.None? { return true, resolved, true; }
      var paid := ConsumeWalkBytes(selector.value);
      ghost var read, text := Now(), BytesNeed(page.bytes(selector.value));
      NoCost(read);
      resolved := ResolveStyle(limits.selectorLength, selector.value, parent);
      ghost var rest := if resolved.Some? && page.matches(resolved.value) == Some(true) then StyleNeed(limits, page, style) else Some(NOTHING);
      if !paid {
        CostsStop(start, read, text, rest);
        return false, resolved, false;
      }
      if resolved.None? || page.matches(resolved.value).None? {
        CostsThen(start, read, read, text, rest);
        return true, resolved, true;
      }
      if page.matches(resolved.value).value { ghost var _, _, _ := WalkDeclarations(resolved.value, style); }
      ghost var walked := Now();
      CostsThen(start, read, walked, text, rest);
      var reached := ReachedWalkLimit();
      CostsBefore(start, walked, Now(), Then(text, rest));
      return !reached, resolved, false;
    }

    lemma NoSheetLeft()
      requires stylesheetsVisited >= limits.stylesheets || budget.remainingStylesheets <= 0
      ensures Now().left.sheets <= 0
    {
    }

    method CountProbe()
      requires Valid() && runtimeBoundaryProbes < limits.stylesheets
      modifies this`runtimeBoundaryProbes
      ensures Valid() && Now() == old(Now())
    {
      runtimeBoundaryProbes := runtimeBoundaryProbes + 1;
    }

    method CloseBoundary()
      requires Valid()
      modifies this`stylesheetBoundaryClosed
      ensures Valid() && stylesheetBoundaryClosed && Now() == old(Now())
    {
      stylesheetBoundaryClosed := true;
    }

    /** At the stylesheet limit: the boundary is closed for good by the first import that is neither the tool's nor active. */
    method ProbeBoundary(target: ImportTarget, active: set<nat>)
      requires Valid() && (stylesheetsVisited >= limits.stylesheets || budget.remainingStylesheets <= 0)
      modifies this`runtimeBoundaryProbes, this`stylesheetBoundaryClosed, this`truncationReasons, this`inaccessibleStylesheets
      ensures Valid() && Forward()
      ensures old(stylesheetBoundaryClosed) ==> stylesheetBoundaryClosed
      ensures truncationReasons == {} ==> PassesBoundary(target, active)
      ensures old(Now()).left.sheets <= 0 && old(Now()).others == Now().others
      ensures Costs(old(Now()), Now(), if PassesBoundary(target, active) then Some(NOTHING) else None)
    {
      hide Valid, IsTool, Costs, Now, AtLimit, Full;
      NoSheetLeft();
      ghost var start := Now();
      NoCost(start);
      if !stylesheetBoundaryClosed && page.filtersRuntime && runtimeBoundaryProbes < limits.stylesheets {
        CountProbe();
        if target.Imported? {
          var runtime := IsRuntimeStylesheet(target.sheet);
          if runtime || target.sheet in active { return; }
        }
      }
      CloseBoundary();
      ghost var closed := Now();
      var _ := StylesheetLimitReached(true);
      CostsClosed(start, closed, Now(), PassesBoundary(target, active));
    }

    /** The import would not have been followed anyway. */
    predicate PassesBoundary(target: ImportTarget, active: set<nat>) {
      target.Imported? && IsTool(page, target.sheet).Some? && (IsTool(page, target.sheet).value || target.sheet in active)
    }

    /**
     * `walkImportedStylesheet`: an active stylesheet is not entered again, any other one uses up the budget. An import at
     * the deepest level is passed over, and no truncation is noted for it.
     */
    method WalkImportedStylesheet(rule: Rule, depth: nat, active: set<nat>)
      requires Valid() && rule.ImportRule? && depth <= limits.cssRuleDepth
      modifies this, budget
      ensures Valid() && Forward()
      ensures rule.target.Imported? && rule.target.sheet in active ==>
        stylesheetsVisited == old(stylesheetsVisited) && rulesVisited == old(rulesVisited)
      ensures depth == limits.cssRuleDepth ==>
        truncationReasons == old(truncationReasons) && stylesheetsVisited == old(stylesheetsVisited) && rulesVisited == old(rulesVisited)
      ensures truncationReasons == {} ==>
        AtLimit() || Adds(old(facts), facts, ImportFacts(limits, page, rule, depth, active))
      ensures Costs(old(Now()), Now(), ImportNeed(limits, page, rule, depth, active))
      ensures Reports(old(facts), facts, AllImported(limits, page, rule, depth, active))
      decreases Room(limits, depth), 0, 2
    {
      hide AtLimit, RulesFacts, Valid, Costs, Now, Then, ImportedNeed, Full, Reports, AllImported;
      ghost var start, need := Now(), ImportNeed(limits, page, rule, depth, active);
      ReportsNothing(facts, AllImported(limits, page, rule, depth, active));
      NoCost(start);
      if depth >= limits.cssRuleDepth { return; }
      var reached := ReachedWalkLimit();
      ghost var ready := Now();
      if reached {
        CostsHalt(start, ready, need);
        return;
      }
      var full := StylesheetLimitReached(false);
      CostsAfter(start, ready, Now(), Some(NOTHING));
      ready := Now();
      if full {
        ProbeBoundary(rule.target, active);
        if !PassesBoundary(rule.target, active) { CostsNoSheet(ready, Now(), need); }
        CostsAfter(start, ready, Now(), need);
        return;
      }
      ImportInside(rule, depth, active);
      CostsAfter(start, ready, Now(), need);
    }

    /** An import that is not the deepest possible, with room for a stylesheet. */
    method ImportInside(rule: Rule, depth: nat, active: set<nat>)
      requires Valid() && rule.ImportRule? && depth < limits.cssRuleDepth
      requires stylesheetsVisited < limits.stylesheets && budget.remainingStylesheets > 0
      modifies this, budget
      ensures Valid() && Forward()
      ensures rule.target.Imported? && rule.target.sheet in active ==>
        stylesheetsVisited == old(stylesheetsVisited) && rulesVisited == old(rulesVisited)
      ensures truncationReasons == {} ==>
        AtLimit() || Adds(old(facts), facts, ImportFacts(limits, page, rule, depth, active))
      ensures Costs(old(Now()), Now(), ImportNeed(limits, page, rule, depth, active))
      ensures Reports(old(facts), facts, AllImported(limits, page, rule, depth, active))
      decreases Room(limits, depth), 0, 1
    {
      hide AtLimit, RulesFacts, Valid, Costs, Now, Then, ImportedNeed, Full, Reports, AllImported;
      ghost var start := Now();
      NoCost(start);
      ReportsNothing(facts, AllImported(limits, page, rule, depth, active));
      if rule.target.NoStylesheet? { return; }
      if rule.target.Unreadable? {
        ConsumeStylesheetAuthority();
        ReportInaccessible();
        return;
      }
      var sheet := rule.target.sheet;
      var runtime := IsRuntimeStylesheet(sheet);
      if runtime || sheet in active { return; }
      ghost var ready := Now();
      FollowImport(rule, depth, active);
      CostsAfter(start, ready, Now(), ImportNeed(limits, page, rule, depth, active));
    }

    /** An import that is neither the tool's nor active already. */
    method FollowImport(rule: Rule, depth: nat, active: set<nat>)
      requires Valid() && rule.ImportRule? && depth < limits.cssRuleDepth
      requires rule.target.Imported? && rule.target.sheet !in active && IsTool(page, rule.target.sheet) == Some(false)
      requires stylesheetsVisited < limits.stylesheets && budget.remainingStylesheets > 0
      modifies this, budget
      ensures Valid() && Forward()
      ensures truncationReasons == {} ==>
        AtLimit() || Adds(old(facts), facts, ImportFacts(limits, page, rule, depth, active))
      ensures Costs(old(Now()), Now(), ImportNeed(limits, page, rule, depth, active))
      ensures Reports(old(facts), facts, AllImported(limits, page, rule, depth, active))
      decreases Room(limits, depth), 0, 0
    {
      hide AtLimit, Valid, Costs, Now, Then, ImportedNeed, Full, RulesFacts, Reports, AllImported;
      ghost var start := Now();
      ConsumeStylesheetAuthority();
      ghost var entered := Now();
      ReadImported(rule, depth, active);
      CostsThen(start, entered, Now(), Some(NOTHING.(sheets := 1)), ImportedNeed(limits, page, rule, depth, active));
    }

    /** The address, the media and the rules of an import that is followed. */
    method ReadImported(rule: Rule, depth: nat, active: set<nat>)
      requires Valid() && rule.ImportRule? && depth < limits.cssRuleDepth
      requires rule.target.Imported? && rule.target.sheet !in active && IsTool(page, rule.target.sheet) == Some(false)
      modifies this, budget
      ensures Valid() && Forward()
      ensures truncationReasons == {} ==>
        AtLimit() || Adds(old(facts), facts, ImportFacts(limits, page, rule, depth, active))
      ensures Costs(old(Now()), Now(), ImportedNeed(limits, page, rule, depth, active))
      ensures Reports(old(facts), facts, AllImported(limits, page, rule, depth, active))
      decreases Room(limits, depth + 1), 6
    {
      hide AtLimit, RulesFacts, ImportFacts, Valid, Costs, Now, Then, RulesNeed, Full, Reports, AllRules;
      var sheet := rule.target.sheet;
      ReportsNothing(facts, AllImported(limits, page, rule, depth, active));
      ghost var start := Now();
      NoCost(start);
      FollowedFacts(rule, depth, active);
      if rule.urlFails {
        ReportInaccessible();
        return;
      }
      if rule.url.None? { return; }
      var rules := page.rulesOf(sheet);
      ghost var url, rest := BytesNeed(page.bytes(rule.url.value)),
                             if rules.None? then Some(NOTHING) else RulesNeed(limits, page, rules.value, None, depth + 1, active + {sheet});
      var paid := ConsumeWalkBytes(rule.url.value);
      ghost var named := Now();
      if !paid {
        CostsStop(start, named, url, Then(Some(MediaNeed(rule)), rest));
        return;
      }
      paid := PayForMedia(rule);
      ghost var ready := Now();
      NoCost(ready);
      if !paid {
        CostsStop(named, ready, Some(MediaNeed(rule)), rest);
        CostsThen(start, named, ready, url, Then(Some(MediaNeed(rule)), rest));
        return;
      }
      if rules.None? {
        ReportInaccessible();
      } else {
        EnterImported(rules.value, depth + 1, active + {sheet});
      }
      CostsThen(named, ready, Now(), Some(MediaNeed(rule)), rest);
      CostsThen(start, named, Now(), url, Then(Some(MediaNeed(rule)), rest));
    }

    lemma FollowedFacts(rule: Rule, depth: nat, active: set<nat>)
      requires rule.ImportRule? && depth < limits.cssRuleDepth
      requires rule.target.Imported? && rule.target.sheet !in active && IsTool(page, rule.target.sheet) == Some(false)
      ensures ImportFacts(limits, page, rule, depth, active)
           == if rule.urlFails || rule.url.None? || page.rulesOf(rule.target.sheet).None? then Some([])
              else RulesFacts(limits, page, page.rulesOf(rule.target.sheet).value, None, depth + 1, active + {rule.target.sheet})
    {
    }

    /** The media of an import, if it has any, count like the context of a group. */
    method PayForMedia(rule: Rule) returns (paid: bool)
      requires Valid() && rule.ImportRule?
      modifies this`truncationReasons, budget`remainingBytes
      ensures Valid() && Forward() && (!paid ==> truncationReasons != {})
      ensures Costs(old(Now()), Now(), Some(MediaNeed(rule)))
    {
      hide Valid, Costs, Now, AtLimit, Full;
      ghost var start := Now();
      NoCost(start);
      if rule.mediaBytes.None? { return true; }
      paid := ConsumeWalkByteCount(rule.mediaBytes.value);
      if !paid { return; }
      ghost var charged := Now();
      var reached := ReachedWalkLimit();
      CostsBefore(start, charged, Now(), Some(MediaNeed(rule)));
      paid := !reached;
    }

    method EnterImported(list: nat, depth: nat, active: set<nat>)
      requires Valid() && 0 < depth <= limits.cssRuleDepth
      modifies this, budget
      ensures Valid() && Forward()
      ensures truncationReasons == {} ==>
        AtLimit() || Adds(old(facts), facts, RulesFacts(limits, page, list, None, depth, active))
      ensures Costs(old(Now()), Now(), RulesNeed(limits, page, list, None, depth, active))
      ensures Reports(old(facts), facts, AllRules(limits, page, list, None, depth, active))
      decreases Room(limits, depth), 5
    {
      WalkRules(list, None, depth, active);
    }

    /** The stylesheets of the document or the adopted ones, pulled from a list that may not end. */
    method WalkRootStylesheets(sheets: nat -> Option<nat>)
      requires Valid()
      modifies this, budget
      ensures Valid() && Forward()
      ensures truncationReasons == {} ==> !AtLimit() && Adds(old(facts), facts, RootFacts(limits, page, sheets, 0))
      ensures Costs(old(Now()), Now(), RootNeed(limits, page, sheets, 0))
      ensures Reports(old(facts), facts, AllOfRoot(limits, page, sheets, 0))
    {
      hide Valid, AtLimit, SheetFacts, Costs, Now, Then, SheetNeed, Full, ToGo, Adds, Reports, ReportsUpTo,
        AllOfSheet;
      ghost var all := AllOfRoot(limits, page, sheets, 0);
      UpToAll(facts, all);
      ghost var start, done := Now(), Some(NOTHING);
      NoCost(start);
      ThenLaws(RootNeed(limits, page, sheets, 0), None, None);
      var rawPulls := 0;
      AllToGo(facts, RootFacts(limits, page, sheets, 0));
      while rawPulls < limits.stylesheets * 2
        invariant Valid() && Forward() && 0 <= rawPulls
        invariant truncationReasons == {} && !AtLimit() ==>
                    ToGo(old(facts), facts, RootFacts(limits, page, sheets, 0), RootFacts(limits, page, sheets, rawPulls))
        invariant Costs(start, Now(), done)
        invariant RootNeed(limits, page, sheets, 0) == Then(done, RootNeed(limits, page, sheets, rawPulls))
        invariant Reports(old(facts), facts, all)
        invariant ReportsUpTo(old(facts), facts, all, AllOfRoot(limits, page, sheets, rawPulls))
        decreases limits.stylesheets * 2 - rawPulls
      {
        ghost var at := Now();
        var ready := ReadyToPull();
        CostsBefore(start, at, Now(), done);
        if !ready {
          CostsStop(start, Now(), done, RootNeed(limits, page, sheets, rawPulls));
          return;
        }
        at := Now();
        NoCost(at);
        var sheet := sheets(rawPulls);
        if sheet.None? {
          NoneToGo(old(facts), facts, RootFacts(limits, page, sheets, 0));
          CostsThen(start, at, at, done, Some(NOTHING));
          return;
        }
        ghost var before, one, rest := facts, SheetNeed(limits, page, sheet.value), RootNeed(limits, page, sheets, rawPulls + 1);
        var goOn := WalkRootStylesheet(sheet.value);
        UpToThen(old(facts), before, facts, all, AllOfSheet(limits, page, sheet.value),
                 AllOfRoot(limits, page, sheets, rawPulls + 1));
        CostsThen(start, at, Now(), done, one);
        ThenLaws(done, one, rest);
        done := Then(done, one);
        if !goOn {
          CostsStop(start, Now(), done, rest);
          return;
        }
        LessToGo(old(facts), before, facts, RootFacts(limits, page, sheets, 0), SheetFacts(limits, page, sheet.value),
                 RootFacts(limits, page, sheets, rawPulls + 1));
        rawPulls := rawPulls + 1;
      }
      ghost var at := Now();
      MarkTruncation(StylesheetsLimit);
      CostsReason(at, Now());
      CostsThen(start, at, Now(), done, None);
    }

    /** Before a stylesheet is pulled; without a filter the bound on stylesheets counts already here. */
    method ReadyToPull() returns (ready: bool)
      requires Valid()
      modifies this`truncationReasons
      ensures Valid() && Forward() && (if ready then !AtLimit() else truncationReasons != {})
      ensures Costs(old(Now()), Now(), Some(NOTHING))
    {
      hide Valid, AtLimit, Costs, Now, Full;
      ghost var start := Now();
      var reached := ReachedWalkLimit();
      ghost var checked := Now();
      if reached { return false; }
      if !page.filtersRuntime {
        var full := StylesheetLimitReached(true);
        CostsAfter(start, checked, Now(), Some(NOTHING));
        if full { return false; }
      }
      return true;
    }

    method WalkRootStylesheet(sheet: nat) returns (goOn: bool)
      requires Valid()
      modifies this, budget
      ensures Valid() && Forward() && (!goOn ==> truncationReasons != {})
      ensures truncationReasons == {} ==> AtLimit() || Adds(old(facts), facts, SheetFacts(limits, page, sheet))
      ensures Costs(old(Now()), Now(), SheetNeed(limits, page, sheet))
      ensures Reports(old(facts), facts, AllOfSheet(limits, page, sheet))
    {
      hide Valid, AtLimit, RulesFacts, Costs, Now, Then, RulesNeed, Full, Reports, AllOfSheet;
      ReportsNothing(facts, AllOfSheet(limits, page, sheet));
      ghost var start := Now();
      var runtime := IsRuntimeStylesheet(sheet);
      if runtime { return true; }
      ghost var ready := Now();
      var full := StylesheetLimitReached(true);
      CostsAfter(start, ready, Now(), Some(NOTHING));
      ready := Now();
      if full {
        CostsHalt(start, ready, SheetNeed(limits, page, sheet));
        return false;
      }
      ConsumeStylesheetAuthority();
      ghost var entered := Now();
      goOn := ReadRoot(sheet);
      CostsThen(ready, entered, Now(), Some(NOTHING.(sheets := 1)), ReadNeedOfRoot(sheet));
      CostsAfter(start, ready, Now(), SheetNeed(limits, page, sheet));
    }

    /** What a stylesheet costs once it is counted. */
    ghost function ReadNeedOfRoot(sheet: nat): Option<Use> {
      var url := page.urlOf(sheet);
      if url.None? || url.value.None? then Some(NOTHING)
      else Then(BytesNeed(page.bytes(url.value.value)),
                if page.rulesOf(sheet).None? then Some(NOTHING)
                else RulesNeed(limits, page, page.rulesOf(sheet).value, None, 0, {sheet}))
    }

    /** The address and the rules of a stylesheet that is not the tool's. */
    method ReadRoot(sheet: nat) returns (goOn: bool)
      requires Valid() && IsTool(page, sheet) == Some(false)
      modifies this, budget
      ensures Valid() && Forward() && (!goOn ==> truncationReasons != {})
      ensures truncationReasons == {} ==> AtLimit() || Adds(old(facts), facts, SheetFacts(limits, page, sheet))
      ensures Costs(old(Now()), Now(), ReadNeedOfRoot(sheet))
      ensures Reports(old(facts), facts, AllOfSheet(limits, page, sheet))
    {
      hide Valid, AtLimit, RulesFacts, Costs, Now, Then, RulesNeed, Full, Reports, AllRules;
      ReportsNothing(facts, AllOfSheet(limits, page, sheet));
      ghost var start := Now();
      NoCost(start);
      var url := page.urlOf(sheet);
      if url.None? || url.value.None? { return true; }
      var rules := page.rulesOf(sheet);
      ghost var text, rest := BytesNeed(page.bytes(url.value.value)),
                              if rules.None? then Some(NOTHING) else RulesNeed(limits, page, rules.value, None, 0, {sheet});
      var paid := ConsumeWalkBytes(url.value.value);
      ghost var named := Now();
      NoCost(named);
      if !paid {
        CostsStop(start, named, text, rest);
        return false;
      }
      if rules.None? {
        ReportInaccessible();
      } else {
        WalkRules(rules.value, None, 0, {sheet});
      }
      CostsThen(start, named, Now(), text, rest);
      return true;
    }

    /**
     * `walkDocument`. Every walk reports only facts of the page, in order, each with some of its first longhands. One that
     * ends without a reason reported every fact of the document's stylesheets and then every
     * fact of the adopted ones, whatever the other walks took from the budget; it visited exactly the rules they have, and
     * fewer than there was room for. One that starts with more than they cost, while no other walk spends, gives no reason.
     * These are all facts of the page exactly when no import is passed over at the deepest level. If only the rules can run
     * short, a reason is given exactly when there are no more of them than the page has, or fewer than a list claims.
     */
    method WalkDocument(regular: nat -> Option<nat>, adopted: Option<nat -> Option<nat>>)
      requires Valid()
      modifies this, budget
      ensures Valid() && Forward()
      ensures rulesVisited <= initial.rules && stylesheetsVisited <= initial.stylesheets
      ensures recordsEmitted <= initial.declarations
      ensures truncationReasons == {} ==>
        !AtLimit() && Adds(old(facts), facts, DocumentFacts(limits, page, regular, adopted))
      ensures truncationReasons == {} ==>
        (Adds(old(facts), facts, CssBeyond.WholeDocument(limits, page, limits.cssRuleDepth, regular, adopted))
         <==> !CssBeyond.BeyondDocument(limits, page, regular, adopted))
      ensures Reports(old(facts), facts, AllOfDocument(limits, page, regular, adopted))
      ensures AllShown(limits, page, readings, emissions, facts)
      ensures Costs(old(Now()), Now(), DocumentNeed(limits, page, regular, adopted))
      ensures truncationReasons == {} ==>
        && DocumentNeed(limits, page, regular, adopted).Some?
        && EnoughRules(old(Now()).left, DocumentNeed(limits, page, regular, adopted).value)
      ensures OnlyRulesShort(old(Now()), Now(), DocumentNeed(limits, page, regular, adopted)) ==>
        (truncationReasons != {} <==> !EnoughRules(old(Now()).left, DocumentNeed(limits, page, regular, adopted).value))
    {
      hide CssBeyond.WholeDocument, CssBeyond.BeyondDocument, RootFacts, Valid, AtLimit, Costs, Now, Then, RootNeed,
        Full, Reports, AllOfRoot, AllShown, EnoughRules, OnlyRulesShort;
      ghost var before, more := facts, if adopted.None? then [] else AllOfRoot(limits, page, adopted.value, 0);
      ghost var start, rest := Now(), if adopted.None? then Some(NOTHING) else RootNeed(limits, page, adopted.value, 0);
      WalkRootStylesheets(regular);
      ghost var mid, reported := Now(), facts;
      ReportsSome(before, facts, AllOfRoot(limits, page, regular, 0), more);
      var reached := ReachedWalkLimit();
      CostsBefore(start, mid, Now(), RootNeed(limits, page, regular, 0));
      mid := Now();
      NoCost(mid);
      if reached {
        CostsStop(start, mid, RootNeed(limits, page, regular, 0), rest);
      } else {
        if adopted.Some? {
          WalkRootStylesheets(adopted.value);
          ReportsThen(before, reported, facts, AllOfRoot(limits, page, regular, 0), more);
        }
        CostsThen(start, mid, Now(), RootNeed(limits, page, regular, 0), rest);
      }
      WithinInitial();
      ReasonForRules(start, Now(), DocumentNeed(limits, page, regular, adopted));
      if truncationReasons == {} { WholeOrNot(old(facts), facts, regular, adopted); }
    }

    lemma WholeOrNot(before: seq<Fact>, after: seq<Fact>, regular: nat -> Option<nat>,
        adopted: Option<nat -> Option<nat>>)
      requires Adds(before, after, DocumentFacts(limits, page, regular, adopted))
      ensures Adds(before, after, CssBeyond.WholeDocument(limits, page, limits.cssRuleDepth, regular, adopted))
         <==> !CssBeyond.BeyondDocument(limits, page, regular, adopted)
    {
      hide CssBeyond.WholeDocument, CssBeyond.BeyondDocument, DocumentFacts;
      CssBeyond.WholeExactly(limits, page, regular, adopted);
      if CssBeyond.BeyondDocument(limits, page, regular, adopted) { CssBeyond.BeyondUnknown(limits, page, regular, adopted); }
    }

    /** When only the rules can run short, a reason is given exactly when they do. */
    lemma ReasonForRules(a: Moment, b: Moment, need: Option<Use>)
      requires Costs(a, b, need) && (b.reasons == {} ==> !Full(b))
      ensures b.reasons == {} ==> need.Some? && EnoughRules(a.left, need.value)
      ensures OnlyRulesShort(a, b, need) ==> (b.reasons != {} <==> !EnoughRules(a.left, need.value))
    {
    }

    lemma WithinInitial()
      requires Valid()
      ensures rulesVisited <= initial.rules && stylesheetsVisited <= initial.stylesheets && recordsEmitted <= initial.declarations
      ensures AllShown(limits, page, readings, emissions, facts)
    {
    }
  }

  /** What was reported since is exactly this. */
  ghost predicate Adds(before: seq<Fact>, after: seq<Fact>, more: Option<seq<Fact>>) {
    more.Some? && after == before + more.value
  }

  /** What was reported since, and what is still to go, make up the whole. */
  ghost predicate ToGo(before: seq<Fact>, now: seq<Fact>, whole: Option<seq<Fact>>, rest: Option<seq<Fact>>) {
    before <= now && if rest.Some? then whole == Some(now[|before|..] + rest.value) else whole.None?
  }

  lemma NextFacts(limits: WalkLimits, page: Page, list: nat, index: nat, parent: Option<JsString>, depth: nat,
                  active: set<nat>)
    requires depth <= limits.cssRuleDepth
    ensures FactsFrom(limits, page, list, index, parent, depth, active)
         == if page.lists(list).at(index).None? then Some([])
            else if index >= limits.cssRules then None
            else Both(RuleFacts(limits, page, page.lists(list).at(index).value, parent, depth, active),
                      FactsFrom(limits, page, list, index + 1, parent, depth, active))
  {
  }

  lemma AllToGo(now: seq<Fact>, whole: Option<seq<Fact>>)
    ensures ToGo(now, now, whole, whole)
  {
    if whole.Some? { assert now[|now|..] + whole.value == whole.value; }
  }

  lemma LessToGo(before: seq<Fact>, mid: seq<Fact>, now: seq<Fact>, whole: Option<seq<Fact>>, first: Option<seq<Fact>>,
                 rest: Option<seq<Fact>>)
    ensures ToGo(before, mid, whole, Both(first, rest)) && Adds(mid, now, first) ==> ToGo(before, now, whole, rest)
  {
    if ToGo(before, mid, whole, Both(first, rest)) && Adds(mid, now, first) && rest.Some? {
      assert mid[|before|..] + (first.value + rest.value) == now[|before|..] + rest.value;
    }
  }

  lemma NoneToGo(before: seq<Fact>, now: seq<Fact>, whole: Option<seq<Fact>>)
    ensures ToGo(before, now, whole, Some([])) ==> Adds(before, now, whole)
  {
    if ToGo(before, now, whole, Some([])) { assert before + (now[|before|..] + []) == now; }
  }

  /** Every emission presents its fact, and every fact has its emission. */
  ghost predicate Faithful(emissions: seq<Emission>, facts: seq<Fact>) {
    |emissions| == |facts| && forall i :: 0 <= i < |facts| ==> Presents(emissions[i], facts[i])
  }

  /**
   * A page whose only fact is behind an import at the deepest level: the walk reports nothing and gives no reason, and one
   * level deeper the fact is there.
   */
  method LostWithoutAReason(limits: WalkLimits, style: Style, expand: Expander)
    returns (reasons: set<Truncation>, emissions: seq<Emission>)
    requires limits.cssRules > limits.cssRuleDepth + 1 && limits.stylesheets >= 2 && limits.factsPerTarget >= 1
    requires limits.selectorLength >= 1 && style.length.Some?
    ensures reasons == {} && emissions == []
    ensures var page, sheets := CssBeyond.LostPage(limits, style, expand), CssBeyond.OnlyFirst();
      CssBeyond.WholeDocument(limits, page, limits.cssRuleDepth + 1, sheets, None) == Some(StyleFacts(limits, [97], style))
      && |StyleFacts(limits, [97], style)| == 1
  {
    hide CssBeyond.WholeDocument, CssBeyond.BeyondDocument, DocumentFacts, DocumentNeed, CssBeyond.LostPage;
    var page := CssBeyond.LostPage(limits, style, expand);
    var budget := new CssRuleWalkBudget(2, limits.cssRuleDepth + 2, 1, 1);
    var walk := new CssRuleWalk(limits, page, budget);
    CssBeyond.LostFact(limits, style, expand);
    walk.WalkDocument(CssBeyond.OnlyFirst(), None);
    assert walk.facts == [];
    return walk.truncationReasons, walk.emissions;
  }

  /** A page with exactly as many rules as the limit, none of which holds a fact: nothing is left out, and a reason is given. */
  method ReasonWithoutALoss(limits: WalkLimits, expand: Expander, stylesheets: nat, rules: nat, declarations: nat,
      bytes: nat)
    returns (reasons: set<Truncation>)
    requires limits.stylesheets >= 1
    ensures reasons != {}
    ensures DocumentFacts(limits, CssBeyond.FullPage(limits, expand), CssBeyond.OnlyFirst(), None) == Some([])
  {
    hide CssBeyond.WholeDocument, CssBeyond.BeyondDocument, DocumentFacts, DocumentNeed, CssBeyond.FullPage;
    var budget := new CssRuleWalkBudget(stylesheets, rules, declarations, bytes);
    var walk := new CssRuleWalk(limits, CssBeyond.FullPage(limits, expand), budget);
    CssBeyond.FullNeed(limits, expand);
    walk.WalkDocument(CssBeyond.OnlyFirst(), None);
    return walk.truncationReasons;
  }
}
