/** A rule's declarations as it spells them, with the longhands each of them accounts for. */
module AuthoredReading {
  import opened Options
  import opened JsText
  import opened AuthoredDeclarations

  datatype Longhand = Longhand(property: JsString, value: JsString, important: bool)

  /** A declaration with the properties and values of its longhands, which share its importance. */
  datatype Authored = Authored(declaration: Declaration, longhands: seq<(JsString, JsString)>)

  type Expander = (JsString, JsString) -> Option<seq<JsString>>

  /** `coveredLonghands`: the longhand itself, or what the browser expands the shorthand to. */
  function Covered(d: Declaration, known: set<JsString>, expand: Expander): Option<seq<JsString>> {
    if d.property in known then Some([d.property])
    else
      var expansion := expand(d.property, d.value);
      if expansion.Some? && expansion.value != [] then expansion else None
  }

  /** The longhands a declaration stands for, with its importance. */
  function Claims(members: seq<JsString>, important: bool): (r: seq<(JsString, bool)>)
    ensures |r| == |members| && forall i :: 0 <= i < |members| ==> r[i] == (members[i], important)
  {
    seq(|members|, i requires 0 <= i < |members| => (members[i], important))
  }

  /** Everything a list stands for, in order; absent when one declaration stands for nothing known. */
  function AllClaims(parsed: seq<Declaration>, known: set<JsString>, expand: Expander): Option<seq<(JsString, bool)>> {
    if parsed == [] then Some([])
    else
      var d := parsed[|parsed| - 1];
      var before, members := AllClaims(parsed[..|parsed| - 1], known, expand), Covered(d, known, expand);
      if before.None? || members.None? then None else Some(before.value + Claims(members.value, d.important))
  }

  function Owned(longhands: seq<Longhand>): (r: seq<(JsString, bool)>)
    ensures |r| == |longhands| && forall i :: 0 <= i < |r| ==> r[i] == (longhands[i].property, longhands[i].important)
  {
    seq(|longhands|, i requires 0 <= i < |longhands| => (longhands[i].property, longhands[i].important))
  }

  ghost predicate NoRepeats(longhands: seq<Longhand>) {
    forall i, j :: 0 <= i < j < |longhands| ==> longhands[i].property != longhands[j].property
  }

  function Properties(longhands: seq<Longhand>): set<JsString> {
    set i | 0 <= i < |longhands| :: longhands[i].property
  }

  /** Every claim is one of the longhands with its importance, and no longhand is claimed twice. */
  ghost predicate Fits(longhands: seq<Longhand>, claims: seq<(JsString, bool)>) {
    && (forall i :: 0 <= i < |claims| ==> claims[i] in Owned(longhands))
    && (forall i, j :: 0 <= i < j < |claims| ==> claims[i].0 != claims[j].0)
  }

  /** The list and the longhands account for each other: every longhand is claimed once, with its importance. */
  ghost predicate Accounts(longhands: seq<Longhand>, parsed: seq<Declaration>, expand: Expander) {
    && parsed != [] && longhands != [] && NoRepeats(longhands)
    && var claims := AllClaims(parsed, Properties(longhands), expand);
       claims.Some? && Fits(longhands, claims.value) && forall o :: o in Owned(longhands) ==> o in claims.value
  }

  /** The longhands that some declarations list, with their importance. */
  function Listed(ds: seq<Authored>): seq<Longhand> {
    if ds == [] then []
    else Listed(ds[..|ds| - 1]) + ListedBy(ds[|ds| - 1])
  }

  function ListedBy(d: Authored): (r: seq<Longhand>)
    ensures |r| == |d.longhands|
    ensures forall i :: 0 <= i < |r| ==> r[i] == Longhand(d.longhands[i].0, d.longhands[i].1, d.declaration.important)
  {
    seq(|d.longhands|, i requires 0 <= i < |d.longhands| => Longhand(d.longhands[i].0, d.longhands[i].1, d.declaration.important))
  }

  /** Every longhand is listed once, with its value and importance, and nothing else is. */
  ghost predicate Partitions(ds: seq<Authored>, longhands: seq<Longhand>) {
    NoRepeats(Listed(ds)) && forall x :: x in Listed(ds) <==> x in longhands
  }

  // ---- Claims against the table of longhands ----

  /** The longhands by property. */
  ghost predicate Indexes(byProperty: map<JsString, Longhand>, longhands: seq<Longhand>) {
    && byProperty.Keys == Properties(longhands)
    && (forall l :: l in longhands ==> l.property in byProperty && byProperty[l.property] == l)
    && (forall p :: p in byProperty ==> byProperty[p].property == p && byProperty[p] in longhands)
  }

  lemma OwnedByTable(longhands: seq<Longhand>, byProperty: map<JsString, Longhand>, c: (JsString, bool))
    requires Indexes(byProperty, longhands)
    ensures c in Owned(longhands) <==> c.0 in byProperty && byProperty[c.0].important == c.1
  {
    if c in Owned(longhands) {
      var i :| 0 <= i < |longhands| && Owned(longhands)[i] == c;
      assert longhands[i] in longhands;
    }
    if c.0 in byProperty && byProperty[c.0].important == c.1 {
      var i :| 0 <= i < |longhands| && longhands[i] == byProperty[c.0];
      assert Owned(longhands)[i] == c;
    }
  }

  /** The claims fit the longhands, and `claimed` is what they name. */
  ghost predicate Tallies(byProperty: map<JsString, Longhand>, claims: seq<(JsString, bool)>, claimed: set<JsString>) {
    && (forall i :: 0 <= i < |claims| ==> claims[i].0 in byProperty && byProperty[claims[i].0].important == claims[i].1)
    && (forall i, j :: 0 <= i < j < |claims| ==> claims[i].0 != claims[j].0)
    && (forall x :: x in claimed <==> exists i :: 0 <= i < |claims| && claims[i].0 == x)
  }

  lemma TallyFits(longhands: seq<Longhand>, byProperty: map<JsString, Longhand>, claims: seq<(JsString, bool)>,
                  claimed: set<JsString>)
    requires Indexes(byProperty, longhands) && Tallies(byProperty, claims, claimed)
    ensures Fits(longhands, claims) && claimed <= byProperty.Keys
  {
    forall i | 0 <= i < |claims| ensures claims[i] in Owned(longhands) { OwnedByTable(longhands, byProperty, claims[i]); }
  }

  lemma SameSize<T>(a: set<T>, b: set<T>)
    requires a <= b && |a| == |b|
    ensures a == b
  {
    assert b == a + (b - a);
  }

  /** Once as many longhands are claimed as there are, all of them are. */
  lemma AllClaimed(longhands: seq<Longhand>, byProperty: map<JsString, Longhand>, claims: seq<(JsString, bool)>,
                   claimed: set<JsString>)
    requires Indexes(byProperty, longhands) && Tallies(byProperty, claims, claimed)
    ensures |claimed| == |byProperty| <==> forall o :: o in Owned(longhands) ==> o in claims
  {
    TallyFits(longhands, byProperty, claims, claimed);
    if |claimed| == |byProperty| {
      SameSize(claimed, byProperty.Keys);
      forall o | o in Owned(longhands) ensures o in claims {
        OwnedByTable(longhands, byProperty, o);
        var i :| 0 <= i < |claims| && claims[i].0 == o.0;
        assert claims[i] == o;
      }
    } else if forall o :: o in Owned(longhands) ==> o in claims {
      NoneLeft(longhands, byProperty, claims, claimed);
    }
  }

  lemma NoneLeft(longhands: seq<Longhand>, byProperty: map<JsString, Longhand>, claims: seq<(JsString, bool)>,
                 claimed: set<JsString>)
    requires Indexes(byProperty, longhands) && Tallies(byProperty, claims, claimed) && claimed <= byProperty.Keys
    requires forall o :: o in Owned(longhands) ==> o in claims
    ensures claimed == byProperty.Keys
  {
    forall p | p in byProperty ensures p in claimed {
      var o := (p, byProperty[p].important);
      OwnedByTable(longhands, byProperty, o);
      var i :| 0 <= i < |claims| && claims[i] == o;
      assert claims[i].0 == p;
    }
  }

  /** What some claims stand for. */
  ghost function Values(byProperty: map<JsString, Longhand>, claims: seq<(JsString, bool)>): seq<Longhand>
    requires forall i :: 0 <= i < |claims| ==> claims[i].0 in byProperty
  {
    seq(|claims|, i requires 0 <= i < |claims| => byProperty[claims[i].0])
  }

  lemma ValuesPartition(longhands: seq<Longhand>, byProperty: map<JsString, Longhand>, claims: seq<(JsString, bool)>,
                        claimed: set<JsString>,
                        ds: seq<Authored>)
    requires Indexes(byProperty, longhands) && Tallies(byProperty, claims, claimed)
    requires Listed(ds) == Values(byProperty, claims) && forall o :: o in Owned(longhands) ==> o in claims
    ensures Partitions(ds, longhands)
  {
    var values := Values(byProperty, claims);
    forall l | l in longhands ensures l in values {
      OwnedByTable(longhands, byProperty, (l.property, l.important));
      var i :| 0 <= i < |claims| && claims[i] == (l.property, l.important);
      assert values[i] == l;
    }
    forall i | 0 <= i < |values| ensures values[i] in longhands { assert claims[i].0 in byProperty; }
  }

  // ---- What rules an account out ----

  lemma {:induction false} ClaimsGrow(parsed: seq<Declaration>, n: nat, known: set<JsString>, expand: Expander)
    requires n <= |parsed| && AllClaims(parsed, known, expand).Some?
    ensures AllClaims(parsed[..n], known, expand).Some?
    ensures AllClaims(parsed[..n], known, expand).value <= AllClaims(parsed, known, expand).value
    decreases |parsed|
  {
    if n == |parsed| {
      assert parsed[..n] == parsed;
    } else {
      ClaimsGrow(parsed[..|parsed| - 1], n, known, expand);
      assert parsed[..|parsed| - 1][..n] == parsed[..n];
    }
  }

  /** A claim that does not fit, or a declaration that stands for nothing, rules the whole account out. */
  lemma Refused(longhands: seq<Longhand>, parsed: seq<Declaration>, i: nat, expand: Expander)
    requires i < |parsed|
    requires var claims := AllClaims(parsed[..i + 1], Properties(longhands), expand); claims.None? || !Fits(longhands, claims.value)
    ensures !Accounts(longhands, parsed, expand)
  {
    var known := Properties(longhands);
    if Accounts(longhands, parsed, expand) {
      ClaimsGrow(parsed, i + 1, known, expand);
      FitsPrefix(longhands, AllClaims(parsed[..i + 1], known, expand).value, AllClaims(parsed, known, expand).value);
    }
  }

  lemma FitsPrefix(longhands: seq<Longhand>, a: seq<(JsString, bool)>, b: seq<(JsString, bool)>)
    requires a <= b && Fits(longhands, b)
    ensures Fits(longhands, a)
  {
  }

  // ---- The reading ----

  /** The table of a longer list, when its last longhand is a new one. */
  lemma IndexSnoc(byProperty: map<JsString, Longhand>, longhands: seq<Longhand>, l: Longhand)
    requires NoRepeats(longhands) && Indexes(byProperty, longhands) && l.property !in byProperty
    ensures NoRepeats(longhands + [l]) && Indexes(byProperty[l.property := l], longhands + [l])
  {
    hide Properties;
    PropertiesSnoc(longhands, l);
    var longer := longhands + [l];
    assert longer[|longhands|] == l && forall i :: 0 <= i < |longhands| ==> longer[i] == longhands[i];
    assert forall i :: 0 <= i < |longhands| ==> longhands[i].property in byProperty;
  }

  lemma PropertiesSnoc(longhands: seq<Longhand>, l: Longhand)
    ensures Properties(longhands + [l]) == Properties(longhands) + {l.property}
  {
    var longer := longhands + [l];
    assert longer[|longhands|] == l && forall i :: 0 <= i < |longhands| ==> longer[i] == longhands[i];
  }

  /** A second longhand of a property is a repetition. */
  lemma Repeated(byProperty: map<JsString, Longhand>, longhands: seq<Longhand>, l: Longhand, more: seq<Longhand>)
    requires Indexes(byProperty, longhands) && l.property in byProperty
    ensures !NoRepeats(longhands + [l] + more)
  {
    var j :| 0 <= j < |longhands| && longhands[j].property == l.property;
    var longer := longhands + [l] + more;
    assert longer[j] == longhands[j] && longer[|longhands|] == l;
  }

  method Index(longhands: seq<Longhand>) returns (r: Option<map<JsString, Longhand>>)
    ensures r.Some? <==> NoRepeats(longhands)
    ensures r.Some? ==> Indexes(r.value, longhands)
  {
    hide NoRepeats, Indexes;
    var byProperty: map<JsString, Longhand> := map[];
    NothingIndexed();
    for i := 0 to |longhands|
      invariant NoRepeats(longhands[..i]) && Indexes(byProperty, longhands[..i])
    {
      var longhand := longhands[i];
      assert longhands[..i + 1] == longhands[..i] + [longhand];
      if longhand.property in byProperty {
        Repeated(byProperty, longhands[..i], longhand, longhands[i + 1..]);
        assert longhands == longhands[..i] + [longhand] + longhands[i + 1..];
        return None;
      }
      IndexSnoc(byProperty, longhands[..i], longhand);
      byProperty := byProperty[longhand.property := longhand];
    }
    assert longhands[..|longhands|] == longhands;
    return Some(byProperty);
  }

  lemma NothingIndexed()
    ensures NoRepeats([]) && Indexes(map[], [])
  {
  }

  /** One more claim, if it fits. */
  lemma OneMore(longhands: seq<Longhand>, byProperty: map<JsString, Longhand>, claims: seq<(JsString, bool)>,
                claimed: set<JsString>,
                p: JsString, important: bool)
    requires Indexes(byProperty, longhands) && Tallies(byProperty, claims, claimed)
    ensures if p in byProperty && p !in claimed && byProperty[p].important == important
            then Tallies(byProperty, claims + [(p, important)], claimed + {p})
            else !Fits(longhands, claims + [(p, important)])
  {
    var more := claims + [(p, important)];
    OwnedByTable(longhands, byProperty, (p, important));
    if p in byProperty && p !in claimed && byProperty[p].important == important {
      forall x ensures x in claimed + {p} <==> exists i :: 0 <= i < |more| && more[i].0 == x {
        if x == p { assert more[|claims|].0 == x; }
        if x in claimed {
          var i :| 0 <= i < |claims| && claims[i].0 == x;
          assert more[i].0 == x;
        }
      }
    } else if p in claimed {
      var i :| 0 <= i < |claims| && claims[i].0 == p;
      assert more[i].0 == more[|claims|].0;
    } else {
      assert more[|claims|] !in Owned(longhands);
    }
  }

  /** The values of some properties, in their order. */
  ghost predicate Lists(byProperty: map<JsString, Longhand>, list: seq<(JsString, JsString)>, members: seq<JsString>,
                        important: bool) {
    |list| == |members| && forall i :: 0 <= i < |list| ==>
      members[i] in byProperty && byProperty[members[i]] == Longhand(list[i].0, list[i].1, important)
  }

  /** The list has what a declaration stands for, in order, each with the value it has among the longhands. */
  ghost predicate StandsFor(d: Declaration, list: seq<(JsString, JsString)>, longhands: seq<Longhand>, expand: Expander) {
    var members := Covered(d, Properties(longhands), expand);
    && members.Some? && |list| == |members.value|
    && forall i :: 0 <= i < |list| ==>
         list[i].0 == members.value[i] && Longhand(list[i].0, list[i].1, d.important) in longhands
  }

  lemma ListsStand(byProperty: map<JsString, Longhand>, d: Declaration, list: seq<(JsString, JsString)>, members: seq<JsString>,
                   longhands: seq<Longhand>, expand: Expander)
    requires Indexes(byProperty, longhands) && Covered(d, byProperty.Keys, expand) == Some(members)
    requires Lists(byProperty, list, members, d.important)
    ensures StandsFor(d, list, longhands, expand)
  {
    hide Covered, Properties;
    forall i | 0 <= i < |list| ensures list[i].0 == members[i] && Longhand(list[i].0, list[i].1, d.important) in longhands {
      assert byProperty[members[i]].property == members[i];
    }
  }

  /** One declaration's members, claimed one by one. */
  method Cover(longhands: seq<Longhand>, byProperty: map<JsString, Longhand>, members: seq<JsString>, important: bool,
               claimed: set<JsString>, ghost claims: seq<(JsString, bool)>)
    returns (covered: Option<seq<(JsString, JsString)>>, after: set<JsString>)
    requires Indexes(byProperty, longhands) && Tallies(byProperty, claims, claimed)
    ensures covered.Some? <==> Fits(longhands, claims + Claims(members, important))
    ensures covered.Some? ==>
      Tallies(byProperty, claims + Claims(members, important), after) && Lists(byProperty, covered.value, members, important)
  {
    hide Tallies, Fits, Indexes;
    after := claimed;
    var list: seq<(JsString, JsString)> := [];
    assert claims + Claims([], important) == claims;
    for i := 0 to |members|
      invariant Tallies(byProperty, claims + Claims(members[..i], important), after)
      invariant Lists(byProperty, list, members[..i], important)
    {
      var p := members[i];
      ghost var so := claims + Claims(members[..i], important);
      assert members[..i + 1] == members[..i] + [p];
      assert claims + Claims(members[..i + 1], important) == so + [(p, important)];
      OneMore(longhands, byProperty, so, after, p, important);
      TableNames(byProperty, longhands);
      if p !in byProperty || p in after || byProperty[p].important != important {
        ClaimPrefix(claims, members, i, important);
        NoFit(longhands, so + [(p, important)], claims + Claims(members, important));
        return None, after;
      }
      after := after + {p};
      list := list + [(p, byProperty[p].value)];
    }
    assert members[..|members|] == members;
    TallyFits(longhands, byProperty, claims + Claims(members, important), after);
    return Some(list), after;
  }

  lemma NoFit(longhands: seq<Longhand>, a: seq<(JsString, bool)>, b: seq<(JsString, bool)>)
    requires a <= b && !Fits(longhands, a)
    ensures !Fits(longhands, b)
  {
    if Fits(longhands, b) { FitsPrefix(longhands, a, b); }
  }

  lemma ClaimPrefix(claims: seq<(JsString, bool)>, members: seq<JsString>, i: nat, important: bool)
    requires i < |members|
    ensures claims + Claims(members[..i], important) + [(members[i], important)] <= claims + Claims(members, important)
  {
    assert Claims(members, important)[..i + 1] == Claims(members[..i], important) + [(members[i], important)];
    assert claims + Claims(members, important)
        == (claims + Claims(members, important)[..i + 1]) + Claims(members, important)[i + 1..];
  }

  lemma TableNames(byProperty: map<JsString, Longhand>, longhands: seq<Longhand>)
    requires Indexes(byProperty, longhands)
    ensures forall p :: p in byProperty ==> byProperty[p].property == p
  {
  }

  lemma ListedSnoc(byProperty: map<JsString, Longhand>, ds: seq<Authored>, claims: seq<(JsString, bool)>, d: Authored,
                   members: seq<JsString>)
    requires forall i :: 0 <= i < |claims| ==> claims[i].0 in byProperty
    requires Listed(ds) == Values(byProperty, claims)
    requires Lists(byProperty, d.longhands, members, d.declaration.important)
    ensures forall i :: 0 <= i < |claims + Claims(members, d.declaration.important)| ==>
              (claims + Claims(members, d.declaration.important))[i].0 in byProperty
    ensures Listed(ds + [d]) == Values(byProperty, claims + Claims(members, d.declaration.important))
  {
    assert (ds + [d])[..|ds|] == ds;
    var all := claims + Claims(members, d.declaration.important);
    forall i | 0 <= i < |all| ensures all[i].0 in byProperty { }
    assert ListedBy(d) == Values(byProperty, Claims(members, d.declaration.important));
  }

  lemma ClaimsSnoc(parsed: seq<Declaration>, i: nat, known: set<JsString>, expand: Expander)
    requires i < |parsed| && AllClaims(parsed[..i], known, expand).Some?
    ensures AllClaims(parsed[..i + 1], known, expand)
         == if Covered(parsed[i], known, expand).None? then None
            else Some(AllClaims(parsed[..i], known, expand).value + Claims(Covered(parsed[i], known, expand).value, parsed[i].important))
  {
    assert parsed[..i + 1][..i] == parsed[..i];
  }

  lemma CoversSomething(d: Declaration, known: set<JsString>, expand: Expander)
    ensures Covered(d, known, expand).Some? ==> Covered(d, known, expand).value != []
  {
  }

  lemma CoveredSomething(byProperty: map<JsString, Longhand>, list: seq<(JsString, JsString)>, members: seq<JsString>,
                         important: bool)
    requires Lists(byProperty, list, members, important) && members != []
    ensures list != []
  {
  }

  lemma NothingTallied(byProperty: map<JsString, Longhand>, longhands: seq<Longhand>, known: set<JsString>,
                       expand: Expander)
    requires Indexes(byProperty, longhands) && known == byProperty.Keys
    ensures known == Properties(longhands) && AllClaims([], known, expand) == Some([])
    ensures Tallies(byProperty, [], {}) && Listed([]) == [] && Values(byProperty, []) == []
  {
  }

  lemma EmptyTable(longhands: seq<Longhand>, byProperty: map<JsString, Longhand>)
    requires Indexes(byProperty, longhands)
    ensures |byProperty| == 0 <==> longhands == []
  {
    assert |byProperty| == |byProperty.Keys|;
    assert longhands != [] ==> longhands[0] in longhands;
  }

  /** `readAuthoredDeclarations`, after the text is parsed. */
  method Reconcile(longhands: seq<Longhand>, parsed: seq<Declaration>,
                   expand: Expander) returns (r: Option<seq<Authored>>)
    ensures r.Some? <==> Accounts(longhands, parsed, expand)
    ensures r.Some? ==> |r.value| == |parsed| && forall i :: 0 <= i < |parsed| ==> r.value[i].declaration == parsed[i]
    ensures r.Some? ==> Partitions(r.value, longhands) && forall a :: a in r.value ==> a.longhands != []
    ensures r.Some? ==> forall i :: 0 <= i < |r.value| ==> StandsFor(r.value[i].declaration, r.value[i].longhands, longhands, expand)
  {
    hide Tallies, Fits, Covered, Listed, AllClaims, Partitions, NoRepeats, Indexes, StandsFor;
    if parsed == [] { return None; }
    var byProperty := Index(longhands);
    if byProperty.Some? { EmptyTable(longhands, byProperty.value); }
    if byProperty.None? || |byProperty.value| == 0 { return None; }
    r := Match(longhands, byProperty.value, parsed, expand);
  }

  method Match(longhands: seq<Longhand>, byProperty: map<JsString, Longhand>, parsed: seq<Declaration>,
               expand: Expander)
    returns (r: Option<seq<Authored>>)
    requires Indexes(byProperty, longhands) && NoRepeats(longhands) && parsed != [] && longhands != []
    ensures r.Some? <==> Accounts(longhands, parsed, expand)
    ensures r.Some? ==> |r.value| == |parsed| && forall i :: 0 <= i < |parsed| ==> r.value[i].declaration == parsed[i]
    ensures r.Some? ==> Partitions(r.value, longhands) && forall a :: a in r.value ==> a.longhands != []
    ensures r.Some? ==> forall i :: 0 <= i < |r.value| ==> StandsFor(r.value[i].declaration, r.value[i].longhands, longhands, expand)
  {
    hide Tallies, Fits, Covered, Listed, AllClaims, Partitions, NoRepeats, Indexes, Lists, Values, Claims, Properties, StandsFor;
    var known := byProperty.Keys;
    var claimed: set<JsString>, declarations: seq<Authored> := {}, [];
    ghost var claims: seq<(JsString, bool)> := [];
    NothingTallied(byProperty, longhands, known, expand);
    assert parsed[..0] == [];
    for i := 0 to |parsed|
      invariant AllClaims(parsed[..i], known, expand) == Some(claims) && Tallies(byProperty, claims, claimed)
      invariant |declarations| == i && forall j :: 0 <= j < i ==> declarations[j].declaration == parsed[j]
      invariant forall j :: 0 <= j < |claims| ==> claims[j].0 in byProperty
      invariant Listed(declarations) == Values(byProperty, claims)
      invariant forall a :: a in declarations ==> a.longhands != []
      invariant forall j :: 0 <= j < i ==> StandsFor(parsed[j], declarations[j].longhands, longhands, expand)
    {
      CoversSomething(parsed[i], known, expand);
      ClaimsSnoc(parsed, i, known, expand);
      var members := Covered(parsed[i], known, expand);
      if members.None? {
        Refused(longhands, parsed, i, expand);
        return None;
      }
      var covered;
      covered, claimed := Cover(longhands, byProperty, members.value, parsed[i].important, claimed, claims);
      if covered.None? {
        Refused(longhands, parsed, i, expand);
        return None;
      }
      CoveredSomething(byProperty, covered.value, members.value, parsed[i].important);
      ListsStand(byProperty, parsed[i], covered.value, members.value, longhands, expand);
      ListedSnoc(byProperty, declarations, claims, Authored(parsed[i], covered.value), members.value);
      claims := claims + Claims(members.value, parsed[i].important);
      declarations := declarations + [Authored(parsed[i], covered.value)];
    }
    assert parsed[..|parsed|] == parsed;
    TallyFits(longhands, byProperty, claims, claimed);
    AllClaimed(longhands, byProperty, claims, claimed);
    if |claimed| != |byProperty| { return None; }
    ValuesPartition(longhands, byProperty, claims, claimed, declarations);
    return Some(declarations);
  }

  /**
   * `readAuthoredDeclarations`: an answer exactly when the text and the longhands account for each other, and then the
   * answer's longhand lists partition the rule's longhands, with every value and importance unchanged.
   */
  method ReadAuthoredDeclarations(limits: Limits, text: JsString, longhands: seq<Longhand>, expand: Expander)
    returns (r: Option<seq<Authored>>)
    ensures r.Some? <==>
      |text| <= limits.ruleTextLength && ParseList(limits, text).Some? && Accounts(longhands, ParseList(limits, text).value, expand)
    ensures r.Some? ==> Partitions(r.value, longhands) && forall a :: a in r.value ==> a.longhands != []
    ensures r.Some? ==> forall i :: 0 <= i < |r.value| ==> StandsFor(r.value[i].declaration, r.value[i].longhands, longhands, expand)
    ensures r.Some? ==> |r.value| == |ParseList(limits, text).value|
    ensures r.Some? ==> forall i :: 0 <= i < |r.value| ==> r.value[i].declaration == ParseList(limits, text).value[i]
  {
    if |text| > limits.ruleTextLength { return None; }
    var parsed := ParseDeclarationList(limits, text);
    if parsed.None? { return None; }
    r := Reconcile(longhands, parsed.value, expand);
  }

  /** A presentation is never longer than the longhands it presents. */
  lemma NoMoreThanLonghands(ds: seq<Authored>, longhands: seq<Longhand>)
    requires Partitions(ds, longhands) && NoRepeats(longhands) && forall a :: a in ds ==> a.longhands != []
    ensures |ds| <= |longhands|
  {
    ListedAtLeast(ds);
    DistinctCount(Listed(ds));
    DistinctCount(longhands);
    assert (set x | x in Listed(ds)) == (set x | x in longhands);
  }

  lemma {:induction false} ListedAtLeast(ds: seq<Authored>)
    requires forall a :: a in ds ==> a.longhands != []
    ensures |ds| <= |Listed(ds)|
  {
    if ds != [] { ListedAtLeast(ds[..|ds| - 1]); }
  }

  lemma {:induction false} DistinctCount(longhands: seq<Longhand>)
    requires NoRepeats(longhands)
    ensures |set x | x in longhands| == |longhands|
  {
    if longhands != [] {
      var init, last := longhands[..|longhands| - 1], longhands[|longhands| - 1];
      DistinctCount(init);
      assert (set x | x in longhands) == (set x | x in init) + {last};
    }
  }
}
