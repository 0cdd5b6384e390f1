/** `isCatBanned`: does a candidate carry an attribute that some ban rule
    matches? */
module BanPredicate {
  import opened CatData
  import opened Tokens

  /** One `{ type, value }` attribute of the primary breed, as the predicate
      compares it against the rules. */
  datatype Observation = Observation(kind: AttrType, value: string)

  /** The observation of one field, dropped when the value is absent or the
      empty string (JavaScript's `filter(attr => attr.value)`). */
  function Observe(kind: AttrType, v: Option<string>): seq<Observation>
  {
    if v.Some? && v.value != "" then [Observation(kind, v.value)] else []
  }

  /** The attributes checked against the ban list, in the order breed name,
      temperament, origin. */
  function Observations(b: Breed): (obs: seq<Observation>)
    ensures forall o :: o in obs ==> o.value != "" && Field(b, o.kind) == Some(o.value)
    ensures forall k :: Field(b, k).Some? && Field(b, k).value != "" ==>
      Observation(k, Field(b, k).value) in obs
  {
    Observe(BreedName, b.name) + Observe(Temperament, b.temperament) + Observe(Origin, b.origin)
  }

  /** One rule against one attribute: a temperament rule against the
      temperament is a token test on the ", "-split string; every other pair
      needs the same type and the same value. */
  predicate Matches(rule: BanRule, obs: Observation)
  {
    if obs.kind == Temperament && rule.kind == Temperament then rule.value in Split(obs.value)
    else obs.kind == rule.kind && obs.value == rule.value
  }

  /** The ban predicate: some rule matches some observed attribute of the
      primary breed. A candidate without a primary breed is never banned. */
  predicate IsCatBanned(cat: Option<Cat>, bans: seq<BanRule>)
  {
    match PrimaryBreed(cat)
    case None => false
    case Some(b) =>
      var obs := Observations(b);
      exists i, j :: 0 <= i < |bans| && 0 <= j < |obs| && Matches(bans[i], obs[j])
  }

  /** What one rule bans, stated field by field: a temperament rule bans a
      breed whose (non-empty) temperament has the rule's value as one of its
      ", "-separated tokens; a breed-name or origin rule bans a breed whose
      field is exactly the rule's non-empty value. */
  predicate RuleBans(rule: BanRule, b: Breed)
  {
    var f := Field(b, rule.kind);
    f.Some? && f.value != "" &&
    if rule.kind == Temperament then rule.value in Split(f.value) else f.value == rule.value
  }

  /** A rule matches some observation of a breed exactly when it bans the
      breed in the field-by-field sense. */
  lemma MatchesSomeObservation(rule: BanRule, b: Breed)
    ensures (exists j :: 0 <= j < |Observations(b)| && Matches(rule, Observations(b)[j]))
            <==> RuleBans(rule, b)
  {
    var obs := Observations(b);
    var f := Field(b, rule.kind);
    if RuleBans(rule, b) {
      var o := Observation(rule.kind, f.value);
      assert o in obs;
      var j :| 0 <= j < |obs| && obs[j] == o;
      assert Matches(rule, obs[j]);
    }
    if j :| 0 <= j < |obs| && Matches(rule, obs[j]) {
      var o := obs[j];
      assert o in obs;
      assert o.kind == rule.kind;
    }
  }

  /** The loops of the predicate come down to: some rule of the list bans
      the primary breed. */
  lemma BannedIffSomeRuleBans(cat: Option<Cat>, bans: seq<BanRule>)
    ensures IsCatBanned(cat, bans) <==>
      PrimaryBreed(cat).Some? && exists r :: r in bans && RuleBans(r, PrimaryBreed(cat).value)
  {
    if PrimaryBreed(cat).Some? {
      var b := PrimaryBreed(cat).value;
      var obs := Observations(b);
      if IsCatBanned(cat, bans) {
        var i, j :| 0 <= i < |bans| && 0 <= j < |obs| && Matches(bans[i], obs[j]);
        MatchesSomeObservation(bans[i], b);
      }
      if r :| r in bans && RuleBans(r, b) {
        var i :| 0 <= i < |bans| && bans[i] == r;
        MatchesSomeObservation(r, b);
      }
    }
  }

  /** The source's nested loops with early return, equal to the predicate. */
  method CheckCatBanned(cat: Option<Cat>, bans: seq<BanRule>) returns (banned: bool)
    ensures banned == IsCatBanned(cat, bans)
  {
    if cat.None? || cat.value.breeds.None? || |cat.value.breeds.value| == 0 {
      return false;
    }
    var breed := cat.value.breeds.value[0];
    var attributes := Observations(breed);
    for i := 0 to |bans|
      invariant forall i', j :: 0 <= i' < i && 0 <= j < |attributes| ==> !Matches(bans[i'], attributes[j])
    {
      for j := 0 to |attributes|
        invariant forall j' :: 0 <= j' < j ==> !Matches(bans[i], attributes[j'])
      {
        if attributes[j].kind == Temperament && bans[i].kind == Temperament {
          if bans[i].value in Split(attributes[j].value) {
            return true;
          }
        } else if attributes[j].kind == bans[i].kind && attributes[j].value == bans[i].value {
          return true;
        }
      }
    }
    return false;
  }

  /** A null candidate, one without a `breeds` property and one with an
      empty `breeds` array are never banned, whatever the list. */
  lemma NoBreedNeverBanned(cat: Option<Cat>, bans: seq<BanRule>)
    requires cat.None? || cat.value.breeds.None? || cat.value.breeds.value == []
    ensures !IsCatBanned(cat, bans)
  {
  }

  /** An empty ban list bans nothing. */
  lemma EmptyListBansNothing(cat: Option<Cat>)
    ensures !IsCatBanned(cat, [])
  {
  }

  /** Adding rules can only turn "unbanned" into "banned": the predicate is
      monotone in the set of rules, whatever their order. */
  lemma BanMonotone(cat: Option<Cat>, bans: seq<BanRule>, more: seq<BanRule>)
    requires forall r :: r in bans ==> r in more
    ensures IsCatBanned(cat, bans) ==> IsCatBanned(cat, more)
  {
    BannedIffSomeRuleBans(cat, bans);
    BannedIffSomeRuleBans(cat, more);
  }

  /** A temperament rule bans a candidate iff its value is exactly one of the
      ", "-separated tokens of the primary breed's non-empty temperament. */
  lemma TemperamentRuleIff(cat: Option<Cat>, v: string)
    ensures IsCatBanned(cat, [BanRule(Temperament, v)]) <==>
      PrimaryBreed(cat).Some? &&
      var t := PrimaryBreed(cat).value.temperament;
      t.Some? && t.value != "" && v in Split(t.value)
  {
    var rule := BanRule(Temperament, v);
    BannedIffSomeRuleBans(cat, [rule]);
    if PrimaryBreed(cat).Some? && RuleBans(rule, PrimaryBreed(cat).value) {
      assert rule in [rule];
    }
  }

  /** A temperament rule whose value contains ", " never matches: adding
      it to any list changes nothing. */
  lemma SepRuleNeverMatches(cat: Option<Cat>, bans: seq<BanRule>, v: string)
    requires HasSep(v)
    ensures IsCatBanned(cat, bans + [BanRule(Temperament, v)]) == IsCatBanned(cat, bans)
  {
    var rule := BanRule(Temperament, v);
    BannedIffSomeRuleBans(cat, bans);
    BannedIffSomeRuleBans(cat, bans + [rule]);
    if PrimaryBreed(cat).Some? {
      var b := PrimaryBreed(cat).value;
      if b.temperament.Some? {
        SepValueIsNoToken(b.temperament.value, v);
      }
      assert !RuleBans(rule, b);
      forall r | r in bans + [rule] && RuleBans(r, b) ensures r in bans {
      }
    }
  }

  /** Breed-name and origin rules ban a candidate iff the field of the
      primary breed is exactly (case-sensitively) the rule's value, which
      must be non-empty. */
  lemma ExactRuleIff(cat: Option<Cat>, kind: AttrType, v: string)
    requires kind != Temperament
    ensures IsCatBanned(cat, [BanRule(kind, v)]) <==>
      PrimaryBreed(cat).Some? && v != "" && Field(PrimaryBreed(cat).value, kind) == Some(v)
  {
    var rule := BanRule(kind, v);
    BannedIffSomeRuleBans(cat, [rule]);
    if PrimaryBreed(cat).Some? && RuleBans(rule, PrimaryBreed(cat).value) {
      assert rule in [rule];
    }
  }

  /** The temperament chip bans the whole temperament string. Such a rule
      bans the cat it came from only when that string is a single token:
      for "Active, Energetic, Independent" it bans nothing. */
  lemma TemperamentChipBansOnlySingleToken(cat: Option<Cat>, t: string)
    requires PrimaryBreed(cat).Some? && PrimaryBreed(cat).value.temperament == Some(t) && t != ""
    ensures IsCatBanned(cat, [BanRule(Temperament, t)]) <==> !HasSep(t)
  {
    TemperamentRuleIff(cat, t);
    WholeStringIsToken(t);
  }

  /** The breed-name and origin chips ban the cat they came from. */
  lemma ExactChipBansItsCat(cat: Option<Cat>, bans: seq<BanRule>, kind: AttrType)
    requires kind != Temperament && PrimaryBreed(cat).Some?
    requires var f := Field(PrimaryBreed(cat).value, kind); f.Some? && f.value != "" && BanRule(kind, f.value) in bans
    ensures IsCatBanned(cat, bans)
  {
    BannedIffSomeRuleBans(cat, bans);
  }

  /** The worked example: a cat whose temperament is "Curious, Playful" is
      banned by the temperament rule "Playful" and not by "Play". */
  lemma CuriousPlayfulCat(cat: Option<Cat>)
    requires PrimaryBreed(cat).Some? && PrimaryBreed(cat).value.temperament == Some("Curious, Playful")
    ensures IsCatBanned(cat, [BanRule(Temperament, "Playful")])
    ensures !IsCatBanned(cat, [BanRule(Temperament, "Play")])
  {
    CuriousPlayful();
    TemperamentRuleIff(cat, "Playful");
    TemperamentRuleIff(cat, "Play");
  }
}
