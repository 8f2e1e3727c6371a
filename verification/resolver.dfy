/** The concept resolver of the XBRL calculator (`pick_fact_value`): for each
    candidate concept name in turn, flatten its facts, narrow them with five
    progressively relaxed stages, keep the most recently filed survivor and
    return its value, falling through to the next name when there is none. */
module Resolver {
  import opened Values
  import opened Strings
  import opened Seqs
  import opened Facts

  const TenK := "10-K"

  /** `"10-K" in f.get("form", "")`: 10-K and 10-K/A both qualify. */
  predicate IsTenKForm(f: Fact) {
    Contains(FormOf(f), TenK)
  }

  /** `f.get("fp") in ("FY", "Y", None)`. */
  predicate IsFullYear(f: Fact) {
    f.fp == None || f.fp == Some("FY") || f.fp == Some("Y")
  }

  predicate Keep(t: TaggedFact, end: Option<string>, require10K: bool, requireFY: bool) {
    && (end.Some? ==> t.fact.periodEnd == end)
    && (require10K ==> IsTenKForm(t.fact))
    && (requireFY ==> IsFullYear(t.fact))
  }

  /** The inner `filter_facts`: the facts meeting every enabled constraint,
      in their original order. */
  function FilterFacts(facts: seq<TaggedFact>, end: Option<string>, require10K: bool, requireFY: bool)
    : (r: seq<TaggedFact>)
    ensures IsSubseq(r, facts)
    ensures forall i :: 0 <= i < |r| ==>
              && (end.Some? ==> r[i].fact.periodEnd == end)
              && (require10K ==> IsTenKForm(r[i].fact))
              && (requireFY ==> IsFullYear(r[i].fact))
    ensures forall i :: 0 <= i < |facts|
              && (end.Some? ==> facts[i].fact.periodEnd == end)
              && (require10K ==> IsTenKForm(facts[i].fact))
              && (requireFY ==> IsFullYear(facts[i].fact))
              ==> facts[i] in r
    ensures |r| == 0 <==> forall i :: 0 <= i < |facts| ==> !Keep(facts[i], end, require10K, requireFY)
  {
    Filter(facts, (t: TaggedFact) => Keep(t, end, require10K, requireFY))
  }

  /** Facts equal in this model (they may differ in fields the model drops)
      are kept or dropped together, every copy. */
  lemma FilterFactsKeepsEveryCopy(facts: seq<TaggedFact>, end: Option<string>, require10K: bool, requireFY: bool)
    ensures forall t :: multiset(FilterFacts(facts, end, require10K, requireFY))[t]
                        == if Keep(t, end, require10K, requireFY) then multiset(facts)[t] else 0
  {
    FilterKeepsEveryCopy(facts, (t: TaggedFact) => Keep(t, end, require10K, requireFY));
  }

  /** `int(end[:4])` for a fact whose "end" has at least four characters;
      `None` when "end" is missing, too short, or the prefix does not parse. */
  function YearOf(f: Fact): Option<int> {
    match f.periodEnd
    case Some(e) => if |e| < 4 then None else PyInt(e[..4])
    case None => None
  }

  /** `int(target_end[:4])`. */
  function TargetYear(target: string): Option<int> {
    PyInt(Head(target, 4))
  }

  /** Stage 5: the facts whose period end falls in calendar year `y`. */
  function SameYear(flat: seq<TaggedFact>, y: int): (r: seq<TaggedFact>)
    ensures IsSubseq(r, flat)
    ensures forall i :: 0 <= i < |r| ==>
              r[i].fact.periodEnd.Some? && |r[i].fact.periodEnd.value| >= 4
              && PyInt(r[i].fact.periodEnd.value[..4]) == Some(y)
    ensures forall i :: 0 <= i < |flat|
              && flat[i].fact.periodEnd.Some? && |flat[i].fact.periodEnd.value| >= 4
              && PyInt(flat[i].fact.periodEnd.value[..4]) == Some(y)
              ==> flat[i] in r
  {
    Filter(flat, (t: TaggedFact) => YearOf(t.fact) == Some(y))
  }

  /** Stage 5 keeps every copy of a fact of year `y`. */
  lemma SameYearKeepsEveryCopy(flat: seq<TaggedFact>, y: int)
    ensures forall t :: multiset(SameYear(flat, y))[t] == if YearOf(t.fact) == Some(y) then multiset(flat)[t] else 0
  {
    FilterKeepsEveryCopy(flat, (t: TaggedFact) => YearOf(t.fact) == Some(y));
  }

  /** The cascade of `pick_fact_value`: each stage runs only while the
      candidates are still empty; stages 1, 2 and 5 need a target end, and
      stage 5 fails when the target's year does not parse. */
  function StageCandidates(flat: seq<TaggedFact>, target: Option<string>): (r: Result<seq<TaggedFact>>)
    ensures r.Success? ==> IsSubseq(r.value, flat)
    ensures r.Failure? ==> r.error == InvalidYear && target.Some? && TargetYear(target.value).None?
  {
    if target.Some? && |FilterFacts(flat, target, true, true)| > 0 then
      Success(FilterFacts(flat, target, true, true))       // 1) end, 10-K, FY
    else if target.Some? && |FilterFacts(flat, target, true, false)| > 0 then
      Success(FilterFacts(flat, target, true, false))      // 2) end, 10-K
    else if |FilterFacts(flat, None, true, true)| > 0 then
      Success(FilterFacts(flat, None, true, true))         // 3) 10-K, FY
    else if |FilterFacts(flat, None, true, false)| > 0 then
      Success(FilterFacts(flat, None, true, false))        // 4) any 10-K
    else if target.Some? then                              // 5) same calendar year
      match TargetYear(target.value)
      case None => Failure(InvalidYear)
      case Some(y) => Success(SameYear(flat, y))
    else Success([])
  }

  function FiledKeys(cands: seq<TaggedFact>): seq<string> {
    seq(|cands|, i requires 0 <= i < |cands| => FiledKey(cands[i].fact))
  }

  /** The position `candidates.sort(key=filed, reverse=True)` moves to the
      front: a latest `filed`, the earliest such in candidate order. */
  function ChosenIndex(cands: seq<TaggedFact>): (i: nat)
    requires |cands| > 0
    ensures i < |cands|
    ensures forall j :: 0 <= j < |cands| ==> LexLe(FiledKey(cands[j].fact), FiledKey(cands[i].fact))
    ensures forall j :: 0 <= j < i ==> FiledKey(cands[j].fact) != FiledKey(cands[i].fact)
  {
    var keys := FiledKeys(cands);
    assert |keys| == |cands| && forall j :: 0 <= j < |cands| ==> keys[j] == FiledKey(cands[j].fact);
    FirstMaxIndex(keys)
  }

  /** What one concept name contributes: `Some(value)` when it resolves,
      `None` when resolution moves on to the next name. */
  function ConceptOutcome(root: FactsRoot, name: string, target: Option<string>): (r: Result<Option<real>>)
    ensures |FlattenConcept(LookupConcept(root, name))| == 0 ==> r == Success(None)
    ensures r.Failure? ==> r.error == InvalidYear && target.Some? && TargetYear(target.value).None?
    ensures var flat := FlattenConcept(LookupConcept(root, name));
      && (r.Failure? <==> |flat| > 0 && StageCandidates(flat, target).Failure?)
      && (|flat| > 0 && StageCandidates(flat, target) == Success([]) ==> r == Success(None))
  {
    var flat := FlattenConcept(LookupConcept(root, name));
    if |flat| == 0 then Success(None)
    else
      match StageCandidates(flat, target)
      case Failure(e) => Failure(e)
      case Success(cands) =>
        if |cands| == 0 then Success(None)
        else
          match cands[ChosenIndex(cands)].fact.val
          case Num(v) => Success(Some(v))
          case _ => Success(None)
  }

  /** The loop over concept names: the first name whose outcome is a value
      or an error decides; `(None, None)` when every name is passed over. */
  function FirstResolved(names: seq<string>, outcome: string -> Result<Option<real>>): (r: Result<Figure>)
    ensures r.Success? ==> (r.value.value.Some? <==> r.value.concept.Some?)
    ensures r.Success? && r.value.concept.Some? ==> r.value.concept.value in names
    decreases |names|
  {
    if |names| == 0 then Success(Figure(None, None))
    else
      match outcome(names[0])
      case Failure(e) => Failure(e)
      case Success(Some(v)) => Success(Figure(Some(v), Some(names[0])))
      case Success(None) => FirstResolved(names[1..], outcome)
  }

  /** `pick_fact_value(facts_root, concept_candidates, target_end)`. */
  function PickFactValue(root: FactsRoot, names: seq<string>, target: Option<string>): (r: Result<Figure>)
    ensures r.Success? ==> (r.value.value.Some? <==> r.value.concept.Some?)
    ensures r.Success? && r.value.concept.Some? ==> r.value.concept.value in names
  {
    FirstResolved(names, (n: string) => ConceptOutcome(root, n, target))
  }

  // ------------------------------------------------------------ stage lemmas

  /** The stages as an ordered list of descriptors. */
  datatype Stage = Filtered(end: Option<string>, require10K: bool, requireFY: bool) | SameCalendarYear

  function Stages(target: Option<string>): seq<Stage> {
    match target
    case Some(_) =>
      [Filtered(target, true, true), Filtered(target, true, false),
       Filtered(None, true, true), Filtered(None, true, false), SameCalendarYear]
    case None => [Filtered(None, true, true), Filtered(None, true, false)]
  }

  function RunStage(flat: seq<TaggedFact>, s: Stage, target: Option<string>): Result<seq<TaggedFact>> {
    match s
    case Filtered(end, r10k, rfy) => Success(FilterFacts(flat, end, r10k, rfy))
    case SameCalendarYear =>
      if target.None? then Success([])
      else
        match TargetYear(target.value)
        case None => Failure(InvalidYear)
        case Some(y) => Success(SameYear(flat, y))
  }

  /** The result of the first stage that fails or keeps something. */
  function FirstNonEmpty(flat: seq<TaggedFact>, stages: seq<Stage>, target: Option<string>): Result<seq<TaggedFact>>
    decreases |stages|
  {
    if |stages| == 0 then Success([])
    else
      match RunStage(flat, stages[0], target)
      case Failure(e) => Failure(e)
      case Success(c) => if |c| > 0 then Success(c) else FirstNonEmpty(flat, stages[1..], target)
  }

  /** The cascade is the ordered pipeline: stages are tried strictly in order
      and the first non-empty one wins. */
  lemma StagesArePipeline(flat: seq<TaggedFact>, target: Option<string>)
    ensures StageCandidates(flat, target) == FirstNonEmpty(flat, Stages(target), target)
  {
    var st := Stages(target);
    if target.Some? {
      var st4 := st[1..][1..][1..][1..];
      var st3 := st[1..][1..][1..];
      var st2 := st[1..][1..];
      assert st4 == [SameCalendarYear] && st3[0] == Filtered(None, true, false) && st3[1..] == st4;
      assert st2[0] == Filtered(None, true, true) && st2[1..] == st3;
      assert st[1..][0] == Filtered(target, true, false) && st[1..][1..] == st2;
      var last := FirstNonEmpty(flat, st4, target);
      assert last == RunStage(flat, SameCalendarYear, target) by {
        assert FirstNonEmpty(flat, st4[1..], target) == Success([]);
      }
      var c4 := FilterFacts(flat, None, true, false);
      assert FirstNonEmpty(flat, st3, target) == if |c4| > 0 then Success(c4) else last;
      var c3 := FilterFacts(flat, None, true, true);
      assert FirstNonEmpty(flat, st2, target) == if |c3| > 0 then Success(c3) else FirstNonEmpty(flat, st3, target);
      var c2 := FilterFacts(flat, target, true, false);
      assert FirstNonEmpty(flat, st[1..], target) == if |c2| > 0 then Success(c2) else FirstNonEmpty(flat, st2, target);
    } else {
      assert st[0] == Filtered(None, true, true);
      assert st[1..][0] == Filtered(None, true, false);
      assert st[1..][1..] == [];
      assert FirstNonEmpty(flat, st[1..][1..], target) == Success([]);
    }
  }

  lemma NoTenKEmptiesTenKStages(flat: seq<TaggedFact>, end: Option<string>, requireFY: bool)
    requires forall i :: 0 <= i < |flat| ==> !IsTenKForm(flat[i].fact)
    ensures FilterFacts(flat, end, true, requireFY) == []
  {
  }

  /** With no 10-K-family fact at all, the only stage that can keep anything
      is the calendar-year stage (and then only with a target). */
  lemma LastResortWithoutTenK(flat: seq<TaggedFact>, target: Option<string>)
    requires forall i :: 0 <= i < |flat| ==> !IsTenKForm(flat[i].fact)
    ensures target.None? ==> StageCandidates(flat, target) == Success([])
    ensures target.Some? && TargetYear(target.value).None? ==> StageCandidates(flat, target) == Failure(InvalidYear)
    ensures target.Some? && TargetYear(target.value).Some? ==>
              StageCandidates(flat, target) == Success(SameYear(flat, TargetYear(target.value).value))
  {
    NoTenKEmptiesTenKStages(flat, None, true);
    NoTenKEmptiesTenKStages(flat, None, false);
    NoTenKEmptiesTenKStages(flat, target, true);
    NoTenKEmptiesTenKStages(flat, target, false);
  }

  /** Without a target end only the end-free 10-K stages run: the resolver
      never fails and never returns a non-10-K fact. */
  lemma NoTargetKeepsTenKStages(flat: seq<TaggedFact>)
    ensures StageCandidates(flat, None).Success?
    ensures forall j :: 0 <= j < |StageCandidates(flat, None).value| ==>
              IsTenKForm(StageCandidates(flat, None).value[j].fact)
  {
  }

  /** A 10-K-family fact for exactly the target end beats everything else;
      if one of those is also full-year, only full-year ones survive. */
  lemma ExactEndPreferred(flat: seq<TaggedFact>, t: string, i: nat)
    requires i < |flat| && flat[i].fact.periodEnd == Some(t) && IsTenKForm(flat[i].fact)
    ensures StageCandidates(flat, Some(t)).Success?
    ensures var c := StageCandidates(flat, Some(t)).value;
      && |c| > 0
      && (forall j :: 0 <= j < |c| ==> c[j].fact.periodEnd == Some(t) && IsTenKForm(c[j].fact))
      && (IsFullYear(flat[i].fact) ==> forall j :: 0 <= j < |c| ==> IsFullYear(c[j].fact))
  {
    assert flat[i] in FilterFacts(flat, Some(t), true, false);
    if IsFullYear(flat[i].fact) {
      assert flat[i] in FilterFacts(flat, Some(t), true, true);
    }
  }

  /** Stage 4 keeps every 10-K-family fact, so one such fact is enough to
      keep the calendar-year stage from running: the candidates are then
      10-K-family facts and the cascade cannot fail. */
  lemma TenKFactShadowsLastResort(flat: seq<TaggedFact>, target: Option<string>, i: nat)
    requires i < |flat| && IsTenKForm(flat[i].fact)
    ensures StageCandidates(flat, target).Success?
    ensures var c := StageCandidates(flat, target).value;
      && |c| > 0
      && forall j :: 0 <= j < |c| ==> IsTenKForm(c[j].fact)
  {
    assert flat[i] in FilterFacts(flat, None, true, false);
  }

  // ------------------------------------------------------------ resolution lemmas

  /** A resolved value is the `val` of a latest-filed stage candidate, the
      earliest such in flattened order. */
  lemma ResolvedValueIsLatestFiled(root: FactsRoot, name: string, target: Option<string>, v: real)
    requires ConceptOutcome(root, name, target) == Success(Some(v))
    ensures LookupConcept(root, name).Some?
    ensures var flat := FlattenConcept(LookupConcept(root, name));
      && StageCandidates(flat, target).Success?
      && var cands := StageCandidates(flat, target).value;
         exists i :: 0 <= i < |cands| && cands[i].fact.val == Num(v)
           && (forall j :: 0 <= j < |cands| ==> LexLe(FiledKey(cands[j].fact), FiledKey(cands[i].fact)))
           && (forall j :: 0 <= j < i ==> FiledKey(cands[j].fact) != FiledKey(cands[i].fact))
  {
    var flat := FlattenConcept(LookupConcept(root, name));
    var cands := StageCandidates(flat, target).value;
    var i := ChosenIndex(cands);
    assert cands[i].fact.val == Num(v);
  }

  /** Conversely, a numeric `val` on the latest-filed candidate (the first
      such) is what the concept resolves to. */
  lemma LatestFiledValueResolves(root: FactsRoot, name: string, target: Option<string>,
                                 cands: seq<TaggedFact>, i: nat, v: real)
    requires |FlattenConcept(LookupConcept(root, name))| > 0
    requires StageCandidates(FlattenConcept(LookupConcept(root, name)), target) == Success(cands)
    requires i < |cands| && cands[i].fact.val == Num(v)
    requires forall j :: 0 <= j < |cands| ==> LexLe(FiledKey(cands[j].fact), FiledKey(cands[i].fact))
    requires forall j :: 0 <= j < i ==> FiledKey(cands[j].fact) != FiledKey(cands[i].fact)
    ensures ConceptOutcome(root, name, target) == Success(Some(v))
  {
    var k := ChosenIndex(cands);
    LexLeAntisymmetric(FiledKey(cands[i].fact), FiledKey(cands[k].fact));
    assert k == i;
    assert cands[ChosenIndex(cands)].fact.val == Num(v);
  }

  /** A stage that raises makes the concept raise, before any other name is
      tried. */
  lemma StageErrorRaises(root: FactsRoot, name: string, target: Option<string>)
    requires |FlattenConcept(LookupConcept(root, name))| > 0
    requires StageCandidates(FlattenConcept(LookupConcept(root, name)), target).Failure?
    ensures ConceptOutcome(root, name, target) == Failure(InvalidYear)
  {
  }

  /** When the chosen fact has no usable `val` the concept is passed over,
      whatever the other candidates of that concept hold. */
  lemma NoRetryWithinConcept(root: FactsRoot, name: string, target: Option<string>, cands: seq<TaggedFact>)
    requires |FlattenConcept(LookupConcept(root, name))| > 0
    requires StageCandidates(FlattenConcept(LookupConcept(root, name)), target) == Success(cands)
    requires |cands| > 0 && !cands[ChosenIndex(cands)].fact.val.Num?
    ensures ConceptOutcome(root, name, target) == Success(None)
  {
  }

  /** The name returned is the first, in list order, whose own outcome is a
      value; all names before it were passed over without error. */
  lemma {:induction false} ResolvedNameIsFirst(
    names: seq<string>, outcome: string -> Result<Option<real>>, v: real, n: string) returns (i: nat)
    requires FirstResolved(names, outcome) == Success(Figure(Some(v), Some(n)))
    ensures i < |names| && names[i] == n
    ensures outcome(names[i]) == Success(Some(v))
    ensures forall j :: 0 <= j < i ==> outcome(names[j]) == Success(None)
    decreases |names|
  {
    if outcome(names[0]) == Success(None) {
      var k := ResolvedNameIsFirst(names[1..], outcome, v, n);
      i := k + 1;
      assert forall j :: 1 <= j < i ==> names[j] == names[1..][j - 1];
    } else {
      i := 0;
    }
  }

  /** Conversely, the first name whose outcome is a value is the one returned. */
  lemma {:induction false} FirstResolvingNameIsReturned(
    names: seq<string>, outcome: string -> Result<Option<real>>, i: nat, v: real)
    requires i < |names|
    requires outcome(names[i]) == Success(Some(v))
    requires forall j :: 0 <= j < i ==> outcome(names[j]) == Success(None)
    ensures FirstResolved(names, outcome) == Success(Figure(Some(v), Some(names[i])))
    decreases i
  {
    if i > 0 {
      assert forall j :: 0 <= j < i - 1 ==> names[1..][j] == names[j + 1];
      FirstResolvingNameIsReturned(names[1..], outcome, i - 1, v);
    }
  }

  /** `(None, None)` comes back exactly when every name is passed over. */
  lemma {:induction false} UnresolvedIff(names: seq<string>, outcome: string -> Result<Option<real>>)
    ensures FirstResolved(names, outcome) == Success(Figure(None, None))
        <==> forall i :: 0 <= i < |names| ==> outcome(names[i]) == Success(None)
    decreases |names|
  {
    if |names| > 0 {
      UnresolvedIff(names[1..], outcome);
      assert forall i :: 1 <= i < |names| ==> names[i] == names[1..][i - 1];
    }
  }

  /** The loop raises only when the first name not passed over raises. */
  lemma {:induction false} FailureIsFirstUndecided(
    names: seq<string>, outcome: string -> Result<Option<real>>) returns (i: nat)
    requires FirstResolved(names, outcome).Failure?
    ensures i < |names| && outcome(names[i]).Failure?
    ensures forall j :: 0 <= j < i ==> outcome(names[j]) == Success(None)
    decreases |names|
  {
    if outcome(names[0]) == Success(None) {
      var k := FailureIsFirstUndecided(names[1..], outcome);
      i := k + 1;
      assert forall j :: 1 <= j < i ==> names[j] == names[1..][j - 1];
    } else {
      i := 0;
    }
  }

  /** Concept fallback for `pick_fact_value`: a returned pair names the first
      concept, in list order, that resolves to a value. */
  lemma PickReturnsFirstResolvingConcept(
    root: FactsRoot, names: seq<string>, target: Option<string>, v: real, n: string) returns (i: nat)
    requires PickFactValue(root, names, target) == Success(Figure(Some(v), Some(n)))
    ensures i < |names| && names[i] == n
    ensures ConceptOutcome(root, n, target) == Success(Some(v))
    ensures forall j :: 0 <= j < i ==> ConceptOutcome(root, names[j], target) == Success(None)
  {
    i := ResolvedNameIsFirst(names, (m: string) => ConceptOutcome(root, m, target), v, n);
  }

  /** `pick_fact_value` returns `(None, None)` iff no concept name resolves. */
  lemma PickUnresolvedIff(root: FactsRoot, names: seq<string>, target: Option<string>)
    ensures PickFactValue(root, names, target) == Success(Figure(None, None))
        <==> forall i :: 0 <= i < |names| ==> ConceptOutcome(root, names[i], target) == Success(None)
  {
    UnresolvedIff(names, (m: string) => ConceptOutcome(root, m, target));
  }

  /** The loop cannot raise when no name's outcome is an error. */
  lemma {:induction false} NoErrorNoFailure(names: seq<string>, outcome: string -> Result<Option<real>>)
    requires forall i :: 0 <= i < |names| ==> outcome(names[i]).Success?
    ensures FirstResolved(names, outcome).Success?
    decreases |names|
  {
    if |names| > 0 {
      assert forall i :: 0 <= i < |names| - 1 ==> names[1..][i] == names[i + 1];
      NoErrorNoFailure(names[1..], outcome);
    }
  }

  /** A target end whose first four characters parse as a year (as every
      report date `get_10k_metadata` returns does) never makes
      `pick_fact_value` raise. */
  lemma PickSucceedsForParsableTarget(root: FactsRoot, names: seq<string>, t: string)
    requires TargetYear(t).Some?
    ensures PickFactValue(root, names, Some(t)).Success?
  {
    var outcome := (m: string) => ConceptOutcome(root, m, Some(t));
    forall i | 0 <= i < |names|
      ensures outcome(names[i]).Success?
    {
      ConceptOutcomeSucceeds(root, names[i], t);
    }
    NoErrorNoFailure(names, outcome);
  }

  /** Only the year of the target end can make one concept raise. */
  lemma ConceptOutcomeSucceeds(root: FactsRoot, name: string, t: string)
    requires TargetYear(t).Some?
    ensures ConceptOutcome(root, name, Some(t)).Success?
  {
    var flat := FlattenConcept(LookupConcept(root, name));
    if |flat| > 0 {
      assert StageCandidates(flat, Some(t)).Success?;
    }
  }
}
