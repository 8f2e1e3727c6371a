/** The companyfacts payload as the XBRL calculator reads it, and the
    flattening of one concept's facts across its units
    (`_flatten_facts_for_concept`). */
module Facts {
  import opened Values

  /** One reported observation. Only the keys the calculator reads are kept;
      each may be absent from the JSON object. */
  datatype Fact = Fact(
    periodEnd: Option<string>,  // "end"
    form: Option<string>,       // "form", e.g. "10-K", "10-K/A", "10-Q"
    fp: Option<string>,         // "fp", the fiscal-period tag, e.g. "FY", "Q3"
    filed: Option<string>,      // "filed", an ISO date
    val: Val                    // "val"
  )

  /** The facts reported in one unit, e.g. "USD". */
  datatype UnitFacts = UnitFacts(unit: string, facts: seq<Fact>)

  /** A concept object: its "units" dictionary, in iteration order (empty
      when the key is absent). */
  datatype Concept = Concept(units: seq<UnitFacts>)

  /** taxonomy namespace -> concept name -> concept. */
  type FactsRoot = map<string, map<string, Concept>>

  const UsGaap := "us-gaap"

  /** A flattened fact: a copy of the fact annotated with its unit ("_unit"). */
  datatype TaggedFact = TaggedFact(fact: Fact, unit: string)

  /** `form` with a missing key read as "". */
  function FormOf(f: Fact): string {
    f.form.GetOr("")
  }

  /** `filed` with a missing key read as "0000-00-00", the sort key. */
  function FiledKey(f: Fact): string {
    f.filed.GetOr("0000-00-00")
  }

  /** `facts_root.get("us-gaap", {}).get(name)`. */
  function LookupConcept(root: FactsRoot, name: string): Option<Concept> {
    if UsGaap in root && name in root[UsGaap] then Some(root[UsGaap][name]) else None
  }

  function Tag(g: UnitFacts): seq<TaggedFact> {
    seq(|g.facts|, i requires 0 <= i < |g.facts| => TaggedFact(g.facts[i], g.unit))
  }

  /** Number of facts over all units. */
  function FactCount(units: seq<UnitFacts>): nat
    decreases |units|
  {
    if |units| == 0 then 0 else |units[0].facts| + FactCount(units[1..])
  }

  /** Position of the first fact of unit `u` in the flattened list. */
  function Offset(units: seq<UnitFacts>, u: nat): nat
    requires u <= |units|
  {
    FactCount(units[..u])
  }

  function Flatten(units: seq<UnitFacts>): (flat: seq<TaggedFact>)
    ensures |flat| == FactCount(units)
    decreases |units|
  {
    if |units| == 0 then [] else Tag(units[0]) + Flatten(units[1..])
  }

  /** `_flatten_facts_for_concept(concept_obj)`, with an absent concept
      flattening to nothing. */
  function FlattenConcept(c: Option<Concept>): seq<TaggedFact> {
    match c
    case Some(concept) => Flatten(concept.units)
    case None => []
  }

  /** Fact `k` of unit `u` sits, tagged with its unit, right after all facts of
      the earlier units: flattening keeps every fact exactly once, in order. */
  lemma {:induction false} FlattenPosition(units: seq<UnitFacts>, u: nat, k: nat)
    requires u < |units| && k < |units[u].facts|
    ensures Offset(units, u) + k < |Flatten(units)|
    ensures Flatten(units)[Offset(units, u) + k] == TaggedFact(units[u].facts[k], units[u].unit)
    decreases u
  {
    if u > 0 {
      FlattenPosition(units[1..], u - 1, k);
      assert units[..u][1..] == units[1..][..u - 1];
      assert units[1..][u - 1] == units[u];
      FactCountSplit(units, u);
    } else {
      assert units[..0] == [];
    }
  }

  lemma FactCountSplit(units: seq<UnitFacts>, u: nat)
    requires 0 < u <= |units|
    ensures Offset(units, u) == |units[0].facts| + Offset(units[1..], u - 1)
  {
    assert units[..u][1..] == units[1..][..u - 1];
  }
}
