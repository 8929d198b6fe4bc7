/** Which pairs of subjects may not be examined on the same calendar day.
    A subject belongs to a category when its upper-cased name contains one
    of the category's keys. */
module ConflictRules {
  import opened Strings

  const MathGroup: seq<string> := ["MATES", "MATES CS", "MATEMÀTIQUES"]
  const SpanishGroup: seq<string> := ["CASTELLÀ", "LLENGUA CASTELLANA"]
  const CatalanGroup: seq<string> := ["CATALÀ", "LLENGUA CATALANA"]
  const LitCatalanGroup: seq<string> := ["LIT CATALANA", "LITERATURA CATALANA"]
  const PhysicsGroup: seq<string> := ["FÍSICA"]
  const EconGroup: seq<string> := ["ECONOMIA"]
  const BusinessGroup: seq<string> := ["F. EMPRESA", "EMPRESA", "NEGOCI"]
  const DrawingGroup: seq<string> := ["DIBUIX", "DIBUIX TÈCNIC"]
  /** Science and technology; mathematics is not part of it. */
  const SciTechGroup: seq<string> :=
    ["FÍSICA", "QUÍMICA", "BIOLOGIA", "TECNOLOGIA", "GEOLOGIA", "CIÈNCIES DE LA TERRA", "ELECTROTÈCNIA"]

  /** `group.some(k => name.includes(k))` */
  predicate InGroup(name: string, group: seq<string>) {
    exists k :: 0 <= k < |group| && Contains(name, group[k])
  }

  /** Whether the subjects `subA` and `subB` may not share a calendar day,
      checked rule by rule in the order the scheduler checks them. */
  function IsDayIncompatible(subA: string, subB: string): bool {
    var a := Upper(subA);
    var b := Upper(subB);
    var isMathA := InGroup(a, MathGroup);
    var isSpanA := InGroup(a, SpanishGroup);
    var isMathB := InGroup(b, MathGroup);
    var isSpanB := InGroup(b, SpanishGroup);
    if (isMathA && isSpanB) || (isSpanA && isMathB) then true
    else
      var isPhysA := InGroup(a, PhysicsGroup);
      var isPhysB := InGroup(b, PhysicsGroup);
      if (isMathA && isPhysB) || (isPhysA && isMathB) then true
      else
        var isCatA := InGroup(a, CatalanGroup);
        var isCatB := InGroup(b, CatalanGroup);
        if (isCatA && isSpanB) || (isSpanA && isCatB) then true
        else if (isCatA && isMathB) || (isMathA && isCatB) then true
        else
          var isLitCatA := InGroup(a, LitCatalanGroup);
          var isLitCatB := InGroup(b, LitCatalanGroup);
          if (isCatA && isLitCatB) || (isLitCatA && isCatB) then true
          else
            var isEconA := InGroup(a, EconGroup);
            var isBusA := InGroup(a, BusinessGroup);
            var isEconB := InGroup(b, EconGroup);
            var isBusB := InGroup(b, BusinessGroup);
            if (isEconA && isBusB) || (isBusA && isEconB) then true
            else
              var isSciTechA := InGroup(a, SciTechGroup);
              var isSciTechB := InGroup(b, SciTechGroup);
              if isSciTechA && isSciTechB then true
              else
                var isDrawA := InGroup(a, DrawingGroup);
                var isDrawB := InGroup(b, DrawingGroup);
                if (isDrawA && isSciTechB) || (isSciTechA && isDrawB) then true
                else false
  }

  /** The same rules as a declarative table: pairs of categories that clash
      in either order, and categories whose members clash with each other. */
  const ClashingPairs: seq<(seq<string>, seq<string>)> := [
    (MathGroup, SpanishGroup),
    (MathGroup, PhysicsGroup),
    (CatalanGroup, SpanishGroup),
    (CatalanGroup, MathGroup),
    (CatalanGroup, LitCatalanGroup),
    (EconGroup, BusinessGroup),
    (DrawingGroup, SciTechGroup)
  ]
  const ExclusiveGroups: seq<seq<string>> := [SciTechGroup]

  predicate PairClash(a: string, b: string, rule: (seq<string>, seq<string>)) {
    (InGroup(a, rule.0) && InGroup(b, rule.1)) || (InGroup(a, rule.1) && InGroup(b, rule.0))
  }

  predicate IncompatibleByTable(subA: string, subB: string) {
    var a, b := Upper(subA), Upper(subB);
    (exists r :: 0 <= r < |ClashingPairs| && PairClash(a, b, ClashingPairs[r])) ||
    (exists g :: 0 <= g < |ExclusiveGroups| && InGroup(a, ExclusiveGroups[g]) && InGroup(b, ExclusiveGroups[g]))
  }

  /** The rule-by-rule check decides exactly what the table says. */
  lemma IncompatibleMatchesTable(subA: string, subB: string)
    ensures IsDayIncompatible(subA, subB) <==> IncompatibleByTable(subA, subB)
  {
    var a, b := Upper(subA), Upper(subB);
    if IsDayIncompatible(subA, subB) {
      if (InGroup(a, MathGroup) && InGroup(b, SpanishGroup)) || (InGroup(a, SpanishGroup) && InGroup(b, MathGroup)) {
        assert PairClash(a, b, ClashingPairs[0]);
      } else if (InGroup(a, MathGroup) && InGroup(b, PhysicsGroup)) || (InGroup(a, PhysicsGroup) && InGroup(b, MathGroup)) {
        assert PairClash(a, b, ClashingPairs[1]);
      } else if (InGroup(a, CatalanGroup) && InGroup(b, SpanishGroup)) || (InGroup(a, SpanishGroup) && InGroup(b, CatalanGroup)) {
        assert PairClash(a, b, ClashingPairs[2]);
      } else if (InGroup(a, CatalanGroup) && InGroup(b, MathGroup)) || (InGroup(a, MathGroup) && InGroup(b, CatalanGroup)) {
        assert PairClash(a, b, ClashingPairs[3]);
      } else if (InGroup(a, CatalanGroup) && InGroup(b, LitCatalanGroup)) || (InGroup(a, LitCatalanGroup) && InGroup(b, CatalanGroup)) {
        assert PairClash(a, b, ClashingPairs[4]);
      } else if (InGroup(a, EconGroup) && InGroup(b, BusinessGroup)) || (InGroup(a, BusinessGroup) && InGroup(b, EconGroup)) {
        assert PairClash(a, b, ClashingPairs[5]);
      } else if InGroup(a, SciTechGroup) && InGroup(b, SciTechGroup) {
        assert InGroup(a, ExclusiveGroups[0]) && InGroup(b, ExclusiveGroups[0]);
      } else {
        assert PairClash(a, b, ClashingPairs[6]);
      }
    }
    if IncompatibleByTable(subA, subB) {
      if exists r :: 0 <= r < |ClashingPairs| && PairClash(a, b, ClashingPairs[r]) {
        var r :| 0 <= r < |ClashingPairs| && PairClash(a, b, ClashingPairs[r]);
        assert r in {0, 1, 2, 3, 4, 5, 6};
      }
    }
  }

  /** The order of the two subjects does not matter. */
  lemma IncompatibleSymmetric(subA: string, subB: string)
    ensures IsDayIncompatible(subA, subB) == IsDayIncompatible(subB, subA)
  {
  }
}
