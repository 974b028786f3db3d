/** What the health check reads back from the matrix facts that promotion writes. */
module FactClaims {
  import opened Common
  import opened Text
  import opened FactRecords
  import opened FactHealth
  import FactPromotion

  /** A word that trimming leaves alone and that holds no space. */
  predicate Solid(s: string) { s != [] && Trimmed(s) && ' ' !in s }

  function Spoken(c: Claim): string { c.entity + " " + c.attribute + " " + c.value }

  lemma TrimShortens(s: string)
    ensures |Trim(s)| <= |s| && (|Trim(s)| == |s| ==> Trim(s) == s)
  {
  }

  lemma SpacesAt(c: Claim)
    ensures var s := Spoken(c);
            var i, j := |c.entity|, |c.entity| + 1 + |c.attribute|;
            && j < |s| && s[i] == ' ' && s[j] == ' '
            && s[..i] == c.entity && s[i + 1..j] == c.attribute && s[j + 1..] == c.value
  {
  }

  lemma SpacesFirst(c: Claim)
    ensures var i, j := |c.entity|, |c.entity| + 1 + |c.attribute|;
            && (FirstSpace(Spoken(c), 0, i) <==> ' ' !in c.entity)
            && (FirstSpace(Spoken(c), i + 1, j) <==> ' ' !in c.attribute)
  {
    var s := Spoken(c);
    var i, j := |c.entity|, |c.entity| + 1 + |c.attribute|;
    SpacesAt(c);
    assert forall k :: 0 <= k < i ==> s[k] == c.entity[k];
    assert forall k :: i + 1 <= k < j ==> s[k] == c.attribute[k - i - 1];
    assert forall k :: 0 <= k < |c.attribute| ==> c.attribute[k] == s[k + i + 1];
  }

  lemma SolidIsSaid(c: Claim)
    requires Solid(c.entity) && Solid(c.attribute) && c.value != [] && Trimmed(c.value)
    ensures ParseClaim(Spoken(c)) == Some(c)
  {
    SpacesAt(c);
    SpacesFirst(c);
    TrimOfTrimmed(c.entity);
    TrimOfTrimmed(c.attribute);
    TrimOfTrimmed(c.value);
    SaidIsParsed(Spoken(c), |c.entity|, |c.entity| + 1 + |c.attribute|, c);
  }

  lemma SaidAtItsSpaces(c: Claim, i: int, j: int)
    requires Says(Spoken(c), i, j, c)
    ensures i == |c.entity| && j == |c.entity| + 1 + |c.attribute|
  {
    var s := Spoken(c);
    SpacesAt(c);
    TrimShortens(s[..i]);
    assert i == |c.entity|;
    TrimShortens(s[i + 1..j]);
  }

  lemma SaidIsSolid(c: Claim, i: int, j: int)
    requires Says(Spoken(c), i, j, c)
    ensures Solid(c.entity) && Solid(c.attribute) && c.value != [] && Trimmed(c.value)
  {
    var s := Spoken(c);
    SaidAtItsSpaces(c, i, j);
    SpacesAt(c);
    TrimIsTrimmed(s[..i]);
    TrimIsTrimmed(s[i + 1..j]);
    TrimIsTrimmed(s[j + 1..]);
    SpacesFirst(c);
  }

  /** The health check reads the claim of a promoted matrix fact back if and only if none of its parts is empty or has
      outer white space, and neither the entity nor the attribute holds a space. */
  lemma PromotedClaimExactly(g: FactPromotion.Growth, freshId: string, now: int)
    requires g.MatrixFact? && FactPromotion.Plan(g, freshId, now).1.Some?
    ensures ClaimOf(FactPromotion.Plan(g, freshId, now).1.value) == Some(Claim(g.entity, g.attribute, g.value))
            <==> Solid(g.entity) && Solid(g.attribute) && g.value != [] && Trimmed(g.value)
  {
    var c := Claim(g.entity, g.attribute, g.value);
    var f := FactPromotion.Plan(g, freshId, now).1.value;
    assert f.statement == Spoken(c) && "matrix." <= f.factType;
    if ClaimOf(f) == Some(c) {
      var i, j := ParsedIsSaid(f.statement, c);
      SaidIsSolid(c, i, j);
    }
    if Solid(g.entity) && Solid(g.attribute) && g.value != [] && Trimmed(g.value) {
      SolidIsSaid(c);
    }
  }

  /** An entity of two words is read as an entity and an attribute. */
  lemma TwoWordsMisread(now: int)
    ensures var g := FactPromotion.MatrixFact("m", "New York", "mayor", "A", ["e"], Some(7000), Observed, true);
            && FactPromotion.Plan(g, "", now).1.Some?
            && ClaimOf(FactPromotion.Plan(g, "", now).1.value) == Some(Claim("New", "York", "mayor A"))
  {
    var g := FactPromotion.MatrixFact("m", "New York", "mayor", "A", ["e"], Some(7000), Observed, true);
    var f := FactPromotion.Plan(g, "", now).1.value;
    var c := Claim("New", "York", "mayor A");
    assert f.statement == "New York mayor A" == Spoken(c);
    SolidIsSaid(c);
  }
}
