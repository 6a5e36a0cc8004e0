/**
 * Crop recommendations: the crops stored for a season and a soil type,
 * narrowed, when a climate is given, to those whose climate matches it
 * regardless of case.
 */
module CropService {
  import opened Common
  import opened Text
  import opened Seqs
  import opened Entities

  /** `findBySeasonAndSoilType`: the crops, in scan order, whose season and
      soil type equal the parameters; a null on either side selects
      nothing. */
  function FindBySeasonAndSoilType(crops: seq<Crop>, season: Option<string>, soilType: Option<string>)
    : (r: seq<Crop>)
    ensures IsSubsequence(r, crops)
    ensures forall c ::
      multiset(r)[c] == if SqlEquals(c.season, season) && SqlEquals(c.soilType, soilType) then multiset(crops)[c] else 0
    ensures forall c :: c in r <==>
      c in crops && season.Some? && soilType.Some? && c.season == season && c.soilType == soilType
  {
    Filter(crops, (c: Crop) => SqlEquals(c.season, season) && SqlEquals(c.soilType, soilType))
  }

  /** `getCropRecommendations`: a null or empty climate leaves the season
      and soil matches as they are; any other climate keeps, in order, the
      matches whose climate equals it ignoring case, so a crop with no
      climate is never recommended then. */
  function GetCropRecommendations(crops: seq<Crop>, season: Option<string>, soilType: Option<string>,
                                  climate: Option<string>): (r: seq<Crop>)
    ensures IsSubsequence(r, FindBySeasonAndSoilType(crops, season, soilType))
    ensures climate.None? || climate.value == "" ==> r == FindBySeasonAndSoilType(crops, season, soilType)
    ensures climate.Some? && climate.value != "" ==>
      forall c :: multiset(r)[c] ==
        if EqualsIgnoreCase(climate.value, c.climate) then multiset(FindBySeasonAndSoilType(crops, season, soilType))[c]
        else 0
    ensures climate.Some? && climate.value != "" ==>
      forall c :: c in r <==>
        c in FindBySeasonAndSoilType(crops, season, soilType) && EqualsIgnoreCase(climate.value, c.climate)
    ensures climate.Some? && climate.value != "" ==> forall c :: c in r ==> c.climate.Some?
  {
    var matches := FindBySeasonAndSoilType(crops, season, soilType);
    if climate.Some? && climate.value != "" then
      Filter(matches, (c: Crop) => EqualsIgnoreCase(climate.value, c.climate))
    else
      SubsequenceOfSelf(matches);
      matches
  }

  /** Two filters whose predicates agree on every row of `s` select the
      same rows. */
  lemma {:induction false} FilterAgreeing<T(!new)>(s: seq<T>, p: T -> bool, q: T -> bool)
    requires forall x :: x in s ==> p(x) == q(x)
    ensures Filter(s, p) == Filter(s, q)
    decreases |s|
  {
    if s != [] {
      assert forall x :: x in s[1..] ==> x in s;
      FilterAgreeing(s[1..], p, q);
    }
  }

  /** Equality ignoring case is transitive. */
  lemma EqualsIgnoreCaseTransitive(a: string, b: string, c: Option<string>)
    requires EqualsIgnoreCase(a, Some(b)) && EqualsIgnoreCase(b, c)
    ensures EqualsIgnoreCase(a, c)
  {
  }

  /** Asking for a climate in another case gives the same
      recommendations. */
  lemma ClimateCaseInsensitive(crops: seq<Crop>, season: Option<string>, soilType: Option<string>,
                               climate: string, other: string)
    requires climate != "" && EqualsIgnoreCase(climate, Some(other))
    ensures GetCropRecommendations(crops, season, soilType, Some(climate))
         == GetCropRecommendations(crops, season, soilType, Some(other))
  {
    var matches := FindBySeasonAndSoilType(crops, season, soilType);
    EqualsIgnoreCaseSymmetric(climate, other);
    forall c: Crop
      ensures EqualsIgnoreCase(climate, c.climate) == EqualsIgnoreCase(other, c.climate)
    {
      if EqualsIgnoreCase(climate, c.climate) {
        EqualsIgnoreCaseTransitive(other, climate, c.climate);
      }
      if EqualsIgnoreCase(other, c.climate) {
        EqualsIgnoreCaseTransitive(climate, other, c.climate);
      }
    }
    FilterAgreeing(matches, (c: Crop) => EqualsIgnoreCase(climate, c.climate),
                   (c: Crop) => EqualsIgnoreCase(other, c.climate));
  }

  /** A filter every row passes keeps the whole sequence. */
  lemma {:induction false} FilterKeepsAll<T(!new)>(s: seq<T>, p: T -> bool)
    requires forall x :: x in s ==> p(x)
    ensures Filter(s, p) == s
    decreases |s|
  {
    if s != [] {
      assert forall x :: x in s[1..] ==> x in s;
      FilterKeepsAll(s[1..], p);
      assert s == [s[0]] + s[1..];
    }
  }

  /** Recommending again from the recommendations, with the same
      parameters, changes nothing. */
  lemma RecommendationsStable(crops: seq<Crop>, season: Option<string>, soilType: Option<string>,
                              climate: Option<string>)
    ensures var r := GetCropRecommendations(crops, season, soilType, climate);
      GetCropRecommendations(r, season, soilType, climate) == r
  {
    var r := GetCropRecommendations(crops, season, soilType, climate);
    FilterKeepsAll(r, (c: Crop) => SqlEquals(c.season, season) && SqlEquals(c.soilType, soilType));
    if climate.Some? && climate.value != "" {
      FilterKeepsAll(r, (c: Crop) => EqualsIgnoreCase(climate.value, c.climate));
    }
  }
}
