/**
 * The search index: geoname_fulltext is filled by one INSERT ... SELECT that
 * inner-joins geoname, admin1 and country and builds a display name from the
 * place, the admin1 subdivision code and name, and the country name.
 */
module SearchIndex {
  import opened Wrappers
  import opened Schema

  /** A row of geoname_fulltext; `longname` is NULL when any operand of its `||` chain is. */
  datatype FullTextRow = FullTextRow(
    geonameid: string, longname: Option<string>, asciiname: string,
    admin1: string, country: string, population: string,
    latitude: string, longitude: string, timezone: string)

  /** SQL `x || y`: NULL when either operand is NULL. */
  function Concat(x: Option<string>, y: Option<string>): Option<string>
  {
    if x.Some? && y.Some? then Some(x.value + y.value) else None
  }

  /** The `iso3166_2` value of the admin1 row with `key` (NULL when there is none). */
  function IsoOf(iso: map<string, Option<string>>, key: string): Option<string>
  {
    if key in iso then iso[key] else None
  }

  /** The WHERE clause: g.country = c.ISO AND g.country || '.' || g.admin1 = a.key. */
  predicate Joins(g: Geoname, a: Admin1, c: Country)
  {
    g.country == c.iso && g.country + "." + g.admin1 == a.key
  }

  /** g.asciiname || ', ' || a.iso3166_2 || ' ' || a.asciiname || ', ' || c.Country */
  function LongName(g: Geoname, a: Admin1, c: Country, iso: map<string, Option<string>>): Option<string>
  {
    Concat(Concat(Concat(Concat(Concat(Concat(
      Some(g.asciiname), Some(", ")), IsoOf(iso, a.key)), Some(" ")),
      Some(a.asciiname)), Some(", ")), Some(c.countryName))
  }

  /**
   * The display name is NULL exactly when the admin1 row's code is NULL;
   * otherwise it is "<place>, <code> <admin1 name>, <country>".
   */
  lemma LongNameValue(g: Geoname, a: Admin1, c: Country, iso: map<string, Option<string>>)
    ensures LongName(g, a, c, iso).None? <==> IsoOf(iso, a.key).None?
    ensures IsoOf(iso, a.key).Some? ==>
              LongName(g, a, c, iso)
                == Some(g.asciiname + ", " + IsoOf(iso, a.key).value + " " + a.asciiname + ", " + c.countryName)
  {
  }

  /** The selected columns for one joined triple. */
  function Project(g: Geoname, a: Admin1, c: Country, iso: map<string, Option<string>>): FullTextRow
  {
    FullTextRow(g.geonameid, LongName(g, a, c, iso), g.asciiname, a.asciiname,
                c.countryName, g.population, g.latitude, g.longitude, g.timezone)
  }

  /** Rows for place `g` and admin1 row `a`, over the country rows. */
  function MatchRows(g: Geoname, a: Admin1, cs: seq<Country>, iso: map<string, Option<string>>): seq<FullTextRow>
  {
    if cs == [] then []
    else (if Joins(g, a, cs[0]) then [Project(g, a, cs[0], iso)] else [])
         + MatchRows(g, a, cs[1..], iso)
  }

  /** Rows for place `g`, over the admin1 rows. */
  function PlaceRows(g: Geoname, ads: seq<Admin1>, cs: seq<Country>, iso: map<string, Option<string>>): seq<FullTextRow>
  {
    if ads == [] then [] else MatchRows(g, ads[0], cs, iso) + PlaceRows(g, ads[1..], cs, iso)
  }

  /** The rows the INSERT ... SELECT adds, place by place. */
  function FullText(gs: seq<Geoname>, ads: seq<Admin1>, cs: seq<Country>, iso: map<string, Option<string>>): seq<FullTextRow>
  {
    if gs == [] then [] else PlaceRows(gs[0], ads, cs, iso) + FullText(gs[1..], ads, cs, iso)
  }

  lemma {:induction false} MatchRowsMembership(g: Geoname, a: Admin1, cs: seq<Country>,
                                               iso: map<string, Option<string>>, r: FullTextRow)
    ensures r in MatchRows(g, a, cs, iso)
        <==> exists k :: 0 <= k < |cs| && Joins(g, a, cs[k]) && r == Project(g, a, cs[k], iso)
  {
    if cs != [] {
      MatchRowsMembership(g, a, cs[1..], iso, r);
      if r in MatchRows(g, a, cs[1..], iso) {
        var k :| 0 <= k < |cs[1..]| && Joins(g, a, cs[1..][k]) && r == Project(g, a, cs[1..][k], iso);
        assert cs[k + 1] == cs[1..][k];
      }
      if exists k :: 0 <= k < |cs| && Joins(g, a, cs[k]) && r == Project(g, a, cs[k], iso) {
        var k :| 0 <= k < |cs| && Joins(g, a, cs[k]) && r == Project(g, a, cs[k], iso);
        if k > 0 {
          assert cs[1..][k - 1] == cs[k];
        }
      }
    }
  }

  /** A row is among a place's rows iff it is among the rows of one of its admin1 candidates. */
  lemma {:induction false} PlaceRowsAdmins(g: Geoname, ads: seq<Admin1>, cs: seq<Country>,
                                           iso: map<string, Option<string>>, r: FullTextRow)
    ensures r in PlaceRows(g, ads, cs, iso) <==> exists j :: 0 <= j < |ads| && r in MatchRows(g, ads[j], cs, iso)
  {
    if ads != [] {
      PlaceRowsAdmins(g, ads[1..], cs, iso, r);
      if r in PlaceRows(g, ads[1..], cs, iso) {
        var j :| 0 <= j < |ads[1..]| && r in MatchRows(g, ads[1..][j], cs, iso);
        assert ads[j + 1] == ads[1..][j];
      }
      if exists j :: 0 <= j < |ads| && r in MatchRows(g, ads[j], cs, iso) {
        var j :| 0 <= j < |ads| && r in MatchRows(g, ads[j], cs, iso);
        if j > 0 {
          assert ads[1..][j - 1] == ads[j];
        }
      }
    }
  }

  lemma PlaceRowsMembership(g: Geoname, ads: seq<Admin1>, cs: seq<Country>,
                            iso: map<string, Option<string>>, r: FullTextRow)
    ensures r in PlaceRows(g, ads, cs, iso)
        <==> exists j, k :: 0 <= j < |ads| && 0 <= k < |cs| && Joins(g, ads[j], cs[k])
                            && r == Project(g, ads[j], cs[k], iso)
  {
    PlaceRowsAdmins(g, ads, cs, iso, r);
    forall j | 0 <= j < |ads| {
      MatchRowsMembership(g, ads[j], cs, iso, r);
    }
  }

  /** A row is in the index iff it is one of the rows of some place. */
  lemma {:induction false} FullTextPlaces(gs: seq<Geoname>, ads: seq<Admin1>, cs: seq<Country>,
                                          iso: map<string, Option<string>>, r: FullTextRow)
    ensures r in FullText(gs, ads, cs, iso) <==> exists i :: 0 <= i < |gs| && r in PlaceRows(gs[i], ads, cs, iso)
  {
    if gs != [] {
      FullTextPlaces(gs[1..], ads, cs, iso, r);
      if r in FullText(gs[1..], ads, cs, iso) {
        var i :| 0 <= i < |gs[1..]| && r in PlaceRows(gs[1..][i], ads, cs, iso);
        assert gs[i + 1] == gs[1..][i];
      }
      if exists i :: 0 <= i < |gs| && r in PlaceRows(gs[i], ads, cs, iso) {
        var i :| 0 <= i < |gs| && r in PlaceRows(gs[i], ads, cs, iso);
        if i > 0 {
          assert gs[1..][i - 1] == gs[i];
        }
      }
    }
  }

  /**
   * Inner-join semantics: a row is in the index iff it is the projection of
   * some place, admin1 row and country row that satisfy the join condition.
   */
  lemma FullTextMembership(gs: seq<Geoname>, ads: seq<Admin1>, cs: seq<Country>,
                           iso: map<string, Option<string>>, r: FullTextRow)
    ensures r in FullText(gs, ads, cs, iso)
        <==> exists i, j, k :: 0 <= i < |gs| && 0 <= j < |ads| && 0 <= k < |cs|
                               && Joins(gs[i], ads[j], cs[k]) && r == Project(gs[i], ads[j], cs[k], iso)
  {
    FullTextPlaces(gs, ads, cs, iso, r);
    forall i | 0 <= i < |gs| {
      PlaceRowsMembership(gs[i], ads, cs, iso, r);
    }
  }

  /** Primary keys: admin1 keys are distinct, and so are country ISO codes. */
  ghost predicate DistinctKeys(ads: seq<Admin1>)
  {
    forall j, m :: 0 <= j < m < |ads| ==> ads[j].key != ads[m].key
  }

  ghost predicate DistinctIsos(cs: seq<Country>)
  {
    forall k, m :: 0 <= k < m < |cs| ==> cs[k].iso != cs[m].iso
  }

  /** Whether place `g` has a matching admin1 row and country row. */
  ghost predicate Matched(g: Geoname, ads: seq<Admin1>, cs: seq<Country>)
  {
    exists j, k :: 0 <= j < |ads| && 0 <= k < |cs| && Joins(g, ads[j], cs[k])
  }

  lemma {:induction false} MatchRowsUnique(g: Geoname, a: Admin1, cs: seq<Country>,
                                           iso: map<string, Option<string>>, k: nat)
    requires DistinctIsos(cs)
    requires k < |cs| && Joins(g, a, cs[k])
    ensures MatchRows(g, a, cs, iso) == [Project(g, a, cs[k], iso)]
  {
    if k == 0 {
      assert forall m :: 0 <= m < |cs[1..]| ==> !Joins(g, a, cs[1..][m]) by {
        forall m | 0 <= m < |cs[1..]| ensures !Joins(g, a, cs[1..][m]) {
          assert cs[1..][m] == cs[m + 1];
        }
      }
      MatchRowsNone(g, a, cs[1..], iso);
    } else {
      assert !Joins(g, a, cs[0]);
      assert cs[1..][k - 1] == cs[k];
      MatchRowsUnique(g, a, cs[1..], iso, k - 1);
    }
  }

  lemma {:induction false} MatchRowsNone(g: Geoname, a: Admin1, cs: seq<Country>, iso: map<string, Option<string>>)
    requires forall m :: 0 <= m < |cs| ==> !Joins(g, a, cs[m])
    ensures MatchRows(g, a, cs, iso) == []
  {
    if cs != [] {
      assert forall m :: 0 <= m < |cs[1..]| ==> cs[1..][m] == cs[m + 1];
      MatchRowsNone(g, a, cs[1..], iso);
    }
  }

  lemma {:induction false} PlaceRowsNone(g: Geoname, ads: seq<Admin1>, cs: seq<Country>, iso: map<string, Option<string>>)
    requires forall j, k :: 0 <= j < |ads| && 0 <= k < |cs| ==> !Joins(g, ads[j], cs[k])
    ensures PlaceRows(g, ads, cs, iso) == []
  {
    if ads != [] {
      MatchRowsNone(g, ads[0], cs, iso);
      assert forall j :: 0 <= j < |ads[1..]| ==> ads[1..][j] == ads[j + 1];
      PlaceRowsNone(g, ads[1..], cs, iso);
    }
  }

  /**
   * With the primary keys distinct, a matched place contributes exactly one
   * row (the projection of its match) and an unmatched one contributes none.
   */
  lemma {:induction false} PlaceRowsOne(g: Geoname, ads: seq<Admin1>, cs: seq<Country>,
                                        iso: map<string, Option<string>>, j: nat, k: nat)
    requires DistinctKeys(ads) && DistinctIsos(cs)
    requires j < |ads| && k < |cs| && Joins(g, ads[j], cs[k])
    ensures PlaceRows(g, ads, cs, iso) == [Project(g, ads[j], cs[k], iso)]
  {
    if j == 0 {
      MatchRowsUnique(g, ads[0], cs, iso, k);
      forall j', k' | 0 <= j' < |ads[1..]| && 0 <= k' < |cs|
        ensures !Joins(g, ads[1..][j'], cs[k'])
      {
        assert ads[1..][j'] == ads[j' + 1];
      }
      PlaceRowsNone(g, ads[1..], cs, iso);
    } else {
      forall m | 0 <= m < |cs| ensures !Joins(g, ads[0], cs[m]) { }
      MatchRowsNone(g, ads[0], cs, iso);
      assert ads[1..][j - 1] == ads[j];
      PlaceRowsOne(g, ads[1..], cs, iso, j - 1, k);
    }
  }

  /** Number of places that have a matching admin1 row and country row. */
  ghost function MatchedCount(gs: seq<Geoname>, ads: seq<Admin1>, cs: seq<Country>): nat
  {
    if gs == [] then 0 else (if Matched(gs[0], ads, cs) then 1 else 0) + MatchedCount(gs[1..], ads, cs)
  }

  /** One index row per matched place, none for the others. */
  lemma {:induction false} FullTextSize(gs: seq<Geoname>, ads: seq<Admin1>, cs: seq<Country>,
                                        iso: map<string, Option<string>>)
    requires DistinctKeys(ads) && DistinctIsos(cs)
    ensures |FullText(gs, ads, cs, iso)| == MatchedCount(gs, ads, cs)
  {
    if gs != [] {
      FullTextSize(gs[1..], ads, cs, iso);
      if Matched(gs[0], ads, cs) {
        var j, k :| 0 <= j < |ads| && 0 <= k < |cs| && Joins(gs[0], ads[j], cs[k]);
        PlaceRowsOne(gs[0], ads, cs, iso, j, k);
      } else {
        PlaceRowsNone(gs[0], ads, cs, iso);
      }
    }
  }
}
