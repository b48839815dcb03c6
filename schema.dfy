/**
 * The three base tables of the store, one record per row, with the columns
 * in the order the CREATE TABLE statements declare them. Every value is kept
 * as the text the loader bound; nothing is parsed.
 */
module Schema {

  /** A row of `country` (19 columns). */
  datatype Country = Country(
    iso: string, iso3: string, isoNumeric: string, fips: string,
    countryName: string, capital: string, area: string, population: string,
    continent: string, tld: string, currencyCode: string, currencyName: string,
    phone: string, postalCodeFormat: string, postalCodeRegex: string,
    languages: string, geonameid: string, neighbours: string,
    equivalentFipsCode: string)

  /** A row of `geoname` (19 columns). */
  datatype Geoname = Geoname(
    geonameid: string, name: string, asciiname: string, alternatenames: string,
    latitude: string, longitude: string, fclass: string, fcode: string,
    country: string, cc2: string, admin1: string, admin2: string,
    admin3: string, admin4: string, population: string, elevation: string,
    gtopo30: string, timezone: string, moddate: string)

  /** A row of `admin1` without the column added after loading. */
  datatype Admin1 = Admin1(key: string, name: string, asciiname: string, geonameid: string)

  const CountryColumns := 19
  const GeonameColumns := 19
  const Admin1Columns := 4

  function CountryOfRow(r: seq<string>): Country
    requires |r| == CountryColumns
  {
    Country(r[0], r[1], r[2], r[3], r[4], r[5], r[6], r[7], r[8], r[9],
            r[10], r[11], r[12], r[13], r[14], r[15], r[16], r[17], r[18])
  }

  function GeonameOfRow(r: seq<string>): Geoname
    requires |r| == GeonameColumns
  {
    Geoname(r[0], r[1], r[2], r[3], r[4], r[5], r[6], r[7], r[8], r[9],
            r[10], r[11], r[12], r[13], r[14], r[15], r[16], r[17], r[18])
  }

  function Admin1OfRow(r: seq<string>): Admin1
    requires |r| == Admin1Columns
  {
    Admin1(r[0], r[1], r[2], r[3])
  }

  /** The `key` column of `admin1`, in table order. */
  function Keys(rows: seq<Admin1>): (ks: seq<string>)
    ensures |ks| == |rows|
    ensures forall i :: 0 <= i < |rows| ==> ks[i] == rows[i].key
  {
    if rows == [] then [] else Keys(rows[..|rows| - 1]) + [rows[|rows| - 1].key]
  }
}
