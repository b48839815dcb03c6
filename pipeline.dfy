/**
 * The import run after the files are on disk: load country, geoname and
 * admin1 in that order, add and fill the iso3166_2 column, then build the
 * search index from the three tables.
 */
module Pipeline {
  import opened Wrappers
  import opened Text
  import opened Schema
  import opened BulkLoader
  import opened Iso3166
  import opened SearchIndex

  /** The dataset size selector; it names the cities file. */
  const CityCount := 15000

  const CountryFile := "countryInfo.txt"
  const Admin1File := "admin1CodesASCII.txt"
  const CitiesFile := "cities15000.txt"

  /** The cities file is named after the dataset size. */
  lemma CitiesFileName()
    ensures CitiesFile == "cities" + DecimalString(CityCount) + ".txt"
  {
    assert DecimalString(15000) == "15000" by {
      assert DecimalString(1) == "1";
      assert DecimalString(15) == "15";
      assert DecimalString(150) == "150";
      assert DecimalString(1500) == "1500";
    }
  }

  /** The store when the run ends: the three tables, the added column, the index, the warnings. */
  datatype Store = Store(
    countries: seq<Country>, geonames: seq<Geoname>, admin1: seq<Admin1>,
    iso3166_2: map<string, Option<string>>, fulltext: seq<FullTextRow>,
    warnings: seq<Diagnostic>)

  function Countries(rows: seq<seq<string>>): seq<Country>
    requires forall k :: 0 <= k < |rows| ==> |rows[k]| == CountryColumns
  {
    seq(|rows|, k requires 0 <= k < |rows| => CountryOfRow(rows[k]))
  }

  function Geonames(rows: seq<seq<string>>): seq<Geoname>
    requires forall k :: 0 <= k < |rows| ==> |rows[k]| == GeonameColumns
  {
    seq(|rows|, k requires 0 <= k < |rows| => GeonameOfRow(rows[k]))
  }

  function Admin1s(rows: seq<seq<string>>): seq<Admin1>
    requires forall k :: 0 <= k < |rows| ==> |rows[k]| == Admin1Columns
  {
    seq(|rows|, k requires 0 <= k < |rows| => Admin1OfRow(rows[k]))
  }

  /** The column as "ALTER TABLE admin1 ADD iso3166_2" leaves it: NULL in every row. */
  function NullColumn(rows: seq<Admin1>): map<string, Option<string>>
  {
    map k | k in Keys(rows) :: None
  }

  /** Every admin1 line that gets loaded has a key the enricher can process. */
  predicate Admin1KeysResolvable(lines: seq<string>)
  {
    forall m :: 0 <= m < |lines| && !IsComment(lines[m]) && |Split(lines[m], Tab)| == Admin1Columns
      ==> Resolvable(Split(lines[m], Tab)[0])
  }

  lemma Admin1RowsResolvable(lines: seq<string>)
    requires Admin1KeysResolvable(lines)
    ensures forall k :: 0 <= k < |Load(Admin1File, Admin1Columns, lines).rows| ==>
              var row := Load(Admin1File, Admin1Columns, lines).rows[k];
              |row| == Admin1Columns && Resolvable(row[0])
  {
    var rows := Load(Admin1File, Admin1Columns, lines).rows;
    LoadRowsWidth(Admin1File, Admin1Columns, lines);
    forall k | 0 <= k < |rows| ensures Resolvable(rows[k][0]) {
      LoadRowOrigin(Admin1File, Admin1Columns, lines, k);
    }
  }

  /** The store once the three tables are loaded: the enriched column and the index. */
  function Assemble(cs: seq<Country>, gs: seq<Geoname>, ads: seq<Admin1>, warnings: seq<Diagnostic>): Store
    requires forall k :: k in Keys(ads) ==> Resolvable(k)
  {
    var iso := Enriched(Keys(ads), NullColumn(ads));
    Store(cs, gs, ads, iso, FullText(gs, ads, cs, iso), warnings)
  }

  /** The store a run leaves, stage by stage. */
  function Build(countryLines: seq<string>, cityLines: seq<string>, admin1Lines: seq<string>): Store
    requires Admin1KeysResolvable(admin1Lines)
  {
    var country := Load(CountryFile, CountryColumns, countryLines);
    var geoname := Load(CitiesFile, GeonameColumns, cityLines);
    var admin1 := Load(Admin1File, Admin1Columns, admin1Lines);
    LoadRowsWidth(CountryFile, CountryColumns, countryLines);
    LoadRowsWidth(CitiesFile, GeonameColumns, cityLines);
    Admin1RowsResolvable(admin1Lines);
    var ads := Admin1s(admin1.rows);
    assert forall k :: k in Keys(ads) ==> Resolvable(k);
    Assemble(Countries(country.rows), Geonames(geoname.rows), ads,
             country.diagnostics + geoname.diagnostics + admin1.diagnostics)
  }

  /** Build, stated over the three loader results. */
  lemma BuildStages(countryLines: seq<string>, cityLines: seq<string>, admin1Lines: seq<string>)
    requires Admin1KeysResolvable(admin1Lines)
    ensures forall k :: 0 <= k < |Load(CountryFile, CountryColumns, countryLines).rows| ==>
              |Load(CountryFile, CountryColumns, countryLines).rows[k]| == CountryColumns
    ensures forall k :: 0 <= k < |Load(CitiesFile, GeonameColumns, cityLines).rows| ==>
              |Load(CitiesFile, GeonameColumns, cityLines).rows[k]| == GeonameColumns
    ensures forall k :: 0 <= k < |Load(Admin1File, Admin1Columns, admin1Lines).rows| ==>
              |Load(Admin1File, Admin1Columns, admin1Lines).rows[k]| == Admin1Columns
    ensures forall k :: k in Keys(Admin1s(Load(Admin1File, Admin1Columns, admin1Lines).rows)) ==> Resolvable(k)
    ensures Build(countryLines, cityLines, admin1Lines)
         == Assemble(Countries(Load(CountryFile, CountryColumns, countryLines).rows),
                     Geonames(Load(CitiesFile, GeonameColumns, cityLines).rows),
                     Admin1s(Load(Admin1File, Admin1Columns, admin1Lines).rows),
                     Load(CountryFile, CountryColumns, countryLines).diagnostics
                       + Load(CitiesFile, GeonameColumns, cityLines).diagnostics
                       + Load(Admin1File, Admin1Columns, admin1Lines).diagnostics)
  {
    LoadRowsWidth(CountryFile, CountryColumns, countryLines);
    LoadRowsWidth(CitiesFile, GeonameColumns, cityLines);
    Admin1RowsResolvable(admin1Lines);
    var ads := Admin1s(Load(Admin1File, Admin1Columns, admin1Lines).rows);
    assert forall k :: k in Keys(ads) ==> Resolvable(k);
  }

  /** Lines 57-79: add the column, run the enrichment pass, fill the index. */
  method EnrichAndIndex(cs: seq<Country>, gs: seq<Geoname>, ads: seq<Admin1>, warnings: seq<Diagnostic>)
    returns (store: Store)
    requires forall k :: k in Keys(ads) ==> Resolvable(k)
    ensures store == Assemble(cs, gs, ads, warnings)
  {
    var table := new Admin1Table(ads);
    assert table.iso3166_2 == NullColumn(ads);
    table.Enrich();
    store := Store(cs, gs, table.rows, table.iso3166_2, FullText(gs, table.rows, cs, table.iso3166_2), warnings);
  }

  /** The run: three loads, the enrichment pass, the index. */
  method Run(countryLines: seq<string>, cityLines: seq<string>, admin1Lines: seq<string>) returns (store: Store)
    requires Admin1KeysResolvable(admin1Lines)
    ensures store == Build(countryLines, cityLines, admin1Lines)
  {
    var _, countryRows, countryWarnings, _, _ := DoFile(CountryFile, "country", CountryColumns, countryLines);
    var _, cityRows, cityWarnings, _, _ := DoFile(CitiesFile, "geoname", GeonameColumns, cityLines);
    var _, admin1Rows, admin1Warnings, _, _ := DoFile(Admin1File, "admin1", Admin1Columns, admin1Lines);
    BuildStages(countryLines, cityLines, admin1Lines);
    var cs := Countries(countryRows);
    var gs := Geonames(cityRows);
    var ads := Admin1s(admin1Rows);
    var warnings := countryWarnings + cityWarnings + admin1Warnings;
    store := EnrichAndIndex(cs, gs, ads, warnings);
  }

  /** What the index shows for a matched triple: its code, or NULL where none was written. */
  function DisplayRow(g: Geoname, a: Admin1, c: Country): FullTextRow
    requires Resolvable(a.key)
  {
    var longname := match Resolve(a.key)
      case None => None
      case Some(code) => Some(g.asciiname + ", " + code + " " + a.asciiname + ", " + c.countryName);
    FullTextRow(g.geonameid, longname, g.asciiname, a.asciiname, c.countryName,
                g.population, g.latitude, g.longitude, g.timezone)
  }

  /** The column holds every admin1 row's resolution. */
  ghost predicate ColumnResolved(ads: seq<Admin1>, iso: map<string, Option<string>>)
  {
    forall j :: 0 <= j < |ads| ==>
      Resolvable(ads[j].key) && ads[j].key in iso && iso[ads[j].key] == Resolve(ads[j].key)
  }

  /**
   * After a run every admin1 row holds its resolution in iso3166_2, and it
   * stays NULL exactly where no UPDATE was issued.
   */
  lemma StoreIsoColumn(countryLines: seq<string>, cityLines: seq<string>, admin1Lines: seq<string>,
                       st: Store)
    requires Admin1KeysResolvable(admin1Lines)
    requires st == Build(countryLines, cityLines, admin1Lines)
    ensures ColumnResolved(st.admin1, st.iso3166_2)
  {
    BuildStages(countryLines, cityLines, admin1Lines);
    AssembledColumn(st.admin1);
  }

  /** The enrichment pass over the freshly added column resolves every row. */
  lemma AssembledColumn(ads: seq<Admin1>)
    requires forall k :: k in Keys(ads) ==> Resolvable(k)
    ensures ColumnResolved(ads, Enriched(Keys(ads), NullColumn(ads)))
  {
    var keys := Keys(ads);
    forall j | 0 <= j < |ads|
      ensures Resolvable(ads[j].key) && ads[j].key in Enriched(keys, NullColumn(ads))
      ensures Enriched(keys, NullColumn(ads))[ads[j].key] == Resolve(ads[j].key)
    {
      assert keys[j] == ads[j].key;
      EnrichedFromNull(keys, NullColumn(ads), ads[j].key);
    }
  }

  /** Over a resolved column, the index rows are the display rows of the joining triples. */
  lemma IndexRows(gs: seq<Geoname>, ads: seq<Admin1>, cs: seq<Country>,
                  iso: map<string, Option<string>>, r: FullTextRow)
    requires ColumnResolved(ads, iso)
    ensures r in FullText(gs, ads, cs, iso)
        <==> exists i, j, k :: 0 <= i < |gs| && 0 <= j < |ads| && 0 <= k < |cs|
                               && Joins(gs[i], ads[j], cs[k]) && r == DisplayRow(gs[i], ads[j], cs[k])
  {
    FullTextMembership(gs, ads, cs, iso, r);
    forall i, j, k | 0 <= i < |gs| && 0 <= j < |ads| && 0 <= k < |cs|
      ensures Project(gs[i], ads[j], cs[k], iso) == DisplayRow(gs[i], ads[j], cs[k])
    {
      LongNameValue(gs[i], ads[j], cs[k], iso);
    }
  }

  /** The index of an assembled store, stated over its display rows. */
  lemma AssembledIndex(cs: seq<Country>, gs: seq<Geoname>, ads: seq<Admin1>, warnings: seq<Diagnostic>,
                       r: FullTextRow)
    requires forall k :: k in Keys(ads) ==> Resolvable(k)
    ensures r in Assemble(cs, gs, ads, warnings).fulltext
        <==> exists i, j, k :: 0 <= i < |gs| && 0 <= j < |ads| && 0 <= k < |cs|
                               && Joins(gs[i], ads[j], cs[k]) && Resolvable(ads[j].key)
                               && r == DisplayRow(gs[i], ads[j], cs[k])
  {
    AssembledColumn(ads);
    IndexRows(gs, ads, cs, Enriched(Keys(ads), NullColumn(ads)), r);
  }

  /**
   * The index of a run: every row comes from a place, an admin1 row and a
   * country row that join, and carries the display name built from the
   * resolved code (NULL where none was written); every joining triple gives
   * such a row.
   */
  lemma StoreIndex(countryLines: seq<string>, cityLines: seq<string>, admin1Lines: seq<string>,
                   st: Store, r: FullTextRow)
    requires Admin1KeysResolvable(admin1Lines)
    requires st == Build(countryLines, cityLines, admin1Lines)
    ensures r in st.fulltext
        <==> exists i, j, k :: 0 <= i < |st.geonames| && 0 <= j < |st.admin1| && 0 <= k < |st.countries|
                               && Joins(st.geonames[i], st.admin1[j], st.countries[k])
                               && Resolvable(st.admin1[j].key)
                               && r == DisplayRow(st.geonames[i], st.admin1[j], st.countries[k])
  {
    BuildStages(countryLines, cityLines, admin1Lines);
    AssembledIndex(st.countries, st.geonames, st.admin1, st.warnings, r);
  }
}
