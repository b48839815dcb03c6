/**
 * The admin1 enricher: after loading, the `admin1` table gains an
 * `iso3166_2` column (NULL everywhere), then every row is visited once and
 * its key "<country>.<admin1 code>" is resolved to the suffix of an
 * ISO 3166-2 subdivision code (the part after "CA-" or "AU-"). The resolved
 * code is written back to that row only.
 */
module Iso3166 {
  import opened Wrappers
  import opened Text
  import opened Schema

  /**
   * The built-in per-country table from admin1 code to ISO 3166-2 suffix.
   * It covers Canada and Australia only (not the United States, which is
   * handled by pass-through), maps to non-empty codes only, and has no
   * entry for Canada's "06".
   */
  function Admin1IsoCodes(): (m: map<string, map<string, string>>)
    ensures m.Keys == {"CA", "AU"}
    ensures forall c, a :: c in m && a in m[c] ==> m[c][a] != ""
    ensures "06" !in m["CA"]
  {
    map[
      "CA" := map[
        "01" := "AB", "02" := "BC", "03" := "MB", "04" := "NB", "05" := "NL",
        "07" := "NS", "08" := "ON", "09" := "PE", "10" := "QC", "11" := "SK",
        "12" := "YT", "13" := "NT", "14" := "NU"],
      "AU" := map[
        "01" := "ACT", "02" := "NSW", "03" := "NT", "04" := "QLD",
        "05" := "SA", "06" := "TAS", "07" := "VIC", "08" := "WA"]
    ]
  }

  /** The country that passes its admin1 codes through unchanged. */
  const PassThroughCountry := "US"

  /**
   * A key the enricher can process: it reads the second piece of the key
   * whenever the first piece is a looked-up or the pass-through country, so
   * such keys must contain a '.'.
   */
  predicate Resolvable(key: string)
  {
    var codes := Split(key, '.');
    |codes| >= 2 || (codes[0] !in Admin1IsoCodes() && codes[0] != PassThroughCountry)
  }

  /**
   * The value written for `key`, or None when no UPDATE is issued (the
   * country is in the table but the admin1 code is not).
   */
  function Resolve(key: string): Option<string>
    requires Resolvable(key)
  {
    var codes := Split(key, '.');
    var lookup := Admin1IsoCodes();
    if codes[0] in lookup then
      if codes[1] in lookup[codes[0]] then Some(lookup[codes[0]][codes[1]]) else None
    else if codes[0] == PassThroughCountry then Some(codes[1])
    else Some("")
  }

  /**
   * Resolution of "<country>.<code>" in priority order: the per-country table
   * (no update when the code is missing from it), then the pass-through
   * country, then the empty code.
   */
  lemma ResolveByParts(country: string, code: string)
    requires '.' !in country && '.' !in code
    ensures Resolvable(country + "." + code)
    ensures var lookup := Admin1IsoCodes();
            Resolve(country + "." + code)
              == if country in lookup then
                   (if code in lookup[country] then Some(lookup[country][code]) else None)
                 else if country == PassThroughCountry then Some(code)
                 else Some("")
  {
    assert Join([country, code], '.') == country + "." + code;
    SplitJoin([country, code], '.');
  }

  /** "CA.01" resolves through the Canadian table to "AB". */
  lemma ResolveCanada()
    ensures Resolve("CA.01") == Some("AB")
  {
    var lookup := Admin1IsoCodes();
    assert "CA" in lookup && "01" in lookup["CA"] && lookup["CA"]["01"] == "AB";
    ResolveByParts("CA", "01");
    assert "CA" + "." + "01" == "CA.01";
  }

  /** "AU.02" resolves through the Australian table to "NSW". */
  lemma ResolveAustralia()
    ensures Resolve("AU.02") == Some("NSW")
  {
    var lookup := Admin1IsoCodes();
    assert "AU" in lookup && "02" in lookup["AU"] && lookup["AU"]["02"] == "NSW";
    ResolveByParts("AU", "02");
    assert "AU" + "." + "02" == "AU.02";
  }

  /** "CA.06": Canada is in the table but "06" is not, so no value is written. */
  lemma ResolveCanadaUnmapped()
    ensures Resolve("CA.06") == None
  {
    ResolveByParts("CA", "06");
    assert "CA" + "." + "06" == "CA.06";
  }

  /** "US.06" passes its admin1 code through: "06". */
  lemma ResolveUnitedStates()
    ensures Resolve("US.06") == Some("06")
  {
    ResolveByParts("US", "06");
    assert "US" + "." + "06" == "US.06";
  }

  /** "FR.11": any other country gets the empty code. */
  lemma ResolveOther()
    ensures Resolve("FR.11") == Some("")
  {
    ResolveByParts("FR", "11");
    assert "FR" + "." + "11" == "FR.11";
  }

  /** The column after the UPDATE (if any) issued for `key`. */
  function Apply(iso: map<string, Option<string>>, key: string): map<string, Option<string>>
    requires Resolvable(key)
  {
    match Resolve(key)
    case None => iso
    case Some(v) => if key in iso then iso[key := Some(v)] else iso
  }

  /** The column after the rows with `keys` have been visited in order. */
  function Enriched(keys: seq<string>, iso: map<string, Option<string>>): (r: map<string, Option<string>>)
    requires forall k :: k in keys ==> Resolvable(k)
    ensures r.Keys == iso.Keys
  {
    if keys == [] then iso
    else Apply(Enriched(keys[..|keys| - 1], iso), keys[|keys| - 1])
  }

  lemma EnrichedSnoc(keys: seq<string>, key: string, iso: map<string, Option<string>>)
    requires forall k :: k in keys ==> Resolvable(k)
    requires Resolvable(key)
    ensures forall k :: k in keys + [key] ==> Resolvable(k)
    ensures Enriched(keys + [key], iso) == Apply(Enriched(keys, iso), key)
  {
    assert (keys + [key])[..|keys|] == keys;
  }


  /** One step of the pass over `keys`: visiting `keys[n]` extends the prefix by one. */
  lemma EnrichedPrefix(keys: seq<string>, n: nat, iso: map<string, Option<string>>)
    requires n < |keys|
    requires forall k :: k in keys ==> Resolvable(k)
    ensures forall k :: k in keys[..n] ==> Resolvable(k)
    ensures forall k :: k in keys[..n + 1] ==> Resolvable(k)
    ensures Resolvable(keys[n])
    ensures Enriched(keys[..n + 1], iso) == Apply(Enriched(keys[..n], iso), keys[n])
  {
    assert keys[..n + 1] == keys[..n] + [keys[n]];
    EnrichedSnoc(keys[..n], keys[n], iso);
  }

  /**
   * After the pass, a row whose key was visited and resolved holds the
   * resolved code; every other row keeps its previous value; no row is
   * added or removed.
   */
  lemma {:induction false} EnrichedAt(keys: seq<string>, iso: map<string, Option<string>>, key: string)
    requires forall k :: k in keys ==> Resolvable(k)
    ensures key in iso ==>
              Enriched(keys, iso)[key]
                == if key in keys && Resolve(key).Some? then Resolve(key) else iso[key]
  {
    if keys != [] {
      var init := keys[..|keys| - 1];
      var last := keys[|keys| - 1];
      assert keys == init + [last];
      EnrichedAt(init, iso, key);
      assert key in keys <==> key in init || key == last;
    }
  }

  /**
   * Starting from the freshly added column (NULL in every row), each visited
   * row ends with exactly its resolution: NULL where no UPDATE is issued.
   */
  lemma EnrichedFromNull(keys: seq<string>, iso: map<string, Option<string>>, key: string)
    requires forall k :: k in keys ==> Resolvable(k)
    requires forall k :: k in iso ==> iso[k] == None
    requires key in keys && key in iso
    ensures Enriched(keys, iso)[key] == Resolve(key)
  {
    EnrichedAt(keys, iso, key);
  }

  /** Visiting the same rows again changes nothing. */
  lemma EnrichedIdempotent(keys: seq<string>, iso: map<string, Option<string>>)
    requires forall k :: k in keys ==> Resolvable(k)
    ensures Enriched(keys, Enriched(keys, iso)) == Enriched(keys, iso)
  {
    var once := Enriched(keys, iso);
    forall key | key in once
      ensures Enriched(keys, once)[key] == once[key]
    {
      EnrichedAt(keys, iso, key);
      EnrichedAt(keys, once, key);
    }
  }

  /** The `admin1` table with its added `iso3166_2` column. */
  class Admin1Table {
    var rows: seq<Admin1>
    var iso3166_2: map<string, Option<string>>

    /** The column has one entry per key of the table. */
    ghost predicate Valid()
      reads this
    {
      forall k :: k in iso3166_2 <==> k in Keys(rows)
    }

    /** The loaded rows after "ALTER TABLE admin1 ADD iso3166_2": NULL in every row. */
    constructor (rows: seq<Admin1>)
      ensures Valid() && this.rows == rows
      ensures forall k :: k in iso3166_2 ==> iso3166_2[k] == None
    {
      this.rows := rows;
      iso3166_2 := map k | k in Keys(rows) :: None;
    }

    /** "UPDATE admin1 SET iso3166_2 = value WHERE key = key". */
    method Update(key: string, value: string)
      requires Valid()
      modifies this`iso3166_2
      ensures Valid()
      ensures iso3166_2 == if key in old(iso3166_2) then old(iso3166_2)[key := Some(value)] else old(iso3166_2)
    {
      if key in iso3166_2 {
        iso3166_2 := iso3166_2[key := Some(value)];
      }
    }

    /** The body of the enrichment loop for one row's key. */
    method Visit(admin1IsoCodes: map<string, map<string, string>>, key: string)
      requires Valid()
      requires admin1IsoCodes == Admin1IsoCodes()
      requires Resolvable(key)
      modifies this`iso3166_2
      ensures Valid()
      ensures iso3166_2 == Apply(old(iso3166_2), key)
    {
      var codes := Split(key, '.');
      if codes[0] in admin1IsoCodes {
        var countriesIsoCodes := admin1IsoCodes[codes[0]];
        if codes[1] in countriesIsoCodes {
          Update(key, countriesIsoCodes[codes[1]]);
        }
      } else if codes[0] == PassThroughCountry {
        Update(key, codes[1]);
      } else {
        Update(key, "");
      }
    }

    /** The enrichment pass: each row visited once, in table order. */
    method Enrich()
      requires Valid()
      requires forall k :: k in Keys(rows) ==> Resolvable(k)
      modifies this`iso3166_2
      ensures Valid() && rows == old(rows)
      ensures iso3166_2 == Enriched(Keys(rows), old(iso3166_2))
    {
      var admin1IsoCodes := Admin1IsoCodes();
      var keys := Keys(rows);
      var n := 0;
      while n < |keys|
        invariant 0 <= n <= |keys|
        invariant Valid()
        invariant forall k :: k in keys[..n] ==> Resolvable(k)
        invariant iso3166_2 == Enriched(keys[..n], old(iso3166_2))
      {
        EnrichedPrefix(keys, n, old(iso3166_2));
        Visit(admin1IsoCodes, keys[n]);
        n := n + 1;
      }
      assert keys[..n] == keys;
    }
  }
}
