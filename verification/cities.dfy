/**
  The city store: a struct of arrays with one column per attribute, where position
  `i` of every column describes the same city. Coordinates and scores are `f32` in
  the program; here they are the real numbers those values denote.
 */
module Cities {
  import opened Wrappers
  import opened Fields

  /** `CityData`: five parallel columns. */
  datatype CityData = CityData(
    names: seq<string>,
    countries: seq<string>,
    regions: seq<string>,
    latitudes: seq<real>,
    longitudes: seq<real>)
  {
    /** All five columns have the same length. */
    predicate Valid() {
      && |countries| == |names|
      && |regions| == |names|
      && |latitudes| == |names|
      && |longitudes| == |names|
    }

    /** The number of cities, as the `names` column counts them. */
    function Size(): nat {
      |names|
    }

    /** Position `idx` exists in every column, so `get_city(idx)` does not panic. */
    predicate Has(idx: nat) {
      && idx < |names|
      && idx < |countries|
      && idx < |regions|
      && idx < |latitudes|
      && idx < |longitudes|
    }

    /**
      Every position of `names` exists in the other columns too, so `get_city` is
      safe for any position the search can report.
     */
    predicate Readable() {
      forall idx: nat :: idx < |names| ==> Has(idx)
    }
  }

  /** The borrowed view `get_city` returns. */
  datatype City = City(name: string, country: string, region: string, latitude: real, longitude: real)

  /** One search hit: a display label, the coordinates and the match score. */
  datatype FuzzyResult = FuzzyResult(city: string, latitude: real, longitude: real, score: real)

  /** `f32` 1.4, the search cut-off: the `f32` nearest to 1.4 is 11744051 / 2^23. */
  const Threshold: real := 11744051.0 / 8388608.0

  /** Every column of `d` is a prefix of the same column of `e`: nothing already stored changed. */
  predicate Extends(d: CityData, e: CityData) {
    && |d.names| <= |e.names| && e.names[..|d.names|] == d.names
    && |d.countries| <= |e.countries| && e.countries[..|d.countries|] == d.countries
    && |d.regions| <= |e.regions| && e.regions[..|d.regions|] == d.regions
    && |d.latitudes| <= |e.latitudes| && e.latitudes[..|d.latitudes|] == d.latitudes
    && |d.longitudes| <= |e.longitudes| && e.longitudes[..|d.longitudes|] == d.longitudes
  }

  /** `CityData::new`: a store holding no city. */
  function NewCityData(): (d: CityData)
    ensures d.Valid() && d.Size() == 0
    ensures forall idx: nat :: !d.Has(idx)
  {
    CityData([], [], [], [], [])
  }

  /** `get_city`: the city at position `idx`, read from every column. */
  function GetCity(d: CityData, idx: nat): (c: City)
    requires d.Has(idx)
  {
    City(d.names[idx], d.countries[idx], d.regions[idx], d.latitudes[idx], d.longitudes[idx])
  }

  /**
    `add_city`: pushes one value onto each column. The columns keep their relative
    lengths, everything stored before is unchanged, and the new city sits at the
    position after the last one.
   */
  function AddCity(d: CityData, name: string, country: string, region: string, latitude: real, longitude: real): (e: CityData)
    ensures Extends(d, e)
    ensures |e.names| == |d.names| + 1 && |e.countries| == |d.countries| + 1 && |e.regions| == |d.regions| + 1
    ensures |e.latitudes| == |d.latitudes| + 1 && |e.longitudes| == |d.longitudes| + 1
    ensures d.Valid() <==> e.Valid()
    ensures d.Valid() ==>
      (e.Size() == d.Size() + 1 && e.Has(d.Size())
       && GetCity(e, d.Size()) == City(name, country, region, latitude, longitude))
  {
    CityData(
      d.names + [name],
      d.countries + [country],
      d.regions + [region],
      d.latitudes + [latitude],
      d.longitudes + [longitude])
  }

  /** In a well-formed store, `get_city(idx)` is safe exactly for the positions below the size, so every city can be read. */
  lemma HasIffBelowSize(d: CityData, idx: nat)
    requires d.Valid()
    ensures d.Has(idx) <==> idx < d.Size()
    ensures d.Readable()
  {
  }

  /** Adding a city leaves every city already stored readable and unchanged. */
  lemma GetAfterAdd(d: CityData, name: string, country: string, region: string, latitude: real, longitude: real, idx: nat)
    requires d.Has(idx)
    ensures AddCity(d, name, country, region, latitude, longitude).Has(idx)
    ensures GetCity(AddCity(d, name, country, region, latitude, longitude), idx) == GetCity(d, idx)
  {
    var e := AddCity(d, name, country, region, latitude, longitude);
    assert e.names[idx] == e.names[..|d.names|][idx];
    assert e.countries[idx] == e.countries[..|d.countries|][idx];
    assert e.regions[idx] == e.regions[..|d.regions|][idx];
    assert e.latitudes[idx] == e.latitudes[..|d.latitudes|][idx];
    assert e.longitudes[idx] == e.longitudes[..|d.longitudes|][idx];
  }

  /** A new store with one city added gives that city back, unchanged, at position 0. */
  lemma NewAddGet(name: string, country: string, region: string, latitude: real, longitude: real)
    ensures var d := AddCity(NewCityData(), name, country, region, latitude, longitude);
      d.Valid() && d.Size() == 1 && GetCity(d, 0) == City(name, country, region, latitude, longitude)
  {
  }

  /** The display label: name, then region, then country, separated by ", ". */
  function Label(name: string, region: string, country: string): string {
    name + ", " + region + ", " + country
  }

  /** `FuzzyResult::new`: the label of the city, its coordinates and the score, unchanged. */
  function NewFuzzyResult(c: City, score: real): (r: FuzzyResult)
    ensures r.latitude == c.latitude && r.longitude == c.longitude && r.score == score
    ensures ',' !in c.name + c.region + c.country ==> ParseLabel(r.city) == Some((c.name, c.region, c.country))
  {
    var r := FuzzyResult(Label(c.name, c.region, c.country), c.latitude, c.longitude, score);
    if ',' !in c.name + c.region + c.country then
      LabelRoundTrip(c.name, c.region, c.country);
      r
    else
      r
  }

  /**
    Reads a label back: three comma-separated pieces, the last two each led by one
    space. The inverse of `Label` on comma-free fields.
   */
  function ParseLabel(display: string): Option<(string, string, string)> {
    var parts := Split(display, ',');
    if |parts| == 3 && 0 < |parts[1]| && parts[1][0] == ' ' && 0 < |parts[2]| && parts[2][0] == ' ' then
      Some((parts[0], parts[1][1..], parts[2][1..]))
    else
      None
  }

  /** A label of comma-free fields reads back as exactly those fields, region before country. */
  lemma LabelRoundTrip(name: string, region: string, country: string)
    requires ',' !in name + region + country
    ensures ParseLabel(Label(name, region, country)) == Some((name, region, country))
  {
    var parts := [name, " " + region, " " + country];
    forall k | 0 <= k < |parts|
      ensures ',' !in parts[k]
    {
      if k == 0 {
        assert forall x :: x in name ==> x in name + region + country;
      } else if k == 1 {
        assert forall x :: x in region ==> x in name + region + country;
      } else {
        assert forall x :: x in country ==> x in name + region + country;
      }
    }
    assert Join(parts, ',') == Label(name, region, country) by {
      assert Join(parts[2..], ',') == " " + country;
      assert Join(parts[1..], ',') == " " + region + [','] + " " + country;
    }
    SplitJoin(parts, ',');
    assert (" " + region)[1..] == region && (" " + country)[1..] == country;
  }

  /** Every label that reads back is the label of the fields it reads back as. */
  lemma ParseLabelSound(display: string)
    ensures ParseLabel(display).Some? ==>
      var (name, region, country) := ParseLabel(display).value;
      Label(name, region, country) == display
  {
    var parts := Split(display, ',');
    if ParseLabel(display).Some? {
      JoinSplit(display, ',');
      assert parts == [parts[0], parts[1], parts[2]];
      assert parts[1] == " " + parts[1][1..] && parts[2] == " " + parts[2][1..];
      assert Join(parts[2..], ',') == parts[2];
      assert Join(parts[1..], ',') == parts[1] + [','] + parts[2];
    }
  }

  /**
    The `(index, score)` pairs the parallel pipeline collects: every position of
    `names`, scored against `term`, kept when the score is below the cut-off.
    `collect` on an indexed parallel iterator keeps the input order.
   */
  function Found(names: seq<string>, term: string, sift3: (string, string) -> real): seq<(nat, real)>
    decreases |names|
  {
    if names == [] then []
    else
      var i := |names| - 1;
      var s := sift3(names[i], term);
      Found(names[..i], term, sift3) + (if s < Threshold then [(i, s)] else [])
  }

  /** Every pair of `f` is a position of `names` with its score against `term`, below the cut-off. */
  predicate Scored(names: seq<string>, term: string, sift3: (string, string) -> real, f: seq<(nat, real)>) {
    forall k :: 0 <= k < |f| ==> f[k].0 < |names| && f[k].1 == sift3(names[f[k].0], term) && f[k].1 < Threshold
  }

  /** The positions of `f` strictly increase. */
  predicate Ascending(f: seq<(nat, real)>) {
    forall a, b :: 0 <= a < b < |f| ==> f[a].0 < f[b].0
  }

  /** Every position of `names` scoring below the cut-off against `term` is listed in `f`. */
  predicate Complete(names: seq<string>, term: string, sift3: (string, string) -> real, f: seq<(nat, real)>) {
    forall i :: 0 <= i < |names| && sift3(names[i], term) < Threshold ==> exists k :: 0 <= k < |f| && f[k].0 == i
  }

  /**
    `f` lists exactly the positions of `names` scoring below the cut-off against
    `term`, each with its score, in increasing position order.
   */
  predicate Hits(names: seq<string>, term: string, sift3: (string, string) -> real, f: seq<(nat, real)>) {
    Scored(names, term, sift3, f) && Ascending(f) && Complete(names, term, sift3, f)
  }

  /** The last position of `names` is appended after the pairs of the shorter prefix, when it scores below the cut-off. */
  lemma FoundLast(names: seq<string>, term: string, sift3: (string, string) -> real)
    requires names != []
    ensures var i := |names| - 1; var s := sift3(names[i], term);
      Found(names, term, sift3) == Found(names[..i], term, sift3) + (if s < Threshold then [(i, s)] else [])
  {
  }

  lemma {:induction false} FoundScored(names: seq<string>, term: string, sift3: (string, string) -> real)
    ensures Scored(names, term, sift3, Found(names, term, sift3))
    decreases |names|
  {
    if names != [] {
      var i := |names| - 1;
      var prefix := names[..i];
      FoundScored(prefix, term, sift3);
      FoundLast(names, term, sift3);
      var f := Found(prefix, term, sift3);
      var g := Found(names, term, sift3);
      forall k | 0 <= k < |g|
        ensures g[k].0 < |names| && g[k].1 == sift3(names[g[k].0], term) && g[k].1 < Threshold
      {
        if k < |f| {
          assert g[k] == f[k];
          assert prefix[f[k].0] == names[f[k].0];
        }
      }
    }
  }

  lemma {:induction false} FoundAscending(names: seq<string>, term: string, sift3: (string, string) -> real)
    ensures Ascending(Found(names, term, sift3))
    decreases |names|
  {
    if names != [] {
      var i := |names| - 1;
      var prefix := names[..i];
      FoundAscending(prefix, term, sift3);
      FoundScored(prefix, term, sift3);
      FoundLast(names, term, sift3);
      var f := Found(prefix, term, sift3);
      var g := Found(names, term, sift3);
      forall a, b | 0 <= a < b < |g|
        ensures g[a].0 < g[b].0
      {
        assert g[a] == f[a];
        if b < |f| {
          assert g[b] == f[b];
        }
      }
    }
  }

  lemma {:induction false} FoundComplete(names: seq<string>, term: string, sift3: (string, string) -> real)
    ensures Complete(names, term, sift3, Found(names, term, sift3))
    decreases |names|
  {
    if names != [] {
      var i := |names| - 1;
      var prefix := names[..i];
      FoundComplete(prefix, term, sift3);
      FoundLast(names, term, sift3);
      var f := Found(prefix, term, sift3);
      var g := Found(names, term, sift3);
      forall j | 0 <= j < |names| && sift3(names[j], term) < Threshold
        ensures exists k :: 0 <= k < |g| && g[k].0 == j
      {
        if j < i {
          assert prefix[j] == names[j];
          var k :| 0 <= k < |f| && f[k].0 == j;
          assert g[k] == f[k];
        } else {
          assert g[|f|].0 == i;
        }
      }
    }
  }

  /**
    The collected pairs are exactly the positions scoring below the cut-off, each
    with its score, in increasing position order.
   */
  lemma FoundSpec(names: seq<string>, term: string, sift3: (string, string) -> real)
    ensures Hits(names, term, sift3, Found(names, term, sift3))
  {
    FoundScored(names, term, sift3);
    FoundAscending(names, term, sift3);
    FoundComplete(names, term, sift3);
  }

  /**
    `search`: one result per position whose score is below the cut-off, in
    increasing position order, built from that position's city and its score.
   */
  method Search(d: CityData, term: string, sift3: (string, string) -> real) returns (results: seq<FuzzyResult>)
    requires d.Readable()
    ensures var found := Found(d.names, term, sift3);
      && |results| == |found|
      && forall k :: 0 <= k < |results| ==>
        d.Has(found[k].0) && results[k] == NewFuzzyResult(GetCity(d, found[k].0), found[k].1)
  {
    var found := Found(d.names, term, sift3);
    FoundSpec(d.names, term, sift3);
    results := [];
    for k := 0 to |found|
      invariant |results| == k
      invariant forall j :: 0 <= j < k ==> d.Has(found[j].0) && results[j] == NewFuzzyResult(GetCity(d, found[j].0), found[j].1)
    {
      var (i, score) := found[k];
      var city := GetCity(d, i);
      results := results + [NewFuzzyResult(city, score)];
    }
  }

  /**
    A position of the store is collected, and so gets a search result, exactly when
    its score is below the cut-off.
   */
  lemma SearchHits(d: CityData, term: string, sift3: (string, string) -> real, i: nat)
    requires i < |d.names|
    ensures (exists k :: 0 <= k < |Found(d.names, term, sift3)| && Found(d.names, term, sift3)[k].0 == i)
      <==> sift3(d.names[i], term) < Threshold
  {
    var found := Found(d.names, term, sift3);
    FoundSpec(d.names, term, sift3);
    if exists k :: 0 <= k < |found| && found[k].0 == i {
      var k :| 0 <= k < |found| && found[k].0 == i;
      assert found[k].1 == sift3(d.names[i], term);
    }
  }

  /** The data rows of a file: each line split at ',', keeping those with exactly five fields. */
  function Records(lines: seq<string>): (recs: seq<seq<string>>)
    ensures forall k :: 0 <= k < |recs| ==> |recs[k]| == 5
    decreases |lines|
  {
    if lines == [] then []
    else
      var fields := Split(lines[0], ',');
      if |fields| == 5 then [fields] + Records(lines[1..]) else Records(lines[1..])
  }

  /** Both coordinates of a five-field record parse. */
  predicate Parses(rec: seq<string>, parse: string -> Option<real>)
    requires |rec| == 5
  {
    parse(rec[3]).Some? && parse(rec[4]).Some?
  }

  /** The outcome of loading: the store as it stands, and whether every coordinate parsed. */
  datatype Loaded = Loaded(data: CityData, ok: bool)

  /**
    The loop of `populate_from_file` over the lines after the header. A line that
    does not split into exactly five fields is skipped; a coordinate that does not
    parse stops the load with an error, keeping the cities added so far.
   */
  function LoadLines(d: CityData, lines: seq<string>, parse: string -> Option<real>): (r: Loaded)
    ensures Extends(d, r.data)
    ensures d.Valid() ==> r.data.Valid()
    decreases |lines|
  {
    if lines == [] then Loaded(d, true)
    else
      var fields := Split(lines[0], ',');
      if |fields| != 5 then LoadLines(d, lines[1..], parse)
      else
        match (parse(fields[3]), parse(fields[4]))
        case (Some(latitude), Some(longitude)) =>
          var e := AddCity(d, fields[0], fields[1], fields[2], latitude, longitude);
          var r := LoadLines(e, lines[1..], parse);
          ExtendsTrans(d, e, r.data);
          r
        case _ => Loaded(d, false)
  }

  lemma ExtendsTrans(a: CityData, b: CityData, c: CityData)
    requires Extends(a, b) && Extends(b, c)
    ensures Extends(a, c)
  {
    assert c.names[..|a.names|] == c.names[..|b.names|][..|a.names|];
    assert c.countries[..|a.countries|] == c.countries[..|b.countries|][..|a.countries|];
    assert c.regions[..|a.regions|] == c.regions[..|b.regions|][..|a.regions|];
    assert c.latitudes[..|a.latitudes|] == c.latitudes[..|b.latitudes|][..|a.latitudes|];
    assert c.longitudes[..|a.longitudes|] == c.longitudes[..|b.longitudes|][..|a.longitudes|];
  }

  /** `populate_from_file` once the file is read into lines: the first line is a header. */
  function Populate(d: CityData, lines: seq<string>, parse: string -> Option<real>): (r: Loaded)
    ensures Extends(d, r.data)
    ensures d.Valid() ==> r.data.Valid()
  {
    if lines == [] then Loaded(d, true) else LoadLines(d, lines[1..], parse)
  }

  /**
    `r` is `d` after loading the records `recs`: it succeeded exactly when every
    record's coordinates parse, and then it holds one more city per record, in
    order, read from the record's fields.
   */
  predicate LoadedExactly(d: CityData, recs: seq<seq<string>>, parse: string -> Option<real>, r: Loaded) {
    && (forall k :: 0 <= k < |recs| ==> |recs[k]| == 5)
    && (r.ok <==> forall k :: 0 <= k < |recs| ==> Parses(recs[k], parse))
    && (r.ok ==> r.data.Size() == d.Size() + |recs|)
    && (r.ok ==> forall k :: 0 <= k < |recs| ==> StoredAt(r.data, d.Size() + k, recs[k], parse))
  }

  /** Position `idx` of `data` holds the city read from the five fields of `rec`. */
  predicate StoredAt(data: CityData, idx: nat, rec: seq<string>, parse: string -> Option<real>) {
    && |rec| == 5 && Parses(rec, parse) && data.Has(idx)
    && GetCity(data, idx) == City(rec[0], rec[1], rec[2], parse(rec[3]).value, parse(rec[4]).value)
  }

  /**
    Loading succeeds exactly when every five-field record's coordinates parse, and
    then the store gains one city per record, in file order, read from its fields.
   */
  lemma {:induction false} LoadLinesSpec(d: CityData, lines: seq<string>, parse: string -> Option<real>)
    requires d.Valid()
    ensures LoadedExactly(d, Records(lines), parse, LoadLines(d, lines, parse))
    decreases |lines|
  {
    if lines != [] {
      var fields := Split(lines[0], ',');
      var tail := Records(lines[1..]);
      if |fields| != 5 {
        LoadLinesSpec(d, lines[1..], parse);
        assert Records(lines) == tail;
        assert LoadLines(d, lines, parse) == LoadLines(d, lines[1..], parse);
      } else {
        assert Records(lines) == [fields] + tail;
        if Parses(fields, parse) {
          var latitude, longitude := parse(fields[3]).value, parse(fields[4]).value;
          var e := AddCity(d, fields[0], fields[1], fields[2], latitude, longitude);
          LoadLinesSpec(e, lines[1..], parse);
          assert LoadLines(d, lines, parse) == LoadLines(e, lines[1..], parse);
          LoadAddStep(d, fields, tail, parse, LoadLines(e, lines[1..], parse));
        } else {
          assert LoadLines(d, lines, parse) == Loaded(d, false);
          assert !Parses(([fields] + tail)[0], parse);
        }
      }
    }
  }

  /** Loading a record that parses adds its city, then loads the remaining records behind it. */
  lemma LoadAddStep(d: CityData, fields: seq<string>, tail: seq<seq<string>>, parse: string -> Option<real>, r: Loaded)
    requires d.Valid() && |fields| == 5 && Parses(fields, parse)
    requires LoadedExactly(
      AddCity(d, fields[0], fields[1], fields[2], parse(fields[3]).value, parse(fields[4]).value), tail, parse, r)
    requires Extends(AddCity(d, fields[0], fields[1], fields[2], parse(fields[3]).value, parse(fields[4]).value), r.data)
    ensures LoadedExactly(d, [fields] + tail, parse, r)
  {
    var e := AddCity(d, fields[0], fields[1], fields[2], parse(fields[3]).value, parse(fields[4]).value);
    var recs := [fields] + tail;
    forall k | 0 <= k < |recs|
      ensures |recs[k]| == 5
      ensures Parses(recs[k], parse) <==> (k == 0 || Parses(tail[k - 1], parse))
    {
      if 0 < k {
        assert recs[k] == tail[k - 1];
      }
    }
    if !r.ok {
      var j :| 0 <= j < |tail| && !Parses(tail[j], parse);
      assert recs[j + 1] == tail[j];
    } else {
      forall k | 0 <= k < |recs|
        ensures StoredAt(r.data, d.Size() + k, recs[k], parse)
      {
        if k == 0 {
          GetFromExtension(e, r.data, d.Size());
          assert recs[0] == fields;
        } else {
          var t := tail[k - 1];
          assert recs[k] == t && d.Size() + k == e.Size() + (k - 1);
          assert StoredAt(r.data, e.Size() + (k - 1), t, parse);
        }
      }
    }
  }

  /**
    `populate_from_file` on the lines of a file: the first line is a header and is
    never read as a city; the rest load as `LoadLines` describes.
   */
  lemma PopulateSpec(d: CityData, header: string, rest: seq<string>, parse: string -> Option<real>)
    requires d.Valid()
    ensures LoadedExactly(d, Records(rest), parse, Populate(d, [header] + rest, parse))
  {
    assert ([header] + rest)[1..] == rest;
    LoadLinesSpec(d, rest, parse);
  }

  /** A city stored in `d` reads the same in any store extending `d`. */
  lemma GetFromExtension(d: CityData, e: CityData, idx: nat)
    requires Extends(d, e) && d.Has(idx)
    ensures e.Has(idx) && GetCity(e, idx) == GetCity(d, idx)
  {
    assert e.names[idx] == e.names[..|d.names|][idx];
    assert e.countries[idx] == e.countries[..|d.countries|][idx];
    assert e.regions[idx] == e.regions[..|d.regions|][idx];
    assert e.latitudes[idx] == e.latitudes[..|d.latitudes|][idx];
    assert e.longitudes[idx] == e.longitudes[..|d.longitudes|][idx];
  }
}
