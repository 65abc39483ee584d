/**
 * step3.rb: each CSV row of the library list becomes a GeoJSON Feature with
 * a Point geometry (sections 3.2 and 3.1.2 of RFC 7946), and the rows
 * together a FeatureCollection (section 3.3), in row order. The field
 * parsers are those of LibraryFields; JSON is kept as a value, not as text.
 */
module LibraryGeoJson {
  import opened Wrappers
  import opened Text
  import opened LibraryFields
  import opened Seqs

  /** A JSON value as `to_json` receives it; object members keep their order. */
  datatype Json =
    | JNull
    | JString(s: string)
    | JArray(items: seq<Json>)
    | JObject(members: seq<(string, Json)>)

  /** A CSV row with headers: a field that is absent or empty is `nil`. */
  type Row = map<string, string>

  function Field(row: Row, name: string): Option<string> {
    if name in row then Some(row[name]) else None
  }

  /** Why `Library.new` raises: a `nil` field sent a method, or an hours group without hours. */
  datatype RowError = MissingField(name: string) | BadHours(error: HoursError)

  /** A `Library`: its four instance variables, set once by `initialize`. */
  datatype Library = Library(name: Option<string>, hours: Hours, address: string, coords: seq<string>)

  /**
   * `Library#initialize`: the name as given, then the hours, the address and
   * the coordinates, each parsed from its field; the first failure raises.
   * A missing ZIP renders as nothing and does not raise.
   */
  function MakeLibrary(row: Row): (r: Result<Library, RowError>)
    ensures r.Ok? <==> "HOURS OF OPERATION" in row && "ADDRESS" in row && "CITY" in row && "STATE" in row
                       && "LOCATION" in row && HoursTable(row["HOURS OF OPERATION"]).Ok?
    ensures r.Ok? ==> r.value.name == Field(row, "NAME")
                      && HoursTable(row["HOURS OF OPERATION"]) == Ok(r.value.hours)
                      && r.value.coords == CoordTokens(row["LOCATION"])
                      && r.value.address
                         == AddressText(Address(row["ADDRESS"], row["CITY"], row["STATE"], Field(row, "ZIP")))
    ensures "HOURS OF OPERATION" !in row ==> r == Err(MissingField("HOURS OF OPERATION"))
  {
    match Field(row, "HOURS OF OPERATION")
    case None => Err(MissingField("HOURS OF OPERATION"))
    case Some(text) =>
      match HoursTable(text)
      case Err(e) => Err(BadHours(e))
      case Ok(hours) =>
        if "ADDRESS" !in row then Err(MissingField("ADDRESS"))
        else if "CITY" !in row then Err(MissingField("CITY"))
        else if "STATE" !in row then Err(MissingField("STATE"))
        else if "LOCATION" !in row then Err(MissingField("LOCATION"))
        else
          var address := AddressText(Address(row["ADDRESS"], row["CITY"], row["STATE"], Field(row, "ZIP")));
          Ok(Library(Field(row, "NAME"), hours, address, CoordTokens(row["LOCATION"])))
  }

  /** The `hours` hash as JSON: one member per day, in the hash's order. */
  function HoursJson(h: Hours): (j: Json)
    ensures j.JObject? && |j.members| == |h|
  {
    JObject(seq(|h|, i requires 0 <= i < |h| => (h[i].0, Strings(h[i].1))))
  }

  function Strings(ss: seq<string>): (j: Json)
    ensures j.JArray? && |j.items| == |ss|
    ensures forall i :: 0 <= i < |ss| ==> j.items[i] == JString(ss[i])
  {
    JArray(seq(|ss|, i requires 0 <= i < |ss| => JString(ss[i])))
  }

  /** `Library#to_json`, before encoding. */
  function FeatureJson(lib: Library): Json {
    JObject([
      ("type", JString("Feature")),
      ("geometry", JObject([("type", JString("Point")), ("coordinates", Strings(lib.coords))])),
      ("properties", JObject([
        ("name", if lib.name.Some? then JString(lib.name.value) else JNull),
        ("address", JString(lib.address)),
        ("hours", HoursJson(lib.hours))]))])
  }

  /** A member of a JSON object by name: the first with that name. */
  function Member(j: Json, key: string): Option<Json> {
    if j.JObject? then Lookup(j.members, key) else None
  }

  function Lookup(ms: seq<(string, Json)>, key: string): Option<Json> {
    if ms == [] then None
    else if ms[0].0 == key then Some(ms[0].1)
    else Lookup(ms[1..], key)
  }

  /** Lookup in a three-member object. */
  lemma LookupThree(a: (string, Json), b: (string, Json), c: (string, Json), key: string)
    ensures Lookup([a, b, c], key)
         == if a.0 == key then Some(a.1) else if b.0 == key then Some(b.1) else if c.0 == key then Some(c.1) else None
  {
    assert [a, b, c][1..] == [b, c];
    LookupTwo(b, c, key);
  }

  lemma LookupTwo(a: (string, Json), b: (string, Json), key: string)
    ensures Lookup([a, b], key) == if a.0 == key then Some(a.1) else if b.0 == key then Some(b.1) else None
  {
    assert [a, b][1..] == [b];
    LookupOne(b, key);
  }

  lemma LookupOne(a: (string, Json), key: string)
    ensures Lookup([a], key) == if a.0 == key then Some(a.1) else None
  {
    assert [a][1..] == [];
  }

  /** A GeoJSON Feature with a Point geometry (RFC 7946 sections 3.2 and 3.1.2). */
  predicate IsPointFeature(j: Json) {
    Member(j, "type") == Some(JString("Feature"))
    && Member(j, "geometry").Some?
    && Member(Member(j, "geometry").value, "type") == Some(JString("Point"))
    && Member(Member(j, "geometry").value, "coordinates").Some?
    && Member(Member(j, "geometry").value, "coordinates").value.JArray?
    && Member(j, "properties").Some? && Member(j, "properties").value.JObject?
  }

  /** Every library serialises as a Point Feature whose properties are its name, address and hours. */
  lemma FeatureShape(lib: Library)
    ensures IsPointFeature(FeatureJson(lib))
    ensures Member(Member(FeatureJson(lib), "geometry").value, "coordinates") == Some(Strings(lib.coords))
    ensures var p := Member(FeatureJson(lib), "properties").value;
            Member(p, "address") == Some(JString(lib.address))
            && Member(p, "hours") == Some(HoursJson(lib.hours))
            && Member(p, "name") == (if lib.name.Some? then Some(JString(lib.name.value)) else Some(JNull))
  {
    var j := FeatureJson(lib);
    var g := j.members[1];
    var p := j.members[2];
    LookupThree(j.members[0], g, p, "type");
    LookupThree(j.members[0], g, p, "geometry");
    LookupThree(j.members[0], g, p, "properties");
    LookupTwo(g.1.members[0], g.1.members[1], "type");
    LookupTwo(g.1.members[0], g.1.members[1], "coordinates");
    var ps := p.1.members;
    LookupThree(ps[0], ps[1], ps[2], "name");
    LookupThree(ps[0], ps[1], ps[2], "address");
    LookupThree(ps[0], ps[1], ps[2], "hours");
  }

  /** Looking a day up in the JSON hours finds what the hash holds for it. */
  lemma {:induction false} HoursJsonMember(h: Hours, d: string)
    ensures Member(HoursJson(h), d) == if Get(h, d).Some? then Some(Strings(Get(h, d).value)) else None
    decreases |h|
  {
    if h != [] {
      HoursJsonMember(h[1..], d);
      assert HoursJson(h).members[1..] == HoursJson(h[1..]).members;
    }
  }

  /** The libraries of all rows, in row order; the first row that fails raises. */
  function Libraries(rows: seq<Row>): Result<seq<Library>, RowError> {
    TryMap(rows, MakeLibrary)
  }

  function Features(libs: seq<Library>): (r: seq<Json>)
    ensures |r| == |libs| && forall i :: 0 <= i < |libs| ==> r[i] == FeatureJson(libs[i])
  {
    seq(|libs|, i requires 0 <= i < |libs| => FeatureJson(libs[i]))
  }

  /** The document `puts data.to_json` writes: a FeatureCollection of all rows (RFC 7946 section 3.3). */
  function Collection(rows: seq<Row>): Result<Json, RowError> {
    match Libraries(rows)
    case Err(e) => Err(e)
    case Ok(libs) => Ok(JObject([("type", JString("FeatureCollection")), ("features", JArray(Features(libs)))]))
  }

  /** The script's loop: one `Library` per row appended in turn, then the collection. */
  method BuildCollection(rows: seq<Row>) returns (r: Result<Json, RowError>)
    ensures r == Collection(rows)
  {
    var libraries: seq<Library> := [];
    var i := 0;
    while i < |rows|
      invariant 0 <= i <= |rows|
      invariant Libraries(rows[..i]) == Ok(libraries)
    {
      assert rows[..i + 1][..i] == rows[..i];
      var lib := MakeLibrary(rows[i]);
      if lib.Err? {
        FirstFailure(rows, i);
        return Err(lib.error);
      }
      libraries := libraries + [lib.value];
      i := i + 1;
    }
    assert rows[..i] == rows;
    r := Ok(JObject([("type", JString("FeatureCollection")), ("features", JArray(Features(libraries)))]));
  }

  /** When the rows before `i` all succeed and row `i` fails, the whole map fails with row `i`'s error. */
  lemma FirstFailure(rows: seq<Row>, i: nat)
    requires i < |rows| && Libraries(rows[..i]).Ok? && MakeLibrary(rows[i]).Err?
    ensures Libraries(rows) == Err(MakeLibrary(rows[i]).error)
  {
    forall j | 0 <= j < i ensures MakeLibrary(rows[j]).Ok? {
      assert rows[..i][j] == rows[j];
    }
    TryMapFirstError(rows, MakeLibrary, i);
  }

  /** The collection is produced exactly when no row raises. */
  lemma CollectionOk(rows: seq<Row>)
    ensures Collection(rows).Ok? <==> forall i :: 0 <= i < |rows| ==> MakeLibrary(rows[i]).Ok?
  {
  }

  /** The collection holds one Point Feature per row, in row order. */
  lemma CollectionFeatures(rows: seq<Row>)
    requires Collection(rows).Ok?
    ensures var c := Collection(rows).value;
            Member(c, "type") == Some(JString("FeatureCollection"))
            && Member(c, "features").Some? && Member(c, "features").value.JArray?
            && var fs := Member(c, "features").value.items;
               |fs| == |rows|
               && forall i :: 0 <= i < |rows| ==> fs[i] == FeatureJson(MakeLibrary(rows[i]).value) && IsPointFeature(fs[i])
  {
    var libs := Libraries(rows).value;
    var c := Collection(rows).value;
    var fs := Features(libs);
    assert c.members == [("type", JString("FeatureCollection")), ("features", JArray(fs))];
    LookupTwo(c.members[0], c.members[1], "type");
    LookupTwo(c.members[0], c.members[1], "features");
    forall i | 0 <= i < |rows| ensures fs[i] == FeatureJson(MakeLibrary(rows[i]).value) && IsPointFeature(fs[i]) {
      FeatureShape(libs[i]);
    }
  }
}
