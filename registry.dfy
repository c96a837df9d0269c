/**
 * The city registry that `main` builds before looking at any user
 * (`src/main.rs`, lines 42-70): one row per active city, each ring parsed,
 * each city inserted into a `HashMap` keyed by its id, and the whole build
 * abandoned at the first row that cannot be read.
 */
module CityRegistry {
  import opened Wrappers
  import opened Numbers
  import opened RingParser

  /** `struct City`. */
  datatype City = City(id: uint16, name: string, ring: Ring)

  /**
   * One row of the city query with its columns already taken; a column is
   * `None` where `Row::take` returns `None`, and a row the
   * driver could not deliver at all is `UnreadableCityRow`.
   */
  datatype CityRow =
    | CityRow(id: Option<uint16>, name: Option<string>, coordinates: Option<string>)
    | UnreadableCityRow

  /** Why the build stopped (`main` logs the reason and returns `Err(())`). */
  datatype BuildError =
    | RowError
    | MissingCoordinates
    | BadCoordinate(token: string)
    | MissingId
    | MissingName

  /**
   * The `HashMap<u16, City>`: its entries, and the order in which iterating
   * over it visits them. Rust leaves that order unspecified, so it is kept
   * here as an explicit sequence of the keys.
   */
  datatype Registry = Registry(cities: map<uint16, City>, order: seq<uint16>)
  {
    /** The iteration order visits every key exactly once; each city sits under its own id. */
    ghost predicate Valid()
    {
      && (forall i, j :: 0 <= i < j < |order| ==> order[i] != order[j])
      && (forall id :: id in cities <==> id in order)
      && (forall id :: id in cities ==> cities[id].id == id)
    }

    /**
     * `HashMap::insert(city.id, city)`. A key already present has its city
     * replaced and keeps its place in the iteration order; a new key is
     * placed at the position `slot` (clipped to the end) that the hash
     * table happens to give it.
     */
    function Insert(city: City, slot: nat): (r: Registry)
      ensures Valid() ==> r.Valid()
      ensures r.cities == cities[city.id := city]
      ensures city.id in cities ==> r.order == order
      ensures city.id !in cities ==>
                exists p :: 0 <= p <= |order| && r.order == order[..p] + [city.id] + order[p..]
    {
      if city.id in cities then Registry(cities[city.id := city], order)
      else
        var p := if slot < |order| then slot else |order|;
        var o := order[..p] + [city.id] + order[p..];
        assert forall k :: 0 <= k < |o| ==> o[k] == if k < p then order[k] else if k == p then city.id else order[k - 1];
        Registry(cities[city.id := city], o)
    }
  }

  /** The empty `HashMap::new()`. */
  const Empty: Registry := Registry(map[], [])

  /** A reader of `coordinates` columns: the ring, or the first token that does not parse. */
  type RingReader = string -> Result<Ring, string>

  /** The ring parser of the city build, for a given float parser. */
  function Reader(parseF64: string -> Option<F64>): (read: RingReader)
    ensures forall coords :: read(coords) == RingOf(coords, parseF64)
  {
    coords => RingOf(coords, parseF64)
  }

  /**
   * What one row contributes, checked in the order `main` takes them: the row itself,
   * the coordinates column, its ring, the id column, the name column.
   */
  function CityOf(row: CityRow, readRing: RingReader): Result<City, BuildError>
  {
    match row
    case UnreadableCityRow => Err(RowError)
    case CityRow(id, name, coordinates) =>
      if coordinates.None? then Err(MissingCoordinates)
      else
        match readRing(coordinates.value)
        case Err(t) => Err(BadCoordinate(t))
        case Ok(ring) =>
          if id.None? then Err(MissingId)
          else if name.None? then Err(MissingName)
          else Ok(City(id.value, name.value, ring))
  }

  /**
   * The registry the rows build, inserted one after the other, or the error
   * of the first row that fails. `place` stands for the hash table's choice
   * of where a new key lands in its iteration order.
   */
  function Build(rows: seq<CityRow>, readRing: RingReader,
                 place: (seq<uint16>, uint16) -> nat): Result<Registry, BuildError>
    decreases |rows|
  {
    if rows == [] then Ok(Empty)
    else
      match Build(rows[..|rows| - 1], readRing, place)
      case Err(e) => Err(e)
      case Ok(reg) =>
        match CityOf(rows[|rows| - 1], readRing)
        case Err(e) => Err(e)
        case Ok(c) => Ok(reg.Insert(c, place(reg.order, c.id)))
  }

  /** Every registry the build produces satisfies the registry invariant. */
  lemma {:induction false} BuildValid(rows: seq<CityRow>, readRing: RingReader,
                                      place: (seq<uint16>, uint16) -> nat)
    ensures Build(rows, readRing, place).Ok? ==> Build(rows, readRing, place).value.Valid()
    decreases |rows|
  {
    if rows != [] {
      BuildValid(rows[..|rows| - 1], readRing, place);
    }
  }

  /** Once a prefix of the rows fails, the whole build fails with the same error. */
  lemma {:induction false} BuildErrPersists(rows: seq<CityRow>, i: nat, readRing: RingReader,
                                            place: (seq<uint16>, uint16) -> nat)
    requires i <= |rows|
    requires Build(rows[..i], readRing, place).Err?
    ensures Build(rows, readRing, place) == Build(rows[..i], readRing, place)
    decreases |rows| - i
  {
    if i < |rows| {
      var n := |rows| - 1;
      assert rows[..n][..i] == rows[..i];
      if i < n {
        BuildErrPersists(rows[..n], i, readRing, place);
      }
    } else {
      assert rows[..i] == rows;
    }
  }

  /**
   * The loop of the city build. Each row's coordinates are parsed with the
   * ring parser, its id and name taken, and the city inserted under its id;
   * the first failure returns at once, so no partial registry escapes.
   */
  method BuildRegistry(rows: seq<CityRow>, parseF64: string -> Option<F64>,
                       place: (seq<uint16>, uint16) -> nat) returns (r: Result<Registry, BuildError>)
    ensures r == Build(rows, Reader(parseF64), place)
  {
    var readRing := Reader(parseF64);
    var temp := Empty;
    for i := 0 to |rows|
      invariant Build(rows[..i], readRing, place) == Ok(temp)
    {
      assert rows[..i + 1][..i] == rows[..i];
      var city: Result<City, BuildError>;
      match rows[i] {
        case UnreadableCityRow =>
          city := Err(RowError);
        case CityRow(id, name, coordinates) =>
          if coordinates.None? {
            city := Err(MissingCoordinates);
          } else {
            var ring := ParseRing(coordinates.value, parseF64);
            if ring.Err? {
              city := Err(BadCoordinate(ring.error));
            } else if id.None? {
              city := Err(MissingId);
            } else if name.None? {
              city := Err(MissingName);
            } else {
              city := Ok(City(id.value, name.value, ring.value));
            }
          }
      }
      if city.Err? {
        BuildErrPersists(rows, i + 1, readRing, place);
        return Err(city.error);
      }
      temp := temp.Insert(city.value, place(temp.order, city.value.id));
    }
    assert rows[..|rows|] == rows;
    return Ok(temp);
  }

  /** The build succeeds exactly when every row yields a city. */
  lemma {:induction false} BuildOkIff(rows: seq<CityRow>, readRing: RingReader,
                                      place: (seq<uint16>, uint16) -> nat)
    ensures Build(rows, readRing, place).Ok? <==> forall i :: 0 <= i < |rows| ==> CityOf(rows[i], readRing).Ok?
    decreases |rows|
  {
    if rows != [] {
      var n := |rows| - 1;
      var init := rows[..n];
      BuildOkIff(init, readRing, place);
      assert forall i :: 0 <= i < n ==> init[i] == rows[i];
      if Build(rows, readRing, place).Ok? {
        assert Build(init, readRing, place).Ok? && CityOf(rows[n], readRing).Ok?;
      } else if Build(init, readRing, place).Ok? {
        assert CityOf(rows[n], readRing).Err?;
      } else {
        var i :| 0 <= i < n && CityOf(init[i], readRing).Err?;
        assert CityOf(rows[i], readRing).Err?;
      }
    }
  }

  /** A failed build reports the error of the first row that yields no city. */
  lemma {:induction false} BuildFailsAtFirstBadRow(rows: seq<CityRow>, readRing: RingReader,
                                                   place: (seq<uint16>, uint16) -> nat)
    requires Build(rows, readRing, place).Err?
    ensures exists i :: 0 <= i < |rows| && CityOf(rows[i], readRing) == Err(Build(rows, readRing, place).error)
                        && forall j :: 0 <= j < i ==> CityOf(rows[j], readRing).Ok?
    decreases |rows|
  {
    var n := |rows| - 1;
    var init := rows[..n];
    assert forall i :: 0 <= i < n ==> init[i] == rows[i];
    if Build(init, readRing, place).Err? {
      BuildFailsAtFirstBadRow(init, readRing, place);
      var i :| 0 <= i < n && CityOf(init[i], readRing) == Err(Build(init, readRing, place).error)
               && forall j :: 0 <= j < i ==> CityOf(init[j], readRing).Ok?;
      assert CityOf(rows[i], readRing) == Err(Build(rows, readRing, place).error);
    } else {
      BuildOkIff(init, readRing, place);
      assert CityOf(rows[n], readRing) == Err(Build(rows, readRing, place).error);
    }
  }

  /** Row j yields a city with the given id. */
  ghost predicate HasIdAt(rows: seq<CityRow>, readRing: RingReader, j: nat, id: uint16)
    requires j < |rows|
  {
    CityOf(rows[j], readRing).Ok? && CityOf(rows[j], readRing).value.id == id
  }

  /** A built registry holds exactly the ids of the rows' cities. */
  lemma {:induction false} BuildKeys(rows: seq<CityRow>, readRing: RingReader,
                                     place: (seq<uint16>, uint16) -> nat, reg: Registry)
    requires Build(rows, readRing, place) == Ok(reg)
    ensures forall id :: id in reg.cities <==> exists j :: 0 <= j < |rows| && HasIdAt(rows, readRing, j, id)
    decreases |rows|
  {
    if rows != [] {
      var n := |rows| - 1;
      var init := rows[..n];
      var prev := Build(init, readRing, place).value;
      BuildKeys(init, readRing, place, prev);
      var c := CityOf(rows[n], readRing).value;
      assert reg.cities == prev.cities[c.id := c];
      assert HasIdAt(rows, readRing, n, c.id);
      forall id | id in reg.cities && id != c.id
        ensures exists j :: 0 <= j < |rows| && HasIdAt(rows, readRing, j, id)
      {
        var j :| 0 <= j < n && HasIdAt(init, readRing, j, id);
        assert init[j] == rows[j];
        assert HasIdAt(rows, readRing, j, id);
      }
      forall id, j | 0 <= j < |rows| && HasIdAt(rows, readRing, j, id)
        ensures id in reg.cities
      {
        if j < n {
          assert init[j] == rows[j];
          assert HasIdAt(init, readRing, j, id);
        }
      }
    }
  }

  /**
   * Under each id the registry holds the city of the LAST row carrying that
   * id: a later row with an id already present replaces the earlier city.
   */
  lemma {:induction false} BuildLastWins(rows: seq<CityRow>, readRing: RingReader,
                                         place: (seq<uint16>, uint16) -> nat, reg: Registry,
                                         i: nat, c: City)
    requires Build(rows, readRing, place) == Ok(reg)
    requires i < |rows| && CityOf(rows[i], readRing) == Ok(c)
    requires forall j :: i < j < |rows| ==> !HasIdAt(rows, readRing, j, c.id)
    ensures c.id in reg.cities && reg.cities[c.id] == c
    decreases |rows|
  {
    var n := |rows| - 1;
    var init := rows[..n];
    var prev := Build(init, readRing, place).value;
    var last := CityOf(rows[n], readRing).value;
    assert reg.cities == prev.cities[last.id := last];
    if i < n {
      assert !HasIdAt(rows, readRing, n, c.id);
      assert init[i] == rows[i];
      forall j | i < j < |init|
        ensures !HasIdAt(init, readRing, j, c.id)
      {
        assert init[j] == rows[j] && !HasIdAt(rows, readRing, j, c.id);
      }
      BuildLastWins(init, readRing, place, prev, i, c);
    }
  }

  /**
   * Where the hash table places new keys changes only the iteration order:
   * whether the build fails, its error, and the cities under each id are
   * the same for every placement.
   */
  lemma {:induction false} BuildCitiesIgnorePlace(rows: seq<CityRow>, readRing: RingReader,
                                                  place1: (seq<uint16>, uint16) -> nat,
                                                  place2: (seq<uint16>, uint16) -> nat)
    ensures Build(rows, readRing, place1).Ok? == Build(rows, readRing, place2).Ok?
    ensures Build(rows, readRing, place1).Err? ==> Build(rows, readRing, place1) == Build(rows, readRing, place2)
    ensures Build(rows, readRing, place1).Ok? ==>
              Build(rows, readRing, place1).value.cities == Build(rows, readRing, place2).value.cities
    decreases |rows|
  {
    if rows != [] {
      BuildCitiesIgnorePlace(rows[..|rows| - 1], readRing, place1, place2);
    }
  }
}
