/**
 * The per-user pass of `main` (`src/main.rs`, lines 72-204): every active
 * user is checked against the city they are assigned to, first for the city
 * being known at all, then for each of the four pointers stored in their bot
 * configuration (home, pokémon, raid, invasion). A pointer outside the
 * assigned city is looked up in every city, and the first one that contains
 * it is reported, or the fact that none does.
 */
module Reconcile {
  import opened Wrappers
  import opened Numbers
  import opened Json
  import opened RingParser
  import opened CityRegistry

  /** The four pointers of a configuration. */
  datatype Kind = Home | Pokemon | Raid | Invasion

  /** The key of a pointer under `locs`. */
  function Key(k: Kind): string
  {
    match k
    case Home => "h"
    case Pokemon => "p"
    case Raid => "r"
    case Invasion => "i"
  }

  /** Position of a pointer in the order `main` checks them. */
  function Rank(k: Kind): nat
  {
    match k
    case Home => 0
    case Pokemon => 1
    case Raid => 2
    case Invasion => 3
  }

  const Kinds: seq<Kind> := [Home, Pokemon, Raid, Invasion]

  /**
   * One row of the user query with its columns already taken (`None` where
   * `Row::take` returns `None`); `UnreadableUserRow` is a row the driver
   * could not deliver.
   */
  datatype UserRow =
    | UserRow(userId: Option<uint64>, username: Option<string>, cityId: Option<uint16>, config: Option<string>)
    | UnreadableUserRow

  /** What `main` prints to standard output, one value per line. */
  datatype Finding =
    | DisabledCity(userId: uint64, username: string, cityId: uint16)
    | Elsewhere(userId: uint64, username: string, kind: Kind, foundId: uint16, assignedId: uint16)
    | Nowhere(userId: uint64, username: string, kind: Kind)

  /**
   * The foreign operations the pass relies on: `str::parse::<f64>`,
   * `Number::as_f64`, `serde_json::from_str` and the ray-casting
   * `within` of a polygon. Being Dafny functions they are deterministic:
   * the same point against the same ring always gives the same answer.
   */
  datatype Foreign = Foreign(
    parseF64: string -> Option<F64>,
    asF64: Number -> Option<F64>,
    parseJson: string -> Option<Value>,
    contains: (Ring, Point) -> bool)

  /** `convert_to_f64(&json["locs"][key][i])`. */
  function Coordinate(json: Value, kind: Kind, i: nat, f: Foreign): Conversion
  {
    ConvertToF64(Item(Field(Field(json, "locs"), Key(kind)), i), f.parseF64, f.asF64)
  }

  /** The pointer, when both of its coordinates convert. */
  function PointOf(json: Value, kind: Kind, f: Foreign): Option<Point>
  {
    match (Coordinate(json, kind, 0, f), Coordinate(json, kind, 1, f))
    case (Converted(x), Converted(y)) => Some(Point(x, y))
    case _ => None
  }

  /**
   * An empty string in place of a coordinate means "no pointer": the pointer
   * is skipped and nothing is logged for that coordinate.
   */
  lemma EmptyCoordinateIsSilent(json: Value, kind: Kind, i: nat, f: Foreign)
    requires i <= 1
    requires Item(Field(Field(json, "locs"), Key(kind)), i) == Str("")
    ensures Coordinate(json, kind, i, f) == Failed(false)
    ensures PointOf(json, kind, f) == None
  {
  }

  /**
   * The first id of `ids` whose city contains `p`: the `for (_, city) in
   * &cities` scan with its `break`.
   */
  function FirstContaining(reg: Registry, ids: seq<uint16>, p: Point, contains: (Ring, Point) -> bool): (r: Option<uint16>)
    requires forall id :: id in ids ==> id in reg.cities
    ensures r.Some? ==> r.value in ids && contains(reg.cities[r.value].ring, p)
    ensures r.None? ==> forall id :: id in ids ==> !contains(reg.cities[id].ring, p)
  {
    if ids == [] then None
    else if contains(reg.cities[ids[0]].ring, p) then Some(ids[0])
    else FirstContaining(reg, ids[1..], p, contains)
  }

  /**
   * The scan reports the first city in iteration order that contains the
   * point: if position i holds one and no earlier position does, the scan
   * stops at position i.
   */
  lemma {:induction false} FirstContainingIsFirst(reg: Registry, ids: seq<uint16>, p: Point,
                                                  contains: (Ring, Point) -> bool, i: nat)
    requires forall id :: id in ids ==> id in reg.cities
    requires i < |ids| && contains(reg.cities[ids[i]].ring, p)
    requires forall j :: 0 <= j < i ==> !contains(reg.cities[ids[j]].ring, p)
    ensures FirstContaining(reg, ids, p, contains) == Some(ids[i])
  {
    if i > 0 {
      assert !contains(reg.cities[ids[0]].ring, p);
      forall j | 0 <= j < i - 1
        ensures !contains(reg.cities[ids[1..][j]].ring, p)
      {
        assert ids[1..][j] == ids[j + 1];
      }
      FirstContainingIsFirst(reg, ids[1..], p, contains, i - 1);
    }
  }

  /** What one pointer of a user with a known city yields (lines 125-143 and their three copies). */
  function PointerFinding(userId: uint64, username: string, assignedId: uint16, json: Value,
                          kind: Kind, reg: Registry, f: Foreign): (r: Option<Finding>)
    requires reg.Valid() && assignedId in reg.cities
    ensures r.Some? ==> && !r.value.DisabledCity?
                        && r.value.userId == userId && r.value.username == username && r.value.kind == kind
                        && (r.value.Elsewhere? ==> r.value.assignedId == assignedId)
  {
    match PointOf(json, kind, f)
    case None => None
    case Some(p) =>
      if f.contains(reg.cities[assignedId].ring, p) then None
      else
        match FirstContaining(reg, reg.order, p, f.contains)
        case Some(id) => Some(Elsewhere(userId, username, kind, id, assignedId))
        case None => Some(Nowhere(userId, username, kind))
  }

  /**
   * One pointer check. Both coordinates are converted; when both succeed and
   * the assigned city does not contain the point, the cities are scanned in
   * iteration order with a `not_found` flag, stopping at the first that
   * contains it.
   */
  method CheckPointer(userId: uint64, username: string, assignedId: uint16, json: Value,
                      kind: Kind, reg: Registry, f: Foreign) returns (finding: Option<Finding>)
    requires reg.Valid() && assignedId in reg.cities
    ensures finding == PointerFinding(userId, username, assignedId, json, kind, reg, f)
  {
    finding := None;
    var x := Coordinate(json, kind, 0, f);
    var y := Coordinate(json, kind, 1, f);
    if x.Converted? && y.Converted? {
      var p := Point(x.value, y.value);
      assert PointOf(json, kind, f) == Some(p);
      if !f.contains(reg.cities[assignedId].ring, p) {
        ghost var scan := FirstContaining(reg, reg.order, p, f.contains);
        var notFound := true;
        var i := 0;
        while i < |reg.order|
          invariant 0 <= i <= |reg.order|
          invariant notFound && finding == None
          invariant FirstContaining(reg, reg.order[i..], p, f.contains) == scan
        {
          var city := reg.cities[reg.order[i]];
          assert reg.order[i..][0] == reg.order[i] && reg.order[i..][1..] == reg.order[i + 1..];
          if f.contains(city.ring, p) {
            assert scan == Some(city.id);
            finding := Some(Elsewhere(userId, username, kind, city.id, assignedId));
            notFound := false;
            break;
          }
          i := i + 1;
        }
        if notFound {
          assert reg.order[i..] == [];
          finding := Some(Nowhere(userId, username, kind));
        }
      }
    }
  }

  /** A pointer finding as a list of zero or one lines. */
  function Lines(finding: Option<Finding>): seq<Finding>
  {
    match finding
    case None => []
    case Some(x) => [x]
  }

  /** Each pointer's finding, for a user with a known city and a parsed configuration. */
  function PointerLines(userId: uint64, username: string, assignedId: uint16, json: Value,
                        reg: Registry, f: Foreign): (lines: Kind -> Option<Finding>)
    requires reg.Valid() && assignedId in reg.cities
    ensures forall k :: lines(k) == PointerFinding(userId, username, assignedId, json, k, reg, f)
  {
    k => PointerFinding(userId, username, assignedId, json, k, reg, f)
  }

  /** The lines of the given pointers, in the given order. */
  function Collect(kinds: seq<Kind>, lines: Kind -> Option<Finding>): seq<Finding>
  {
    if kinds == [] then [] else Lines(lines(kinds[0])) + Collect(kinds[1..], lines)
  }

  /** The four pointers, one after the other. */
  lemma FourPointers(lines: Kind -> Option<Finding>)
    ensures Collect(Kinds, lines)
            == Lines(lines(Home)) + Lines(lines(Pokemon)) + Lines(lines(Raid)) + Lines(lines(Invasion))
  {
    var i4 := [Invasion];
    var i3 := [Raid, Invasion];
    var i2 := [Pokemon, Raid, Invasion];
    assert i4[1..] == [] && i3[1..] == i4 && i2[1..] == i3 && Kinds[1..] == i2;
  }

  /** Everything one user row yields (lines 75-203). */
  function UserFindings(row: UserRow, reg: Registry, f: Foreign): seq<Finding>
    requires reg.Valid()
  {
    match row
    case UnreadableUserRow => []
    case UserRow(userId, username, cityId, config) =>
      if userId.None? || username.None? || cityId.None? then []
      else if cityId.value !in reg.cities then [DisabledCity(userId.value, username.value, cityId.value)]
      else if config.None? then []
      else
        match f.parseJson(config.value)
        case None => []
        case Some(json) => Collect(Kinds, PointerLines(userId.value, username.value, cityId.value, json, reg, f))
  }

  /**
   * The body of the user loop: the row's columns are taken in order (any
   * failure skips the user), an unknown city is reported once, the
   * configuration is taken and parsed (any failure skips the user), and the
   * four pointers are checked one after the other.
   */
  method CheckUser(row: UserRow, reg: Registry, f: Foreign) returns (findings: seq<Finding>)
    requires reg.Valid()
    ensures findings == UserFindings(row, reg, f)
  {
    findings := [];
    if row.UnreadableUserRow? || row.userId.None? || row.username.None? || row.cityId.None? {
      return;
    }
    var userId, username, cityId := row.userId.value, row.username.value, row.cityId.value;
    if cityId !in reg.cities {
      findings := [DisabledCity(userId, username, cityId)];
      return;
    }
    if row.config.None? {
      return;
    }
    var json := f.parseJson(row.config.value);
    if json.None? {
      return;
    }
    findings := CheckPointers(userId, username, cityId, json.value, reg, f);
  }

  /** The four pointer checks, one after the other (lines 125-203). */
  method CheckPointers(userId: uint64, username: string, cityId: uint16, json: Value,
                       reg: Registry, f: Foreign) returns (findings: seq<Finding>)
    requires reg.Valid() && cityId in reg.cities
    ensures findings == Collect(Kinds, PointerLines(userId, username, cityId, json, reg, f))
  {
    ghost var lines := PointerLines(userId, username, cityId, json, reg, f);
    FourPointers(lines);
    var home := CheckPointer(userId, username, cityId, json, Home, reg, f);
    assert home == lines(Home);
    var pokemon := CheckPointer(userId, username, cityId, json, Pokemon, reg, f);
    assert pokemon == lines(Pokemon);
    var raid := CheckPointer(userId, username, cityId, json, Raid, reg, f);
    assert raid == lines(Raid);
    var invasion := CheckPointer(userId, username, cityId, json, Invasion, reg, f);
    assert invasion == lines(Invasion);
    findings := Lines(home) + Lines(pokemon) + Lines(raid) + Lines(invasion);
  }

  /** Each user row's lines, against a given registry. */
  function UserLines(reg: Registry, f: Foreign): (lines: UserRow -> seq<Finding>)
    requires reg.Valid()
    ensures forall row :: lines(row) == UserFindings(row, reg, f)
  {
    row => UserFindings(row, reg, f)
  }

  /** The lines of the given rows, in row order. */
  function Concat(rows: seq<UserRow>, lines: UserRow -> seq<Finding>): seq<Finding>
    decreases |rows|
  {
    if rows == [] then [] else Concat(rows[..|rows| - 1], lines) + lines(rows[|rows| - 1])
  }

  /** The findings of all user rows, in row order. */
  function AllFindings(rows: seq<UserRow>, reg: Registry, f: Foreign): seq<Finding>
    requires reg.Valid()
  {
    Concat(rows, UserLines(reg, f))
  }

  /** The user loop. */
  method ReconcileUsers(rows: seq<UserRow>, reg: Registry, f: Foreign) returns (findings: seq<Finding>)
    requires reg.Valid()
    ensures findings == AllFindings(rows, reg, f)
  {
    findings := [];
    for i := 0 to |rows|
      invariant findings == Concat(rows[..i], UserLines(reg, f))
    {
      assert rows[..i + 1][..i] == rows[..i];
      var more := CheckUser(rows[i], reg, f);
      findings := findings + more;
    }
    assert rows[..|rows|] == rows;
  }

  /** What a run yields: the build error, or the findings of every user. */
  function Outcome(cityRows: seq<CityRow>, userRows: seq<UserRow>, f: Foreign,
                   place: (seq<uint16>, uint16) -> nat): Result<seq<Finding>, BuildError>
  {
    BuildValid(cityRows, Reader(f.parseF64), place);
    match Build(cityRows, Reader(f.parseF64), place)
    case Err(e) => Err(e)
    case Ok(reg) => Ok(AllFindings(userRows, reg, f))
  }

  /**
   * `main` without its I/O: build the registry (a failure ends the run with
   * an error and no findings), then check every user.
   */
  method Run(cityRows: seq<CityRow>, userRows: seq<UserRow>, f: Foreign,
             place: (seq<uint16>, uint16) -> nat) returns (r: Result<seq<Finding>, BuildError>)
    ensures r == Outcome(cityRows, userRows, f, place)
  {
    var cities := BuildRegistry(cityRows, f.parseF64, place);
    if cities.Err? {
      return Err(cities.error);
    }
    BuildValid(cityRows, Reader(f.parseF64), place);
    var findings := ReconcileUsers(userRows, cities.value, f);
    return Ok(findings);
  }

  // ---------------------------------------------------------------------------
  // What the pass promises

  /** The scan's answer sits at a position of `ids` before which no city contains the point. */
  lemma {:induction false} FirstContainingFound(reg: Registry, ids: seq<uint16>, p: Point,
                                                contains: (Ring, Point) -> bool)
    requires forall id :: id in ids ==> id in reg.cities
    requires FirstContaining(reg, ids, p, contains).Some?
    ensures exists i :: 0 <= i < |ids| && ids[i] == FirstContaining(reg, ids, p, contains).value
                        && forall j :: 0 <= j < i ==> !contains(reg.cities[ids[j]].ring, p)
  {
    if !contains(reg.cities[ids[0]].ring, p) {
      FirstContainingFound(reg, ids[1..], p, contains);
      var i :| 0 <= i < |ids[1..]| && ids[1..][i] == FirstContaining(reg, ids[1..], p, contains).value
               && forall j :: 0 <= j < i ==> !contains(reg.cities[ids[1..][j]].ring, p);
      forall j | 0 <= j < i + 1
        ensures !contains(reg.cities[ids[j]].ring, p)
      {
        if j > 0 {
          assert ids[j] == ids[1..][j - 1];
        }
      }
      assert ids[i + 1] == ids[1..][i];
    } else {
      assert ids[0] == FirstContaining(reg, ids, p, contains).value;
    }
  }

  /**
   * A user whose city is not in the registry gets exactly one line, the
   * disabled-city one, whatever their configuration holds, even none at all:
   * the check comes before the configuration is read.
   */
  lemma DisabledCityReportedOnce(userId: uint64, username: string, cityId: uint16, config: Option<string>,
                                 reg: Registry, f: Foreign)
    requires reg.Valid() && cityId !in reg.cities
    ensures UserFindings(UserRow(Some(userId), Some(username), Some(cityId), config), reg, f)
            == [DisabledCity(userId, username, cityId)]
  {
  }

  /**
   * A pointer yields a line exactly when both of its coordinates convert and
   * the assigned city does not contain the point.
   */
  lemma PointerReportedIff(userId: uint64, username: string, assignedId: uint16, json: Value,
                           kind: Kind, reg: Registry, f: Foreign)
    requires reg.Valid() && assignedId in reg.cities
    ensures PointerFinding(userId, username, assignedId, json, kind, reg, f).Some? <==>
              && Coordinate(json, kind, 0, f).Converted?
              && Coordinate(json, kind, 1, f).Converted?
              && !f.contains(reg.cities[assignedId].ring,
                             Point(Coordinate(json, kind, 0, f).value, Coordinate(json, kind, 1, f).value))
  {
  }

  /**
   * A pointer reported in another city names the first city, in iteration
   * order, whose ring contains the point; that city is never the assigned
   * one, since the assigned one was just found not to contain it.
   */
  lemma ElsewhereIsFirstOtherCity(userId: uint64, username: string, assignedId: uint16, json: Value,
                                  kind: Kind, reg: Registry, f: Foreign, found: uint16)
    requires reg.Valid() && assignedId in reg.cities
    requires PointerFinding(userId, username, assignedId, json, kind, reg, f)
             == Some(Elsewhere(userId, username, kind, found, assignedId))
    ensures PointOf(json, kind, f).Some?
    ensures var p := PointOf(json, kind, f).value;
            && found in reg.cities
            && found != assignedId
            && f.contains(reg.cities[found].ring, p)
            && !f.contains(reg.cities[assignedId].ring, p)
            && exists i :: 0 <= i < |reg.order| && reg.order[i] == found
                           && forall j :: 0 <= j < i ==> !f.contains(reg.cities[reg.order[j]].ring, p)
  {
    var p := PointOf(json, kind, f).value;
    FirstContainingFound(reg, reg.order, p, f.contains);
  }

  /** A pointer reported outside every city is contained by no city of the registry. */
  lemma NowhereMeansNoCity(userId: uint64, username: string, assignedId: uint16, json: Value,
                           kind: Kind, reg: Registry, f: Foreign)
    requires reg.Valid() && assignedId in reg.cities
    requires PointerFinding(userId, username, assignedId, json, kind, reg, f) == Some(Nowhere(userId, username, kind))
    ensures PointOf(json, kind, f).Some?
    ensures forall id :: id in reg.cities ==> !f.contains(reg.cities[id].ring, PointOf(json, kind, f).value)
  {
  }

  /**
   * A converted pointer outside the assigned city and inside the city at
   * position i of the iteration order, with no earlier city containing it,
   * is reported in that city.
   */
  lemma FirstContainingCityIsReported(userId: uint64, username: string, assignedId: uint16, json: Value,
                                      kind: Kind, reg: Registry, f: Foreign, p: Point, i: nat)
    requires reg.Valid() && assignedId in reg.cities
    requires PointOf(json, kind, f) == Some(p) && !f.contains(reg.cities[assignedId].ring, p)
    requires i < |reg.order| && f.contains(reg.cities[reg.order[i]].ring, p)
    requires forall j :: 0 <= j < i ==> !f.contains(reg.cities[reg.order[j]].ring, p)
    ensures PointerFinding(userId, username, assignedId, json, kind, reg, f)
            == Some(Elsewhere(userId, username, kind, reg.order[i], assignedId))
  {
    FirstContainingIsFirst(reg, reg.order, p, f.contains, i);
  }

  /** A converted pointer that no city of the registry contains is reported outside every city. */
  lemma NoCityMeansNowhere(userId: uint64, username: string, assignedId: uint16, json: Value,
                           kind: Kind, reg: Registry, f: Foreign, p: Point)
    requires reg.Valid() && assignedId in reg.cities
    requires PointOf(json, kind, f) == Some(p)
    requires forall id :: id in reg.cities ==> !f.contains(reg.cities[id].ring, p)
    ensures PointerFinding(userId, username, assignedId, json, kind, reg, f) == Some(Nowhere(userId, username, kind))
  {
  }

  /** `x` is a pointer line about pointer `k`. */
  predicate IsLineFor(x: Finding, k: Kind)
  {
    !x.DisabledCity? && x.kind == k
  }

  /** `x` and `y` are pointer lines, `x` about a pointer checked before `y`'s. */
  predicate CheckedBefore(x: Finding, y: Finding)
  {
    !x.DisabledCity? && !y.DisabledCity? && Rank(x.kind) < Rank(y.kind)
  }

  /** Each pointer's line, when there is one, is a line about that pointer. */
  ghost predicate KindTagged(lines: Kind -> Option<Finding>)
  {
    forall k :: lines(k).Some? ==> IsLineFor(lines(k).value, k)
  }

  /** Pointers listed in strictly increasing check order. */
  ghost predicate InCheckOrder(kinds: seq<Kind>)
  {
    forall i, j :: 0 <= i < j < |kinds| ==> Rank(kinds[i]) < Rank(kinds[j])
  }

  /** Every collected line is the line of one of the listed pointers, and there are no more lines than pointers. */
  lemma {:induction false} CollectLinesComeFromKinds(kinds: seq<Kind>, lines: Kind -> Option<Finding>)
    requires KindTagged(lines)
    ensures |Collect(kinds, lines)| <= |kinds|
    ensures forall i :: 0 <= i < |Collect(kinds, lines)| ==>
              exists m :: 0 <= m < |kinds| && IsLineFor(Collect(kinds, lines)[i], kinds[m])
                          && lines(kinds[m]) == Some(Collect(kinds, lines)[i])
  {
    if kinds != [] {
      var rest := kinds[1..];
      CollectLinesComeFromKinds(rest, lines);
      var head := Lines(lines(kinds[0]));
      var tail := Collect(rest, lines);
      var fs := head + tail;
      forall i | 0 <= i < |fs|
        ensures exists m :: 0 <= m < |kinds| && IsLineFor(fs[i], kinds[m]) && lines(kinds[m]) == Some(fs[i])
      {
        if i >= |head| {
          assert fs[i] == tail[i - |head|];
          var m :| 0 <= m < |rest| && IsLineFor(tail[i - |head|], rest[m]) && lines(rest[m]) == Some(tail[i - |head|]);
          assert kinds[m + 1] == rest[m];
        } else {
          assert IsLineFor(fs[i], kinds[0]);
        }
      }
    }
  }

  /** Lines are collected in check order, so no pointer has two. */
  lemma {:induction false} CollectInCheckOrder(kinds: seq<Kind>, lines: Kind -> Option<Finding>)
    requires KindTagged(lines) && InCheckOrder(kinds)
    ensures var fs := Collect(kinds, lines);
            forall i, j :: 0 <= i < j < |fs| ==> CheckedBefore(fs[i], fs[j])
  {
    if kinds != [] {
      var rest := kinds[1..];
      assert InCheckOrder(rest) by {
        forall i, j | 0 <= i < j < |rest|
          ensures Rank(rest[i]) < Rank(rest[j])
        {
          assert rest[i] == kinds[i + 1] && rest[j] == kinds[j + 1];
        }
      }
      CollectInCheckOrder(rest, lines);
      CollectLinesComeFromKinds(rest, lines);
      var head := Lines(lines(kinds[0]));
      var tail := Collect(rest, lines);
      var fs := head + tail;
      forall j | 0 <= j < |tail|
        ensures !tail[j].DisabledCity? && Rank(kinds[0]) < Rank(tail[j].kind)
      {
        var m :| 0 <= m < |rest| && IsLineFor(tail[j], rest[m]) && lines(rest[m]) == Some(tail[j]);
        assert kinds[m + 1] == rest[m];
      }
      forall i, j | 0 <= i < j < |fs|
        ensures CheckedBefore(fs[i], fs[j])
      {
        assert fs[j] == tail[j - |head|];
        if i >= |head| {
          assert fs[i] == tail[i - |head|];
        }
      }
    }
  }

  /** A listed pointer that yields a line has it collected. */
  lemma {:induction false} CollectHasLine(kinds: seq<Kind>, lines: Kind -> Option<Finding>, k: Kind)
    requires k in kinds && lines(k).Some?
    ensures exists i :: 0 <= i < |Collect(kinds, lines)| && Collect(kinds, lines)[i] == lines(k).value
  {
    var head := Lines(lines(kinds[0]));
    var tail := Collect(kinds[1..], lines);
    assert Collect(kinds, lines) == head + tail;
    if k == kinds[0] {
      assert Collect(kinds, lines)[0] == lines(k).value;
    } else {
      assert k in kinds[1..];
      CollectHasLine(kinds[1..], lines, k);
      var i :| 0 <= i < |tail| && tail[i] == lines(k).value;
      assert Collect(kinds, lines)[|head| + i] == tail[i];
    }
  }

  /** A listed pointer has a line exactly when it yields one on its own: no pointer hides another. */
  lemma CollectComplete(kinds: seq<Kind>, lines: Kind -> Option<Finding>, k: Kind)
    requires KindTagged(lines) && k in kinds
    ensures (exists i :: 0 <= i < |Collect(kinds, lines)| && IsLineFor(Collect(kinds, lines)[i], k)) <==> lines(k).Some?
  {
    var fs := Collect(kinds, lines);
    CollectLinesComeFromKinds(kinds, lines);
    if lines(k).Some? {
      CollectHasLine(kinds, lines, k);
      var i :| 0 <= i < |fs| && fs[i] == lines(k).value;
      assert IsLineFor(fs[i], k);
    } else {
      forall i | 0 <= i < |fs|
        ensures !IsLineFor(fs[i], k)
      {
        var m :| 0 <= m < |kinds| && IsLineFor(fs[i], kinds[m]) && lines(kinds[m]) == Some(fs[i]);
      }
    }
  }

  /** A user with a known city and a readable configuration gets the lines of the four pointer checks. */
  lemma CheckedUserLines(userId: uint64, username: string, cityId: uint16, config: string, json: Value,
                         reg: Registry, f: Foreign)
    requires reg.Valid() && cityId in reg.cities && f.parseJson(config) == Some(json)
    ensures UserFindings(UserRow(Some(userId), Some(username), Some(cityId), Some(config)), reg, f)
            == Collect(Kinds, PointerLines(userId, username, cityId, json, reg, f))
  {
  }

  /** The four pointers are listed once each, in check order. */
  lemma KindsInCheckOrder()
    ensures InCheckOrder(Kinds)
    ensures forall k: Kind :: k in Kinds
  {
    forall k: Kind
      ensures k in Kinds
    {
      match k
      case Home => assert Kinds[0] == k;
      case Pokemon => assert Kinds[1] == k;
      case Raid => assert Kinds[2] == k;
      case Invasion => assert Kinds[3] == k;
    }
  }

  /**
   * Such a user gets at most four lines, each a pointer line of this user
   * that is exactly what that pointer's check yields.
   */
  lemma CheckedUserFindings(userId: uint64, username: string, cityId: uint16, config: string, json: Value,
                            reg: Registry, f: Foreign)
    requires reg.Valid() && cityId in reg.cities && f.parseJson(config) == Some(json)
    ensures var fs := UserFindings(UserRow(Some(userId), Some(username), Some(cityId), Some(config)), reg, f);
            && |fs| <= 4
            && (forall i :: 0 <= i < |fs| ==>
                  !fs[i].DisabledCity? && fs[i].userId == userId
                  && PointerFinding(userId, username, cityId, json, fs[i].kind, reg, f) == Some(fs[i]))
  {
    var lines := PointerLines(userId, username, cityId, json, reg, f);
    CheckedUserLines(userId, username, cityId, config, json, reg, f);
    CollectLinesComeFromKinds(Kinds, lines);
  }

  /** Such a user's lines come in the order home, pokémon, raid, invasion, so no pointer is reported twice. */
  lemma CheckedUserFindingsOrdered(userId: uint64, username: string, cityId: uint16, config: string, json: Value,
                                   reg: Registry, f: Foreign)
    requires reg.Valid() && cityId in reg.cities && f.parseJson(config) == Some(json)
    ensures var fs := UserFindings(UserRow(Some(userId), Some(username), Some(cityId), Some(config)), reg, f);
            forall i, j :: 0 <= i < j < |fs| ==> CheckedBefore(fs[i], fs[j])
  {
    var lines := PointerLines(userId, username, cityId, json, reg, f);
    CheckedUserLines(userId, username, cityId, config, json, reg, f);
    KindsInCheckOrder();
    CollectInCheckOrder(Kinds, lines);
  }

  /** Such a user has a line about a pointer exactly when that pointer's check yields one. */
  lemma CheckedUserFindingsComplete(userId: uint64, username: string, cityId: uint16, config: string, json: Value,
                                    reg: Registry, f: Foreign, k: Kind)
    requires reg.Valid() && cityId in reg.cities && f.parseJson(config) == Some(json)
    ensures var fs := UserFindings(UserRow(Some(userId), Some(username), Some(cityId), Some(config)), reg, f);
            (exists i :: 0 <= i < |fs| && IsLineFor(fs[i], k))
            <==> PointerFinding(userId, username, cityId, json, k, reg, f).Some?
  {
    var lines := PointerLines(userId, username, cityId, json, reg, f);
    CheckedUserLines(userId, username, cityId, config, json, reg, f);
    KindsInCheckOrder();
    CollectComplete(Kinds, lines, k);
  }

  /** Users are checked independently: the lines of two batches are the lines of each, in turn. */
  lemma {:induction false} ConcatAppend(a: seq<UserRow>, b: seq<UserRow>, lines: UserRow -> seq<Finding>)
    ensures Concat(a + b, lines) == Concat(a, lines) + Concat(b, lines)
    decreases |b|
  {
    if b == [] {
      assert a + b == a;
    } else {
      var n := |b| - 1;
      assert (a + b)[..|a + b| - 1] == a + b[..n];
      assert (a + b)[|a + b| - 1] == b[n];
      ConcatAppend(a, b[..n], lines);
    }
  }

  /** Hence the findings of a batch of users are the findings of its parts, in turn. */
  lemma AllFindingsAppend(a: seq<UserRow>, b: seq<UserRow>, reg: Registry, f: Foreign)
    requires reg.Valid()
    ensures AllFindings(a + b, reg, f) == AllFindings(a, reg, f) + AllFindings(b, reg, f)
  {
    ConcatAppend(a, b, UserLines(reg, f));
  }

  /**
   * A run ends in an error exactly when some city row yields no city, and
   * the error is the first such row's; otherwise it yields the lines of
   * every user against the registry the rows build.
   */
  lemma OutcomeMeaning(cityRows: seq<CityRow>, userRows: seq<UserRow>, f: Foreign,
                       place: (seq<uint16>, uint16) -> nat)
    ensures Outcome(cityRows, userRows, f, place).Err? <==>
              exists i :: 0 <= i < |cityRows| && CityOf(cityRows[i], Reader(f.parseF64)).Err?
    ensures Outcome(cityRows, userRows, f, place).Err? ==>
              exists i :: 0 <= i < |cityRows|
                          && CityOf(cityRows[i], Reader(f.parseF64)) == Err(Outcome(cityRows, userRows, f, place).error)
                          && forall j :: 0 <= j < i ==> CityOf(cityRows[j], Reader(f.parseF64)).Ok?
  {
    BuildOkIff(cityRows, Reader(f.parseF64), place);
    if Build(cityRows, Reader(f.parseF64), place).Err? {
      BuildFailsAtFirstBadRow(cityRows, Reader(f.parseF64), place);
    }
  }

  // ---------------------------------------------------------------------------
  // What the iteration order decides

  /**
   * Two lines agree except, when both name another city, in which city that
   * is: the one thing the hash table's iteration order can change.
   */
  predicate SameLine(x: Finding, y: Finding)
  {
    x == y || (x.Elsewhere? && y.Elsewhere? && x.(foundId := y.foundId) == y)
  }

  predicate SameLines(xs: seq<Finding>, ys: seq<Finding>)
  {
    |xs| == |ys| && forall i :: 0 <= i < |xs| ==> SameLine(xs[i], ys[i])
  }

  predicate SameOptLine(x: Option<Finding>, y: Option<Finding>)
  {
    x.Some? == y.Some? && (x.Some? ==> SameLine(x.value, y.value))
  }

  /**
   * Two registries with the same cities give every pointer the same
   * verdict: a line or none, outside every city or not, and the same line
   * apart from which containing city is named first.
   */
  lemma PointerFindingIgnoresOrder(userId: uint64, username: string, assignedId: uint16, json: Value,
                                   kind: Kind, reg1: Registry, reg2: Registry, f: Foreign)
    requires reg1.Valid() && reg2.Valid() && reg1.cities == reg2.cities && assignedId in reg1.cities
    ensures SameOptLine(PointerFinding(userId, username, assignedId, json, kind, reg1, f),
                        PointerFinding(userId, username, assignedId, json, kind, reg2, f))
    // where the two lines name different cities, each of them contains the pointer
    ensures var r1 := PointerFinding(userId, username, assignedId, json, kind, reg1, f);
            var r2 := PointerFinding(userId, username, assignedId, json, kind, reg2, f);
            r1.Some? && r1.value.Elsewhere? ==>
              && r2.Some? && r2.value.Elsewhere?
              && PointOf(json, kind, f).Some?
              && r1.value.foundId in reg1.cities && r2.value.foundId in reg2.cities
              && f.contains(reg1.cities[r1.value.foundId].ring, PointOf(json, kind, f).value)
              && f.contains(reg2.cities[r2.value.foundId].ring, PointOf(json, kind, f).value)
  {
    match PointOf(json, kind, f)
    case None =>
    case Some(p) =>
      var r1 := FirstContaining(reg1, reg1.order, p, f.contains);
      var r2 := FirstContaining(reg2, reg2.order, p, f.contains);
  }

  /** Pointer by pointer agreement carries over to the collected lines. */
  lemma {:induction false} CollectSameLines(kinds: seq<Kind>, lines1: Kind -> Option<Finding>,
                                            lines2: Kind -> Option<Finding>)
    requires forall k :: SameOptLine(lines1(k), lines2(k))
    ensures SameLines(Collect(kinds, lines1), Collect(kinds, lines2))
  {
    if kinds != [] {
      CollectSameLines(kinds[1..], lines1, lines2);
      var h1, h2 := Lines(lines1(kinds[0])), Lines(lines2(kinds[0]));
      var t1, t2 := Collect(kinds[1..], lines1), Collect(kinds[1..], lines2);
      assert Collect(kinds, lines1) == h1 + t1;
      assert Collect(kinds, lines2) == h2 + t2;
      assert |h1| == |h2|;
      forall i | 0 <= i < |h1 + t1|
        ensures SameLine((h1 + t1)[i], (h2 + t2)[i])
      {
        if i >= |h1| {
          assert (h1 + t1)[i] == t1[i - |h1|] && (h2 + t2)[i] == t2[i - |h1|];
        }
      }
    }
  }

  /** One user's lines against two registries with the same cities agree up to the cities named. */
  lemma UserFindingsIgnoreOrder(row: UserRow, reg1: Registry, reg2: Registry, f: Foreign)
    requires reg1.Valid() && reg2.Valid() && reg1.cities == reg2.cities
    ensures SameLines(UserFindings(row, reg1, f), UserFindings(row, reg2, f))
  {
    if row.UserRow? && row.userId.Some? && row.username.Some? && row.cityId.Some?
       && row.cityId.value in reg1.cities && row.config.Some? && f.parseJson(row.config.value).Some? {
      var userId, username, cityId := row.userId.value, row.username.value, row.cityId.value;
      var json := f.parseJson(row.config.value).value;
      var lines1 := PointerLines(userId, username, cityId, json, reg1, f);
      var lines2 := PointerLines(userId, username, cityId, json, reg2, f);
      forall k
        ensures SameOptLine(lines1(k), lines2(k))
      {
        PointerFindingIgnoresOrder(userId, username, cityId, json, k, reg1, reg2, f);
      }
      CollectSameLines(Kinds, lines1, lines2);
    }
  }

  /**
   * Whatever the iteration order, every line of a user that names another
   * city names one whose ring contains that user's pointer.
   */
  lemma UserElsewhereLinesContainPointer(row: UserRow, reg: Registry, f: Foreign)
    requires reg.Valid()
    ensures var fs := UserFindings(row, reg, f);
            forall i :: 0 <= i < |fs| && fs[i].Elsewhere? ==>
              && row.UserRow? && row.userId == Some(fs[i].userId) && row.username == Some(fs[i].username)
              && row.config.Some? && f.parseJson(row.config.value).Some?
              && PointOf(f.parseJson(row.config.value).value, fs[i].kind, f).Some?
              && fs[i].foundId in reg.cities
              && f.contains(reg.cities[fs[i].foundId].ring,
                            PointOf(f.parseJson(row.config.value).value, fs[i].kind, f).value)
  {
    var fs := UserFindings(row, reg, f);
    if row.UserRow? && row.userId.Some? && row.username.Some? && row.cityId.Some?
       && row.cityId.value in reg.cities && row.config.Some? && f.parseJson(row.config.value).Some? {
      var userId, username, cityId := row.userId.value, row.username.value, row.cityId.value;
      var json := f.parseJson(row.config.value).value;
      CheckedUserFindings(userId, username, cityId, row.config.value, json, reg, f);
      forall i | 0 <= i < |fs| && fs[i].Elsewhere?
        ensures PointOf(json, fs[i].kind, f).Some? && fs[i].foundId in reg.cities
                && f.contains(reg.cities[fs[i].foundId].ring, PointOf(json, fs[i].kind, f).value)
      {
        ElsewhereIsFirstOtherCity(userId, username, cityId, json, fs[i].kind, reg, f, fs[i].foundId);
      }
    }
  }

  /** `row` is the user `x` is about, and `x` names a city whose ring contains that user's pointer of `x`'s kind. */
  ghost predicate FoundCityContains(x: Finding, row: UserRow, cities: map<uint16, City>, f: Foreign)
    requires x.Elsewhere?
  {
    && row.UserRow? && row.userId == Some(x.userId) && row.username == Some(x.username)
    && row.config.Some? && f.parseJson(row.config.value).Some?
    && PointOf(f.parseJson(row.config.value).value, x.kind, f).Some?
    && x.foundId in cities
    && f.contains(cities[x.foundId].ring, PointOf(f.parseJson(row.config.value).value, x.kind, f).value)
  }

  /**
   * Every line of a run that names another city names one whose ring
   * contains that user's pointer of that kind, in the configuration of one
   * of the user rows carrying that user.
   */
  lemma {:induction false} AllElsewhereLinesContainPointer(rows: seq<UserRow>, reg: Registry, f: Foreign)
    requires reg.Valid()
    ensures var fs := AllFindings(rows, reg, f);
            forall i :: 0 <= i < |fs| && fs[i].Elsewhere? ==>
              exists r :: r in rows && FoundCityContains(fs[i], r, reg.cities, f)
    decreases |rows|
  {
    if rows != [] {
      var n := |rows| - 1;
      AllElsewhereLinesContainPointer(rows[..n], reg, f);
      var a: seq<Finding> := AllFindings(rows[..n], reg, f);
      var b: seq<Finding> := UserFindings(rows[n], reg, f);
      assert AllFindings(rows, reg, f) == a + b;
      UserElsewhereLinesContainPointer(rows[n], reg, f);
      forall i | 0 <= i < |a + b| && (a + b)[i].Elsewhere?
        ensures exists r :: r in rows && FoundCityContains((a + b)[i], r, reg.cities, f)
      {
        if i < |a| {
          assert (a + b)[i] == a[i];
          var r :| r in rows[..n] && FoundCityContains(a[i], r, reg.cities, f);
        } else {
          assert (a + b)[i] == b[i - |a|];
          assert FoundCityContains(b[i - |a|], rows[n], reg.cities, f);
        }
      }
    }
  }

  /** Row by row agreement carries over to the lines of all rows. */
  lemma {:induction false} ConcatSameLines(rows: seq<UserRow>, lines1: UserRow -> seq<Finding>,
                                           lines2: UserRow -> seq<Finding>)
    requires forall row :: SameLines(lines1(row), lines2(row))
    ensures SameLines(Concat(rows, lines1), Concat(rows, lines2))
    decreases |rows|
  {
    if rows != [] {
      var n := |rows| - 1;
      ConcatSameLines(rows[..n], lines1, lines2);
      var a1, a2 := Concat(rows[..n], lines1), Concat(rows[..n], lines2);
      var b1, b2 := lines1(rows[n]), lines2(rows[n]);
      assert SameLines(b1, b2);
      forall i | 0 <= i < |a1 + b1|
        ensures SameLine((a1 + b1)[i], (a2 + b2)[i])
      {
        if i < |a1| {
          assert (a1 + b1)[i] == a1[i] && (a2 + b2)[i] == a2[i];
        } else {
          assert (a1 + b1)[i] == b1[i - |a1|] && (a2 + b2)[i] == b2[i - |a1|];
        }
      }
    }
  }

  /**
   * A run is determined by the database rows and the foreign operations up
   * to the hash table's iteration order, and that order decides no more
   * than which city an `Elsewhere` line names when several cities contain
   * the pointer: whether the run fails, its error, the number of lines and
   * every other field of every line are the same for any placement.
   */
  lemma OutcomeIgnoresPlace(cityRows: seq<CityRow>, userRows: seq<UserRow>, f: Foreign,
                            place1: (seq<uint16>, uint16) -> nat, place2: (seq<uint16>, uint16) -> nat)
    ensures Outcome(cityRows, userRows, f, place1).Err? == Outcome(cityRows, userRows, f, place2).Err?
    ensures Outcome(cityRows, userRows, f, place1).Err? ==>
              Outcome(cityRows, userRows, f, place1) == Outcome(cityRows, userRows, f, place2)
    ensures Outcome(cityRows, userRows, f, place1).Ok? ==>
              SameLines(Outcome(cityRows, userRows, f, place1).value, Outcome(cityRows, userRows, f, place2).value)
  {
    var readRing := Reader(f.parseF64);
    BuildCitiesIgnorePlace(cityRows, readRing, place1, place2);
    BuildValid(cityRows, readRing, place1);
    BuildValid(cityRows, readRing, place2);
    if Build(cityRows, readRing, place1).Ok? {
      var reg1, reg2 := Build(cityRows, readRing, place1).value, Build(cityRows, readRing, place2).value;
      var lines1, lines2 := UserLines(reg1, f), UserLines(reg2, f);
      forall row
        ensures SameLines(lines1(row), lines2(row))
      {
        UserFindingsIgnoreOrder(row, reg1, reg2, f);
      }
      ConcatSameLines(userRows, lines1, lines2);
    }
  }

  /**
   * For every iteration order, a line of a run that names another city
   * names one whose ring contains that user's pointer of that kind, as
   * given by one of the user rows carrying that user.
   */
  lemma OutcomeElsewhereLinesContainPointer(cityRows: seq<CityRow>, userRows: seq<UserRow>, f: Foreign,
                                            place: (seq<uint16>, uint16) -> nat)
    ensures Outcome(cityRows, userRows, f, place).Ok? ==>
              var fs := Outcome(cityRows, userRows, f, place).value;
              forall i :: 0 <= i < |fs| && fs[i].Elsewhere? ==>
                exists r :: r in userRows
                            && FoundCityContains(fs[i], r, Build(cityRows, Reader(f.parseF64), place).value.cities, f)
  {
    BuildValid(cityRows, Reader(f.parseF64), place);
    if Build(cityRows, Reader(f.parseF64), place).Ok? {
      AllElsewhereLinesContainPointer(userRows, Build(cityRows, Reader(f.parseF64), place).value, f);
    }
  }
}
