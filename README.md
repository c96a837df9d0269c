# sgammer, modelled in Dafny

sgammer is a one-shot consistency checker for a bot's user base. It loads
every active city from the database, each with a polygon ring given as a
`coordinates` text column, and keeps them in a map keyed by city id. Then,
for every active user, it checks two things:

- the city the user is assigned to is still known;
- each of the four pointers stored in the user's JSON bot configuration
  (home, pokémon, raid, invasion) lies inside that city.

A pointer outside its city is looked up in every known city. The first city
that contains it is reported, or the fact that no city does.

This project models that logic (`src/main.rs`) without its I/O:

- `wrappers.dfy` and `numbers.dfy` hold `Option`/`Result`, the fixed-width
  integer types of the database columns, and `F64`, an opaque float given by
  its 64 bits.
- `json.dfy` (module `Json`) models the JSON document with serde_json's
  indexing, where a missing path gives `Null`. It also holds
  `convert_to_f64` as `ConvertToF64`.
- `ring_parser.dfy` (module `RingParser`) models the ring parser:
  - removing parentheses, splitting on commas and Rust's `trim`;
  - parsing every token, then pairing the floats into vertices;
  - the in-place loop that does this, as the method `ParseRing`, proved
    against the function `RingOf`.
- `registry.dfy` (module `CityRegistry`) models the city registry:
  - the `HashMap<u16, City>` as a map plus an explicit iteration order;
  - the build over the city rows, as the method `BuildRegistry`, proved
    against the function `Build`.
- `reconcile.dfy` (module `Reconcile`) models the per-user pass:
  - the disabled-city check and the pointer check with its fallback scan,
    as methods proved against the functions `PointerFinding`,
    `UserFindings`, `AllFindings` and `Outcome`;
  - lemmas for what those functions promise.

The program's output lines are values of the `Finding` datatype, one per
line:

- `DisabledCity`: the user's city is unknown.
- `Elsewhere`: the pointer lies in another city.
- `Nowhere`: the pointer lies outside every known city.

Foreign operations are parameters. Since they are Dafny functions, each one
is deterministic:

- `str::parse::<f64>`
- `Number::as_f64`
- `serde_json::from_str`
- the ray-casting `within` test
- where the hash table places a new key in its iteration order

## Model

| member | source | states |
|---|---|---|
| Json.ConvertToF64 | src/main.rs:20-36 | Fails without a log exactly on the empty string. Succeeds exactly on a non-empty string that parses or a number `as_f64` converts, and the value is then that parse/conversion result. Anything else fails with a log. |
| Json.MissingPathIsLoggedFailure | src/main.rs:31-34 | A configuration without a `locs` object indexes to `Null`, which is a logged failure. |
| RingParser.StripParens | src/main.rs:51 | The two `replace` calls leave no `(` and no `)` in the string. |
| RingParser.DeleteAppend | src/main.rs:51 | `replace(c, "")` distributes over concatenation, so it removes `c` wherever it stands. |
| RingParser.DeleteAbsent | src/main.rs:51 | `replace(c, "")` leaves a string without `c` unchanged. |
| RingParser.StripParensAnywhere | src/main.rs:51 | Stripping a concatenation gives the concatenation of the stripped parts, so parentheses are removed anywhere, not just at the ends. A part without parentheses is kept verbatim. |
| RingParser.Split | src/main.rs:51 | `split(",")` yields at least one field, and no field holds a comma. |
| RingParser.JoinSplit | src/main.rs:51 | Joining the fields of `split(",")` with commas gives back the original string: splitting loses nothing. |
| RingParser.SplitJoin | src/main.rs:51 | Splitting comma-free fields joined by commas gives back those fields. |
| RingParser.SplitField | src/main.rs:51 | A comma-free field followed by a comma splits into that field followed by the split of the rest. |
| RingParser.TrimStartMeaning | src/main.rs:52 | `trim_start` removes exactly the leading whitespace run: the result is a suffix and does not start with whitespace. |
| RingParser.TrimEndMeaning | src/main.rs:52 | `trim_end` removes exactly the trailing whitespace run: the result is a prefix and does not end with whitespace. |
| RingParser.TrimMeaning | src/main.rs:52 | `trim` returns the infix between the leading and the trailing whitespace, and neither end of it is whitespace. |
| RingParser.Parsed | src/main.rs:51-52 | Successful parsing gives one float per token. |
| RingParser.ParsedMeaning | src/main.rs:51-52 | Parsing succeeds iff every trimmed token parses, and float i is then token i's value. Otherwise the error is the first token that fails, untrimmed as `main` logs it. |
| RingParser.ParsedErrPersists | src/main.rs:52 | Once a prefix of the tokens fails, the whole parse fails with that same token. |
| RingParser.Pair | src/main.rs:53-59 | n floats give ceil(n/2) vertices. |
| RingParser.PairAt | src/main.rs:53-59 | Vertex k is (float 2k, float 2k+1), or (float 2k, 0) when there is no float 2k+1. |
| RingParser.PairSnoc | src/main.rs:53-59 | One more float either pushes `[x, 0]` (even count so far) or overwrites the y of the last vertex (odd count so far). |
| RingParser.ParseRing | src/main.rs:50-60 | The in-place loop, where `poly[len-1]` is always in bounds, computes exactly `RingOf`: the paired floats of the trimmed tokens, or the first bad token. |
| RingParser.EmptyCoordinatesFail | src/main.rs:51-52 | An empty `coordinates` column is one empty token and fails when the empty string does not parse. |
| RingParser.RingOfVertices | src/main.rs:50-60 | A parsed ring has ceil(n/2) vertices for n tokens. Vertex k holds the values of tokens 2k and 2k+1, and y = 0 for a lone last x. |
| CityRegistry.Registry.Insert | src/main.rs:63-67 | `HashMap::insert` keeps the map invariant and puts the city under its id. An existing key keeps its place in the iteration order; a new key is inserted at a position the hash table chooses. |
| CityRegistry.BuildValid | src/main.rs:45-69 | Every built registry satisfies the invariant: the order lists each key once, and each city sits under its own id. |
| CityRegistry.BuildErrPersists | src/main.rs:47-65 | Once a prefix of the rows fails, the whole build fails with that error. |
| CityRegistry.BuildRegistry | src/main.rs:42-70 | The build loop computes exactly `Build`. It parses each row's ring before taking the id and then the name, inserts each city, and returns the first error at once with no partial registry. |
| CityRegistry.BuildOkIff | src/main.rs:46-68 | The build succeeds iff every row yields a city. |
| CityRegistry.BuildFailsAtFirstBadRow | src/main.rs:46-65 | A failed build reports the error of the first row that yields no city, and every earlier row yields one. |
| CityRegistry.BuildKeys | src/main.rs:62-67 | The registry's keys are exactly the ids of the rows' cities. |
| CityRegistry.BuildLastWins | src/main.rs:62-67 | Under each id sits the city of the last row carrying that id: a later duplicate replaces the earlier one. |
| Reconcile.EmptyCoordinateIsSilent | src/main.rs:22-25 | An empty-string coordinate fails without a log, and its pointer is skipped. |
| Reconcile.FirstContaining | src/main.rs:129-136 | The scan's answer is a listed city that contains the point. No answer means no listed city contains it. |
| Reconcile.FirstContainingIsFirst | src/main.rs:130-134 | If position i contains the point and no earlier position does, the scan stops at position i. |
| Reconcile.FirstContainingFound | src/main.rs:130-134 | The scan's answer sits at a position before which no city contains the point. |
| Reconcile.PointerFinding | src/main.rs:125-143 | A pointer line names this user (id and username) and this pointer and is never a disabled-city line. A line naming another city also names the assigned city. |
| Reconcile.CheckPointer | src/main.rs:125-143 | The pointer check, with its `not_found` flag and `break`, computes exactly `PointerFinding`. |
| Reconcile.PointerReportedIff | src/main.rs:125-128 | A pointer yields a line iff both coordinates convert and the assigned city does not contain the point. |
| Reconcile.ElsewhereIsFirstOtherCity | src/main.rs:128-135 | A line naming another city names the first city in iteration order that contains the point. That city is never the assigned one. |
| Reconcile.NowhereMeansNoCity | src/main.rs:137-139 | A line saying "out of any known city" means no registry city contains the point. |
| Reconcile.NoCityMeansNowhere | src/main.rs:125-139 | Conversely, a converted pointer that no registry city contains gives the "out of any known city" line. |
| Reconcile.FirstContainingCityIsReported | src/main.rs:125-136 | Conversely, a converted pointer outside the assigned city is reported in the first city in iteration order that contains it. |
| Reconcile.FourPointers | src/main.rs:125-203 | The user's pointer lines are home's, then pokémon's, then raid's, then invasion's. |
| Reconcile.CheckPointers | src/main.rs:125-203 | The four checks in a row compute the lines of the four pointers in check order. |
| Reconcile.CollectLinesComeFromKinds | src/main.rs:125-203 | There are no more lines than pointers, and every line is the line of one of the checked pointers. |
| Reconcile.CollectInCheckOrder | src/main.rs:125-203 | Lines come in check order, so no pointer is reported twice. |
| Reconcile.CollectHasLine | src/main.rs:125-203 | A checked pointer that yields a line has that line in the output. |
| Reconcile.CollectComplete | src/main.rs:125-203 | A checked pointer has a line iff it yields one on its own: one failed pointer never hides another. |
| Reconcile.DisabledCityReportedOnce | src/main.rs:104-107 | A user whose city is not a registry key gets exactly one line, the disabled-city one, whatever the configuration. |
| Reconcile.CheckUser | src/main.rs:75-203 | The user loop's body computes exactly `UserFindings`. Unreadable rows and missing columns give nothing, an unknown city gives one line, and a missing or unparsable configuration gives nothing. |
| Reconcile.CheckedUserLines | src/main.rs:109-203 | A user with a known city and a parsed configuration gets the lines of the four pointer checks. |
| Reconcile.CheckedUserFindings | src/main.rs:125-203 | Such a user gets at most four lines. Each is a pointer line of this user and equals what its pointer's check yields. |
| Reconcile.CheckedUserFindingsOrdered | src/main.rs:125-203 | Such a user's lines come in the order home, pokémon, raid, invasion. |
| Reconcile.CheckedUserFindingsComplete | src/main.rs:125-203 | Such a user has a line about a pointer iff that pointer's check yields one. |
| Reconcile.ReconcileUsers | src/main.rs:74-204 | The user loop computes exactly `AllFindings`: the lines of each row, in row order. |
| Reconcile.ConcatAppend | src/main.rs:74-204 | The lines of two batches of rows are the lines of each batch, in turn. |
| Reconcile.AllFindingsAppend | src/main.rs:74-204 | Users are checked independently: the findings of a concatenation are the findings of its parts, in turn. |
| Reconcile.Run | src/main.rs:38-207 | `main` without its I/O computes exactly `Outcome`: the build error, or every user's lines against the built registry. |
| CityRegistry.BuildCitiesIgnorePlace | src/main.rs:45-67 | Where the hash table places new keys does not change whether the build fails, its error, or the city under each id; only the iteration order differs. |
| Reconcile.PointerFindingIgnoresOrder | src/main.rs:125-143 | With the same cities in any iteration order, a pointer gets the same line or none. The lines differ at most in which city an `Elsewhere` line names, and then both named cities contain the pointer. |
| Reconcile.CollectSameLines | src/main.rs:125-203 | Pointer lines that agree up to the named city give user lines that agree the same way, position by position. |
| Reconcile.UserFindingsIgnoreOrder | src/main.rs:75-203 | One user's lines against registries with the same cities agree up to the city named in `Elsewhere` lines. |
| Reconcile.ConcatSameLines | src/main.rs:74-204 | Row lines that agree up to the named city give run lines that agree the same way. |
| Reconcile.OutcomeIgnoresPlace | src/main.rs:42-204 | Two runs on the same rows with different hash-table orders either fail together with the same error, or give the same number of lines. Those lines differ at most in the city an `Elsewhere` line names. |
| Reconcile.UserElsewhereLinesContainPointer | src/main.rs:125-203 | Every `Elsewhere` line of a user names a registry city whose ring contains that user's pointer of that kind. |
| Reconcile.AllElsewhereLinesContainPointer | src/main.rs:74-204 | Every `Elsewhere` line of the user pass names a city whose ring contains that user's pointer of that kind, as given by a user row with the line's user id and username. |
| Reconcile.OutcomeElsewhereLinesContainPointer | src/main.rs:42-204 | For every hash-table order, every `Elsewhere` line of a successful run names a built city that contains that user's pointer of that kind, as given by a user row with the line's user id and username. |
| Reconcile.OutcomeMeaning | src/main.rs:42-70 | A run fails iff some city row yields no city, with the first such row's error. No user is checked after a failed build. |

## Left out

- Database access is not modelled: the connection, the `DATABASE_URL` environment variable and both queries, including their `WHERE` filters. Rows arrive as decoded records. A column is `None` when `Row::take` returns `None` for it, and a row the driver cannot deliver is `UnreadableCityRow` / `UnreadableUserRow`. The panic `take` raises on a value it cannot convert to the column's Rust type is not modelled.
- A failing query ends `main` with `Err(())` before any row is seen. The model starts from the delivered rows and does not include that error path.
- Logging through `error!`/`env_logger` is not modelled. The only trace kept is the `logged` flag of a failed `convert_to_f64`, which distinguishes the silent empty-string case.
- Foreign operations are parameters, and nothing is assumed about them beyond determinism:
  - `str::parse::<f64>`;
  - serde_json's `Number::as_f64`;
  - `serde_json::from_str`;
  - `geo_raycasting`'s `within`.
- Floating-point values are opaque 64-bit patterns. No arithmetic is done on them.
- `geo::Polygon::new` closing the ring is not modelled. A city's ring is the vertex list the parser builds, and containment receives it as is.
- Rust leaves the `HashMap` iteration order unspecified. It is modelled by a `place` parameter that chooses where each new key lands. The fallback scan's promises hold for every such order.
- CityRegistry.Registry.Insert: does not model how Rust's hash table re-places every entry when it grows, which can change the relative order of keys already present. Each new key may land at any position, so every arrangement of the final keys is reachable by some `place`. Every promise about the scan order holds for every `place`, so it covers every iteration order Rust can produce.
- The exact `println!` wording is not modelled. Each line is a `Finding` value, and a found city is given by its id; the name is in the registry under that id.
- The four copies of the pointer block differ only in the `locs` key and the word printed. They are one method, `CheckPointer`, called for each `Kind` in the order `main` checks them.
- Run: repeatable only up to the city named in `Elsewhere` lines. Rust seeds each `HashMap` at random per process, so two runs on the same database may scan the cities in different orders. When a pointer lies in several overlapping cities, they may then name different ones. `OutcomeIgnoresPlace` proves that lines differ at most in the city an `Elsewhere` line names. `OutcomeElsewhereLinesContainPointer` proves that in every run such a city contains that user's pointer of that kind.
