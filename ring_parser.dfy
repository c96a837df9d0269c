/**
 * The ring parser of the city build (`src/main.rs`, lines 50-60): the
 * `coordinates` column is stripped of every parenthesis, split on commas,
 * each token trimmed and parsed as a float, and the floats paired up into
 * vertices, even positions giving x and odd positions y.
 */
module RingParser {
  import opened Wrappers
  import opened Numbers

  /** A vertex of a ring (`[f64; 2]`) or a user's point (`Point<f64>`). */
  datatype Point = Point(x: F64, y: F64)

  type Ring = seq<Point>

  // ---------------------------------------------------------------------------
  // Removing parentheses: `replace("(", "").replace(")", "")`

  /** `s.replace(c, "")`: every occurrence of `c` removed, nothing else touched. */
  function Delete(s: string, c: char): (r: string)
    ensures c !in r
    ensures forall d :: d in r ==> d in s
  {
    if s == [] then []
    else (if s[0] == c then [] else [s[0]]) + Delete(s[1..], c)
  }

  /** Deleting distributes over concatenation: it acts anywhere in the string. */
  lemma {:induction false} DeleteAppend(a: string, b: string, c: char)
    ensures Delete(a + b, c) == Delete(a, c) + Delete(b, c)
  {
    if a != [] {
      assert (a + b)[1..] == a[1..] + b;
      DeleteAppend(a[1..], b, c);
    } else {
      assert a + b == b;
    }
  }

  /** A string without `c` is left as it is. */
  lemma {:induction false} DeleteAbsent(s: string, c: char)
    requires c !in s
    ensures Delete(s, c) == s
  {
    if s != [] {
      DeleteAbsent(s[1..], c);
    }
  }

  /** The two `replace` calls, in the Rust code's order. */
  function StripParens(s: string): (r: string)
    ensures '(' !in r && ')' !in r
  {
    Delete(Delete(s, '('), ')')
  }

  /**
   * Parentheses are removed wherever they stand, not only at the ends, and
   * every other character keeps its place: stripping a concatenation is the
   * concatenation of the stripped parts, and a part without parentheses is
   * kept verbatim.
   */
  lemma StripParensAnywhere(a: string, b: string)
    ensures StripParens(a + b) == StripParens(a) + StripParens(b)
    ensures '(' !in a && ')' !in a ==> StripParens(a) == a
  {
    DeleteAppend(a, b, '(');
    DeleteAppend(Delete(a, '('), Delete(b, '('), ')');
    if '(' !in a && ')' !in a {
      DeleteAbsent(a, '(');
      DeleteAbsent(a, ')');
    }
  }

  // ---------------------------------------------------------------------------
  // Splitting on commas: `split(",")`

  /** `s.split(",")`: the fields between commas; the empty string is one empty field. */
  function Split(s: string): (r: seq<string>)
    ensures |r| > 0
    ensures forall i :: 0 <= i < |r| ==> ',' !in r[i]
  {
    if s == [] then [""]
    else
      var rest := Split(s[1..]);
      if s[0] == ',' then [""] + rest
      else [[s[0]] + rest[0]] + rest[1..]
  }

  /** Fields glued back together with commas. */
  function Join(parts: seq<string>): string
    requires |parts| > 0
  {
    if |parts| == 1 then parts[0] else parts[0] + "," + Join(parts[1..])
  }

  /** Splitting loses nothing: joining the fields gives the string back. */
  lemma {:induction false} JoinSplit(s: string)
    ensures Join(Split(s)) == s
  {
    if s != [] {
      JoinSplit(s[1..]);
      var rest := Split(s[1..]);
      if s[0] == ',' {
        assert Split(s) == [""] + rest;
        assert Join(Split(s)) == "" + "," + Join(rest);
      } else {
        assert Split(s) == [[s[0]] + rest[0]] + rest[1..];
        if |rest| == 1 {
          assert Join(Split(s)) == [s[0]] + rest[0];
        } else {
          assert Join(Split(s)) == [s[0]] + rest[0] + "," + Join(rest[1..]);
          assert Join(rest) == rest[0] + "," + Join(rest[1..]);
        }
        assert s == [s[0]] + s[1..];
      }
    }
  }

  /** Splitting a field that holds no comma, followed by a comma and more text. */
  lemma {:induction false} SplitField(p: string, t: string)
    requires ',' !in p
    ensures Split(p) == [p]
    ensures Split(p + "," + t) == [p] + Split(t)
  {
    if p == [] {
      assert p + "," + t == [','] + t;
      assert ([','] + t)[1..] == t;
    } else {
      SplitField(p[1..], t);
      assert (p + "," + t)[0] == p[0];
      assert (p + "," + t)[1..] == p[1..] + "," + t;
      assert [p[0]] + p[1..] == p;
    }
  }

  /** Joining comma-free fields and splitting again gives the fields back. */
  lemma {:induction false} SplitJoin(parts: seq<string>)
    requires |parts| > 0
    requires forall i :: 0 <= i < |parts| ==> ',' !in parts[i]
    ensures Split(Join(parts)) == parts
  {
    if |parts| == 1 {
      SplitField(parts[0], "");
    } else {
      SplitJoin(parts[1..]);
      SplitField(parts[0], Join(parts[1..]));
      assert parts == [parts[0]] + parts[1..];
    }
  }

  // ---------------------------------------------------------------------------
  // Trimming: `str::trim`

  /** `char::is_whitespace`: the characters with Unicode's White_Space property. */
  predicate IsWhitespace(c: char)
  {
    || '\t' <= c <= '\r'
    || c == ' '
    || c == '\U{0085}'
    || c == '\U{00A0}'
    || c == '\U{1680}'
    || '\U{2000}' <= c <= '\U{200A}'
    || c == '\U{2028}'
    || c == '\U{2029}'
    || c == '\U{202F}'
    || c == '\U{205F}'
    || c == '\U{3000}'
  }

  /** `trim_start`: the suffix left after the leading whitespace. */
  function TrimStart(s: string): string
  {
    if s != [] && IsWhitespace(s[0]) then TrimStart(s[1..]) else s
  }

  /** `trim_end`: the prefix left before the trailing whitespace. */
  function TrimEnd(s: string): string
  {
    if s != [] && IsWhitespace(s[|s| - 1]) then TrimEnd(s[..|s| - 1]) else s
  }

  /** `trim`: both ends stripped of whitespace. */
  function Trim(s: string): string
  {
    TrimEnd(TrimStart(s))
  }

  /** `trim_start` drops exactly the leading run of whitespace. */
  lemma {:induction false} TrimStartMeaning(s: string)
    ensures var r := TrimStart(s);
            && |r| <= |s| && r == s[|s| - |r|..]
            && (forall k :: 0 <= k < |s| - |r| ==> IsWhitespace(s[k]))
            && (r == [] || !IsWhitespace(r[0]))
  {
    if s != [] && IsWhitespace(s[0]) {
      var t := s[1..];
      TrimStartMeaning(t);
      var r := TrimStart(t);
      assert t[|t| - |r|..] == s[|s| - |r|..];
      forall k | 1 <= k < |s| - |r|
        ensures IsWhitespace(s[k])
      {
        assert s[k] == t[k - 1];
      }
    }
  }

  /** `trim_end` drops exactly the trailing run of whitespace. */
  lemma {:induction false} TrimEndMeaning(s: string)
    ensures var r := TrimEnd(s);
            && |r| <= |s| && r == s[..|r|]
            && (forall k :: |r| <= k < |s| ==> IsWhitespace(s[k]))
            && (r == [] || !IsWhitespace(r[|r| - 1]))
  {
    if s != [] && IsWhitespace(s[|s| - 1]) {
      TrimEndMeaning(s[..|s| - 1]);
    }
  }

  /**
   * The trimmed token is the infix of `s` that starts after its leading
   * whitespace and ends before its trailing whitespace, and it neither
   * starts nor ends with whitespace.
   */
  lemma TrimMeaning(s: string)
    ensures |Trim(s)| <= |TrimStart(s)| <= |s|
    ensures var r, a := Trim(s), |s| - |TrimStart(s)|;
            && a + |r| <= |s|
            && r == s[a..a + |r|]
            && (forall k :: 0 <= k < a ==> IsWhitespace(s[k]))
            && (forall k :: a + |r| <= k < |s| ==> IsWhitespace(s[k]))
            && (r == [] || (!IsWhitespace(r[0]) && !IsWhitespace(r[|r| - 1])))
  {
    TrimStartMeaning(s);
    TrimEndMeaning(TrimStart(s));
  }

  // ---------------------------------------------------------------------------
  // Tokens, floats and vertices

  /** The tokens of a `coordinates` column, untrimmed. */
  function Tokens(coords: string): seq<string>
  {
    Split(StripParens(coords))
  }

  /**
   * The floats of the tokens, in order, or the first token whose trimmed
   * text does not parse (the token `main` logs is the untrimmed one).
   */
  function Parsed(tokens: seq<string>, parseF64: string -> Option<F64>): (r: Result<seq<F64>, string>)
    ensures r.Ok? ==> |r.value| == |tokens|
    decreases |tokens|
  {
    if tokens == [] then Ok([])
    else
      var last := tokens[|tokens| - 1];
      match Parsed(tokens[..|tokens| - 1], parseF64)
      case Err(t) => Err(t)
      case Ok(vs) =>
        match parseF64(Trim(last))
        case None => Err(last)
        case Some(v) => Ok(vs + [v])
  }

  /**
   * Parsing succeeds exactly when every trimmed token parses, and then the
   * i-th float is the i-th token's value; otherwise the error names the
   * first token that does not parse.
   */
  lemma {:induction false} ParsedMeaning(tokens: seq<string>, parseF64: string -> Option<F64>)
    ensures Parsed(tokens, parseF64).Ok? <==>
              forall i :: 0 <= i < |tokens| ==> parseF64(Trim(tokens[i])).Some?
    ensures Parsed(tokens, parseF64).Ok? ==>
              forall i :: 0 <= i < |tokens| ==>
                Parsed(tokens, parseF64).value[i] == parseF64(Trim(tokens[i])).value
    ensures Parsed(tokens, parseF64).Err? ==>
              exists i :: 0 <= i < |tokens| && tokens[i] == Parsed(tokens, parseF64).error
                          && parseF64(Trim(tokens[i])).None?
                          && forall j :: 0 <= j < i ==> parseF64(Trim(tokens[j])).Some?
    decreases |tokens|
  {
    if tokens != [] {
      var n := |tokens| - 1;
      var init := tokens[..n];
      ParsedMeaning(init, parseF64);
      assert forall i :: 0 <= i < n ==> init[i] == tokens[i];
      match Parsed(init, parseF64)
      case Err(t) =>
        var i :| 0 <= i < n && init[i] == t && parseF64(Trim(init[i])).None?
                 && forall j :: 0 <= j < i ==> parseF64(Trim(init[j])).Some?;
        assert tokens[i] == t;
      case Ok(vs) =>
        if parseF64(Trim(tokens[n])).None? {
          assert tokens[n] == Parsed(tokens, parseF64).error;
        }
    }
  }

  /** Once a prefix of the tokens fails, the whole list fails with the same token. */
  lemma {:induction false} ParsedErrPersists(tokens: seq<string>, i: nat, parseF64: string -> Option<F64>)
    requires i <= |tokens|
    requires Parsed(tokens[..i], parseF64).Err?
    ensures Parsed(tokens, parseF64) == Parsed(tokens[..i], parseF64)
    decreases |tokens| - i
  {
    if i < |tokens| {
      var n := |tokens| - 1;
      assert tokens[..n][..i] == tokens[..i];
      if i < n {
        ParsedErrPersists(tokens[..n], i, parseF64);
      }
      assert tokens[..|tokens|] == tokens;
    } else {
      assert tokens[..i] == tokens;
    }
  }

  /**
   * The vertices built from a list of floats: x from even positions, y from
   * the odd position after it, and y = 0 for a trailing x with no partner.
   */
  function Pair(vs: seq<F64>): (r: Ring)
    ensures |r| == (|vs| + 1) / 2
    decreases |vs|
  {
    if vs == [] then []
    else if |vs| == 1 then [Point(vs[0], Zero)]
    else [Point(vs[0], vs[1])] + Pair(vs[2..])
  }

  /** Vertex k has x = float 2k and y = float 2k+1, or 0 when there is none. */
  lemma {:induction false} PairAt(vs: seq<F64>, k: nat)
    requires k < (|vs| + 1) / 2
    ensures Pair(vs)[k] == Point(vs[2 * k], if 2 * k + 1 < |vs| then vs[2 * k + 1] else Zero)
    decreases |vs|
  {
    if k > 0 {
      PairAt(vs[2..], k - 1);
    }
  }

  /**
   * One more float either starts a new vertex (even count so far) or
   * overwrites the y of the last vertex (odd count so far): the two arms of
   * the parsing loop's body.
   */
  lemma {:induction false} PairSnoc(vs: seq<F64>, v: F64)
    ensures |vs| % 2 == 0 ==> Pair(vs + [v]) == Pair(vs) + [Point(v, Zero)]
    ensures |vs| % 2 == 1 ==>
              var p := Pair(vs);
              Pair(vs + [v]) == p[|p| - 1 := Point(p[|p| - 1].x, v)]
    decreases |vs|
  {
    if |vs| >= 2 {
      PairSnoc(vs[2..], v);
      assert (vs + [v])[2..] == vs[2..] + [v];
    } else if |vs| == 1 {
      assert vs + [v] == [vs[0], v];
    } else {
      assert vs + [v] == [v];
    }
  }

  /** The ring a `coordinates` column denotes, or the first token that does not parse. */
  function RingOf(coords: string, parseF64: string -> Option<F64>): Result<Ring, string>
  {
    match Parsed(Tokens(coords), parseF64)
    case Ok(vs) => Ok(Pair(vs))
    case Err(t) => Err(t)
  }

  /**
   * The parsing loop of the city build: tokens are parsed one by one, an
   * even index pushes `[x, 0]`, an odd index overwrites the y of the last
   * vertex (which always exists), and the first bad token aborts.
   */
  method ParseRing(coords: string, parseF64: string -> Option<F64>) returns (r: Result<Ring, string>)
    ensures r == RingOf(coords, parseF64)
  {
    var tokens := Split(StripParens(coords));
    var poly: Ring := [];
    ghost var vals: seq<F64> := [];
    for i := 0 to |tokens|
      invariant |vals| == i
      invariant Parsed(tokens[..i], parseF64) == Ok(vals)
      invariant poly == Pair(vals)
    {
      var c := tokens[i];
      assert tokens[..i + 1][..i] == tokens[..i];
      match parseF64(Trim(c))
      case None =>
        ParsedErrPersists(tokens, i + 1, parseF64);
        return Err(c);
      case Some(f) =>
        PairSnoc(vals, f);
        if i % 2 == 0 {
          poly := poly + [Point(f, Zero)];
        } else {
          var len := |poly|;
          poly := poly[len - 1 := Point(poly[len - 1].x, f)];
        }
        vals := vals + [f];
    }
    assert tokens[..|tokens|] == tokens;
    return Ok(poly);
  }

  /**
   * An empty `coordinates` column is one empty token, so it fails whenever
   * the float parser rejects the empty string, as Rust's does.
   */
  lemma EmptyCoordinatesFail(parseF64: string -> Option<F64>)
    requires parseF64("") == None
    ensures RingOf("", parseF64) == Err("")
  {
    assert Tokens("") == [""];
    assert [""][..0] == [];
  }

  /**
   * The vertices of a parsed ring in terms of the tokens: there are
   * ceil(n/2) of them for n tokens, and vertex k holds the values of tokens
   * 2k and 2k+1 (y = 0 when an odd count leaves the last x alone).
   */
  lemma RingOfVertices(coords: string, parseF64: string -> Option<F64>, ring: Ring)
    requires RingOf(coords, parseF64) == Ok(ring)
    ensures var ts := Tokens(coords);
            && |ring| == (|ts| + 1) / 2
            && forall k :: 0 <= k < |ring| ==>
                 && parseF64(Trim(ts[2 * k])) == Some(ring[k].x)
                 && (if 2 * k + 1 < |ts| then parseF64(Trim(ts[2 * k + 1])) == Some(ring[k].y) else ring[k].y == Zero)
  {
    var ts := Tokens(coords);
    ParsedMeaning(ts, parseF64);
    var vs := Parsed(ts, parseF64).value;
    forall k | 0 <= k < |ring|
      ensures parseF64(Trim(ts[2 * k])) == Some(ring[k].x)
      ensures if 2 * k + 1 < |ts| then parseF64(Trim(ts[2 * k + 1])) == Some(ring[k].y) else ring[k].y == Zero
    {
      PairAt(vs, k);
    }
  }
}
