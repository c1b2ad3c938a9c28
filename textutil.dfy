/**
 * The string helpers of util/util.go: BigQuery project names, the two
 * identifier case conversions, quoting a list of strings and two scans.
 *
 * Characters are ASCII: case mapping touches 'A'..'Z' and 'a'..'z' only, and
 * the word boundary of strings.Title is the ASCII one.
 */
module TextUtil {
  import opened Wrappers

  /** BqPrefix: the prefix of the internal BigQuery datasets. */
  const BqPrefix: string := "google.com:"

  // ---------------------------------------------------------------------
  // Characters
  // ---------------------------------------------------------------------

  predicate IsUpper(c: char) { 'A' <= c <= 'Z' }

  predicate IsLower(c: char) { 'a' <= c <= 'z' }

  predicate IsDigit(c: char) { '0' <= c <= '9' }

  function ToLower(c: char): char {
    if IsUpper(c) then (c as int + 32) as char else c
  }

  function ToUpper(c: char): char {
    if IsLower(c) then (c as int - 32) as char else c
  }

  function Lower(s: string): string {
    seq(|s|, i requires 0 <= i < |s| => ToLower(s[i]))
  }

  /** Case mapping leaves every non-letter where it is; in particular '_'. */
  lemma CaseKeepsNonLetters(c: char)
    ensures !IsUpper(ToLower(c))
    ensures ToLower(ToUpper(c)) == ToLower(c)
    ensures ToLower(c) == c <==> !IsUpper(c)
    ensures ToUpper(c) == c <==> !IsLower(c)
    ensures ToLower(c) == '_' <==> c == '_'
    ensures ToUpper(c) == '_' <==> c == '_'
  {
  }

  // ---------------------------------------------------------------------
  // Searching, splitting and joining
  // ---------------------------------------------------------------------

  /** The first position of c in s. */
  function IndexOf(s: string, c: char): (r: Option<nat>)
    ensures r.None? <==> c !in s
    ensures r.Some? ==> r.value < |s| && s[r.value] == c && c !in s[..r.value]
  {
    if s == [] then None
    else if s[0] == c then Some(0)
    else
      match IndexOf(s[1..], c)
      case None => None
      case Some(k) =>
        assert s[..k + 1] == [s[0]] + s[1..][..k];
        Some(k + 1)
  }

  /** IndexOf is pinned down by its contract. */
  lemma IndexOfIs(s: string, c: char, k: nat)
    requires k < |s| && s[k] == c && c !in s[..k]
    ensures IndexOf(s, c) == Some(k)
  {
    assert c in s;
  }

  /** strings.Split(s, sep) for a one-character separator. */
  function Split(s: string, sep: char): (parts: seq<string>)
    ensures |parts| >= 1
    ensures forall i :: 0 <= i < |parts| ==> sep !in parts[i]
    decreases |s|
  {
    match IndexOf(s, sep)
    case None => [s]
    case Some(k) => [s[..k]] + Split(s[k + 1..], sep)
  }

  /** strings.Join(parts, sep). */
  function Join(parts: seq<string>, sep: string): string {
    if |parts| == 0 then ""
    else if |parts| == 1 then parts[0]
    else parts[0] + sep + Join(parts[1..], sep)
  }

  /** Joining the pieces of a split gives the string back. */
  lemma {:induction false} JoinSplit(s: string, sep: char)
    ensures Join(Split(s, sep), [sep]) == s
    decreases |s|
  {
    var r := IndexOf(s, sep);
    if r.Some? {
      var k := r.value;
      var rest := s[k + 1..];
      JoinSplit(rest, sep);
      var parts := Split(rest, sep);
      var all := [s[..k]] + parts;
      assert Split(s, sep) == all;
      assert all[1..] == parts;
      assert Join(all, [sep]) == s[..k] + [sep] + Join(parts, [sep]);
      assert s == s[..k] + [sep] + rest;
    }
  }

  /** Splitting a join of separator-free pieces gives the pieces back. */
  lemma {:induction false} SplitJoin(parts: seq<string>, sep: char)
    requires |parts| >= 1
    requires forall i :: 0 <= i < |parts| ==> sep !in parts[i]
    ensures Split(Join(parts, [sep]), sep) == parts
    decreases |parts|
  {
    if |parts| > 1 {
      var tail := Join(parts[1..], [sep]);
      var s := parts[0] + [sep] + tail;
      assert sep !in parts[0];
      var k := |parts[0]|;
      assert s[k] == sep;
      assert s[..k] == parts[0];
      assert sep !in s[..k];
      assert IndexOf(s, sep) == Some(k);
      assert s[k + 1..] == tail;
      SplitJoin(parts[1..], sep);
    }
  }

  /** s without any occurrence of c. */
  function Remove(s: string, c: char): (r: string)
    ensures c !in r
  {
    if s == [] then ""
    else if s[0] == c then Remove(s[1..], c)
    else [s[0]] + Remove(s[1..], c)
  }

  lemma {:induction false} RemoveAppend(a: string, b: string, c: char)
    ensures Remove(a + b, c) == Remove(a, c) + Remove(b, c)
    decreases |a|
  {
    if a == [] {
      assert a + b == b;
    } else {
      assert (a + b)[1..] == a[1..] + b;
      RemoveAppend(a[1..], b, c);
    }
  }

  lemma {:induction false} RemoveAbsent(s: string, c: char)
    requires c !in s
    ensures Remove(s, c) == s
    decreases |s|
  {
    if s != [] {
      RemoveAbsent(s[1..], c);
    }
  }

  /** Concatenation of all pieces. */
  function Concat(parts: seq<string>): string {
    if parts == [] then "" else parts[0] + Concat(parts[1..])
  }

  /** Dropping the separator from a join leaves the pieces glued together. */
  lemma {:induction false} RemoveJoin(parts: seq<string>, sep: char)
    requires forall i :: 0 <= i < |parts| ==> sep !in parts[i]
    ensures Remove(Join(parts, [sep]), sep) == Concat(parts)
    decreases |parts|
  {
    if |parts| == 1 {
      RemoveAbsent(parts[0], sep);
      assert Concat(parts) == parts[0] + Concat([]);
    } else if |parts| > 1 {
      RemoveJoin(parts[1..], sep);
      RemoveAppend(parts[0] + [sep], Join(parts[1..], [sep]), sep);
      RemoveAppend(parts[0], [sep], sep);
      RemoveAbsent(parts[0], sep);
    }
  }

  lemma LowerAppend(a: string, b: string)
    ensures Lower(a + b) == Lower(a) + Lower(b)
  {
  }

  /** Lowering and dropping underscores commute. */
  lemma {:induction false} LowerRemove(s: string)
    ensures Lower(Remove(s, '_')) == Remove(Lower(s), '_')
    decreases |s|
  {
    if s != [] {
      LowerRemove(s[1..]);
      CaseKeepsNonLetters(s[0]);
      assert Lower(s)[1..] == Lower(s[1..]);
      if s[0] != '_' {
        LowerAppend([s[0]], Remove(s[1..], '_'));
      }
    }
  }

  // ---------------------------------------------------------------------
  // GetProjectID
  // ---------------------------------------------------------------------

  /** The gRPC status of a rejected database name. */
  datatype Status = InvalidArgument(message: string)

  /**
   * The BigQuery project of a dataset name: the part before the first '.',
   * where an internal name keeps its "google.com:" prefix and the search for
   * '.' starts after it. strings.Replace(db, BqPrefix, "", 1) removes the
   * first occurrence of the prefix, which is the one at the start.
   */
  function GetProjectID(db: string): (r: Result<string, Status>)
    ensures r.Err? <==> '.' !in (if BqPrefix <= db then db[|BqPrefix|..] else db)
    ensures r.Err? ==> r.error == InvalidArgument("Bad bigquery database name " + db)
    ensures r.Ok? ==> |r.value| < |db| && r.value == db[..|r.value|] && db[|r.value|] == '.'
    ensures r.Ok? && BqPrefix <= db ==> BqPrefix <= r.value && '.' !in r.value[|BqPrefix|..]
    ensures r.Ok? && !(BqPrefix <= db) ==> '.' !in r.value
  {
    var rest := if BqPrefix <= db then db[|BqPrefix|..] else db;
    var prefix := if BqPrefix <= db then BqPrefix else "";
    assert db == prefix + rest;
    match IndexOf(rest, '.')
    case None => Err(InvalidArgument("Bad bigquery database name " + db))
    case Some(k) =>
      assert (prefix + rest[..k])[|prefix|..] == rest[..k];
      Ok(prefix + rest[..k])
  }

  /** A public name: the project is everything before the first '.'. */
  lemma PublicProject(project: string, dataset: string)
    requires '.' !in project && !(BqPrefix <= project + "." + dataset)
    ensures GetProjectID(project + "." + dataset) == Ok(project)
  {
    var db := project + "." + dataset;
    assert db[..|project|] == project;
    IndexOfIs(db, '.', |project|);
  }

  /** An internal name: the prefix is kept and the search for '.' starts after it. */
  lemma InternalProject(project: string, dataset: string)
    requires '.' !in project
    ensures GetProjectID(BqPrefix + project + "." + dataset) == Ok(BqPrefix + project)
  {
    var db := BqPrefix + project + "." + dataset;
    assert db[..|BqPrefix|] == BqPrefix;
    var rest := db[|BqPrefix|..];
    assert rest == project + "." + dataset;
    assert rest[..|project|] == project;
    IndexOfIs(rest, '.', |project|);
  }

  lemma InternalProjectExample()
    ensures GetProjectID("google.com:p.ds") == Ok("google.com:p")
  {
    InternalProject("p", "ds");
    assert BqPrefix + "p" + "." + "ds" == "google.com:p.ds";
    assert BqPrefix + "p" == "google.com:p";
  }

  lemma PublicProjectExample()
    ensures GetProjectID("proj.ds.table") == Ok("proj")
  {
    assert "proj" + "." + "ds.table" == "proj.ds.table";
    assert !(BqPrefix <= "proj.ds.table") by {
      assert "proj.ds.table"[0] != BqPrefix[0];
    }
    PublicProject("proj", "ds.table");
  }

  lemma MissingDatasetExample()
    ensures GetProjectID("google.com:proj").Err?
    ensures GetProjectID("proj").Err?
  {
    var db := "google.com:proj";
    assert db[..11] == BqPrefix;
    assert db[|BqPrefix|..] == "proj";
  }

  /** "google.com." is not the internal prefix, so its own '.' ends the project. */
  lemma LookalikePrefixExample()
    ensures GetProjectID("google.com.x") == Ok("google")
  {
    assert "google" + "." + "com.x" == "google.com.x";
    assert !(BqPrefix <= "google.com.x") by {
      assert "google.com.x"[10] != BqPrefix[10];
    }
    PublicProject("google", "com.x");
  }

  // ---------------------------------------------------------------------
  // SnakeToCamel
  // ---------------------------------------------------------------------

  /** The word boundary of strings.Title: an ASCII character other than a letter, a digit or '_'. */
  predicate IsSeparator(c: char) {
    c as int < 128 && !IsUpper(c) && !IsLower(c) && !IsDigit(c) && c != '_'
  }

  /** strings.Title: upper-case the first letter of every word. */
  function Title(p: string): (r: string) {
    seq(|p|, i requires 0 <= i < |p| => if i == 0 || IsSeparator(p[i - 1]) then ToUpper(p[i]) else p[i])
  }

  /** Title changes letters' case only. */
  lemma TitleLowers(p: string)
    ensures |Title(p)| == |p|
    ensures Lower(Title(p)) == Lower(p)
    ensures '_' in Title(p) <==> '_' in p
  {
    forall i | 0 <= i < |p| ensures Lower(Title(p))[i] == Lower(p)[i] {
      CaseKeepsNonLetters(p[i]);
    }
    forall i | 0 <= i < |p| ensures Title(p)[i] == '_' <==> p[i] == '_' {
      CaseKeepsNonLetters(p[i]);
    }
    if '_' in Title(p) {
      var i :| 0 <= i < |p| && Title(p)[i] == '_';
      assert p[i] == '_';
    }
    if '_' in p {
      var i :| 0 <= i < |p| && p[i] == '_';
      assert Title(p)[i] == '_';
    }
  }

  /**
   * The pieces glued as the loop of SnakeToCamel does: empty pieces are
   * skipped, the first non-empty one is kept, every later one is titled.
   */
  function Camelize(parts: seq<string>, capitalize: bool): string {
    if parts == [] then ""
    else if parts[0] == "" then Camelize(parts[1..], capitalize)
    else (if capitalize then Title(parts[0]) else parts[0]) + Camelize(parts[1..], true)
  }

  /** What SnakeToCamel returns. */
  function Camel(s: string): string {
    if '_' !in s then s else Camelize(Split(s, '_'), false)
  }

  method SnakeToCamel(s: string) returns (result: string)
    ensures '_' !in s ==> result == s
    ensures result == Camel(s)
  {
    if '_' !in s {
      return s;
    }
    result := "";
    var parts := Split(s, '_');
    var capitalize := false;
    for i := 0 to |parts|
      invariant result + Camelize(parts[i..], capitalize) == Camelize(parts, false)
    {
      assert parts[i..][1..] == parts[i + 1..];
      var p := parts[i];
      if p == "" {
        continue;
      }
      if !capitalize {
        result := result + p;
        capitalize := true;
      } else {
        result := result + Title(p);
      }
    }
    assert parts[|parts|..] == [];
  }

  lemma {:induction false} CamelizeFacts(parts: seq<string>, capitalize: bool)
    requires forall i :: 0 <= i < |parts| ==> '_' !in parts[i]
    ensures '_' !in Camelize(parts, capitalize)
    ensures Lower(Camelize(parts, capitalize)) == Lower(Concat(parts))
    decreases |parts|
  {
    if parts != [] {
      CamelizeFacts(parts[1..], if parts[0] == "" then capitalize else true);
      var rest := Camelize(parts[1..], if parts[0] == "" then capitalize else true);
      LowerAppend(parts[0], Concat(parts[1..]));
      if parts[0] != "" {
        var head := if capitalize then Title(parts[0]) else parts[0];
        TitleLowers(parts[0]);
        LowerAppend(head, rest);
        assert '_' !in head;
      }
    }
  }

  /** SnakeToCamel never leaves an underscore behind. */
  lemma CamelHasNoUnderscore(s: string)
    ensures '_' !in Camel(s)
  {
    if '_' in s {
      CamelizeFacts(Split(s, '_'), false);
    }
  }

  /** Up to letter case, SnakeToCamel only drops the underscores. */
  lemma CamelDropsUnderscores(s: string)
    ensures Lower(Camel(s)) == Lower(Remove(s, '_'))
  {
    if '_' in s {
      var parts := Split(s, '_');
      CamelizeFacts(parts, false);
      RemoveJoin(parts, '_');
      JoinSplit(s, '_');
    } else {
      RemoveAbsent(s, '_');
    }
  }

  /** The first non-empty piece keeps its case: Camel(s) starts with it. */
  lemma {:induction false} CamelKeepsFirstPiece(parts: seq<string>, i: nat)
    requires i < |parts| && parts[i] != ""
    requires forall j :: 0 <= j < i ==> parts[j] == ""
    ensures parts[i] <= Camelize(parts, false)
    decreases i
  {
    if i > 0 {
      CamelKeepsFirstPiece(parts[1..], i - 1);
    }
  }

  /** One step of Split: the piece before the first separator, then the rest. */
  lemma SplitAt(s: string, sep: char, k: nat)
    requires k < |s| && s[k] == sep && sep !in s[..k]
    ensures Split(s, sep) == [s[..k]] + Split(s[k + 1..], sep)
  {
    IndexOfIs(s, sep, k);
  }

  /** Two words joined by one underscore become the first word and the titled second. */
  lemma CamelTwoWords(a: string, b: string)
    requires a != "" && b != "" && '_' !in a && '_' !in b
    ensures Camel(a + "_" + b) == a + Title(b)
  {
    var s := a + "_" + b;
    assert s[..|a|] == a;
    assert s[|a| + 1..] == b;
    SplitAt(s, '_', |a|);
    assert s[|a|] == '_';
    assert Split(b, '_') == [b];
    var parts := [a, b];
    assert Split(s, '_') == parts;
    assert parts[1..] == [b];
    assert Camelize([b], true) == Title(b) + Camelize([], true);
    assert Camelize(parts, false) == a + Camelize([b], true);
  }

  lemma CamelExample()
    ensures Camel("geo_id") == "geoId"
  {
    CamelTwoWords("geo", "id");
    assert "geo" + "_" + "id" == "geo_id";
    assert Title("id") == "Id";
  }

  // ---------------------------------------------------------------------
  // CamelToSnake
  // ---------------------------------------------------------------------

  /** A match of ([a-z0-9])([A-Z]). */
  predicate IsBreak(a: char, b: char) {
    (IsLower(a) || IsDigit(a)) && IsUpper(b)
  }

  /**
   * match.ReplaceAllString(s, "${1}_${2}"): scanning left to right, an
   * underscore goes between the two characters of every match, and the
   * next search starts after the match.
   */
  function Snakify(s: string): string {
    if |s| < 2 then s
    else if IsBreak(s[0], s[1]) then [s[0], '_', s[1]] + Snakify(s[2..])
    else [s[0]] + Snakify(s[1..])
  }

  /** Number of adjacent pairs (lower-case letter or digit, upper-case letter). */
  function BreakCount(s: string): nat {
    if |s| < 2 then 0
    else (if IsBreak(s[0], s[1]) then 1 else 0) + BreakCount(s[1..])
  }

  function CamelToSnake(s: string): (r: string)
    ensures forall i :: 0 <= i < |r| ==> !IsUpper(r[i])
  {
    var r := Lower(Snakify(s));
    forall i | 0 <= i < |r| ensures !IsUpper(r[i]) {
      CaseKeepsNonLetters(Snakify(s)[i]);
    }
    r
  }

  /** Snakify inserts one underscore per break and nothing else. */
  lemma {:induction false} SnakifyInserts(s: string)
    ensures |Snakify(s)| == |s| + BreakCount(s)
    ensures Remove(Snakify(s), '_') == Remove(s, '_')
    decreases |s|
  {
    if |s| >= 2 {
      if IsBreak(s[0], s[1]) {
        SnakifyInserts(s[2..]);
        assert BreakCount(s[1..]) == BreakCount(s[2..]) by {
          assert s[1..][1..] == s[2..];
        }
        assert s == [s[0], s[1]] + s[2..];
        RemoveAppend([s[0], s[1]], s[2..], '_');
        RemoveAppend([s[0], '_', s[1]], Snakify(s[2..]), '_');
        assert Remove([s[0], '_', s[1]], '_') == [s[0], s[1]] by {
          assert [s[0], '_', s[1]][1..] == ['_', s[1]];
          assert ['_', s[1]][1..] == [s[1]];
          assert [s[0], s[1]][1..] == [s[1]];
        }
      } else {
        SnakifyInserts(s[1..]);
      }
    }
  }

  lemma {:induction false} SnakifyNoUpper(s: string)
    requires forall i :: 0 <= i < |s| ==> !IsUpper(s[i])
    ensures Snakify(s) == s
    decreases |s|
  {
    if |s| >= 2 {
      SnakifyNoUpper(s[1..]);
    }
  }

  /** The output length is the input length plus the number of breaks. */
  lemma CamelToSnakeLength(s: string)
    ensures |CamelToSnake(s)| == |s| + BreakCount(s)
  {
    SnakifyInserts(s);
  }

  /** Up to letter case, CamelToSnake only inserts underscores. */
  lemma CamelToSnakeInserts(s: string)
    ensures Remove(CamelToSnake(s), '_') == Lower(Remove(s, '_'))
  {
    SnakifyInserts(s);
    LowerRemove(Snakify(s));
    LowerRemove(s);
  }

  /** A snake-case string is its own snake case. */
  lemma CamelToSnakeIdempotent(s: string)
    ensures CamelToSnake(CamelToSnake(s)) == CamelToSnake(s)
  {
    var r := CamelToSnake(s);
    SnakifyNoUpper(r);
    LowerNoUpper(r);
  }

  lemma LowerNoUpper(s: string)
    requires forall i :: 0 <= i < |s| ==> !IsUpper(s[i])
    ensures Lower(s) == s
  {
    forall i | 0 <= i < |s| ensures Lower(s)[i] == s[i] {
      CaseKeepsNonLetters(s[i]);
    }
  }

  /** Going to camel case and back loses only underscores and case. */
  lemma CamelRoundTrip(s: string)
    ensures Remove(CamelToSnake(Camel(s)), '_') == Lower(Remove(s, '_'))
  {
    CamelToSnakeInserts(Camel(s));
    CamelDropsUnderscores(s);
    LowerRemove(Camel(s));
    CamelHasNoUnderscore(s);
    RemoveAbsent(Camel(s), '_');
  }

  /** A word of a snake-case identifier: lower-case letters and digits. */
  predicate LowerWord(w: string) {
    w != "" && forall i :: 0 <= i < |w| ==> IsLower(w[i]) || IsDigit(w[i])
  }

  /** A word as SnakeToCamel emits it after the first: a capital, then lower-case letters and digits. */
  predicate CapWord(w: string) {
    w != "" && IsUpper(w[0]) && forall i :: 1 <= i < |w| ==> IsLower(w[i]) || IsDigit(w[i])
  }

  /**
   * The words of a snake-case identifier that survives the round trip: every
   * word after the first starts with a letter, and every word between the
   * first and the last has at least two characters (a one-letter word there
   * would put two capitals side by side, which is not a break).
   */
  predicate SnakeWords(words: seq<string>) {
    && |words| >= 1
    && (forall i :: 0 <= i < |words| ==> LowerWord(words[i]))
    && (forall i :: 1 <= i < |words| ==> IsLower(words[i][0]))
    && (forall i :: 1 <= i < |words| - 1 ==> |words[i]| >= 2)
  }

  /** A lower-case word followed by a capital gets an underscore between them. */
  lemma {:induction false} SnakifyGlue(x: string, y: string)
    requires LowerWord(x) && y != [] && IsUpper(y[0])
    ensures Snakify(x + y) == x + "_" + Snakify(y)
    decreases |x|
  {
    assert Snakify(y) == [y[0]] + Snakify(y[1..]) by {
      if |y| < 2 {
        assert y == [y[0]];
      }
    }
    var s := x + y;
    if |x| == 1 {
      assert IsBreak(s[0], s[1]);
      assert s[2..] == y[1..];
    } else {
      assert s[1..] == x[1..] + y;
      SnakifyGlue(x[1..], y);
    }
  }

  /** Capitalised words, all but the last of length two or more, each get an underscore before the next. */
  lemma {:induction false} SnakifyCaps(cws: seq<string>)
    requires |cws| >= 1
    requires forall i :: 0 <= i < |cws| ==> CapWord(cws[i])
    requires forall i :: 0 <= i < |cws| - 1 ==> |cws[i]| >= 2
    ensures Snakify(Concat(cws)) == Join(cws, "_")
    decreases |cws|
  {
    var c := cws[0];
    var more := cws[1..];
    assert c == [c[0]] + c[1..];
    SnakifyNoUpper(c[1..]);
    if more == [] {
      assert Concat(cws) == c + "";
      assert c + "" == c;
    } else {
      SnakifyCaps(more);
      var r := Concat(more);
      assert more[0] == cws[1];
      assert r == more[0] + Concat(more[1..]);
      var s := c + r;
      assert s[1..] == c[1..] + r;
      assert !IsBreak(s[0], s[1]);
      assert Snakify(s) == [c[0]] + Snakify(c[1..] + r);
      SnakifyGlue(c[1..], r);
      assert Join(cws, "_") == c + "_" + Join(more, "_");
    }
  }

  /** Title of a snake-case word: its first letter capitalised. */
  lemma TitleOfLowerWord(w: string)
    requires LowerWord(w) && IsLower(w[0])
    ensures CapWord(Title(w)) && |Title(w)| == |w| && Lower(Title(w)) == w
  {
    var t := Title(w);
    forall i | 1 <= i < |w| ensures t[i] == w[i] {
      assert !IsSeparator(w[i - 1]);
    }
    TitleLowers(w);
    LowerNoUpper(w);
  }

  function TitleAll(parts: seq<string>): (r: seq<string>)
    ensures |r| == |parts|
  {
    seq(|parts|, i requires 0 <= i < |parts| => Title(parts[i]))
  }

  lemma {:induction false} CamelizeWords(parts: seq<string>)
    requires forall i :: 0 <= i < |parts| ==> parts[i] != ""
    ensures Camelize(parts, true) == Concat(TitleAll(parts))
    decreases |parts|
  {
    if parts != [] {
      CamelizeWords(parts[1..]);
      assert TitleAll(parts)[1..] == TitleAll(parts[1..]);
    }
  }

  /** Lowering a join lowers each piece. */
  lemma {:induction false} LowerJoin(cws: seq<string>, words: seq<string>)
    requires |cws| == |words|
    requires forall i :: 0 <= i < |cws| ==> Lower(cws[i]) == words[i]
    ensures Lower(Join(cws, "_")) == Join(words, "_")
    decreases |cws|
  {
    if |cws| > 1 {
      LowerJoin(cws[1..], words[1..]);
      LowerAppend(cws[0] + "_", Join(cws[1..], "_"));
      LowerAppend(cws[0], "_");
      assert Lower("_") == "_";
    }
  }

  /** Several non-empty words joined by single underscores: the first, then the others titled. */
  lemma CamelOfWords(words: seq<string>)
    requires |words| >= 2
    requires forall i :: 0 <= i < |words| ==> words[i] != "" && '_' !in words[i]
    ensures Camel(Join(words, "_")) == words[0] + Concat(TitleAll(words[1..]))
  {
    var s := Join(words, "_");
    var rest := words[1..];
    assert s == words[0] + "_" + Join(rest, "_");
    assert s[|words[0]|] == '_';
    SplitJoin(words, '_');
    assert Camel(s) == words[0] + Camelize(rest, true);
    CamelizeWords(rest);
  }

  /** CamelToSnake undoes SnakeToCamel on snake-case identifiers. */
  lemma SnakeRoundTrip(words: seq<string>)
    requires SnakeWords(words)
    ensures CamelToSnake(Camel(Join(words, "_"))) == Join(words, "_")
  {
    var s := Join(words, "_");
    var w0 := words[0];
    if |words| == 1 {
      assert s == w0;
      assert '_' !in s by {
        forall i | 0 <= i < |s| ensures s[i] != '_' {
          assert LowerWord(words[0]);
        }
      }
      SnakifyNoUpper(s);
      LowerNoUpper(s);
    } else {
      var rest := words[1..];
      forall i | 0 <= i < |words| ensures '_' !in words[i] {
        assert LowerWord(words[i]);
      }
      CamelOfWords(words);
      var cws := TitleAll(rest);
      forall i | 0 <= i < |cws|
        ensures CapWord(cws[i]) && |cws[i]| == |rest[i]| && Lower(cws[i]) == rest[i]
      {
        assert rest[i] == words[i + 1];
        TitleOfLowerWord(rest[i]);
      }
      SnakifyCaps(cws);
      var r := Concat(cws);
      assert r == cws[0] + Concat(cws[1..]);
      SnakifyGlue(w0, r);
      var all := [w0] + cws;
      assert all[1..] == cws;
      assert Join(all, "_") == w0 + "_" + Join(cws, "_");
      LowerNoUpper(w0);
      LowerJoin(all, words);
    }
  }

  lemma CamelOfThree(x: string, b: char, y: string)
    requires x != "" && '_' !in x && b != '_' && y != "" && '_' !in y
    ensures Camel(x + "_" + [b] + "_" + y) == x + [ToUpper(b)] + Title(y)
  {
    var words := [x, [b], y];
    assert Join(words, "_") == x + "_" + [b] + "_" + y by {
      assert words[1..][1..] == [y];
      assert Join(words[1..], "_") == [b] + "_" + y;
    }
    CamelOfWords(words);
    var cws := TitleAll(words[1..]);
    assert Title([b]) == [ToUpper(b)];
    assert cws[0] == [ToUpper(b)] && cws[1] == Title(y);
    assert cws[1..][1..] == [];
    assert Concat(cws) == cws[0] + Concat(cws[1..]);
    assert Concat(cws[1..]) == cws[1] + Concat([]);
  }

  /** A capitalised word has no break. */
  lemma SnakifyCapWord(w: string)
    requires CapWord(w)
    ensures Snakify(w) == w
  {
    SnakifyNoUpper(w[1..]);
    if |w| >= 2 {
      assert !IsBreak(w[0], w[1]);
      assert w == [w[0]] + w[1..];
    }
  }

  /** A one-letter word in the middle does not survive: "x_b_y" comes back as "x_by". */
  lemma OneLetterWordLost(x: string, b: char, y: string)
    requires LowerWord(x) && IsLower(b) && LowerWord(y) && IsLower(y[0])
    ensures CamelToSnake(Camel(x + "_" + [b] + "_" + y)) == x + "_" + [b] + y
  {
    assert '_' !in x && '_' !in y by {
      assert forall i :: 0 <= i < |x| ==> x[i] != '_';
      assert forall i :: 0 <= i < |y| ==> y[i] != '_';
    }
    CamelOfThree(x, b, y);
    var B := ToUpper(b);
    var Y := Title(y);
    var tail := [B] + Y;
    assert x + [B] + Y == x + tail;
    TitleOfLowerWord(y);
    assert Snakify(tail) == tail by {
      SnakifyCapWord(Y);
      assert tail[1..] == Y;
    }
    SnakifyGlue(x, tail);
    LowerThree(x, B, Y);
  }

  lemma LowerThree(x: string, B: char, Y: string)
    requires forall i :: 0 <= i < |x| ==> !IsUpper(x[i])
    ensures Lower(x + "_" + ([B] + Y)) == x + "_" + [ToLower(B)] + Lower(Y)
  {
    LowerAppend(x + "_", [B] + Y);
    LowerAppend(x, "_");
    LowerAppend([B], Y);
    LowerNoUpper(x);
  }

  lemma CamelToSnakeExample()
    ensures CamelToSnake("geoId") == "geo_id"
  {
    assert Snakify("Id") == "Id";
    assert Snakify("oId") == "o_Id";
    assert Snakify("geoId") == "ge" + "o_Id";
  }

  /** Only a lower-case letter or digit before an upper-case one is a break. */
  lemma BreakExamples()
    ensures CamelToSnake("aBC") == "a_bc"
    ensures CamelToSnake("x1Y") == "x1_y"
  {
    assert Snakify("C") == "C";
    assert Snakify("aBC") == "a_B" + "C";
    assert Snakify("1Y") == "1_Y";
    assert Snakify("x1Y") == "x" + "1_Y";
  }

  // ---------------------------------------------------------------------
  // StringList, StringContainedIn, CheckValidDCIDs
  // ---------------------------------------------------------------------

  function Quote(s: string): string {
    "\"" + s + "\""
  }

  function QuoteAll(strs: seq<string>): (r: seq<string>)
    ensures |r| == |strs|
  {
    seq(|strs|, i requires 0 <= i < |strs| => Quote(strs[i]))
  }

  /** StringList: every string in double quotes, joined by ", ". */
  method StringList(strs: seq<string>) returns (r: string)
    ensures r == Join(QuoteAll(strs), ", ")
  {
    var withQuote: seq<string> := [];
    for i := 0 to |strs|
      invariant withQuote == QuoteAll(strs[..i])
    {
      withQuote := withQuote + [Quote(strs[i])];
    }
    assert strs[..|strs|] == strs;
    r := Join(withQuote, ", ");
  }

  /** The list reads as one quoted run whose pieces are separated by `", "`. */
  lemma {:induction false} StringListShape(strs: seq<string>)
    ensures strs == [] ==> Join(QuoteAll(strs), ", ") == ""
    ensures strs != [] ==> Join(QuoteAll(strs), ", ") == "\"" + Join(strs, "\", \"") + "\""
    decreases |strs|
  {
    if |strs| > 1 {
      StringListShape(strs[1..]);
      var q := "\"";
      var rest := Join(strs[1..], "\", \"");
      assert QuoteAll(strs)[1..] == QuoteAll(strs[1..]);
      calc {
        Join(QuoteAll(strs), ", ");
        Quote(strs[0]) + ", " + Join(QuoteAll(strs[1..]), ", ");
        (q + strs[0] + q) + ", " + (q + rest + q);
        q + (strs[0] + "\", \"" + rest) + q;
        q + Join(strs, "\", \"") + q;
      }
    }
  }

  method StringContainedIn(target: string, strs: seq<string>) returns (r: bool)
    ensures r <==> exists i :: 0 <= i < |strs| && strs[i] == target
  {
    for i := 0 to |strs|
      invariant forall j :: 0 <= j < i ==> strs[j] != target
    {
      if strs[i] == target {
        return true;
      }
    }
    return false;
  }

  /** A DCID may not contain a space or a comma. */
  predicate ValidDcid(dcid: string) {
    ' ' !in dcid && ',' !in dcid
  }

  method CheckValidDCIDs(dcids: seq<string>) returns (r: bool)
    ensures r <==> forall i :: 0 <= i < |dcids| ==> ' ' !in dcids[i] && ',' !in dcids[i]
  {
    for i := 0 to |dcids|
      invariant forall j :: 0 <= j < i ==> ValidDcid(dcids[j])
    {
      if ' ' in dcids[i] || ',' in dcids[i] {
        return false;
      }
    }
    return true;
  }
}
