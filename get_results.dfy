/**
 * The result collector get_results.py: the argument lists collect_data
 * passes to ./sorting_test, and parse_csv, a line-by-line state machine
 * that reads `alg,case` header lines and `size,time` data lines into a
 * table of timings per (algorithm, case).
 *
 * The script is Python 2 (it hands dict.keys() straight to numpy), so
 * str.strip() removes the ASCII whitespace characters only. int() and
 * float() are oracles given as parameters that return None where Python
 * raises ValueError; times are of any type T. Python's dict and
 * OrderedDict are association lists in insertion order.
 */
module GetResults {
  import opened Wrappers

  const PROG_PATH: string := "./sorting_test"

  /** Every run gets the same three arguments: smallest size, largest size, number of sizes. */
  const ARGS: seq<string> := ["1000", "10000", "50"]

  const INSERTION: string := "insertion"
  const COUNTING: string := "counting"

  const BEST_CASE: string := "best"
  const AVERAGE_CASE: string := "average"
  const WORST_CASE: string := "worst"

  /** Every valid (algorithm, case) combination; the counting sort has no average case. */
  const ALG_CASE_COMBS: seq<(string, string)> := [
    (INSERTION, BEST_CASE), (INSERTION, AVERAGE_CASE), (INSERTION, WORST_CASE),
    (COUNTING, BEST_CASE), (COUNTING, WORST_CASE)
  ]

  /** The combinations plotted against n^2 instead of n. */
  const QUADRATIC_SCALES: seq<(string, string)> := [
    (INSERTION, AVERAGE_CASE), (INSERTION, WORST_CASE), (COUNTING, WORST_CASE)
  ]

  // ---------------------------------------------------------------------
  // collect_data

  /**
   * The argument list collect_data builds for one combination: the program,
   * the algorithm, the case and ARGS, and then "-q" exactly when the
   * combination is plotted against n^2.
   */
  function CollectArgs(alg: string, caseName: string): (args: seq<string>)
    ensures |args| >= 6 && args[..6] == [PROG_PATH, alg, caseName] + ARGS
    ensures (alg, caseName) in QUADRATIC_SCALES <==> |args| == 7
    ensures (alg, caseName) in QUADRATIC_SCALES ==> args[6] == "-q"
    ensures (alg, caseName) !in QUADRATIC_SCALES ==> |args| == 6
  {
    var args := [PROG_PATH, alg, caseName] + ARGS;
    if (alg, caseName) in QUADRATIC_SCALES then args + ["-q"] else args
  }

  /**
   * The header line collect_data writes before the output of each run. For
   * names without commas or surrounding whitespace it strips and splits back
   * into the algorithm and the case.
   */
  function HeaderLine(alg: string, caseName: string): (line: string)
    ensures Plain(alg) && Plain(caseName) ==> Strip(line) == alg + "," + caseName
    ensures Plain(alg) && Plain(caseName) ==> Split(Strip(line), ',') == [alg, caseName]
  {
    var line := alg + "," + caseName + "\n";
    if Plain(alg) && Plain(caseName) then
      assert line == [] + (alg + "," + caseName) + "\n";
      assert AllSpace([]) && AllSpace("\n");
      PairStrips([], alg, caseName, "\n");
      PairSplits(alg, caseName);
      line
    else
      line
  }

  /** Of the five runs, the three quadratic ones get "-q" and the two best cases do not. */
  lemma CollectArgsPerCombination()
    ensures |CollectArgs(INSERTION, BEST_CASE)| == 6
    ensures CollectArgs(INSERTION, AVERAGE_CASE)[6] == "-q"
    ensures CollectArgs(INSERTION, WORST_CASE)[6] == "-q"
    ensures |CollectArgs(COUNTING, BEST_CASE)| == 6
    ensures CollectArgs(COUNTING, WORST_CASE)[6] == "-q"
  {
    assert (INSERTION, BEST_CASE) != QUADRATIC_SCALES[0];
    assert (COUNTING, BEST_CASE) != QUADRATIC_SCALES[2];
  }

  // ---------------------------------------------------------------------
  // str.strip and str.split

  /** The characters Python 2's str.strip() removes. */
  predicate IsSpace(c: char) {
    c == ' ' || c == '\t' || c == '\n' || c == '\r' || c == '\U{000B}' || c == '\U{000C}'
  }

  /** Every character of s is whitespace. */
  predicate AllSpace(s: string) {
    forall k :: 0 <= k < |s| ==> IsSpace(s[k])
  }

  /** The number of whitespace characters s starts with. */
  function Lead(s: string): (n: nat)
    ensures n <= |s|
    ensures forall k :: 0 <= k < n ==> IsSpace(s[k])
    ensures n == |s| || !IsSpace(s[n])
    decreases |s|
  {
    if s != [] && IsSpace(s[0]) then
      var n := 1 + Lead(s[1..]);
      assert forall k :: 1 <= k < n ==> s[k] == s[1..][k - 1];
      n
    else 0
  }

  /** The number of whitespace characters s ends with. */
  function Trail(s: string): (n: nat)
    ensures n <= |s|
    ensures forall k :: |s| - n <= k < |s| ==> IsSpace(s[k])
    ensures n == |s| || !IsSpace(s[|s| - 1 - n])
    decreases |s|
  {
    if s != [] && IsSpace(s[|s| - 1]) then
      var n := 1 + Trail(s[..|s| - 1]);
      assert forall k :: |s| - n <= k < |s| - 1 ==> s[k] == s[..|s| - 1][k];
      n
    else 0
  }

  /**
   * str.strip(): s between its leading and its trailing whitespace; the
   * result neither starts nor ends with whitespace, and it is empty exactly
   * when s is all whitespace.
   */
  function Strip(s: string): (r: string)
    ensures r == [] <==> AllSpace(s)
    ensures r != [] ==> Lead(s) < |s| - Trail(s) && r == s[Lead(s)..|s| - Trail(s)]
    ensures r == [] || (!IsSpace(r[0]) && !IsSpace(r[|r| - 1]))
  {
    if Lead(s) == |s| then []
    else s[Lead(s)..|s| - Trail(s)]
  }

  /** Strip gives back a word that neither starts nor ends with whitespace, whatever whitespace surrounds it. */
  lemma StripExact(lead: string, w: string, trail: string)
    requires AllSpace(lead) && AllSpace(trail)
    requires w != [] && !IsSpace(w[0]) && !IsSpace(w[|w| - 1])
    ensures Strip(lead + w + trail) == w
  {
    var s := lead + w + trail;
    assert forall k :: 0 <= k < |lead| ==> s[k] == lead[k];
    assert forall k :: 0 <= k < |trail| ==> s[|lead| + |w| + k] == trail[k];
    assert s[|lead|] == w[0] && s[|lead| + |w| - 1] == w[|w| - 1];
    assert Lead(s) == |lead|;
    assert Trail(s) == |trail|;
    assert s[|lead|..|lead| + |w|] == w;
  }

  /** The position of the first c in s. */
  function IndexOf(s: string, c: char): (i: nat)
    requires c in s
    ensures i < |s| && s[i] == c && c !in s[..i]
    decreases |s|
  {
    if s[0] == c then 0
    else
      var i := 1 + IndexOf(s[1..], c);
      assert s[..i] == [s[0]] + s[1..][..i - 1];
      i
  }

  /** The fields joined back together with the separator between them. */
  function Join(fields: seq<string>, sep: char): string
    decreases |fields|
  {
    if |fields| == 0 then ""
    else if |fields| == 1 then fields[0]
    else fields[0] + [sep] + Join(fields[1..], sep)
  }

  /** No field contains the separator. */
  predicate NoSep(fields: seq<string>, sep: char) {
    forall k :: 0 <= k < |fields| ==> sep !in fields[k]
  }

  /**
   * str.split(sep) for a one-character separator: the pieces of s between
   * the separators, one more than there are separators; none contains the
   * separator, and joining them gives s back.
   */
  function Split(s: string, sep: char): (fields: seq<string>)
    ensures |fields| == multiset(s)[sep] + 1
    ensures NoSep(fields, sep)
    ensures Join(fields, sep) == s
    decreases |s|
  {
    if sep !in s then
      assert multiset(s)[sep] == 0;
      [s]
    else
      var i := IndexOf(s, sep);
      var head := s[..i];
      var rest := Split(s[i + 1..], sep);
      assert s == head + [sep] + s[i + 1..];
      assert multiset(s)[sep] == multiset(head)[sep] + 1 + multiset(s[i + 1..])[sep];
      assert sep !in multiset(head);
      var fields := [head] + rest;
      assert fields[1..] == rest;
      assert NoSep(fields, sep) by {
        forall k | 0 <= k < |fields| ensures sep !in fields[k] {
          if k > 0 { assert fields[k] == rest[k - 1]; }
        }
      }
      fields
  }

  /** The first separator is the one after the first field. */
  lemma {:induction false} IndexOfJoin(f: string, t: string, c: char)
    requires c !in f
    ensures c in f + [c] + t && IndexOf(f + [c] + t, c) == |f|
    decreases |f|
  {
    var s := f + [c] + t;
    assert s[|f|] == c;
    if f != [] {
      assert s[1..] == f[1..] + [c] + t;
      IndexOfJoin(f[1..], t, c);
    }
  }

  /** A line whose first field is `head` splits into `head` and the fields of the rest. */
  lemma SplitCons(head: string, tail: string, sep: char)
    requires sep !in head
    ensures Split(head + [sep] + tail, sep) == [head] + Split(tail, sep)
  {
    var s := head + [sep] + tail;
    IndexOfJoin(head, tail, sep);
    assert s[..|head|] == head;
    assert s[|head| + 1..] == tail;
  }

  /** The first field of separator-free fields lacks the separator, and so do the others. */
  lemma NoSepTail(fields: seq<string>, sep: char)
    requires |fields| >= 1 && NoSep(fields, sep)
    ensures sep !in fields[0] && NoSep(fields[1..], sep)
  {
    var rest := fields[1..];
    assert sep !in fields[0];
    forall k | 0 <= k < |rest| ensures sep !in rest[k] {
      assert rest[k] == fields[k + 1];
    }
  }

  /** Splitting fields that hold no separator gives back the fields: Split inverts Join. */
  lemma {:induction false} SplitJoin(fields: seq<string>, sep: char)
    requires |fields| >= 1 && NoSep(fields, sep)
    ensures Split(Join(fields, sep), sep) == fields
    decreases |fields|
  {
    if |fields| == 1 {
      assert Join(fields, sep) == fields[0];
    } else {
      var head, rest := fields[0], fields[1..];
      NoSepTail(fields, sep);
      SplitCons(head, Join(rest, sep), sep);
      SplitJoin(rest, sep);
      assert fields == [head] + rest;
    }
  }

  // ---------------------------------------------------------------------
  // dict and OrderedDict

  /** A Python dict or OrderedDict: its (key, value) pairs in insertion order. */
  type Dict<K, V> = seq<(K, V)>

  /** The keys, in insertion order. */
  function Keys<K, V>(d: Dict<K, V>): (r: seq<K>)
    ensures |r| == |d| && forall i :: 0 <= i < |d| ==> r[i] == d[i].0
    decreases |d|
  {
    if d == [] then [] else [d[0].0] + Keys(d[1..])
  }

  /** Every key occurs once. */
  ghost predicate DistinctKeys<K, V>(d: Dict<K, V>) {
    forall i, j :: 0 <= i < j < |d| ==> d[i].0 != d[j].0
  }

  /** d[k], or None where Python raises KeyError. */
  function Lookup<K(==), V>(d: Dict<K, V>, k: K): (r: Option<V>)
    ensures r.None? <==> k !in Keys(d)
    decreases |d|
  {
    if d == [] then None
    else if d[0].0 == k then Some(d[0].1)
    else Lookup(d[1..], k)
  }

  /**
   * d[k] = v: an existing key keeps its position, a new one goes at the end
   * (PutLookup states what the keys then map to).
   */
  function Put<K(==), V>(d: Dict<K, V>, k: K, v: V): (r: Dict<K, V>)
    ensures Keys(r) == if k in Keys(d) then Keys(d) else Keys(d) + [k]
    decreases |d|
  {
    if d == [] then [(k, v)]
    else if d[0].0 == k then [(k, v)] + d[1..]
    else [d[0]] + Put(d[1..], k, v)
  }

  /** After d[k] = v, k maps to v and every other key keeps its value. */
  lemma {:induction false} PutLookup<K(!new), V>(d: Dict<K, V>, k: K, v: V)
    ensures Lookup(Put(d, k, v), k) == Some(v)
    ensures forall k' :: k' != k ==> Lookup(Put(d, k, v), k') == Lookup(d, k')
    decreases |d|
  {
    if d != [] && d[0].0 != k {
      var r := Put(d, k, v);
      assert r[1..] == Put(d[1..], k, v);
      PutLookup(d[1..], k, v);
    } else if d != [] {
      assert Put(d, k, v)[1..] == d[1..];
    }
  }

  /** Assignment keeps every key occurring once. */
  lemma PutDistinct<K(!new), V>(d: Dict<K, V>, k: K, v: V)
    ensures DistinctKeys(d) ==> DistinctKeys(Put(d, k, v))
  {
    if DistinctKeys(d) {
      var r := Put(d, k, v);
      forall i, j | 0 <= i < j < |r| ensures r[i].0 != r[j].0 {
        assert Keys(r)[i] == r[i].0 && Keys(r)[j] == r[j].0;
        if k !in Keys(d) && j == |d| {
          assert Keys(d)[i] == Keys(r)[i];
        } else {
          assert Keys(d)[i] == Keys(r)[i] && Keys(d)[j] == Keys(r)[j];
          assert Keys(d)[i] == d[i].0 && Keys(d)[j] == d[j].0;
        }
      }
    }
  }

  // ---------------------------------------------------------------------
  // parse_csv

  /** The ways parse_csv gives up (with a message and exit status 1). */
  datatype ParseError =
    | MalformedCsv            // "Malformed CSV": not two comma-separated fields
    | InvalidAlgorithmOrCase  // "Malformed CSV - invalid algorithm or case": data before any header
    | InvalidSizeTime         // "Invalid size/time": int() or float() refused a field

  /** For each (alg, case), the times by array size. */
  type Timings<T> = Dict<(string, string), Dict<int, T>>

  /** What parse_csv carries from line to line: the current (alg, case), and the table so far. */
  datatype ParseState<T> = ParseState(current: Option<(string, string)>, timings: Timings<T>)

  /**
   * What parse_csv's state always satisfies: before the first header there
   * are no timings, the current (alg, case) is a valid combination, every
   * key of timings is one, and no key occurs twice.
   */
  ghost predicate Consistent<T>(st: ParseState<T>) {
    (st.current.None? ==> st.timings == []) &&
    (st.current.Some? ==> st.current.value in ALG_CASE_COMBS) &&
    (forall h :: h in Keys(st.timings) ==> h in ALG_CASE_COMBS) &&
    DistinctKeys(st.timings)
  }

  /**
   * One line of the loop in parse_csv: blank lines are skipped, the rest
   * split at the commas. A step that succeeds keeps the state consistent and
   * removes no key from timings.
   */
  function Step<T>(st: ParseState<T>, line: string,
                   parseInt: string -> Option<int>, parseFloat: string -> Option<T>): (r: Result<ParseState<T>, ParseError>)
    ensures r.Ok? && Consistent(st) ==> Consistent(r.value)
    ensures r.Ok? ==> forall h :: h in Keys(st.timings) ==> h in Keys(r.value.timings)
  {
    var l := Strip(line);
    if l == [] then Ok(st) else StepFields(st, Split(l, ','), parseInt, parseFloat)
  }

  /**
   * The fields of a non-blank line: a valid (alg, case) pair is a header,
   * anything else two fields long is a (size, time) pair for the current header.
   */
  function StepFields<T>(st: ParseState<T>, fields: seq<string>,
                         parseInt: string -> Option<int>, parseFloat: string -> Option<T>): (r: Result<ParseState<T>, ParseError>)
    ensures r.Ok? && Consistent(st) ==> Consistent(r.value)
    ensures r.Ok? ==> forall h :: h in Keys(st.timings) ==> h in Keys(r.value.timings)
  {
    if |fields| != 2 then Err(MalformedCsv)
    else if (fields[0], fields[1]) in ALG_CASE_COMBS then Ok(st.(current := Some((fields[0], fields[1]))))
    else if st.current.None? then Err(InvalidAlgorithmOrCase)
    else
      match (parseInt(fields[0]), parseFloat(fields[1]))
      case (Some(size), Some(time)) => Ok(Store(st, size, time))
      case _ => Err(InvalidSizeTime)
  }

  /**
   * timings[current][size] = time, creating the header's table first if it
   * has none: the header's table now maps size to time and keeps every other
   * size, a size seen before keeps its place and a new one goes last; every
   * other header's table and the current header are unchanged.
   */
  function Store<T>(st: ParseState<T>, size: int, time: T): (r: ParseState<T>)
    requires st.current.Some?
    ensures r.current == st.current
    ensures
      var h := st.current.value;
      var prev := Lookup(st.timings, h).GetOr([]);
      && Lookup(r.timings, h).Some?
      && Lookup(Lookup(r.timings, h).value, size) == Some(time)
      && (forall n :: n != size ==> Lookup(Lookup(r.timings, h).value, n) == Lookup(prev, n))
      && Keys(Lookup(r.timings, h).value) == (if size in Keys(prev) then Keys(prev) else Keys(prev) + [size])
    ensures forall h :: h != st.current.value ==> Lookup(r.timings, h) == Lookup(st.timings, h)
    ensures Keys(r.timings) == if st.current.value in Keys(st.timings) then Keys(st.timings) else Keys(st.timings) + [st.current.value]
    ensures DistinctKeys(st.timings) ==> DistinctKeys(r.timings)
  {
    var h := st.current.value;
    var table := Lookup(st.timings, h).GetOr([]);
    StoreLookup(st.timings, h, table, size, time);
    PutDistinct(st.timings, h, Put(table, size, time));
    st.(timings := Put(st.timings, h, Put(table, size, time)))
  }

  /** What the two assignments of Store map their keys to, through PutLookup. */
  lemma StoreLookup<T>(timings: Timings<T>, h: (string, string), table: Dict<int, T>, size: int, time: T)
    requires table == Lookup(timings, h).GetOr([])
    ensures Lookup(Put(table, size, time), size) == Some(time)
    ensures forall n :: n != size ==> Lookup(Put(table, size, time), n) == Lookup(table, n)
    ensures Lookup(Put(timings, h, Put(table, size, time)), h) == Some(Put(table, size, time))
    ensures forall h' :: h' != h ==> Lookup(Put(timings, h, Put(table, size, time)), h') == Lookup(timings, h')
  {
    PutLookup(table, size, time);
    PutLookup(timings, h, Put(table, size, time));
  }

  /**
   * The state after the given lines, from no header and no timings; the
   * first error stops the parse. Every state it reaches is consistent.
   */
  function Run<T>(lines: seq<string>, parseInt: string -> Option<int>, parseFloat: string -> Option<T>): (r: Result<ParseState<T>, ParseError>)
    ensures r.Ok? ==> Consistent(r.value)
    decreases |lines|
  {
    if lines == [] then Ok(ParseState(None, []))
    else
      match Run(lines[..|lines| - 1], parseInt, parseFloat)
      case Err(e) => Err(e)
      case Ok(st) => Step(st, lines[|lines| - 1], parseInt, parseFloat)
  }

  /**
   * What parse_csv returns for a file of these lines: on success, a table
   * whose keys are valid (alg, case) combinations, each occurring once.
   */
  function Parse<T>(lines: seq<string>, parseInt: string -> Option<int>, parseFloat: string -> Option<T>): (r: Result<Timings<T>, ParseError>)
    ensures r.Ok? ==> (forall h :: h in Keys(r.value) ==> h in ALG_CASE_COMBS) && DistinctKeys(r.value)
  {
    match Run(lines, parseInt, parseFloat)
    case Ok(st) => Ok(st.timings)
    case Err(e) => Err(e)
  }

  /**
   * The body of parse_csv's loop for one line: skip it if blank, otherwise
   * split it and either select a header or store a (size, time) pair under
   * the current one.
   */
  method ParseLine<T>(current: Option<(string, string)>, timings: Timings<T>, rawLine: string,
                      parseInt: string -> Option<int>, parseFloat: string -> Option<T>)
    returns (r: Result<ParseState<T>, ParseError>)
    ensures r == Step(ParseState(current, timings), rawLine, parseInt, parseFloat)
  {
    var line := Strip(rawLine);
    if line == [] {
      return Ok(ParseState(current, timings));
    }
    var fields := Split(line, ',');
    if |fields| != 2 {
      return Err(MalformedCsv);
    }
    var a, b := fields[0], fields[1];
    if (a, b) in ALG_CASE_COMBS {
      return Ok(ParseState(Some((a, b)), timings));
    } else if current.None? {
      return Err(InvalidAlgorithmOrCase);
    }
    var size, time := parseInt(a), parseFloat(b);
    if size.None? || time.None? {
      return Err(InvalidSizeTime);
    }
    var key := current.value;
    var table := Lookup(timings, key).GetOr([]);
    var timings' := Put(timings, key, Put(table, size.value, time.value));
    return Ok(ParseState(current, timings'));
  }

  /** parse_csv: the loop over the lines, giving up at the first bad one. */
  method ParseCsv<T>(lines: seq<string>, parseInt: string -> Option<int>, parseFloat: string -> Option<T>)
    returns (r: Result<Timings<T>, ParseError>)
    ensures r == Parse(lines, parseInt, parseFloat)
  {
    var timings: Timings<T> := [];
    var current: Option<(string, string)> := None;
    var i := 0;
    while i < |lines|
      invariant 0 <= i <= |lines|
      invariant Run(lines[..i], parseInt, parseFloat) == Ok(ParseState(current, timings))
    {
      RunStep(lines, i, parseInt, parseFloat);
      var res := ParseLine(current, timings, lines[i], parseInt, parseFloat);
      match res
      case Err(e) =>
        ErrorStops(lines, i + 1, parseInt, parseFloat);
        return Err(e);
      case Ok(st) =>
        current, timings := st.current, st.timings;
      i := i + 1;
    }
    assert lines[..i] == lines;
    return Ok(timings);
  }

  /** One more line is one more Step, unless the parse has already failed. */
  lemma RunStep<T>(lines: seq<string>, i: nat, parseInt: string -> Option<int>, parseFloat: string -> Option<T>)
    requires i < |lines|
    ensures Run(lines[..i + 1], parseInt, parseFloat)
         == match Run(lines[..i], parseInt, parseFloat)
            case Err(e) => Err(e)
            case Ok(st) => Step(st, lines[i], parseInt, parseFloat)
  {
    assert lines[..i + 1][..i] == lines[..i];
  }

  /** Once a line fails, the parse has failed with that error, whatever follows. */
  lemma {:induction false} ErrorStops<T>(lines: seq<string>, i: nat, parseInt: string -> Option<int>, parseFloat: string -> Option<T>)
    requires i <= |lines|
    ensures Run(lines[..i], parseInt, parseFloat).Err? ==> Run(lines, parseInt, parseFloat) == Run(lines[..i], parseInt, parseFloat)
    decreases |lines| - i
  {
    if i < |lines| {
      var init := lines[..|lines| - 1];
      assert init[..i] == lines[..i];
      ErrorStops(init, i, parseInt, parseFloat);
    } else {
      assert lines[..i] == lines;
    }
  }

  // ---------------------------------------------------------------------
  // Properties of one step

  /** A word with no comma and no whitespace at either end. */
  predicate Plain(w: string) {
    w != [] && ',' !in w && !IsSpace(w[0]) && !IsSpace(w[|w| - 1])
  }

  /** Every algorithm and case name is plain. */
  lemma CombsPlain()
    ensures forall i :: 0 <= i < |ALG_CASE_COMBS| ==> Plain(ALG_CASE_COMBS[i].0) && Plain(ALG_CASE_COMBS[i].1)
    ensures Plain(COUNTING) && Plain(AVERAGE_CASE)
  {
    assert Plain(INSERTION) && Plain(COUNTING);
    assert Plain(BEST_CASE) && Plain(AVERAGE_CASE) && Plain(WORST_CASE);
  }

  /** "a,b" with any whitespace around it strips to "a,b". */
  lemma PairStrips(lead: string, a: string, b: string, trail: string)
    requires AllSpace(lead) && AllSpace(trail)
    requires Plain(a) && Plain(b)
    ensures Strip(lead + (a + "," + b) + trail) == a + "," + b
  {
    var w := a + "," + b;
    assert w[0] == a[0] && w[|w| - 1] == b[|b| - 1];
    StripExact(lead, w, trail);
  }

  /** "a,b" splits back into a and b. */
  lemma PairSplits(a: string, b: string)
    requires Plain(a) && Plain(b)
    ensures Split(a + "," + b, ',') == [a, b]
  {
    assert Join([a, b], ',') == a + "," + b;
    assert NoSep([a, b], ',');
    SplitJoin([a, b], ',');
  }

  /** A blank or whitespace-only line changes nothing. */
  lemma BlankLineSkipped<T>(st: ParseState<T>, line: string, parseInt: string -> Option<int>, parseFloat: string -> Option<T>)
    requires AllSpace(line)
    ensures Step(st, line, parseInt, parseFloat) == Ok(st)
  {
  }

  /** A non-blank line without exactly one comma is malformed. */
  lemma NotTwoFieldsMalformed<T>(st: ParseState<T>, line: string, parseInt: string -> Option<int>, parseFloat: string -> Option<T>)
    requires Strip(line) != [] && multiset(Strip(line))[','] != 1
    ensures Step(st, line, parseInt, parseFloat) == Err(MalformedCsv)
  {
  }

  /**
   * The header line collect_data writes selects its (alg, case) and touches
   * no timings: a header followed by no data creates no key.
   */
  lemma HeaderSelects<T>(st: ParseState<T>, alg: string, caseName: string, parseInt: string -> Option<int>, parseFloat: string -> Option<T>)
    requires (alg, caseName) in ALG_CASE_COMBS
    ensures Step(st, HeaderLine(alg, caseName), parseInt, parseFloat) == Ok(ParseState(Some((alg, caseName)), st.timings))
  {
    CombsPlain();
    var i :| 0 <= i < |ALG_CASE_COMBS| && ALG_CASE_COMBS[i] == (alg, caseName);
    assert Plain(alg) && Plain(caseName);
  }

  /** "counting,average" is not a valid combination. */
  lemma CountingAverageInvalid()
    ensures (COUNTING, AVERAGE_CASE) !in ALG_CASE_COMBS
  {
    assert COUNTING[0] != INSERTION[0] && AVERAGE_CASE[0] != BEST_CASE[0] && AVERAGE_CASE[0] != WORST_CASE[0];
  }

  /** So its header line, before any other header, is rejected. */
  lemma CountingAverageNotHeader<T>(parseInt: string -> Option<int>, parseFloat: string -> Option<T>)
    ensures Step(ParseState(None, []), HeaderLine(COUNTING, AVERAGE_CASE), parseInt, parseFloat) == Err(InvalidAlgorithmOrCase)
  {
    CountingAverageInvalid();
    CombsPlain();
    assert Split(Strip(HeaderLine(COUNTING, AVERAGE_CASE)), ',') == [COUNTING, AVERAGE_CASE];
  }

  /**
   * A data line "a,b" with any whitespace around it, before any header, is
   * rejected.
   */
  lemma DataBeforeHeader<T>(timings: Timings<T>, lead: string, a: string, b: string, trail: string,
                            parseInt: string -> Option<int>, parseFloat: string -> Option<T>)
    requires AllSpace(lead) && AllSpace(trail) && Plain(a) && Plain(b) && (a, b) !in ALG_CASE_COMBS
    ensures Step(ParseState(None, timings), lead + (a + "," + b) + trail, parseInt, parseFloat) == Err(InvalidAlgorithmOrCase)
  {
    PairStrips(lead, a, b, trail);
    PairSplits(a, b);
  }

  /** Under a header, a data line "a,b" whose size int() or time float() refuses is rejected. */
  lemma InvalidData<T>(st: ParseState<T>, lead: string, a: string, b: string, trail: string,
                       parseInt: string -> Option<int>, parseFloat: string -> Option<T>)
    requires st.current.Some?
    requires AllSpace(lead) && AllSpace(trail) && Plain(a) && Plain(b) && (a, b) !in ALG_CASE_COMBS
    requires parseInt(a).None? || parseFloat(b).None?
    ensures Step(st, lead + (a + "," + b) + trail, parseInt, parseFloat) == Err(InvalidSizeTime)
  {
    PairStrips(lead, a, b, trail);
    PairSplits(a, b);
  }

  /** Under a header, a data line "a,b" whose fields parse stores time b at size a under that header. */
  lemma DataStored<T>(st: ParseState<T>, lead: string, a: string, b: string, trail: string,
                      parseInt: string -> Option<int>, parseFloat: string -> Option<T>)
    requires st.current.Some?
    requires AllSpace(lead) && AllSpace(trail) && Plain(a) && Plain(b) && (a, b) !in ALG_CASE_COMBS
    requires parseInt(a).Some? && parseFloat(b).Some?
    ensures Step(st, lead + (a + "," + b) + trail, parseInt, parseFloat) == Ok(Store(st, parseInt(a).value, parseFloat(b).value))
  {
    PairStrips(lead, a, b, trail);
    PairSplits(a, b);
  }
}
