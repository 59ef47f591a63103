/** The library of the `minigrep` command: the argument check that builds a
    `Config` and the line filter `search`. */
module Minigrep {
  import opened LineSplit
  import opened Substring

  /** Outcome of an operation that can fail with a message. */
  datatype Result<T> = Ok(value: T) | Err(error: string)

  /** The message `Config.New` fails with. */
  const NotEnoughArguments: string := "Not enough arguments"

  /** What the command was asked to do: the text to look for and the file to look in. */
  datatype Config = Config(query: string, filename: string)
  {
    /** Builds the configuration from the command line `args`, whose element 0 is
        the program name. Fewer than three arguments is an error; beyond the
        third, arguments are ignored. */
    static function New(args: seq<string>): (r: Result<Config>)
      ensures r.Err? <==> |args| < 3
      ensures r.Err? ==> r.error == NotEnoughArguments
      ensures r.Ok? ==> r.value.query == args[1] && r.value.filename == args[2]
    {
      if |args| < 3 then Err(NotEnoughArguments)
      else Ok(Config(args[1], args[2]))
    }
  }

  /** Arguments past the third change nothing. */
  lemma NewIgnoresExtraArguments(args: seq<string>, extra: seq<string>)
    requires |args| >= 3
    ensures Config.New(args + extra) == Config.New(args)
  {
  }

  /** Two arguments (no file name) are rejected. */
  lemma NewRejectsTwoArguments()
    ensures Config.New(["a", "b"]) == Err(NotEnoughArguments)
  {
  }

  /** Program name, query and file name are accepted, in that order. */
  lemma NewAcceptsThreeArguments()
    ensures Config.New(["program", "query", "filename"]) == Ok(Config("query", "filename"))
  {
  }

  /** The elements of `lines` that contain `query`, in their original order. */
  function Matching(lines: seq<string>, query: string): (kept: seq<string>)
    ensures |kept| <= |lines|
    ensures forall l <- kept :: l in lines && Contains(l, query)
  {
    if lines == [] then []
    else
      var init, last := lines[..|lines| - 1], lines[|lines| - 1];
      var kept := Matching(init, query);
      assert forall l <- init :: l in lines;
      if Contains(last, query) then kept + [last] else kept
  }

  /** No line that contains `query` is dropped. */
  lemma {:induction false} MatchingComplete(lines: seq<string>, query: string)
    ensures forall l <- lines :: Contains(l, query) ==> l in Matching(lines, query)
  {
    if lines != [] {
      var init := lines[..|lines| - 1];
      MatchingComplete(init, query);
      assert lines == init + [lines[|lines| - 1]];
    }
  }

  /** Filtering distributes over concatenation: lines are kept in the order they
      come, each one independently of the others. */
  lemma {:induction false} MatchingAppend(a: seq<string>, b: seq<string>, query: string)
    ensures Matching(a + b, query) == Matching(a, query) + Matching(b, query)
    decreases |b|
  {
    if b != [] {
      var init := b[..|b| - 1];
      assert (a + b)[..|a + b| - 1] == a + init;
      MatchingAppend(a, init, query);
    } else {
      assert a + b == a;
    }
  }

  /** A single line is kept exactly when it contains `query`. */
  lemma MatchingSingle(line: string, query: string)
    ensures Matching([line], query) == if Contains(line, query) then [line] else []
  {
  }

  /** When every line contains `query`, all lines are kept, in order. */
  lemma {:induction false} MatchingAll(lines: seq<string>, query: string)
    requires forall l <- lines :: Contains(l, query)
    ensures Matching(lines, query) == lines
  {
    if lines != [] {
      var init := lines[..|lines| - 1];
      assert forall l <- init :: l in lines;
      MatchingAll(init, query);
      assert lines == init + [lines[|lines| - 1]];
    }
  }

  /** When no line contains `query`, nothing is kept. */
  lemma {:induction false} MatchingNone(lines: seq<string>, query: string)
    requires forall l <- lines :: !Contains(l, query)
    ensures Matching(lines, query) == []
  {
    if lines != [] {
      var init := lines[..|lines| - 1];
      assert forall l <- init :: l in lines;
      MatchingNone(init, query);
    }
  }

  /** The lines of `contents` that contain `query`, in the order they appear.
      Never fails: an empty `contents` or a query found nowhere gives an empty result. */
  method Search(query: string, contents: string) returns (result: seq<string>)
    ensures result == Matching(Lines(contents), query)
    ensures forall line <- result :: line in Lines(contents) && Contains(line, query)
    ensures forall line <- Lines(contents) :: Contains(line, query) ==> line in result
    ensures forall line <- result :: '\n' !in line
    ensures |result| <= |Lines(contents)|
  {
    var lines := Lines(contents);
    result := [];
    for i := 0 to |lines|
      invariant result == Matching(lines[..i], query)
    {
      assert lines[..i + 1][..i] == lines[..i];
      if Contains(lines[i], query) {
        result := result + [lines[i]];
      }
    }
    assert lines[..|lines|] == lines;
    MatchingComplete(lines, query);
  }

  /** The empty query is found in every line: every line is returned, in order. */
  lemma SearchEmptyQuery(contents: string)
    ensures Matching(Lines(contents), "") == Lines(contents)
  {
    MatchingAll(Lines(contents), "");
  }

  /** Empty contents have no lines, so nothing is returned. */
  lemma SearchEmptyContents(query: string)
    ensures Matching(Lines(""), query) == []
  {
  }

  /** A query found in no line gives an empty result. */
  lemma SearchAbsentQuery(query: string, contents: string)
    requires forall line <- Lines(contents) :: !Contains(line, query)
    ensures Matching(Lines(contents), query) == []
  {
    MatchingNone(Lines(contents), query);
  }

  /** The first and last lines of the library's example do not contain "duct". */
  lemma ExampleOuterLinesLackQuery()
    ensures !Contains("Rust:", "duct")
    ensures !Contains("Pick three.", "duct")
  {
    NotContainedWithoutFirst("Rust:", "duct");
    NotContainedWithoutFirst("Pick three.", "duct");
  }

  /** The middle line of the library's example contains "duct", at index 15. */
  lemma ExampleMiddleLineHasQuery()
    ensures Contains("safe, fast, productive.", "duct")
  {
    var line := "safe, fast, productive.";
    assert line[15..19] == "duct";
    assert OccursAt(line, "duct", 15);
    ContainsIff(line, "duct");
  }

  /** Filtering three lines keeps those of them that contain `query`, in order. */
  lemma MatchingThree(a: string, b: string, c: string, query: string)
    ensures Matching([a, b, c], query)
            == (if Contains(a, query) then [a] else [])
             + (if Contains(b, query) then [b] else [])
             + (if Contains(c, query) then [c] else [])
  {
    assert [a, b, c] == [a] + [b] + [c];
    MatchingAppend([a] + [b], [c], query);
    MatchingAppend([a], [b], query);
    MatchingSingle(a, query);
    MatchingSingle(b, query);
    MatchingSingle(c, query);
  }

  /** The library's own example: "duct" is found only in the middle line. */
  lemma SearchOneResult()
    ensures Matching(Lines("Rust:" + "\n" + "safe, fast, productive." + "\n" + "Pick three."), "duct")
            == ["safe, fast, productive."]
  {
    ThreeLines("Rust:", "safe, fast, productive.", "Pick three.");
    ExampleOuterLinesLackQuery();
    ExampleMiddleLineHasQuery();
    MatchingThree("Rust:", "safe, fast, productive.", "Pick three.", "duct");
  }
}
