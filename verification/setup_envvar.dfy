/**
 * `setup_envvariables` of scripts/setup_envvar.py: when the `.env` file
 * exists, every line whose stripped text splits on `=` into exactly two
 * parts sets the environment variable named by the first part to the
 * second. The file's existence and its lines are parameters; the process
 * environment is a map from names to values.
 */
module SetupEnvvar {
  import opened Wrappers

  /** The characters Python's `str.strip()` removes (`str.isspace`). */
  predicate IsSpace(c: char)
  {
    || ('\t' <= c <= '\r')            // tab, line feed, vertical tab, form feed, carriage return
    || ('\U{1C}' <= c <= ' ')         // file, group, record and unit separators, space
    || c == '\U{85}' || c == '\U{A0}' || c == '\U{1680}'
    || ('\U{2000}' <= c <= '\U{200A}')
    || c == '\U{2028}' || c == '\U{2029}' || c == '\U{202F}' || c == '\U{205F}' || c == '\U{3000}'
  }

  /** Length of the run of whitespace that starts `s`. */
  function LeadingSpaces(s: string): (k: nat)
    ensures k <= |s|
    ensures forall i :: 0 <= i < k ==> IsSpace(s[i])
    ensures k < |s| ==> !IsSpace(s[k])
  {
    if s == [] || !IsSpace(s[0]) then 0 else 1 + LeadingSpaces(s[1..])
  }

  /** Index just past the last non-whitespace character of `s` (0 if there is none). */
  function TrailingStart(s: string): (j: nat)
    ensures j <= |s|
    ensures forall i :: j <= i < |s| ==> IsSpace(s[i])
    ensures j > 0 ==> !IsSpace(s[j - 1])
  {
    if s == [] || !IsSpace(s[|s| - 1]) then |s| else TrailingStart(s[..|s| - 1])
  }

  /**
   * `s.strip()`: the text between the leading and the trailing whitespace.
   * Whitespace inside the text, such as next to an `=`, is kept.
   */
  function Strip(s: string): (r: string)
    ensures r != [] ==> !IsSpace(r[0]) && !IsSpace(r[|r| - 1])
    ensures LeadingSpaces(s) + |r| <= |s| && r == s[LeadingSpaces(s)..LeadingSpaces(s) + |r|]
    ensures forall i :: LeadingSpaces(s) + |r| <= i < |s| ==> IsSpace(s[i])
  {
    var k := LeadingSpaces(s);
    if k == |s| then []
    else
      var j := TrailingStart(s);
      assert k < j;
      s[k..j]
  }

  /** Number of occurrences of `c` in `s`. */
  function Occurrences(s: string, c: char): nat
  {
    if s == [] then 0 else (if s[0] == c then 1 else 0) + Occurrences(s[1..], c)
  }

  /** The parts joined back with the separator between them. */
  function Join(parts: seq<string>, sep: char): string
    requires |parts| >= 1
  {
    if |parts| == 1 then parts[0] else parts[0] + [sep] + Join(parts[1..], sep)
  }

  /**
   * `s.split(sep)` for a one-character separator: never empty, one part more
   * than there are separators, and no part holds the separator.
   */
  function Split(s: string, sep: char): (parts: seq<string>)
    ensures |parts| == Occurrences(s, sep) + 1
    ensures forall p :: p in parts ==> sep !in p
  {
    if s == [] then [[]]
    else
      var rest := Split(s[1..], sep);
      if s[0] == sep then [[]] + rest
      else [[s[0]] + rest[0]] + rest[1..]
  }

  /** Joining the parts of a split with the separator gives the text back. */
  lemma {:induction false} JoinSplit(s: string, sep: char)
    ensures Join(Split(s, sep), sep) == s
  {
    if s != [] {
      JoinSplit(s[1..], sep);
      var rest := Split(s[1..], sep);
      assert [s[0]] + s[1..] == s;
      if s[0] != sep {
        var parts := [[s[0]] + rest[0]] + rest[1..];
        assert parts[1..] == rest[1..];
        if |rest| > 1 {
          assert rest == [rest[0]] + rest[1..];
        }
        assert Join(parts, sep) == [s[0]] + Join(rest, sep);
      }
    }
  }

  /** A text without the separator splits into itself. */
  lemma {:induction false} SplitWithoutSeparator(s: string, sep: char)
    requires sep !in s
    ensures Split(s, sep) == [s]
  {
    if s != [] {
      assert sep !in s[1..];
      SplitWithoutSeparator(s[1..], sep);
      assert [s[0]] + s[1..] == s;
    }
  }

  /** A separator-free prefix is glued onto the first part. */
  lemma {:induction false} SplitPrefix(k: string, rest: string, sep: char)
    requires sep !in k
    ensures Split(k + rest, sep) == [k + Split(rest, sep)[0]] + Split(rest, sep)[1..]
  {
    if k != [] {
      assert (k + rest)[1..] == k[1..] + rest;
      SplitPrefix(k[1..], rest, sep);
      assert [k[0]] + (k[1..] + Split(rest, sep)[0]) == k + Split(rest, sep)[0];
    } else {
      assert k + rest == rest;
      var parts := Split(rest, sep);
      assert |parts| >= 1;
      assert k + parts[0] == parts[0];
      assert parts == [parts[0]] + parts[1..];
    }
  }

  /** `k + "=" + v` with no `=` in `k` or `v` splits into exactly `[k, v]`. */
  lemma SplitAroundSeparator(k: string, v: string, sep: char)
    requires sep !in k && sep !in v
    ensures Split(k + [sep] + v, sep) == [k, v]
  {
    SplitWithoutSeparator(v, sep);
    var tail := [sep] + v;
    assert tail[1..] == v && tail[0] == sep;
    assert Split(tail, sep) == [[]] + Split(v, sep);
    assert Split(tail, sep) == [[], v];
    assert k + [sep] + v == k + tail;
    SplitPrefix(k, tail, sep);
    assert k + [] == k;
    assert Split(tail, sep)[1..] == [v];
  }

  /**
   * One line of the file: `line.strip().split("=")`, applied only when it
   * has exactly two parts, i.e. when the stripped line holds exactly one `=`.
   */
  function ParseLine(line: string): (r: Option<(string, string)>)
    ensures r.Some? <==> Occurrences(Strip(line), '=') == 1
    ensures r.Some? ==> Strip(line) == r.value.0 + "=" + r.value.1
                        && '=' !in r.value.0 && '=' !in r.value.1
  {
    var parts := Split(Strip(line), '=');
    if |parts| == 2 then
      JoinSplit(Strip(line), '=');
      assert parts[1..] == [parts[1]];
      assert Join(parts, '=') == parts[0] + "=" + parts[1];
      Some((parts[0], parts[1]))
    else None
  }

  /** Conversely, a stripped line `k=v` with no other `=` is applied as the pair `(k, v)`. */
  lemma ParseLineExact(line: string, k: string, v: string)
    requires '=' !in k && '=' !in v
    requires Strip(line) == k + "=" + v
    ensures ParseLine(line) == Some((k, v))
  {
    SplitAroundSeparator(k, v, '=');
  }

  /** `KEY=` sets `KEY` to the empty string. */
  lemma ParseEmptyValue()
    ensures ParseLine("KEY=\n") == Some(("KEY", ""))
  {
    assert LeadingSpaces("KEY=\n") == 0;
    assert TrailingStart("KEY=\n") == 4;
    assert Strip("KEY=\n") == "KEY=";
    ParseLineExact("KEY=\n", "KEY", "");
  }

  /** Only the ends of the line are stripped: spaces next to `=` stay in the name and the value. */
  lemma ParseKeepsInnerSpaces()
    ensures ParseLine("  A = b \n") == Some(("A ", " b"))
  {
    assert LeadingSpaces("  A = b \n") == 2;
    assert TrailingStart("  A = b \n") == 7;
    assert Strip("  A = b \n") == "A = b";
    ParseLineExact("  A = b \n", "A ", " b");
  }

  /** A line with no `=` is skipped. */
  lemma ParseNoSeparator()
    ensures ParseLine("DEBUG\n") == None
  {
    assert LeadingSpaces("DEBUG\n") == 0;
    assert TrailingStart("DEBUG\n") == 5;
    assert Strip("DEBUG\n") == "DEBUG";
    assert Occurrences("DEBUG", '=') == 0;
  }

  /** A line with two `=` is skipped, even though its value looks meant to hold one. */
  lemma ParseTwoSeparators()
    ensures ParseLine("URL=a=b\n") == None
  {
    assert LeadingSpaces("URL=a=b\n") == 0;
    assert TrailingStart("URL=a=b\n") == 7;
    assert Strip("URL=a=b\n") == "URL=a=b";
    assert Occurrences("URL=a=b", '=') == 2;
  }

  /** An assignment a line yields, if any: `Some((name, value))`. */
  type Assignment = Option<(string, string)>

  /** The assignments of the file's lines, line by line. */
  function ParseLines(lines: seq<string>): seq<Assignment>
  {
    seq(|lines|, i requires 0 <= i < |lines| => ParseLine(lines[i]))
  }

  /** The assignment sets `key`. */
  predicate Sets(a: Assignment, key: string)
  {
    a.Some? && a.value.0 == key
  }

  /**
   * `os.environ[name] = value` raises before it changes anything when
   * `putenv` refuses the pair: an empty name, which POSIX `setenv` rejects
   * (Python 3.9 and later, on POSIX systems), or a NUL character in the name
   * or the value, which Python refuses as an embedded null byte.
   */
  predicate PutenvRejects(name: string, value: string)
  {
    name == [] || '\0' in name || '\0' in value
  }

  /** The line's assignment is one that raises. */
  predicate Rejected(a: Assignment)
  {
    a.Some? && PutenvRejects(a.value.0, a.value.1)
  }

  /** The environment when the loop stops, and whether it stopped because an assignment raised. */
  datatype Run = Run(env: map<string, string>, raised: bool)

  /** `os.environ[name] = value` for an applied line; nothing for a skipped one. */
  function Assign(env: map<string, string>, a: Assignment): Run
  {
    match a
    case Some((k, v)) => if PutenvRejects(k, v) then Run(env, true) else Run(env[k := v], false)
    case None => Run(env, false)
  }

  /** The effect of the assignments, in file order, up to the first one that raises. */
  function ApplyAll(env: map<string, string>, assignments: seq<Assignment>): Run
  {
    if assignments == [] then Run(env, false)
    else
      var prior := ApplyAll(env, assignments[..|assignments| - 1]);
      if prior.raised then prior else Assign(prior.env, assignments[|assignments| - 1])
  }

  /**
   * `setup_envvariables()`: without a `.env` file the environment is left
   * as it is; otherwise each line is applied in turn, until an assignment
   * raises, which ends the loop and leaves the earlier assignments in place.
   */
  method SetupEnvvariables(envFileExists: bool, lines: seq<string>, environ: map<string, string>)
    returns (result: map<string, string>, raised: bool)
    ensures !envFileExists ==> result == environ && !raised
    ensures envFileExists ==> Run(result, raised) == ApplyAll(environ, ParseLines(lines))
  {
    result, raised := environ, false;
    if envFileExists {
      ghost var parsed := ParseLines(lines);
      for i := 0 to |lines|
        invariant Run(result, false) == ApplyAll(environ, parsed[..i])
      {
        assert parsed[..i + 1][..i] == parsed[..i];
        assert ApplyAll(environ, parsed[..i + 1]) == Assign(result, parsed[i]);
        var parts := Split(Strip(lines[i]), '=');
        assert parsed[i] == if |parts| == 2 then Some((parts[0], parts[1])) else None;
        if |parts| == 2 {
          if PutenvRejects(parts[0], parts[1]) {
            raised := true;
            RaisedIsFinal(environ, parsed, i + 1);
            return;
          }
          result := result[parts[0] := parts[1]];
        }
      }
      assert parsed[..|lines|] == parsed;
    }
  }

  /** Once an assignment has raised, later lines change nothing. */
  lemma {:induction false} RaisedIsFinal(env: map<string, string>, assignments: seq<Assignment>, i: nat)
    requires i <= |assignments| && ApplyAll(env, assignments[..i]).raised
    ensures ApplyAll(env, assignments) == ApplyAll(env, assignments[..i])
  {
    if i == |assignments| {
      assert assignments[..i] == assignments;
    } else {
      var n := |assignments| - 1;
      var init := assignments[..n];
      assert init[..i] == assignments[..i];
      RaisedIsFinal(env, init, i);
    }
  }

  /** The loop raises exactly when some applied line holds a name or value that `putenv` refuses. */
  lemma {:induction false} RaisesIffRejectedLine(env: map<string, string>, assignments: seq<Assignment>)
    ensures ApplyAll(env, assignments).raised <==> exists i :: 0 <= i < |assignments| && Rejected(assignments[i])
  {
    if assignments != [] {
      var n := |assignments| - 1;
      var init := assignments[..n];
      assert forall j :: 0 <= j < |init| ==> init[j] == assignments[j];
      RaisesIffRejectedLine(env, init);
      if exists i :: 0 <= i < |assignments| && Rejected(assignments[i]) {
        var i :| 0 <= i < |assignments| && Rejected(assignments[i]);
        if i < n {
          assert Rejected(init[i]);
        }
      }
      if exists i :: 0 <= i < |init| && Rejected(init[i]) {
        var i :| 0 <= i < |init| && Rejected(init[i]);
        assert Rejected(assignments[i]);
      }
    }
  }

  /**
   * The loop stops at the first line whose assignment raises: the
   * environment then holds exactly the effect of the lines before it.
   */
  lemma StopsAtFirstRejected(env: map<string, string>, assignments: seq<Assignment>, i: nat)
    requires i < |assignments| && Rejected(assignments[i])
    requires forall j :: 0 <= j < i ==> !Rejected(assignments[j])
    ensures !ApplyAll(env, assignments[..i]).raised
    ensures ApplyAll(env, assignments) == Run(ApplyAll(env, assignments[..i]).env, true)
  {
    var before := assignments[..i];
    assert forall j :: 0 <= j < |before| ==> before[j] == assignments[j];
    RaisesIffRejectedLine(env, before);
    var upto := assignments[..i + 1];
    assert upto[..i] == before && upto[i] == assignments[i];
    RaisedIsFinal(env, assignments, i + 1);
  }

  /**
   * The lines `=v` and `A=b`: the first assigns to the empty name, which
   * raises, so the environment stays as it was and `A` is never set.
   */
  lemma EmptyNameRaises(env: map<string, string>)
    ensures ApplyAll(env, ParseLines(["=v\n", "A=b\n"])) == Run(env, true)
  {
    assert LeadingSpaces("=v\n") == 0;
    assert TrailingStart("=v\n") == 2;
    assert Strip("=v\n") == "=v";
    ParseLineExact("=v\n", "", "v");
    var parsed := ParseLines(["=v\n", "A=b\n"]);
    assert parsed[0] == Some(("", "v"));
    assert parsed[..0] == [];
    StopsAtFirstRejected(env, parsed, 0);
  }

  /** A name that no applied line sets (a refused line sets nothing) keeps its previous value, or stays unset. */
  lemma {:induction false} UnsetKeysUnchanged(env: map<string, string>, assignments: seq<Assignment>, key: string)
    requires forall i :: 0 <= i < |assignments| ==> !Sets(assignments[i], key) || Rejected(assignments[i])
    ensures key in ApplyAll(env, assignments).env <==> key in env
    ensures key in env ==> ApplyAll(env, assignments).env[key] == env[key]
  {
    if assignments != [] {
      var init := assignments[..|assignments| - 1];
      assert forall i :: 0 <= i < |init| ==> init[i] == assignments[i];
      UnsetKeysUnchanged(env, init, key);
    }
  }

  /**
   * The last applied line for a name decides its value: if no assignment
   * raised, assignment `i` sets `key` to `v` and no later one sets `key`,
   * the final value is `v`.
   */
  lemma {:induction false} LastLineWins(env: map<string, string>, assignments: seq<Assignment>, i: nat, key: string, v: string)
    requires i < |assignments| && assignments[i] == Some((key, v))
    requires forall j :: i < j < |assignments| ==> !Sets(assignments[j], key)
    requires !ApplyAll(env, assignments).raised
    ensures key in ApplyAll(env, assignments).env && ApplyAll(env, assignments).env[key] == v
  {
    var n := |assignments| - 1;
    var init := assignments[..n];
    assert !ApplyAll(env, init).raised;
    if i < n {
      assert forall j :: 0 <= j < |init| ==> init[j] == assignments[j];
      LastLineWins(env, init, i, key, v);
      assert !Sets(assignments[n], key);
    }
  }

  /**
   * Only names that were set before or that some applied line sets are set
   * afterwards; when no assignment raised, every such name is set.
   */
  lemma {:induction false} KeysAfterApply(env: map<string, string>, assignments: seq<Assignment>, key: string)
    ensures key in ApplyAll(env, assignments).env
        ==> key in env || exists i :: 0 <= i < |assignments| && Sets(assignments[i], key)
    ensures !ApplyAll(env, assignments).raised
        ==> (key in ApplyAll(env, assignments).env
             <==> key in env || exists i :: 0 <= i < |assignments| && Sets(assignments[i], key))
  {
    if assignments != [] {
      var n := |assignments| - 1;
      var init := assignments[..n];
      assert forall j :: 0 <= j < |init| ==> init[j] == assignments[j];
      KeysAfterApply(env, init, key);
      if exists i :: 0 <= i < |assignments| && Sets(assignments[i], key) {
        var i :| 0 <= i < |assignments| && Sets(assignments[i], key);
        if i < n {
          assert Sets(init[i], key);
        }
      }
      if exists i :: 0 <= i < |init| && Sets(init[i], key) {
        var i :| 0 <= i < |init| && Sets(init[i], key);
        assert Sets(assignments[i], key);
      }
    }
  }
}
