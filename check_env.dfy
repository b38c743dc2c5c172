/** A model of `checkEnv`: validate that required environment variables are
    present and non-blank, and report the missing ones.

    The process environment is passed in as a map (a name that is not a key
    stands for `undefined`), and instead of writing to the error stream and
    exiting, the routine returns an `Outcome` that carries the lines it would
    write and the status it would exit with. */
module CheckEnv {
  import opened StringTrim

  type Environment = map<string, string>

  /** The argument as JavaScript sees it: an array of names, or anything else. */
  datatype Argument = ArrayArg(names: seq<string>) | OtherArg

  /** What one call does: throw the usage error, return normally, or write
      `lines` to the error stream and exit the process with `status`. */
  datatype Outcome =
    | UsageError(message: string)
    | Ok
    | Fail(lines: seq<string>, status: int)

  const UsageMessage := "checkEnv expects an array of environment variable names"
  const Banner := "ENV VALIDATION FAILED"
  const Rule := "========================================"
  const Heading := "Missing required environment variables:"
  // Split in two so that the prover sees the first character of the long literal.
  const Tip := "Tip: " + "Check your .env file or deployment configuration"
  const ExitFailure := 1

  /** The seven lines written before the list of missing names. */
  const Header: seq<string> :=
    ["", Rule, Banner, Rule, "", Heading, ""]

  /** The five lines written after the list of missing names. */
  const Footer: seq<string> :=
    ["", Tip, "", Rule, ""]

  /** A variable is missing when it is unset or its value trims to "". */
  predicate IsBlank(env: Environment, key: string) {
    key !in env || Trim(env[key]) == ""
  }

  /** The names of `names` that are missing from `env`, in input order and
      with repetitions, as the collecting loop builds them. */
  function Missing(env: Environment, names: seq<string>): seq<string>
  {
    if names == [] then []
    else
      var key := names[|names| - 1];
      Missing(env, names[..|names| - 1]) + (if IsBlank(env, key) then [key] else [])
  }

  /** The positions in `names` of the missing names, in increasing order. */
  function BlankPositions(env: Environment, names: seq<string>): seq<nat>
  {
    if names == [] then []
    else
      var j := |names| - 1;
      BlankPositions(env, names[..j]) + (if IsBlank(env, names[j]) then [j] else [])
  }

  /** `a` is what is left of `b` when only the positions `idx` are kept. */
  predicate Embeds(idx: seq<nat>, a: seq<string>, b: seq<string>) {
    |idx| == |a|
    && (forall k :: 0 <= k < |idx| ==> idx[k] < |b| && a[k] == b[idx[k]])
    && (forall k, l :: 0 <= k < l < |idx| ==> idx[k] < idx[l])
  }

  /** The line reporting one missing name. */
  function Bullet(name: string): string {
    "- " + name
  }

  function Bullets(m: seq<string>): seq<string> {
    if m == [] then [] else Bullets(m[..|m| - 1]) + [Bullet(m[|m| - 1])]
  }

  /** Everything written to the error stream when `missing` is non-empty. */
  function Diagnostic(missing: seq<string>): seq<string> {
    Header + Bullets(missing) + Footer
  }

  /** Whether a line has the shape of a report line, "- " and a name. */
  predicate IsBulletLine(line: string) {
    |line| >= 2 && line[0] == '-' && line[1] == ' '
  }

  /** Reads the reported names back from a diagnostic: the lines that begin
      with "- ", without that prefix, in order. */
  function ListedNames(lines: seq<string>): seq<string> {
    if lines == [] then []
    else
      var last := lines[|lines| - 1];
      ListedNames(lines[..|lines| - 1]) + (if IsBulletLine(last) then [last[2..]] else [])
  }

  /** The whole routine, as a function of its argument and the environment. */
  function Validate(arg: Argument, env: Environment): Outcome {
    match arg
    case OtherArg => UsageError(UsageMessage)
    case ArrayArg(names) =>
      var missing := Missing(env, names);
      if |missing| > 0 then Fail(Diagnostic(missing), ExitFailure) else Ok
  }

  /** `checkEnv(requiredVars)`, step by step: the type check, the loop that
      pushes each missing name, and the writes that frame the list. */
  method Check(arg: Argument, env: Environment) returns (out: Outcome)
    ensures out == Validate(arg, env)
  {
    if !arg.ArrayArg? {
      return UsageError(UsageMessage);
    }
    var requiredVars := arg.names;
    var missing: seq<string> := [];
    for i := 0 to |requiredVars|
      invariant missing == Missing(env, requiredVars[..i])
    {
      var key := requiredVars[i];
      assert requiredVars[..i + 1][..i] == requiredVars[..i];
      assert Missing(env, requiredVars[..i + 1])
          == missing + (if IsBlank(env, key) then [key] else []);
      if key !in env || Trim(env[key]) == "" {
        missing := missing + [key];
      }
    }
    assert requiredVars[..|requiredVars|] == requiredVars;

    if |missing| > 0 {
      var lines := Header;
      for j := 0 to |missing|
        invariant lines == Header + Bullets(missing[..j])
      {
        lines := lines + [Bullet(missing[j])];
        assert missing[..j + 1][..j] == missing[..j];
      }
      assert missing[..|missing|] == missing;
      lines := lines + Footer;
      return Fail(lines, ExitFailure);
    }
    return Ok;
  }

  // ---------------------------------------------------------------------
  // The missing list

  /** A name is reported at most as often as it is listed, and exactly as
      often when it is missing: a name listed twice and unset appears twice. */
  lemma {:induction false} MissingMultiplicity(env: Environment, names: seq<string>, key: string)
    ensures multiset(Missing(env, names))[key]
         == if IsBlank(env, key) then multiset(names)[key] else 0
  {
    if names != [] {
      var j := |names| - 1;
      var init, last := names[..j], names[j];
      MissingMultiplicity(env, init, key);
      assert names == init + [last];
      assert multiset(names) == multiset(init) + multiset{last};
      var tail := if IsBlank(env, last) then [last] else [];
      assert Missing(env, names) == Missing(env, init) + tail;
      assert multiset(Missing(env, names)) == multiset(Missing(env, init)) + multiset(tail);
    }
  }

  /** The missing list is the input restricted to the blank positions, in
      input order: a subsequence of `names`, chosen by exactly that test. */
  lemma {:induction false} MissingKeepsOrder(env: Environment, names: seq<string>)
    ensures Embeds(BlankPositions(env, names), Missing(env, names), names)
    ensures forall j :: 0 <= j < |names| ==>
      (j in BlankPositions(env, names) <==> IsBlank(env, names[j]))
  {
    if names != [] {
      var j := |names| - 1;
      var init, last := names[..j], names[j];
      MissingKeepsOrder(env, init);
      var m0, idx0 := Missing(env, init), BlankPositions(env, init);
      var blank := IsBlank(env, last);
      var m := m0 + (if blank then [last] else []);
      var idx := idx0 + (if blank then [j] else []);
      assert Missing(env, names) == m;
      assert BlankPositions(env, names) == idx;
      assert forall k :: 0 <= k < |idx0| ==> idx0[k] < j;
      forall k | 0 <= k < |idx| ensures idx[k] < |names| && m[k] == names[idx[k]] {
        if k < |idx0| {
          assert m[k] == m0[k] == init[idx0[k]];
        }
      }
      forall i | 0 <= i < |names| ensures i in idx <==> IsBlank(env, names[i]) {
        if i < j {
          assert names[i] == init[i];
          assert i in idx <==> i in idx0;
        } else {
          assert j !in idx0;
        }
      }
    }
  }

  /** A name is in the missing list exactly when it is required and blank. */
  lemma {:induction false} MissingMembership(env: Environment, names: seq<string>)
    ensures forall key :: key in Missing(env, names) <==> key in names && IsBlank(env, key)
  {
    if names != [] {
      var j := |names| - 1;
      MissingMembership(env, names[..j]);
      assert names == names[..j] + [names[j]];
    }
  }

  lemma {:induction false} MissingOfAppend(env: Environment, a: seq<string>, b: seq<string>)
    ensures Missing(env, a + b) == Missing(env, a) + Missing(env, b)
  {
    if b != [] {
      var j := |b| - 1;
      assert (a + b)[..|a + b| - 1] == a + b[..j];
      MissingOfAppend(env, a, b[..j]);
    } else {
      assert a + b == a;
    }
  }

  // ---------------------------------------------------------------------
  // The diagnostic

  lemma {:induction false} BulletsAt(m: seq<string>)
    ensures |Bullets(m)| == |m|
    ensures forall i :: 0 <= i < |m| ==> Bullets(m)[i] == Bullet(m[i])
  {
    if m != [] {
      BulletsAt(m[..|m| - 1]);
    }
  }

  /** 7 header lines with the banner third, one "- name" line per missing
      name in order, then 5 footer lines. */
  lemma DiagnosticShape(missing: seq<string>)
    ensures var d := Diagnostic(missing);
      |d| == 12 + |missing|
      && d[..7] == Header && d[2] == Banner
      && (forall i :: 0 <= i < |missing| ==> d[7 + i] == "- " + missing[i])
      && d[7 + |missing|..] == Footer
  {
    BulletsAt(missing);
    var d := Diagnostic(missing);
    assert d == Header + (Bullets(missing) + Footer);
    forall i | 0 <= i < |missing| ensures d[7 + i] == "- " + missing[i] {
      assert d[7 + i] == Bullets(missing)[i];
    }
  }

  lemma {:induction false} ListedNamesOfAppend(a: seq<string>, b: seq<string>)
    ensures ListedNames(a + b) == ListedNames(a) + ListedNames(b)
  {
    if b != [] {
      var j := |b| - 1;
      assert (a + b)[..|a + b| - 1] == a + b[..j];
      ListedNamesOfAppend(a, b[..j]);
    } else {
      assert a + b == a;
    }
  }

  lemma {:induction false} ListedNamesOfBullets(m: seq<string>)
    ensures ListedNames(Bullets(m)) == m
  {
    if m != [] {
      var j := |m| - 1;
      ListedNamesOfAppend(Bullets(m[..j]), [Bullet(m[j])]);
      ListedNamesOfBullets(m[..j]);
      assert Bullet(m[j])[2..] == m[j];
      assert [Bullet(m[j])][..0] == [];
    }
  }

  /** None of the twelve frame lines has the shape of a report line. */
  lemma FrameHasNoBulletLines()
    ensures forall i :: 0 <= i < |Header| ==> !IsBulletLine(Header[i])
    ensures forall i :: 0 <= i < |Footer| ==> !IsBulletLine(Footer[i])
  {
  }

  lemma {:induction false} ListedNamesOfFrame(lines: seq<string>)
    requires forall i :: 0 <= i < |lines| ==> !IsBulletLine(lines[i])
    ensures ListedNames(lines) == []
  {
    if lines != [] {
      ListedNamesOfFrame(lines[..|lines| - 1]);
    }
  }

  /** Reading the names back out of a diagnostic gives the missing list: the
      report names every missing variable, nothing else, in order. */
  lemma DiagnosticRoundTrip(missing: seq<string>)
    ensures ListedNames(Diagnostic(missing)) == missing
  {
    FrameHasNoBulletLines();
    ListedNamesOfFrame(Header);
    ListedNamesOfFrame(Footer);
    ListedNamesOfAppend(Header + Bullets(missing), Footer);
    ListedNamesOfAppend(Header, Bullets(missing));
    ListedNamesOfBullets(missing);
  }

  lemma BulletInjective(x: string, y: string)
    requires Bullet(x) == Bullet(y)
    ensures x == y
  {
    assert x == Bullet(x)[2..];
    assert y == Bullet(y)[2..];
  }

  /** No frame line looks like a report line, so a "- name" line is in the
      diagnostic exactly when `name` is in the missing list. */
  lemma BulletInDiagnostic(missing: seq<string>, name: string)
    ensures Bullet(name) in Diagnostic(missing) <==> name in missing
  {
    BulletsAt(missing);
    FrameHasNoBulletLines();
    var bs := Bullets(missing);
    var b := Bullet(name);
    assert IsBulletLine(b);
    assert b !in Header && b !in Footer;
    assert b in Diagnostic(missing) <==> b in bs;
    if b in bs {
      var i :| 0 <= i < |bs| && bs[i] == b;
      BulletInjective(missing[i], name);
    }
    if name in missing {
      var i :| 0 <= i < |missing| && missing[i] == name;
      assert bs[i] == b;
    }
  }

  // ---------------------------------------------------------------------
  // The outcome

  /** Anything but an array is a usage error, with no lines and no exit;
      an array never is. */
  lemma UsageErrorExactlyForNonArray(arg: Argument, env: Environment)
    ensures Validate(arg, env).UsageError? <==> arg.OtherArg?
    ensures arg.OtherArg? ==> Validate(arg, env) == UsageError(UsageMessage)
  {
  }

  /** The call returns normally exactly when every required name is set to
      a non-blank value; in particular an empty list always passes. */
  lemma OkIffNothingMissing(names: seq<string>, env: Environment)
    ensures Validate(ArrayArg(names), env) == Ok
        <==> forall key :: key in names ==> !IsBlank(env, key)
    ensures names == [] ==> Validate(ArrayArg(names), env) == Ok
  {
    var m := Missing(env, names);
    MissingMembership(env, names);
    if m != [] {
      assert m[0] in m;
    }
  }

  /** Otherwise the process exits with status 1 after writing the banner
      and a "- name" line for precisely the blank names, in input order. */
  lemma FailureReport(names: seq<string>, env: Environment)
    requires exists key :: key in names && IsBlank(env, key)
    ensures var out := Validate(ArrayArg(names), env);
      out.Fail? && out.status == 1
      && out.lines[2] == Banner && Banner in out.lines
      && |out.lines| == 12 + |Missing(env, names)|
      && ListedNames(out.lines) == Missing(env, names)
      && forall key :: Bullet(key) in out.lines <==> key in names && IsBlank(env, key)
  {
    var key :| key in names && IsBlank(env, key);
    var m := Missing(env, names);
    MissingMembership(env, names);
    assert key in m;
    DiagnosticShape(m);
    DiagnosticRoundTrip(m);
    forall k ensures Bullet(k) in Diagnostic(m) <==> k in names && IsBlank(env, k) {
      BulletInDiagnostic(m, k);
    }
  }

  // ---------------------------------------------------------------------
  // The scenarios of the test scripts

  /** With nothing set, both names are reported and the process exits 1. */
  lemma EmptyEnvironmentFails()
    ensures var out := Validate(ArrayArg(["DB_HOST", "JWT_SECRET"]), map[]);
      out.Fail? && out.status == 1 && Banner in out.lines
      && Bullet("DB_HOST") in out.lines && Bullet("JWT_SECRET") in out.lines
  {
    FailureReport(["DB_HOST", "JWT_SECRET"], map[]);
  }

  /** A value whose first character is not whitespace is never blank. */
  lemma SetWhenFirstCharIsNotWhitespace(env: Environment, key: string)
    requires key in env && env[key] != [] && !IsWhitespace(env[key][0])
    ensures !IsBlank(env, key)
  {
    TrimEmptyIffAllWhitespace(env[key]);
  }

  /** With both names set to real values the call returns normally. */
  lemma BothSetSucceeds()
    ensures Validate(ArrayArg(["DB_HOST", "JWT_SECRET"]),
                     map["DB_HOST" := "localhost", "JWT_SECRET" := "secret"]) == Ok
  {
    var names := ["DB_HOST", "JWT_SECRET"];
    var env := map["DB_HOST" := "localhost", "JWT_SECRET" := "secret"];
    SetWhenFirstCharIsNotWhitespace(env, "DB_HOST");
    SetWhenFirstCharIsNotWhitespace(env, "JWT_SECRET");
    OkIffNothingMissing(names, env);
  }

  /** A value of three spaces counts as missing. */
  lemma WhitespaceValueFails()
    ensures var out := Validate(ArrayArg(["DB_HOST"]), map["DB_HOST" := "   "]);
      out.Fail? && out.status == 1 && Bullet("DB_HOST") in out.lines
  {
    var env := map["DB_HOST" := "   "];
    TrimEmptyIffAllWhitespace("   ");
    assert env["DB_HOST"] == "   ";
    assert IsBlank(env, "DB_HOST");
    assert "DB_HOST" in ["DB_HOST"];
    FailureReport(["DB_HOST"], env);
  }
}
