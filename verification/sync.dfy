/** What one sync pass asks of the exporter: for every unit, the file it
    writes and the command line that runs `timetree-exporter`. The exporter
    process itself is outside the model; an attempt records the command the
    service would launch, or that building it raised. */
module Sync {
  import opened Units

  /** Directory that receives one calendar file per unit. */
  const OutputDir: string := "/app/output"

  /** The external exporter's program name. */
  const Exporter: string := "timetree-exporter"

  /** `posixpath.join(a, b)` for two components: an absolute `b` replaces `a`;
      otherwise `b` is appended after a '/' unless `a` is empty or already
      ends with one. */
  function PathJoin(a: string, b: string): (p: string)
    ensures !RelativeName(b) ==> p == b
    ensures |b| <= |p| && p[|p| - |b|..] == b
    ensures RelativeName(b) ==> |a| <= |p| && p[..|a|] == a
    ensures RelativeName(b) && a != [] && a[|a| - 1] != '/' ==> |p| == |a| + 1 + |b| && p[|a|] == '/'
    ensures RelativeName(b) && (a == [] || a[|a| - 1] == '/') ==> |p| == |a| + |b|
  {
    if b != [] && b[0] == '/' then b
    else if a == [] || a[|a| - 1] == '/' then a + b
    else a + "/" + b
  }

  /** A unit name that `os.path.join` keeps under the output directory. */
  predicate RelativeName(name: string)
  {
    name == [] || name[0] != '/'
  }

  /** Where the exporter writes the calendar of unit `name`. */
  function OutputFile(name: string): (p: string)
    ensures |p| >= 4 && p[|p| - 4..] == ".ics"
  {
    PathJoin(OutputDir, name + ".ics")
  }

  /** For every name that does not start with '/', the file is
      OUTPUT_DIR + "/" + name + ".ics". */
  lemma OutputFileInOutputDir(name: string)
    requires RelativeName(name)
    ensures OutputFile(name) == OutputDir + "/" + name + ".ics"
  {
  }

  /** Reads the unit name back from an output path; None for a path that is
      not OUTPUT_DIR/<name>.ics. */
  function UnitNameOf(path: string): (name: Option<string>)
    ensures name.Some? ==> OutputDir + "/" + name.value + ".ics" == path
  {
    var n := |OutputDir| + 1;
    if n + 4 <= |path| && path[..n] == OutputDir + "/" && path[|path| - 4..] == ".ics" then
      assert path == path[..n] + path[n..|path| - 4] + path[|path| - 4..];
      Some(path[n..|path| - 4])
    else None
  }

  /** The output file determines the unit it belongs to. */
  lemma {:induction false} OutputFileRoundTrip(name: string)
    requires RelativeName(name)
    ensures UnitNameOf(OutputFile(name)) == Some(name)
  {
    var p := OutputFile(name);
    OutputFileInOutputDir(name);
    var n := |OutputDir| + 1;
    assert p[..n] == OutputDir + "/";
    assert p[|p| - 4..] == ".ics";
    assert p[n..|p| - 4] == name;
  }

  /** Two units whose names do not start with '/' never share an output path
      string. */
  lemma OutputFileInjective(n1: string, n2: string)
    requires RelativeName(n1) && RelativeName(n2)
    requires OutputFile(n1) == OutputFile(n2)
    ensures n1 == n2
  {
    OutputFileRoundTrip(n1);
    OutputFileRoundTrip(n2);
  }

  /** A name that is itself an absolute path makes `os.path.join` drop the
      output directory, so it can land on another unit's file. */
  lemma AbsoluteNameCollides(absolute: string, plain: string)
    requires absolute == "/app/output/x" && plain == "x"
    ensures absolute != plain && OutputFile(absolute) == OutputFile(plain)
  {
    OutputFileInOutputDir(plain);
  }

  /** What the exporter is asked to do: log in as `email`, export calendar
      `calendarCode`, write to `outputFile`. */
  datatype Invocation = Invocation(email: string, calendarCode: string, outputFile: string)

  /** Reads an exporter command line back: the email follows -e, the calendar
      code follows -c and the output path follows -o. */
  function ParseArgv(argv: seq<string>): (inv: Option<Invocation>)
    ensures inv.Some? ==> argv == [Exporter, "-e", inv.value.email, "-c", inv.value.calendarCode, "-o", inv.value.outputFile]
  {
    if |argv| == 7 && argv[0] == Exporter && argv[1] == "-e" && argv[3] == "-c" && argv[5] == "-o" then
      Some(Invocation(argv[2], argv[4], argv[6]))
    else None
  }

  /** One unit's attempt: the command handed to the exporter, or the unit
      whose sync raised before any process started. */
  datatype Attempt = Launched(argv: seq<string>) | Raised(unitName: string)

  /** Running one unit: build the exporter command and log it joined by
      spaces. With the email setting unset the command list holds `None` and
      the join raises before any process starts; the loop catches that and
      reports the unit. */
  function SyncOne(email: Option<string>, u: Unit): (a: Attempt)
    ensures a.Launched? <==> email.Some?
    ensures a.Raised? ==> a.unitName == u.name
    ensures a.Launched? ==>
      ParseArgv(a.argv) == Some(Invocation(email.value, u.timetreeId, OutputFile(u.name)))
  {
    match email
    case None => Raised(u.name)
    case Some(e) => Launched([Exporter, "-e", e, "-c", u.timetreeId, "-o", OutputFile(u.name)])
  }

  /** The body of the background loop for one list of units: try each unit
      in turn; an attempt that raises is recorded and the pass goes on with
      the next unit. */
  method SyncUnits(units: seq<Unit>, email: Option<string>) returns (attempts: seq<Attempt>)
    ensures |attempts| == |units|
    ensures forall i :: 0 <= i < |units| ==> attempts[i] == SyncOne(email, units[i])
  {
    attempts := [];
    for i := 0 to |units|
      invariant |attempts| == i
      invariant forall k :: 0 <= k < i ==> attempts[k] == SyncOne(email, units[k])
    {
      var attempt := SyncOne(email, units[i]);
      assert forall k :: 0 <= k < i ==> (attempts + [attempt])[k] == attempts[k];
      attempts := attempts + [attempt];
    }
  }

  /** One pass of the background loop, without the logging and the sleep:
      the units are enumerated afresh from the environment, then tried. */
  method SyncCycle(env: Env, email: Option<string>) returns (attempts: seq<Attempt>)
    ensures |attempts| == |AllUnits(env)|
    ensures forall i :: 0 <= i < |attempts| ==> attempts[i] == SyncOne(email, AllUnits(env)[i])
  {
    var units := GetAllUnits(env);
    attempts := SyncUnits(units, email);
  }

  /** Within one pass, distinct units get distinct output path strings,
      provided no variable name that yields a unit is an absolute path. */
  lemma CycleOutputsDistinct(env: Env, j: nat, k: nat)
    requires DistinctKeys(env)
    requires forall i :: 0 <= i < |env| && Qualifies(env[i].0, env[i].1) ==> RelativeName(env[i].0)
    requires j < k < |AllUnits(env)|
    ensures OutputFile(AllUnits(env)[j].name) != OutputFile(AllUnits(env)[k].name)
  {
    var us := AllUnits(env);
    UnitNamesDistinct(env);
    UnitNamedAfterOrigin(env, j);
    UnitNamedAfterOrigin(env, k);
    OriginsAreQualifyingEntries(env, Origins(env)[j]);
    OriginsAreQualifyingEntries(env, Origins(env)[k]);
    if OutputFile(us[j].name) == OutputFile(us[k].name) {
      OutputFileInjective(us[j].name, us[k].name);
    }
  }
}
