/** Discovering sync units from the process environment: every variable of
    the form NAME=TIMETREE_ID|GOOGLE_CALENDAR_ID that is not one of the
    service's own settings names one unit. */
module Units {
  import opened PyString

  datatype Option<T> = None | Some(value: T)

  /** The process environment in iteration order; Python dictionaries iterate
      in insertion order, and `os.environ` is a dictionary built from the process's
      environment block, so it holds each name once. */
  type Env = seq<(string, string)>

  predicate DistinctKeys(env: Env)
  {
    forall i, j :: 0 <= i < j < |env| ==> env[i].0 != env[j].0
  }

  /** The service's own settings, never read as units. */
  const ExcludedKeys: seq<string> :=
    ["TIMETREE_EMAIL", "TIMETREE_PASSWORD", "SYNC_INTERVAL_MINUTES", "PORT", "OUTPUT_FILE"]

  /** Separates the TimeTree calendar code from the Google calendar id. */
  const Separator: char := '|'

  /** One mapping from a TimeTree calendar to a Google calendar. */
  datatype Unit = Unit(name: string, timetreeId: string, googleId: string)

  /** Whether the entry `key=value` names a unit. */
  predicate Qualifies(key: string, value: string)
  {
    key !in ExcludedKeys && Separator in value
  }

  /** What one entry contributes to the unit list: nothing, or one unit. */
  function ParseEntry(key: string, value: string): (u: Option<Unit>)
    ensures u.Some? <==> Qualifies(key, value)
    ensures u.Some? ==> u.value.name == key
  {
    if key in ExcludedKeys then None
    else if Separator in value then
      var parts := Split1(value, Separator);
      Some(Unit(key, Strip(parts[0]), Strip(parts[1])))
    else None
  }

  function Emitted(u: Option<Unit>): seq<Unit>
  {
    if u.Some? then [u.value] else []
  }

  /** The unit list for an environment, entry by entry in environment order. */
  function AllUnits(env: Env): (units: seq<Unit>)
    ensures |units| <= |env|
  {
    if env == [] then []
    else
      var (key, value) := env[|env| - 1];
      AllUnits(env[..|env| - 1]) + Emitted(ParseEntry(key, value))
  }

  /** Walks the environment once and appends a unit for every entry that is
      not a setting and whose value holds the separator. */
  method GetAllUnits(env: Env) returns (units: seq<Unit>)
    ensures units == AllUnits(env)
  {
    units := [];
    for i := 0 to |env|
      invariant units == AllUnits(env[..i])
    {
      var (key, value) := env[i];
      assert env[..i + 1][..i] == env[..i];
      if key in ExcludedKeys {
        continue;
      }
      if Separator in value {
        var parts := Split1(value, Separator);
        units := units + [Unit(key, Strip(parts[0]), Strip(parts[1]))];
      }
    }
    assert env[..|env|] == env;
  }

  // ---------------------------------------------------------------------
  // One entry

  /** The unit of a qualifying entry is fixed by splitting its value at the
      first separator and trimming both halves; the calendar code therefore
      holds no separator, while the Google id keeps any later ones. */
  lemma ParseEntryAtFirstSeparator(key: string, before: string, after: string)
    requires key !in ExcludedKeys
    requires Separator !in before
    ensures ParseEntry(key, before + [Separator] + after)
         == Some(Unit(key, Strip(before), Strip(after)))
  {
    Split1Unique(before, Separator, after);
  }

  /** A qualifying entry yields ids with no surrounding whitespace, and a
      calendar code that holds no separator. */
  lemma ParsedIdsTrimmed(key: string, value: string)
    requires Qualifies(key, value)
    ensures var u := ParseEntry(key, value).value;
      Trimmed(u.timetreeId) && Trimmed(u.googleId) && Separator !in u.timetreeId
  {
    StripKeepsOnlyOwnChars(Split1(value, Separator)[0], Separator);
  }

  /** Whitespace around either id is dropped and nothing else: a value made
      of a padded calendar code, the separator and a padded Google id yields
      exactly the two ids. */
  lemma ParseEntryOfPaddedIds(key: string, a: string, p: string, b: string, c: string, q: string, d: string)
    requires key !in ExcludedKeys
    requires AllSpace(a) && AllSpace(b) && AllSpace(c) && AllSpace(d)
    requires Trimmed(p) && Trimmed(q)
    requires Separator !in a + p + b
    ensures ParseEntry(key, a + p + b + [Separator] + c + q + d) == Some(Unit(key, p, q))
  {
    assert a + p + b + [Separator] + c + q + d == (a + p + b) + [Separator] + (c + q + d);
    ParseEntryAtFirstSeparator(key, a + p + b, c + q + d);
    StripUnique(a, p, b);
    StripUnique(c, q, d);
  }

  /** " tt123 | gc456 " gives "tt123" and "gc456". */
  // The examples pin their arguments with `requires` rather than passing
  // literals, which keeps the verifier from unfolding Strip on the literals.
  lemma ParseEntryExample(key: string, value: string)
    requires key == "UNIT_A" && value == " tt123 | gc456 "
    ensures ParseEntry(key, value) == Some(Unit(key, "tt123", "gc456"))
  {
    assert value == " " + "tt123" + " " + [Separator] + " " + "gc456" + " ";
    ParseEntryOfPaddedIds(key, " ", "tt123", " ", " ", "gc456", " ");
  }

  /** Later separators stay in the Google id: "a|b|c" gives "a" and "b|c". */
  lemma ParseEntrySplitsOnce(key: string, value: string)
    requires key == "U" && value == "a|b|c"
    ensures ParseEntry(key, value) == Some(Unit(key, "a", "b|c"))
  {
    assert value == [] + "a" + [] + [Separator] + [] + "b|c" + [];
    ParseEntryOfPaddedIds(key, [], "a", [], [], "b|c", []);
  }

  /** Empty ids are not rejected: " | " still names a unit. */
  lemma ParseEntryAllowsEmptyIds(key: string, value: string)
    requires key == "U" && value == " | "
    ensures ParseEntry(key, value) == Some(Unit(key, "", ""))
  {
    assert value == " " + [Separator] + " ";
    ParseEntryAtFirstSeparator(key, " ", " ");
    assert " " == " " + [] + [];
    StripUnique(" ", [], []);
  }

  // ---------------------------------------------------------------------
  // The whole environment

  /** The positions, in increasing order, of the entries that yield a unit. */
  ghost function Origins(env: Env): seq<nat>
  {
    if env == [] then []
    else
      var n := |env| - 1;
      Origins(env[..n]) + (if Qualifies(env[n].0, env[n].1) then [n] else [])
  }

  /** One origin per unit, and every origin is a position of the environment. */
  lemma {:induction false} OriginsMatchUnits(env: Env)
    ensures |Origins(env)| == |AllUnits(env)|
    ensures forall j :: 0 <= j < |Origins(env)| ==> Origins(env)[j] < |env|
  {
    if env != [] {
      OriginsMatchUnits(env[..|env| - 1]);
    }
  }

  /** The j-th unit is the one parsed from entry Origins(env)[j]. */
  lemma {:induction false} UnitsParsedFromOrigins(env: Env, j: nat)
    requires j < |AllUnits(env)|
    ensures |Origins(env)| == |AllUnits(env)| && Origins(env)[j] < |env|
    ensures var e := env[Origins(env)[j]]; Some(AllUnits(env)[j]) == ParseEntry(e.0, e.1)
  {
    OriginsMatchUnits(env);
    var n := |env| - 1;
    var front := env[..n];
    OriginsMatchUnits(front);
    var last := ParseEntry(env[n].0, env[n].1);
    assert AllUnits(env) == AllUnits(front) + Emitted(last);
    if j < |AllUnits(front)| {
      UnitsParsedFromOrigins(front, j);
      assert AllUnits(env)[j] == AllUnits(front)[j];
      assert Origins(env)[j] == Origins(front)[j];
      assert front[Origins(front)[j]] == env[Origins(env)[j]];
    } else {
      assert AllUnits(env)[j] == last.value;
      assert Origins(env)[j] == n;
    }
  }

  /** The j-th unit carries the name of entry Origins(env)[j]. */
  lemma UnitNamedAfterOrigin(env: Env, j: nat)
    requires j < |AllUnits(env)|
    ensures |Origins(env)| == |AllUnits(env)| && Origins(env)[j] < |env|
    ensures AllUnits(env)[j].name == env[Origins(env)[j]].0
  {
    UnitsParsedFromOrigins(env, j);
  }

  /** Origins strictly increase, so units keep the order of their entries. */
  lemma {:induction false} OriginsIncrease(env: Env)
    ensures forall j, k :: 0 <= j < k < |Origins(env)| ==> Origins(env)[j] < Origins(env)[k]
  {
    if env != [] {
      var front := env[..|env| - 1];
      OriginsIncrease(front);
      OriginsMatchUnits(front);
    }
  }

  /** An entry is an origin exactly when it qualifies. */
  lemma {:induction false} OriginsAreQualifyingEntries(env: Env, i: nat)
    requires i < |env|
    ensures i in Origins(env) <==> Qualifies(env[i].0, env[i].1)
  {
    var n := |env| - 1;
    var front := env[..n];
    OriginsMatchUnits(front);
    if i < n {
      OriginsAreQualifyingEntries(front, i);
      assert front[i] == env[i];
    }
  }

  /** Every unit is named after an entry that is not a setting and whose
      value holds the separator. */
  lemma UnitsComeFromQualifyingEntries(env: Env, j: nat)
    requires j < |AllUnits(env)|
    ensures exists i :: 0 <= i < |env| && env[i].0 == AllUnits(env)[j].name && Qualifies(env[i].0, env[i].1)
  {
    UnitNamedAfterOrigin(env, j);
    var i := Origins(env)[j];
    OriginsAreQualifyingEntries(env, i);
  }

  /** A setting never becomes a unit, whatever its value. */
  lemma ExcludedKeyNeverUnit(env: Env, key: string)
    requires key in ExcludedKeys
    ensures forall u :: u in AllUnits(env) ==> u.name != key
  {
    var us := AllUnits(env);
    forall j | 0 <= j < |us| ensures us[j].name != key {
      UnitNamedAfterOrigin(env, j);
      OriginsAreQualifyingEntries(env, Origins(env)[j]);
    }
  }

  /** An entry whose value has no separator never becomes a unit. */
  lemma NoSeparatorNeverUnit(env: Env, i: nat)
    requires DistinctKeys(env)
    requires i < |env| && Separator !in env[i].1
    ensures forall u :: u in AllUnits(env) ==> u.name != env[i].0
  {
    var us := AllUnits(env);
    forall j | 0 <= j < |us| ensures us[j].name != env[i].0 {
      UnitNamedAfterOrigin(env, j);
      var o := Origins(env)[j];
      OriginsAreQualifyingEntries(env, o);
      assert o != i;
    }
  }

  /** Every qualifying entry yields its unit. */
  lemma QualifyingEntryYieldsUnit(env: Env, i: nat)
    requires i < |env| && Qualifies(env[i].0, env[i].1)
    ensures ParseEntry(env[i].0, env[i].1).value in AllUnits(env)
  {
    OriginsAreQualifyingEntries(env, i);
    OriginsMatchUnits(env);
    var j :| 0 <= j < |Origins(env)| && Origins(env)[j] == i;
    UnitsParsedFromOrigins(env, j);
  }

  /** With distinct variable names, unit names are distinct too, so each
      qualifying entry yields exactly one unit. */
  lemma UnitNamesDistinct(env: Env)
    requires DistinctKeys(env)
    ensures forall j, k :: 0 <= j < k < |AllUnits(env)| ==> AllUnits(env)[j].name != AllUnits(env)[k].name
  {
    OriginsIncrease(env);
    forall j, k | 0 <= j < k < |AllUnits(env)|
      ensures AllUnits(env)[j].name != AllUnits(env)[k].name
    {
      UnitNamedAfterOrigin(env, j);
      UnitNamedAfterOrigin(env, k);
    }
  }

  /** Units keep the relative order of their entries. */
  lemma UnitsKeepEnvironmentOrder(env: Env, i1: nat, i2: nat, j1: nat, j2: nat)
    requires DistinctKeys(env)
    requires i1 < i2 < |env|
    requires j1 < |AllUnits(env)| && j2 < |AllUnits(env)|
    requires AllUnits(env)[j1].name == env[i1].0 && AllUnits(env)[j2].name == env[i2].0
    ensures j1 < j2
  {
    UnitNamedAfterOrigin(env, j1);
    UnitNamedAfterOrigin(env, j2);
    OriginsIncrease(env);
    var o := Origins(env);
    assert env[o[j1]].0 == env[i1].0 && env[o[j2]].0 == env[i2].0;
    assert o[j1] == i1 && o[j2] == i2;
  }
}
