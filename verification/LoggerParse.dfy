/** What any log specification means: which segments are accepted, and what each logger's level then is. */
module LoggerParse {
  import opened Wrappers
  import opened Strings
  import opened Patterns
  import opened LoggerLevels

  // ----- levels and names -----

  function Upper(s: string): string {
    seq(|s|, i requires 0 <= i < |s| => if 'a' <= s[i] <= 'z' then 'A' + (s[i] - 'a') else s[i])
  }

  /** The lower-case names of the levels, from the lowest to the highest, and three others. */
  const LEVEL_NAMES := ["payload", "debug", "info", "warn", "error", "dpanic", "panic", "fatal"]
  const OTHER_NAMES := ["notice", "warning", "critical"]

  /** Each name stands for the level at its place; the others for info, warn and error; upper case for lower case. */
  lemma LevelTable(i: nat)
    requires i < |LEVEL_NAMES|
    ensures LevelOf(LEVEL_NAMES[i]) == Some(i - 2) && LevelOf(Upper(LEVEL_NAMES[i])) == Some(i - 2)
    ensures i < 3 ==> LevelOf(OTHER_NAMES[i]) == Some(i) && LevelOf(Upper(OTHER_NAMES[i])) == Some(i)
  {
    UpperNames();
  }

  lemma UpperNames()
    ensures Upper("payload") == "PAYLOAD" && Upper("debug") == "DEBUG" && Upper("info") == "INFO"
    ensures Upper("warn") == "WARN" && Upper("error") == "ERROR" && Upper("dpanic") == "DPANIC"
    ensures Upper("panic") == "PANIC" && Upper("fatal") == "FATAL"
    ensures Upper("notice") == "NOTICE" && Upper("warning") == "WARNING" && Upper("critical") == "CRITICAL"
  {
  }

  /** Nothing else is a level. */
  lemma LevelsOnly(name: string)
    requires LevelOf(name).Some?
    ensures exists i | 0 <= i < |LEVEL_NAMES| ::
      || name == LEVEL_NAMES[i] || name == Upper(LEVEL_NAMES[i])
      || (i < 3 && (name == OTHER_NAMES[i] || name == Upper(OTHER_NAMES[i])))
  {
    UpperNames();
    var i := LevelOf(name).value + 2;
    assert name == LEVEL_NAMES[i] || name == Upper(LEVEL_NAMES[i]) || name in OTHER_NAMES
        || name in {"NOTICE", "WARNING", "CRITICAL"};
    assert OTHER_NAMES[0] == "notice" && OTHER_NAMES[1] == "warning" && OTHER_NAMES[2] == "critical";
  }

  lemma NameClass(c: char)
    ensures InClass("a-zA-Z0-9_#:-", c) <==> NameChar(c)
  {
    InRange('a', 'z', "A-Z0-9_#:-", c);
    InRange('A', 'Z', "0-9_#:-", c);
    InRange('0', '9', "_#:-", c);
    assert "a-zA-Z0-9_#:-" == ['a', '-', 'z'] + "A-Z0-9_#:-";
    assert "A-Z0-9_#:-" == ['A', '-', 'Z'] + "0-9_#:-";
    assert "0-9_#:-" == ['0', '-', '9'] + "_#:-";
    InSigns(c);
  }

  lemma InSigns(c: char)
    ensures InClass("_#:-", c) <==> c in "_#:-"
  {
    InSingle(':', "-", c);
    InSingle('-', "", c);
    assert ":-" == [':'] + "-" && "-" == ['-'] + "";
    assert "_#:-"[1..] == "#:-" && "#:-"[1..] == ":-";
    assert InClass("#:-", c) <==> c == '#' || InClass(":-", c);
  }

  /** A segment of a logger's name: one or more letters, digits or signs. */
  predicate NameSegment(s: string) {
    s != "" && Run("a-zA-Z0-9_#:-", s) == s
  }

  lemma NameSegmentIff(s: string)
    ensures NameSegment(s) <==> s != "" && forall j | 0 <= j < |s| :: NameChar(s[j])
  {
    RunWhole("a-zA-Z0-9_#:-", s);
    forall j | 0 <= j < |s| ensures InClass("a-zA-Z0-9_#:-", s[j]) <==> NameChar(s[j]) { NameClass(s[j]); }
  }

  ghost predicate IsNamePath(name: string, segments: seq<string>) {
    segments != [] && (forall i | 0 <= i < |segments| :: NameSegment(segments[i])) && name == Join(segments, '.')
  }

  /** A logger's name is segments with periods between them. */
  lemma LoggerNamesAre(name: string)
    ensures IsValidLoggerName(name) <==> exists segments :: IsNamePath(name, segments)
  {
    var split := Split(name, '.');
    forall i | 0 <= i < |split|
      ensures NameSegment(split[i]) <==> split[i] != "" && forall j | 0 <= j < |split[i]| :: NameChar(split[i][j])
    {
      NameSegmentIff(split[i]);
    }
    if IsValidLoggerName(name) {
      JoinSplit(name, '.');
      assert IsNamePath(name, split);
    }
    if segments :| IsNamePath(name, segments) {
      forall i | 0 <= i < |segments| ensures '.' !in segments[i] {
        NameSegmentIff(segments[i]);
        assert forall j | 0 <= j < |segments[i]| :: NameChar(segments[i][j]);
      }
      SplitJoin(segments, '.');
    }
  }

  // ----- segments -----

  /** A field is a level alone, perhaps empty, or loggers with commas between them, an equals sign and a level. */
  predicate FieldOk(field: string) {
    var split := Split(field, '=');
    if |split| == 1 then field == "" || LevelOf(field).Some?
    else
      && |split| == 2 && split[0] != "" && LevelOf(split[1]).Some?
      && forall name | name in Split(split[0], ',') :: EntryOk(name)
  }

  /** A logger's name, perhaps with a period after it. */
  predicate EntryOk(entry: string) {
    IsValidLoggerName(entry) || (entry != "" && entry[|entry| - 1] == '.' && IsValidLoggerName(entry[..|entry| - 1]))
  }

  lemma EntryOkIff(entry: string)
    ensures IsValidLoggerName(TrimPeriod(entry)) <==> EntryOk(entry)
  {
    if entry != "" && entry[|entry| - 1] == '.' {
      var init := entry[..|entry| - 1];
      assert entry == init + ['.'] + "";
      SplitConcat(init, "", '.');
      var i := |Split(init, '.')|;
      assert Split(entry, '.')[i] == "";
    }
  }

  predicate Names(field: string, name: string) {
    var split := Split(field, '=');
    |split| == 2 && name in Split(split[0], ',')
  }

  predicate IsDefault(field: string) {
    |Split(field, '=')| == 1
  }

  /** The level a field gives; an empty one stands for info. */
  function LevelIn(field: string): Level {
    var split := Split(field, '=');
    var l := LevelOf(split[|split| - 1]);
    if l.Some? then l.value else INFO
  }

  lemma {:induction false} AddLoggersIs(specs: map<string, Level>, loggers: seq<string>, level: Level)
    ensures AddLoggers(specs, loggers, level).Ok? <==>
            forall name | name in loggers :: IsValidLoggerName(TrimPeriod(name))
    ensures AddLoggers(specs, loggers, level).Ok? ==>
      var more := AddLoggers(specs, loggers, level).value;
      && (forall name :: name in more <==> name in specs || name in loggers)
      && (forall name | name in more :: more[name] == if name in loggers then level else specs[name])
    decreases |loggers|
  {
    if loggers != [] {
      var init, last := loggers[..|loggers| - 1], loggers[|loggers| - 1];
      AddLoggersIs(specs, init, level);
      assert forall name :: name in loggers <==> name in init || name == last;
    }
  }

  lemma SplitAlone(field: string)
    requires |Split(field, '=')| == 1
    ensures Split(field, '=')[0] == field
  {
    JoinSplit(field, '=');
  }

  lemma AddFieldIs(p: Parsed, field: string)
    ensures AddField(p, field).Ok? <==> FieldOk(field)
    ensures AddField(p, field).Ok? ==>
      var q := AddField(p, field).value;
      && q.defaultLevel == (if IsDefault(field) then LevelIn(field) else p.defaultLevel)
      && (forall name :: name in q.specs <==> name in p.specs || Names(field, name))
      && (forall name | name in q.specs ::
            q.specs[name] == if Names(field, name) then LevelIn(field) else p.specs[name])
  {
    var split := Split(field, '=');
    if |split| == 1 {
      SplitAlone(field);
    } else if |split| == 2 {
      AddLoggersIs(p.specs, Split(split[0], ','), NameToLevel(split[1]));
      forall name | name in Split(split[0], ',') ensures IsValidLoggerName(TrimPeriod(name)) <==> EntryOk(name) {
        EntryOkIff(name);
      }
    }
  }

  // ----- specifications -----

  predicate LastNaming(fields: seq<string>, name: string, i: nat) {
    i < |fields| && Names(fields[i], name) && forall j | i < j < |fields| :: !Names(fields[j], name)
  }

  predicate LastDefault(fields: seq<string>, i: nat) {
    i < |fields| && IsDefault(fields[i]) && forall j | i < j < |fields| :: !IsDefault(fields[j])
  }

  /** Every logger has the level of the last field that names it, and no other logger has one. */
  ghost predicate LoggersMean(specs: map<string, Level>, fields: seq<string>) {
    && (forall name | name in specs :: exists i: nat :: LastNaming(fields, name, i))
    && (forall name, i: nat | LastNaming(fields, name, i) :: name in specs && specs[name] == LevelIn(fields[i]))
  }

  /** The default is that of the last field without a name, or info. */
  ghost predicate DefaultMeans(level: Level, fields: seq<string>) {
    && (forall i: nat | LastDefault(fields, i) :: level == LevelIn(fields[i]))
    && ((forall i | 0 <= i < |fields| :: !IsDefault(fields[i])) ==> level == INFO)
  }

  ghost predicate Means(p: Parsed, fields: seq<string>) {
    LoggersMean(p.specs, fields) && DefaultMeans(p.defaultLevel, fields)
  }

  lemma MeansNothing()
    ensures Means(NOTHING, [])
  {
    assert NOTHING.specs == map[] && NOTHING.defaultLevel == INFO;
  }

  lemma DefaultMore(level: Level, level': Level, init: seq<string>, field: string)
    requires DefaultMeans(level, init) && level' == if IsDefault(field) then LevelIn(field) else level
    ensures DefaultMeans(level', init + [field])
  {
    var fields := init + [field];
    assert fields[|init|] == field && forall i | 0 <= i < |init| :: fields[i] == init[i];
    forall i: nat | LastDefault(fields, i) ensures level' == LevelIn(fields[i]) {
      if i < |init| { assert LastDefault(init, i); }
    }
  }

  lemma LastNamingMore(init: seq<string>, field: string, name: string, i: nat)
    ensures LastNaming(init + [field], name, i) <==>
            if Names(field, name) then i == |init| else LastNaming(init, name, i)
  {
    var fields := init + [field];
    assert fields[|init|] == field && forall j | 0 <= j < |init| :: fields[j] == init[j];
  }

  lemma LoggersMore(specs: map<string, Level>, specs': map<string, Level>, init: seq<string>, field: string)
    requires LoggersMean(specs, init)
    requires forall name :: name in specs' <==> name in specs || Names(field, name)
    requires forall name | name in specs' :: specs'[name] == if Names(field, name) then LevelIn(field) else specs[name]
    ensures LoggersMean(specs', init + [field])
  {
    var fields := init + [field];
    assert fields[|init|] == field;
    forall name | name in specs' ensures exists i: nat :: LastNaming(fields, name, i) {
      LastNamingMore(init, field, name, |init|);
      if !Names(field, name) {
        var i: nat :| LastNaming(init, name, i);
        LastNamingMore(init, field, name, i);
      }
    }
    forall name, i: nat | LastNaming(fields, name, i) ensures name in specs' && specs'[name] == LevelIn(fields[i]) {
      LastNamingMore(init, field, name, i);
    }
  }

  predicate FieldsOk(fields: seq<string>) {
    forall i | 0 <= i < |fields| :: FieldOk(fields[i])
  }

  lemma {:induction false} FieldsMean(fields: seq<string>)
    ensures AddAll(AddField, NOTHING, fields).Ok? <==> FieldsOk(fields)
    ensures AddAll(AddField, NOTHING, fields).Ok? ==> Means(AddAll(AddField, NOTHING, fields).value, fields)
    decreases |fields|
  {
    if fields == [] {
      MeansNothing();
    } else {
      var init, last := fields[..|fields| - 1], fields[|fields| - 1];
      FieldsMean(init);
      assert fields == init + [last] && forall i | 0 <= i < |init| :: fields[i] == init[i];
      if AddAll(AddField, NOTHING, init).Ok? {
        var p := AddAll(AddField, NOTHING, init).value;
        AddFieldIs(p, last);
        if AddField(p, last).Ok? {
          LoggersMore(p.specs, AddField(p, last).value.specs, init, last);
          DefaultMore(p.defaultLevel, AddField(p, last).value.defaultLevel, init, last);
        }
      }
    }
  }

  /** A specification is accepted exactly if all its fields, between colons, are, and then means what they say. */
  lemma ParseMeans(spec: string)
    ensures Parse(spec).Ok? <==> FieldsOk(Split(spec, ':'))
    ensures Parse(spec).Ok? ==> Means(Parse(spec).value, Split(spec, ':'))
  {
    FieldsMean(Split(spec, ':'));
  }

  // ----- which entries apply to a logger -----

  /** The first `k` segments of a name. */
  predicate IsFirst(name: string, c: string, k: nat) {
    1 <= k <= |Split(name, '.')| && c == Join(Split(name, '.')[..k], '.')
  }

  lemma FirstIsCandidate(name: string, c: string, k: nat)
    requires IsFirst(name, c, k) && c != ""
    ensures Candidate(name, c)
  {
    var segs := Split(name, '.');
    JoinSplit(name, '.');
    if k == |segs| {
      assert segs[..k] == segs;
    } else {
      JoinConcat(segs[..k], segs[k..], '.');
      assert segs[..k] + segs[k..] == segs;
      assert name == c + "." + Join(segs[k..], '.');
    }
  }

  /** The entries that may apply to a logger are the name with a period, and the first segments of the name. */
  lemma CandidatesAre(name: string, c: string)
    ensures Candidate(name, c) <==> c == name + "." || (c != "" && exists k: nat :: IsFirst(name, c, k))
  {
    var segs := Split(name, '.');
    if c != "" && c <= name && (c == name || name[|c|] == '.') {
      JoinSplit(c, '.');
      if c == name {
        assert segs[..|segs|] == segs && IsFirst(name, c, |segs|);
      } else {
        var rest := name[|c| + 1..];
        assert name == c + ['.'] + rest;
        SplitConcat(c, rest, '.');
        assert segs[..|Split(c, '.')|] == Split(c, '.') && IsFirst(name, c, |Split(c, '.')|);
      }
    }
    if k: nat :| c != "" && IsFirst(name, c, k) {
      FirstIsCandidate(name, c, k);
    }
  }

  /** An entry with a period at its end is for the logger of that name alone, and comes before all others. */
  lemma ExactEntry(p: Parsed, name: string, other: string)
    requires IsValidLoggerName(other)
    ensures Candidate(other, name + ".") <==> other == name
    ensures name + "." in p.specs ==> IsLevelOf(p, name, p.specs[name + "."])
  {
    if Candidate(other, name + ".") && other != name {
      if name + "." == other + "." { SameBeforePeriod(name, other); }
      EmptySegment(other, name);
    }
    if name + "." in p.specs {
      assert Candidate(name, name + ".");
      assert forall d | Candidate(name, d) :: |d| <= |name + "."|;
    }
  }

  lemma SameBeforePeriod(a: string, b: string)
    requires a + "." == b + "."
    ensures a == b
  {
    assert (a + ".")[..|a|] == a && (b + ".")[..|b|] == b;
  }

  /** A period at the end, or two in a row, make an empty segment. */
  lemma EmptySegment(other: string, name: string)
    requires name + "." <= other && (name + "." == other || other[|name| + 1] == '.')
    ensures !IsValidLoggerName(other)
  {
    var rest := other[|name| + 1..];
    assert other == name + ['.'] + rest;
    SplitConcat(name, rest, '.');
    var i := |Split(name, '.')|;
    assert Split(other, '.')[i] == Split(rest, '.')[0] == "";
  }
}
