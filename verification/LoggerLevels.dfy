/** The levels of named loggers: a parsed specification, a cache in front of it, and the specification printed again. */
module LoggerLevels {
  import opened Wrappers
  import opened Strings

  type Level = int

  const PAYLOAD: Level := -2
  const INFO: Level := 0
  const FATAL: Level := 5

  predicate IsLevel(l: Level) { PAYLOAD <= l <= FATAL }

  function LevelOf(name: string): Option<Level> {
    if name in {"PAYLOAD", "payload"} then Some(-2)
    else if name in {"DEBUG", "debug"} then Some(-1)
    else if name in {"INFO", "info", "NOTICE", "notice"} then Some(0)
    else if name in {"WARNING", "WARN", "warning", "warn"} then Some(1)
    else if name in {"ERROR", "error", "CRITICAL", "critical"} then Some(2)
    else if name in {"DPANIC", "dpanic"} then Some(3)
    else if name in {"PANIC", "panic"} then Some(4)
    else if name in {"FATAL", "fatal"} then Some(5)
    else None
  }

  predicate IsValidLevel(name: string) { LevelOf(name).Some? }

  function NameToLevel(name: string): Level {
    var l := LevelOf(name);
    if l.Some? then l.value else INFO
  }

  /** How a level is printed; PAYLOAD has no name of its own. */
  function LevelName(l: Level): string
    requires IsLevel(l)
  {
    if l == -2 then "Level(-2)"
    else if l == -1 then "debug"
    else if l == 0 then "info"
    else if l == 1 then "warn"
    else if l == 2 then "error"
    else if l == 3 then "dpanic"
    else if l == 4 then "panic"
    else "fatal"
  }

  lemma LevelNames(l: Level)
    requires IsLevel(l)
    ensures IsValidLevel(LevelName(l)) <==> l != PAYLOAD
    ensures l != PAYLOAD ==> NameToLevel(LevelName(l)) == l
    ensures LevelName(l) != "" && ':' !in LevelName(l) && '=' !in LevelName(l)
  {
  }

  // ----- names -----

  predicate NameChar(c: char) {
    'a' <= c <= 'z' || 'A' <= c <= 'Z' || '0' <= c <= '9' || c in {'_', '#', ':', '-'}
  }

  /** Non-empty segments of name characters, separated by periods. */
  predicate IsValidLoggerName(name: string) {
    var segments := Split(name, '.');
    forall i | 0 <= i < |segments| :: segments[i] != "" && forall j | 0 <= j < |segments[i]| :: NameChar(segments[i][j])
  }

  function TrimPeriod(s: string): string {
    if s != "" && s[|s| - 1] == '.' then s[..|s| - 1] else s
  }

  // ----- parsing -----

  datatype Parsed = Parsed(specs: map<string, Level>, defaultLevel: Level)

  function AddLoggers(specs: map<string, Level>, loggers: seq<string>, level: Level): Result<map<string, Level>> {
    if loggers == [] then Ok(specs)
    else
      var last := loggers[|loggers| - 1];
      var before :- AddLoggers(specs, loggers[..|loggers| - 1], level);
      if IsValidLoggerName(TrimPeriod(last)) then Ok(before[last := level]) else Err
  }

  function AddField(p: Parsed, field: string): Result<Parsed> {
    var split := Split(field, '=');
    if |split| == 1 then
      if field != "" && !IsValidLevel(field) then Err else Ok(p.(defaultLevel := NameToLevel(field)))
    else if |split| == 2 then
      if split[0] == "" || !IsValidLevel(split[1]) then Err
      else
        var specs :- AddLoggers(p.specs, Split(split[0], ','), NameToLevel(split[1]));
        Ok(p.(specs := specs))
    else Err
  }

  /** Adding the fields one after the other, up to the first that cannot be added. */
  function AddAll(add: (Parsed, string) -> Result<Parsed>, p: Parsed, fields: seq<string>): Result<Parsed> {
    if fields == [] then Ok(p)
    else
      var before :- AddAll(add, p, fields[..|fields| - 1]);
      add(before, fields[|fields| - 1])
  }

  const NOTHING: Parsed := Parsed(map[], INFO)

  function Parse(spec: string): Result<Parsed> {
    AddAll(AddField, NOTHING, Split(spec, ':'))
  }

  ghost predicate IsMin(min: Level, p: Parsed) {
    && min <= p.defaultLevel && (forall k | k in p.specs :: min <= p.specs[k])
    && (min == p.defaultLevel || exists k :: k in p.specs && min == p.specs[k])
  }

  // ----- lookup -----

  /** The name itself with a period, the name, and what is left when segments are taken off its end. */
  predicate Candidate(name: string, c: string) {
    || c == name + "."
    || (c != "" && c <= name && (c == name || name[|c|] == '.'))
  }

  /** The level of the longest candidate that has one. */
  ghost predicate IsLevelOf(p: Parsed, name: string, level: Level) {
    || (level == p.defaultLevel && forall c | Candidate(name, c) :: c !in p.specs)
    || exists c :: Candidate(name, c) && c in p.specs && level == p.specs[c]
                   && forall d | Candidate(name, d) && d in p.specs :: |d| <= |c|
  }

  lemma CandidateByLength(name: string, c: string, d: string)
    requires Candidate(name, c) && Candidate(name, d) && |c| == |d|
    ensures c == d
  {
  }

  /** There is only one such level. */
  lemma LevelUnique(p: Parsed, name: string, l: Level, l': Level)
    requires IsLevelOf(p, name, l) && IsLevelOf(p, name, l')
    ensures l == l'
  {
    if c, d :|
      && Candidate(name, c) && c in p.specs && l == p.specs[c]
      && (forall b | Candidate(name, b) && b in p.specs :: |b| <= |c|)
      && Candidate(name, d) && d in p.specs && l' == p.specs[d]
      && (forall b | Candidate(name, b) && b in p.specs :: |b| <= |d|)
    {
      CandidateByLength(name, c, d);
    }
  }

  class LoggerLevels {
    var levelCache: Option<map<string, Level>>
    var specs: map<string, Level>
    var defaultLevel: Level
    var minLevel: Level

    function Active(): Parsed
      reads this
    {
      Parsed(specs, defaultLevel)
    }

    /** What holds between any two locked sections. */
    ghost predicate Valid()
      reads this
    {
      && IsMin(minLevel, Active())
      && (levelCache.Some? ==>
          forall name | name in levelCache.value :: IsLevelOf(Active(), name, levelCache.value[name]))
      && Printable(Active())
    }

    constructor ()
      ensures Valid() && levelCache == None && Active() == Parsed(map[], INFO)
    {
      levelCache, specs, defaultLevel, minLevel := None, map[], INFO, INFO;
    }

    method ActivateSpec(spec: string) returns (ok: bool)
      requires Valid()
      modifies this
      ensures Valid()
      ensures ok <==> Parse(spec).Ok?
      ensures ok ==> Active() == Parse(spec).value && levelCache == Some(map[])
      ensures !ok ==> Active() == old(Active()) && levelCache == old(levelCache) && minLevel == old(minLevel)
    {
      var parsed := ParseSpec(spec);
      if parsed.Err? {
        return false;
      }
      var p := parsed.value;
      var min := MinLevel(p);
      ParsePrintable(spec);
      minLevel := min;
      defaultLevel := p.defaultLevel;
      specs := p.specs;
      levelCache := Some(map[]);
      ok := true;
    }

    method CachedLevel(loggerName: string) returns (r: Option<Level>)
      requires Valid()
      ensures r.Some? ==> IsLevelOf(Active(), loggerName, r.value)
    {
      if levelCache.Some? && loggerName in levelCache.value {
        return Some(levelCache.value[loggerName]);
      }
      return None;
    }

    /** The part of `Level` under the exclusive lock; the specification may have
        changed since the cache was consulted. */
    method LookUp(loggerName: string) returns (level: Level)
      requires Valid() && levelCache.Some?
      modifies this`levelCache
      ensures Valid() && IsLevelOf(Active(), loggerName, level)
      ensures levelCache == Some(old(levelCache).value[loggerName := level])
    {
      level := CalculateLevel(loggerName);
      levelCache := Some(levelCache.value[loggerName := level]);
    }

    method Level(loggerName: string) returns (level: Level)
      requires Valid() && levelCache.Some?
      modifies this`levelCache
      ensures Valid() && levelCache.Some? && IsLevelOf(Active(), loggerName, level)
    {
      var cached := CachedLevel(loggerName);
      if cached.Some? {
        return cached.value;
      }
      level := LookUp(loggerName);
    }

    method CalculateLevel(loggerName: string) returns (level: Level)
      ensures IsLevelOf(Active(), loggerName, level)
    {
      var candidate := loggerName + ".";
      while true
        invariant Candidate(loggerName, candidate)
        invariant forall c | Candidate(loggerName, c) && |c| > |candidate| :: c !in specs
        decreases |candidate|
      {
        if candidate in specs {
          return specs[candidate];
        }
        var idx := LastIndex(candidate, '.');
        NextCandidate(loggerName, candidate, idx);
        if idx <= 0 {
          return defaultLevel;
        }
        candidate := candidate[..idx];
      }
      level := defaultLevel;
    }

    predicate Enabled(lvl: Level)
      reads this
    {
      lvl >= minLevel
    }

    /** The fast check lets through whatever a logger's own level lets through. */
    lemma FilterKeeps(name: string, level: Level, lvl: Level)
      requires Valid() && IsLevelOf(Active(), name, level) && lvl >= level
      ensures Enabled(lvl)
    {
    }
  }

  /** No candidate lies between one and the next. */
  lemma NextCandidate(name: string, candidate: string, idx: int)
    requires Candidate(name, candidate) && idx == LastIndex(candidate, '.')
    ensures idx > 0 ==> Candidate(name, candidate[..idx])
    ensures forall c | Candidate(name, c) :: c == candidate || |c| > |candidate| || (|c| <= idx && idx > 0)
  {
    forall c | Candidate(name, c) && |c| == |candidate| ensures c == candidate {
      CandidateByLength(name, c, candidate);
    }
    forall c | Candidate(name, c) && |c| < |candidate| ensures |c| <= idx && idx > 0 {
      assert candidate[|c|] == '.';
    }
  }

  lemma {:induction false} AddAllErr(add: (Parsed, string) -> Result<Parsed>, p: Parsed, fields: seq<string>, i: nat)
    requires i <= |fields| && AddAll(add, p, fields[..i]).Err?
    ensures AddAll(add, p, fields).Err?
    decreases |fields| - i
  {
    if i == |fields| {
      assert fields[..i] == fields;
    } else {
      assert fields[..i + 1][..i] == fields[..i];
      AddAllErr(add, p, fields, i + 1);
    }
  }

  lemma {:induction false} AddLoggersErr(specs: map<string, Level>, loggers: seq<string>, level: Level, i: nat)
    requires i <= |loggers| && AddLoggers(specs, loggers[..i], level).Err?
    ensures AddLoggers(specs, loggers, level).Err?
    decreases |loggers| - i
  {
    if i == |loggers| {
      assert loggers[..i] == loggers;
    } else {
      assert loggers[..i + 1][..i] == loggers[..i];
      AddLoggersErr(specs, loggers, level, i + 1);
    }
  }

  method ParseField(p: Parsed, field: string) returns (r: Result<Parsed>)
    ensures r == AddField(p, field)
  {
    var split := Split(field, '=');
    if |split| == 1 {
      if field != "" && !IsValidLevel(field) {
        return Err;
      }
      return Ok(p.(defaultLevel := NameToLevel(field)));
    } else if |split| == 2 {
      if split[0] == "" || !IsValidLevel(split[1]) {
        return Err;
      }
      var level := NameToLevel(split[1]);
      var loggers := Split(split[0], ',');
      var specs := p.specs;
      for i := 0 to |loggers|
        invariant AddLoggers(p.specs, loggers[..i], level) == Ok(specs)
      {
        assert loggers[..i + 1][..i] == loggers[..i];
        if !IsValidLoggerName(TrimPeriod(loggers[i])) {
          AddLoggersErr(p.specs, loggers, level, i + 1);
          return Err;
        }
        specs := specs[loggers[i] := level];
      }
      assert loggers[..|loggers|] == loggers;
      return Ok(p.(specs := specs));
    }
    return Err;
  }

  method ParseSpec(spec: string) returns (r: Result<Parsed>)
    ensures r == Parse(spec)
  {
    var p := NOTHING;
    var fields := Split(spec, ':');
    for i := 0 to |fields|
      invariant AddAll(AddField, NOTHING, fields[..i]) == Ok(p)
    {
      assert fields[..i + 1][..i] == fields[..i];
      var next := ParseField(p, fields[i]);
      if next.Err? {
        AddAllErr(AddField, NOTHING, fields, i + 1);
        return Err;
      }
      p := next.value;
    }
    assert fields[..|fields|] == fields;
    return Ok(p);
  }

  method MinLevel(p: Parsed) returns (min: Level)
    ensures IsMin(min, p)
  {
    min := p.defaultLevel;
    var done: set<string> := {};
    while done != p.specs.Keys
      invariant done <= p.specs.Keys
      invariant min <= p.defaultLevel && forall k | k in done :: min <= p.specs[k]
      invariant min == p.defaultLevel || exists k :: k in p.specs && min == p.specs[k]
      decreases p.specs.Keys - done
    {
      var k :| k in p.specs && k !in done;
      if p.specs[k] < min {
        min := p.specs[k];
      }
      done := done + {k};
    }
  }

  // ----- what parsing yields can be printed and parsed again -----

  predicate PrintableKey(k: string) {
    IsValidLoggerName(TrimPeriod(k)) && ':' !in k && ',' !in k && '=' !in k
  }

  predicate Printable(p: Parsed) {
    && IsLevel(p.defaultLevel)
    && forall k | k in p.specs :: PrintableKey(k) && IsLevel(p.specs[k])
  }

  lemma {:induction false} AddLoggersPrintable(p: Parsed, loggers: seq<string>, level: Level)
    requires Printable(p) && IsLevel(level) && AddLoggers(p.specs, loggers, level).Ok?
    requires forall i | 0 <= i < |loggers| :: ':' !in loggers[i] && ',' !in loggers[i] && '=' !in loggers[i]
    ensures Printable(p.(specs := AddLoggers(p.specs, loggers, level).value))
    decreases |loggers|
  {
    if loggers != [] {
      AddLoggersPrintable(p, loggers[..|loggers| - 1], level);
    }
  }

  lemma FieldPrintable(p: Parsed, field: string)
    requires Printable(p) && ':' !in field && AddField(p, field).Ok?
    ensures Printable(AddField(p, field).value)
  {
    var split := Split(field, '=');
    if |split| == 2 {
      var loggers := Split(split[0], ',');
      forall i | 0 <= i < |loggers| ensures ':' !in loggers[i] && ',' !in loggers[i] && '=' !in loggers[i] {
        if ':' in loggers[i] {
          SplitChars(split[0], ',', i, ':');
          SplitChars(field, '=', 0, ':');
        }
        if '=' in loggers[i] {
          SplitChars(split[0], ',', i, '=');
        }
      }
      AddLoggersPrintable(p, loggers, NameToLevel(split[1]));
    }
  }

  lemma {:induction false} FieldsPrintable(p: Parsed, fields: seq<string>)
    requires Printable(p) && (forall i | 0 <= i < |fields| :: ':' !in fields[i]) && AddAll(AddField, p, fields).Ok?
    ensures Printable(AddAll(AddField, p, fields).value)
    decreases |fields|
  {
    if fields != [] {
      var init := fields[..|fields| - 1];
      FieldsPrintable(p, init);
      FieldPrintable(AddAll(AddField, p, init).value, fields[|fields| - 1]);
    }
  }

  lemma ParsePrintable(spec: string)
    requires Parse(spec).Ok?
    ensures Printable(Parse(spec).value)
  {
    FieldsPrintable(NOTHING, Split(spec, ':'));
  }
}
