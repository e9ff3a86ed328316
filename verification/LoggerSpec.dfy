/** Printing the active logging specification, and parsing it back. */
module LoggerSpec {
  import opened Wrappers
  import opened Strings
  import opened LoggerLevels

  // ----- the order of strings -----

  predicate Leq(a: string, b: string) {
    a == "" || (b != "" && (a[0] < b[0] || (a[0] == b[0] && Leq(a[1..], b[1..]))))
  }

  lemma {:induction false} LeqTotal(a: string, b: string)
    ensures Leq(a, b) || Leq(b, a)
  {
    if a != "" && b != "" && a[0] == b[0] {
      LeqTotal(a[1..], b[1..]);
    }
  }

  lemma {:induction false} LeqTransitive(a: string, b: string, c: string)
    requires Leq(a, b) && Leq(b, c)
    ensures Leq(a, c)
  {
    if a != "" && a[0] == b[0] == c[0] {
      LeqTransitive(a[1..], b[1..], c[1..]);
    }
  }

  lemma {:induction false} LeqAntisymmetric(a: string, b: string)
    requires Leq(a, b) && Leq(b, a)
    ensures a == b
  {
    if a != "" {
      LeqAntisymmetric(a[1..], b[1..]);
      assert a == [a[0]] + a[1..] && b == [b[0]] + b[1..];
    }
  }

  // ----- names in ascending order of their fields -----

  predicate Covers(fields: map<string, string>, order: seq<string>) {
    forall i | 0 <= i < |order| :: order[i] in fields
  }

  predicate Ascending(fields: map<string, string>, order: seq<string>)
    requires Covers(fields, order)
  {
    && (forall i, j | 0 <= i < j < |order| :: order[i] != order[j])
    && (forall i, j | 0 <= i < j < |order| :: Leq(fields[order[i]], fields[order[j]]))
  }

  function Put(order: seq<string>, i: nat, k: string): (r: seq<string>)
    requires i <= |order|
    ensures |r| == |order| + 1
    ensures forall j | 0 <= j < |r| :: r[j] == if j < i then order[j] else if j == i then k else order[j - 1]
  {
    order[..i] + [k] + order[i..]
  }

  lemma PutMembers(order: seq<string>, i: nat, k: string)
    requires i <= |order|
    ensures forall x :: x in Put(order, i, k) <==> x in order || x == k
  {
    var r := Put(order, i, k);
    forall x | x in order ensures x in r {
      var j :| 0 <= j < |order| && order[j] == x;
      assert r[if j < i then j else j + 1] == x;
    }
    assert r[i] == k;
  }

  lemma Inserted(fields: map<string, string>, order: seq<string>, k: string, i: nat)
    requires Covers(fields, order) && Ascending(fields, order) && k in fields && k !in order && i <= |order|
    requires i > 0 ==> Leq(fields[order[i - 1]], fields[k])
    requires forall j | i <= j < |order| :: Leq(fields[k], fields[order[j]])
    ensures Covers(fields, Put(order, i, k)) && Ascending(fields, Put(order, i, k))
  {
    forall j | 0 <= j < i ensures Leq(fields[order[j]], fields[k]) {
      if j < i - 1 {
        LeqTransitive(fields[order[j]], fields[order[i - 1]], fields[k]);
      }
    }
  }

  /** One step of sorting. */
  method Insert(fields: map<string, string>, order: seq<string>, k: string) returns (r: seq<string>)
    requires Covers(fields, order) && Ascending(fields, order) && k in fields && k !in order
    ensures Covers(fields, r) && Ascending(fields, r) && (forall x :: x in r <==> x in order || x == k)
      && |r| == |order| + 1
  {
    var i := |order|;
    while i > 0 && !Leq(fields[order[i - 1]], fields[k])
      invariant 0 <= i <= |order|
      invariant forall j | i <= j < |order| :: Leq(fields[k], fields[order[j]])
    {
      LeqTotal(fields[order[i - 1]], fields[k]);
      i := i - 1;
    }
    r := Put(order, i, k);
    Inserted(fields, order, k, i);
    PutMembers(order, i, k);
  }

  lemma LastIsGreatest(fields: map<string, string>, order: seq<string>, k: string)
    requires Covers(fields, order) && Ascending(fields, order) && k in order
    ensures Leq(fields[k], fields[order[|order| - 1]])
  {
    LeqTotal(fields[k], fields[k]);
  }

  /** Names with different fields have one ascending order. */
  lemma {:induction false} AscendingUnique(fields: map<string, string>, order: seq<string>, order': seq<string>)
    requires forall k, k' | k in fields && k' in fields && k != k' :: fields[k] != fields[k']
    requires Covers(fields, order) && Covers(fields, order') && Ascending(fields, order) && Ascending(fields, order')
    requires forall k :: k in order <==> k in order'
    ensures order == order'
    decreases |order|
  {
    if order == [] {
      if order' != [] {
        HasMember(order');
      }
    } else {
      var a := order[|order| - 1];
      assert a in order';
      var b := order'[|order'| - 1];
      assert b in order;
      LastIsGreatest(fields, order, b);
      LastIsGreatest(fields, order', a);
      LeqAntisymmetric(fields[a], fields[b]);
      var init, init' := order[..|order| - 1], order'[..|order'| - 1];
      WithoutLast(order, init, a);
      WithoutLast(order', init', a);
      AscendingUnique(fields, init, init');
    }
  }

  lemma HasMember(order: seq<string>)
    requires order != []
    ensures exists k :: k in order
  {
    assert order[0] in order;
  }

  lemma WithoutLast(order: seq<string>, init: seq<string>, last: string)
    requires order == init + [last] && forall i, j | 0 <= i < j < |order| :: order[i] != order[j]
    ensures forall k :: k in init <==> k in order && k != last
  {
    forall k | k in init ensures k != last {
      var i :| 0 <= i < |init| && init[i] == k;
      assert order[i] != order[|init|];
    }
  }

  // ----- printing -----

  function Field(k: string, l: Level): string
    requires IsLevel(l)
  {
    k + "=" + LevelName(l)
  }

  function FieldMap(p: Parsed): map<string, string>
    requires Printable(p)
  {
    map k | k in p.specs :: Field(k, p.specs[k])
  }

  function Values(fields: map<string, string>, order: seq<string>): (r: seq<string>)
    requires Covers(fields, order)
    ensures |r| == |order|
  {
    if order == [] then [] else Values(fields, order[..|order| - 1]) + [fields[order[|order| - 1]]]
  }

  /** All the loggers' fields in ascending order, then the default level. */
  ghost predicate Prints(p: Parsed, spec: string)
    requires Printable(p)
  {
    exists order :: PrintsAs(FieldMap(p), p.defaultLevel, order, spec)
  }

  ghost predicate PrintsAs(fields: map<string, string>, defaultLevel: Level, order: seq<string>, spec: string)
    requires IsLevel(defaultLevel)
  {
    && Covers(fields, order) && (forall k | k in fields :: k in order) && Ascending(fields, order)
    && spec == Join(Values(fields, order) + [LevelName(defaultLevel)], ':')
  }

  method Spec(l: LoggerLevels) returns (spec: string)
    requires l.Valid()
    ensures Prints(l.Active(), spec)
  {
    var fields := FieldMap(l.Active());
    var order := Sort(fields);
    var sorted := Collect(fields, order);
    spec := Join(sorted + [LevelName(l.defaultLevel)], ':');
    assert PrintsAs(fields, l.defaultLevel, order, spec);
  }

  method Sort(fields: map<string, string>) returns (order: seq<string>)
    ensures Covers(fields, order) && Ascending(fields, order) && forall k | k in fields :: k in order
  {
    order := [];
    var done: set<string> := {};
    while done != fields.Keys
      invariant done <= fields.Keys
      invariant Covers(fields, order) && Ascending(fields, order)
      invariant forall k :: k in order <==> k in done
      decreases fields.Keys - done
    {
      var k :| k in fields && k !in done;
      order := Insert(fields, order, k);
      done := done + {k};
    }
  }

  method Collect(fields: map<string, string>, order: seq<string>) returns (r: seq<string>)
    requires Covers(fields, order)
    ensures r == Values(fields, order)
  {
    r := [];
    for i := 0 to |order|
      invariant r == Values(fields, order[..i])
    {
      assert order[..i + 1][..i] == order[..i];
      r := r + [fields[order[i]]];
    }
    assert order[..|order|] == order;
  }

  // ----- parsing back -----

  ghost predicate NoPayload(p: Parsed) {
    p.defaultLevel != PAYLOAD && forall k | k in p.specs :: p.specs[k] != PAYLOAD
  }

  lemma KeyNotEmpty(k: string)
    requires PrintableKey(k)
    ensures k != ""
  {
    assert Split("", '.')[0] == "";
  }

  lemma AddOneLogger(specs: map<string, Level>, k: string, level: Level)
    requires PrintableKey(k)
    ensures AddLoggers(specs, [k], level) == Ok(specs[k := level])
  {
    assert [k][..0] == [];
    assert AddLoggers(specs, [], level) == Ok(specs);
  }

  lemma FieldParses(q: Parsed, k: string, l: Level)
    requires PrintableKey(k) && IsLevel(l)
    ensures AddField(q, Field(k, l)) == if l == PAYLOAD then Err else Ok(q.(specs := q.specs[k := l]))
    ensures ':' !in Field(k, l)
  {
    LevelNames(l);
    SplitWhole(LevelName(l), '=');
    SplitFirst(k, LevelName(l), '=');
    assert Split(Field(k, l), '=') == [k, LevelName(l)];
    SplitWhole(k, ',');
    KeyNotEmpty(k);
    AddOneLogger(q.specs, k, NameToLevel(LevelName(l)));
  }

  lemma DefaultParses(q: Parsed, l: Level)
    requires IsLevel(l)
    ensures AddField(q, LevelName(l)) == if l == PAYLOAD then Err else Ok(q.(defaultLevel := l))
  {
    LevelNames(l);
    SplitWhole(LevelName(l), '=');
  }

  type Adder = (Parsed, string) -> Result<Parsed>

  /** Each field parses as the entry it was made from. */
  ghost predicate Parses(add: Adder, fields: map<string, string>, specs: map<string, Level>) {
    && fields.Keys == specs.Keys
    && forall k, q {:trigger add(q, fields[k])} | k in fields ::
         add(q, fields[k]) == if specs[k] == PAYLOAD then Err else Ok(Parsed(q.specs[k := specs[k]], q.defaultLevel))
  }

  lemma FieldMapParses(p: Parsed)
    requires Printable(p)
    ensures Parses(AddField, FieldMap(p), p.specs)
    ensures forall k | k in p.specs :: ':' !in FieldMap(p)[k]
  {
    forall k, q {:trigger AddField(q, FieldMap(p)[k])} | k in p.specs
      ensures AddField(q, FieldMap(p)[k])
           == if p.specs[k] == PAYLOAD then Err else Ok(Parsed(q.specs[k := p.specs[k]], q.defaultLevel))
    {
      FieldParses(q, k, p.specs[k]);
    }
    forall k | k in p.specs ensures ':' !in FieldMap(p)[k] {
      FieldParses(p, k, p.specs[k]);
    }
  }

  function Listed(specs: map<string, Level>, order: seq<string>): map<string, Level>
    requires forall i | 0 <= i < |order| :: order[i] in specs
  {
    map k | k in order :: specs[k]
  }

  lemma ListedSnoc(specs: map<string, Level>, init: seq<string>, last: string)
    requires last in specs && forall i | 0 <= i < |init| :: init[i] in specs
    ensures Listed(specs, init + [last]) == Listed(specs, init)[last := specs[last]]
  {
  }

  ghost predicate AnyPayload(specs: map<string, Level>, order: seq<string>)
    requires forall i | 0 <= i < |order| :: order[i] in specs
  {
    exists i :: 0 <= i < |order| && specs[order[i]] == PAYLOAD
  }

  lemma AnyPayloadSnoc(specs: map<string, Level>, init: seq<string>, last: string)
    requires last in specs && forall i | 0 <= i < |init| :: init[i] in specs
    ensures AnyPayload(specs, init + [last]) <==> AnyPayload(specs, init) || specs[last] == PAYLOAD
  {
    var order := init + [last];
    assert order[|init|] == last;
    assert forall i | 0 <= i < |init| :: order[i] == init[i];
  }

  lemma AddAllSnoc(add: Adder, p: Parsed, init: seq<string>, last: string)
    ensures AddAll(add, p, init + [last]) ==
            if AddAll(add, p, init).Ok? then add(AddAll(add, p, init).value, last) else Err
  {
    assert (init + [last])[..|init|] == init;
  }

  lemma ValuesSnoc(fields: map<string, string>, init: seq<string>, last: string)
    requires Covers(fields, init + [last]) && Covers(fields, init) && last in fields
    ensures Values(fields, init + [last]) == Values(fields, init) + [fields[last]]
  {
    assert (init + [last])[..|init|] == init;
  }

  lemma InitLast(s: seq<string>)
    requires s != []
    ensures s == s[..|s| - 1] + [s[|s| - 1]]
  {
  }

  lemma {:induction false} ValuesParse(add: Adder, fields: map<string, string>, specs: map<string, Level>,
                                       order: seq<string>)
    requires Parses(add, fields, specs) && Covers(fields, order)
    ensures AddAll(add, NOTHING, Values(fields, order)) ==
            if AnyPayload(specs, order) then Err else Ok(Parsed(Listed(specs, order), INFO))
  {
    if order == [] {
      assert Listed(specs, order) == map[];
    } else {
      var init, last := order[..|order| - 1], order[|order| - 1];
      InitLast(order);
      ValuesParse(add, fields, specs, init);
      ValuesSnoc(fields, init, last);
      AddAllSnoc(add, NOTHING, Values(fields, init), fields[last]);
      ListedSnoc(specs, init, last);
      AnyPayloadSnoc(specs, init, last);
    }
  }

  lemma {:induction false} ValuesPlain(fields: map<string, string>, order: seq<string>)
    requires Covers(fields, order) && forall k | k in fields :: ':' !in fields[k]
    ensures forall i | 0 <= i < |order| :: ':' !in Values(fields, order)[i]
  {
    if order != [] {
      ValuesPlain(fields, order[..|order| - 1]);
    }
  }

  lemma PrintedParses(add: Adder, fields: map<string, string>, p: Parsed, order: seq<string>, spec: string)
    requires IsLevel(p.defaultLevel) && Parses(add, fields, p.specs) && (forall k | k in fields :: ':' !in fields[k])
    requires PrintsAs(fields, p.defaultLevel, order, spec)
    ensures AddAll(add, NOTHING, Split(spec, ':')) ==
            if AnyPayload(p.specs, order) then Err else add(Parsed(p.specs, INFO), LevelName(p.defaultLevel))
  {
    var values, last := Values(fields, order), LevelName(p.defaultLevel);
    ValuesPlain(fields, order);
    LevelNames(p.defaultLevel);
    SplitJoin(values + [last], ':');
    ValuesParse(add, fields, p.specs, order);
    AddAllSnoc(add, NOTHING, values, last);
    assert Listed(p.specs, order) == p.specs;
  }

  /** What is printed parses exactly when nothing is at level PAYLOAD, and then gives back what was printed. */
  lemma RoundTrip(p: Parsed, spec: string)
    requires Printable(p) && Prints(p, spec)
    ensures Parse(spec) == if NoPayload(p) then Ok(p) else Err
  {
    var fields := FieldMap(p);
    FieldMapParses(p);
    var order :| PrintsAs(fields, p.defaultLevel, order, spec);
    PrintedParses(AddField, fields, p, order, spec);
    DefaultParses(Parsed(p.specs, INFO), p.defaultLevel);
  }

  lemma MinUnique(p: Parsed, min: Level, min': Level)
    requires IsMin(min, p) && IsMin(min', p)
    ensures min == min'
  {
  }

  /** Activating the printed specification leaves the levels as they are; with PAYLOAD anywhere it is refused. */
  method Reactivate(l: LoggerLevels) returns (ok: bool)
    requires l.Valid()
    modifies l
    ensures l.Valid() && l.Active() == old(l.Active()) && l.minLevel == old(l.minLevel)
    ensures ok <==> NoPayload(l.Active())
  {
    ghost var p := l.Active();
    var spec := Spec(l);
    RoundTrip(p, spec);
    ok := l.ActivateSpec(spec);
    MinUnique(p, l.minLevel, old(l.minLevel));
  }

  lemma FieldInjective(k: string, l: Level, k': string, l': Level)
    requires '=' !in k && '=' !in k' && IsLevel(l) && IsLevel(l') && Field(k, l) == Field(k', l')
    ensures k == k'
  {
    SplitFirst(k, LevelName(l), '=');
    SplitFirst(k', LevelName(l'), '=');
    assert Split(Field(k, l), '=')[0] == k;
  }

  /** A specification is printed in one way only. */
  lemma PrintsUnique(p: Parsed, spec: string, spec': string)
    requires Printable(p) && Prints(p, spec) && Prints(p, spec')
    ensures spec == spec'
  {
    var fields := FieldMap(p);
    var order :| PrintsAs(fields, p.defaultLevel, order, spec);
    var order' :| PrintsAs(fields, p.defaultLevel, order', spec');
    forall k, k' | k in fields && k' in fields && k != k' ensures fields[k] != fields[k'] {
      if fields[k] == fields[k'] {
        FieldInjective(k, p.specs[k], k', p.specs[k']);
      }
    }
    AscendingUnique(fields, order, order');
  }
}
