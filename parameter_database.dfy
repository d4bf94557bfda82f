/**
 * The ECU parameter table: manufacturer, then module, then parameter
 * identifier.  A JavaScript object keeps its string keys in insertion order
 * and assignment to an existing key keeps its place; an association list
 * with `Find` (the first entry with the key) and `Put` (replace in place or
 * append) behaves the same way.
 */
module Parameters {
  import opened Wrappers
  import opened Hex
  import opened Text

  // Association lists

  /** `obj[key]`: the value of the first entry with that key. */
  function Find<K(==), V>(t: seq<(K, V)>, key: K): (r: Option<V>)
    ensures r.Some? <==> exists i :: 0 <= i < |t| && t[i].0 == key
  {
    if t == [] then None else if t[0].0 == key then Some(t[0].1) else Find(t[1..], key)
  }

  /** `obj[key] = value`: replaces the first entry with that key in place, or appends one. */
  function Put<K(==), V>(t: seq<(K, V)>, key: K, value: V): (r: seq<(K, V)>)
    ensures |r| == |t| || |r| == |t| + 1
  {
    if t == [] then [(key, value)]
    else if t[0].0 == key then [(key, value)] + t[1..]
    else [t[0]] + Put(t[1..], key, value)
  }

  /** The keys, in order. */
  function Keys<K, V>(t: seq<(K, V)>): (ks: seq<K>)
    ensures |ks| == |t| && forall i :: 0 <= i < |t| ==> ks[i] == t[i].0
  {
    seq(|t|, i requires 0 <= i < |t| => t[i].0)
  }

  /** After `obj[key] = value`, `obj[key]` is `value` and every other key reads as before. */
  lemma {:induction false} FindPut<K, V>(t: seq<(K, V)>, key: K, value: V, other: K)
    ensures Find(Put(t, key, value), key) == Some(value)
    ensures other != key ==> Find(Put(t, key, value), other) == Find(t, other)
    decreases |t|
  {
    if t != [] && t[0].0 != key {
      FindPut(t[1..], key, value, other);
      assert Put(t, key, value)[1..] == Put(t[1..], key, value);
    }
  }

  /** Assignment keeps the key order: an existing key stays where it was, a new one goes last. */
  lemma {:induction false} PutKeys<K, V>(t: seq<(K, V)>, key: K, value: V)
    ensures Keys(Put(t, key, value)) == if key in Keys(t) then Keys(t) else Keys(t) + [key]
    decreases |t|
  {
    if t != [] && t[0].0 != key {
      PutKeys(t[1..], key, value);
      assert Keys(t) == [t[0].0] + Keys(t[1..]);
      assert Keys(Put(t, key, value)) == [t[0].0] + Keys(Put(t[1..], key, value));
    } else if t != [] {
      assert Keys(t)[0] == key;
    }
  }

  /** Assigning twice to the same key leaves the second value. */
  lemma {:induction false} PutPut<K, V>(t: seq<(K, V)>, key: K, v1: V, v2: V)
    ensures Put(Put(t, key, v1), key, v2) == Put(t, key, v2)
    decreases |t|
  {
    if t != [] && t[0].0 != key {
      PutPut(t[1..], key, v1, v2);
    }
  }

  // The entries

  /** One parameter's description; absent fields of the source's objects are `None`. */
  datatype Param = Param(
    name: string,
    description: Option<string>,
    unit: string,
    dataType: Option<string>,
    min: Option<int>,
    max: Option<int>,
    defaultValue: Option<int>,
    values: Option<seq<(int, string)>>,
    safety: Option<string>,
    requiresSecurity: bool,
    warning: Option<string>,
    readOnly: bool)

  type Table = seq<(string, Param)>
  type Modules = seq<(string, Table)>
  type Catalogue = seq<(string, Modules)>

  /** A writable parameter as the built-in table declares them. */
  function Setting(name: string, description: string, unit: string, dataType: string,
                   min: int, max: int, defaultValue: int, safety: string, requiresSecurity: bool): Param
  {
    Param(name, Some(description), unit, Some(dataType), Some(min), Some(max), Some(defaultValue),
          None, Some(safety), requiresSecurity, None, false)
  }

  /** A read-only OBD-II value: a name, a unit and nothing else. */
  function Pid(name: string, unit: string): Param
  {
    Param(name, None, unit, None, None, None, None, None, None, false, None, true)
  }

  const StandardKey := "standard"

  // The built-in tables, one per manufacturer and module

  const VwEngine: Table := [
    ("0x2001", Setting("Throttle Response", "Throttle pedal response characteristic", "mode", "uint8",
                       0, 3, 1, "medium", true)
                 .(values := Some([(0, "Economy"), (1, "Normal"), (2, "Sport"), (3, "Individual")]))),
    ("0x2002", Setting("Idle Speed", "Target idle RPM", "RPM", "uint16", 600, 1000, 800, "high", true)
                 .(warning := Some("Incorrect idle speed may cause engine stalling"))),
    ("0x2003", Setting("Rev Limiter", "Maximum engine RPM", "RPM", "uint16", 5000, 7500, 6500, "critical", true)
                 .(warning := Some("Increasing may cause engine damage"))),
    ("0x2004", Setting("Fuel Injection Timing", "Injection timing offset", "degrees", "int8",
                       -10, 10, 0, "high", true)),
    ("0x2005", Setting("Boost Pressure Limit", "Maximum turbo boost pressure", "kPa", "uint16",
                       100, 250, 180, "critical", true)
                 .(warning := Some("Excessive boost may damage engine")))]

  const VwTransmission: Table := [
    ("0x3001", Setting("Shift Points", "Automatic transmission shift RPM", "RPM", "uint16",
                       2000, 6000, 3500, "medium", true)),
    ("0x3002", Setting("Shift Speed", "Gear change speed", "mode", "uint8", 0, 2, 1, "low", false)
                 .(values := Some([(0, "Comfort"), (1, "Normal"), (2, "Sport")]))),
    ("0x3003", Setting("Torque Converter Lock", "TC lockup speed threshold", "km/h", "uint8",
                       30, 80, 50, "medium", true))]

  const VwAbs: Table := [
    ("0x4001", Setting("ABS Intervention Threshold", "Wheel slip threshold for ABS activation", "%", "uint8",
                       5, 20, 10, "critical", true)
                 .(warning := Some("Affects braking safety"))),
    ("0x4002", Setting("Traction Control Level", "TC intervention aggressiveness", "mode", "uint8",
                       0, 2, 1, "high", true)
                 .(values := Some([(0, "Off"), (1, "Normal"), (2, "Sport")])))]

  const VwInstrument: Table := [
    ("0x5001", Setting("Speed Warning Threshold", "Speed limit warning activation", "km/h", "uint8",
                       0, 200, 120, "low", false)),
    ("0x5002", Setting("Service Interval", "Service reminder distance", "km", "uint16",
                       5000, 30000, 15000, "low", false)),
    ("0x5003", Setting("Daytime Running Lights", "DRL activation", "boolean", "uint8", 0, 1, 1, "low", false)
                 .(values := Some([(0, "Off"), (1, "On")])))]

  const NissanEngine: Table := [
    ("0x6001", Setting("Throttle Map", "Accelerator pedal mapping", "mode", "uint8", 0, 2, 1, "medium", true)
                 .(values := Some([(0, "Eco"), (1, "Standard"), (2, "Power")]))),
    ("0x6002", Setting("Idle Control", "Idle speed target", "RPM", "uint16", 550, 950, 700, "high", true)),
    ("0x6003", Setting("Fuel Cut RPM", "Fuel cutoff limit", "RPM", "uint16", 5500, 7000, 6200, "critical", true)
                 .(warning := Some("Modifying may void warranty"))),
    ("0x6004", Setting("VVEL Timing", "Variable valve event timing", "degrees", "int8",
                       -15, 15, 0, "high", true))]

  const NissanTransmission: Table := [
    ("0x7001", Setting("Shift Logic", "Transmission shift pattern", "mode", "uint8", 0, 1, 0, "low", false)
                 .(values := Some([(0, "Normal"), (1, "Sport")]))),
    ("0x7002", Setting("Line Pressure", "Hydraulic line pressure adjustment", "%", "int8",
                       -10, 10, 0, "high", true)
                 .(warning := Some("Incorrect pressure may damage transmission")))]

  const NissanAbs: Table := [
    ("0x8001", Setting("VDC Threshold", "Vehicle Dynamic Control activation threshold", "%", "uint8",
                       10, 30, 20, "critical", true))]

  const StandardEngine: Table := [
    ("0x010C", Pid("Engine RPM", "RPM")),
    ("0x010D", Pid("Vehicle Speed", "km/h")),
    ("0x0105", Pid("Coolant Temperature", "°C")),
    ("0x010F", Pid("Intake Air Temperature", "°C")),
    ("0x0111", Pid("Throttle Position", "%")),
    ("0x0104", Pid("Engine Load", "%")),
    ("0x0110", Pid("MAF Sensor", "g/s")),
    ("0x012F", Pid("Fuel Level", "%")),
    ("0x010E", Pid("Timing Advance", "°")),
    ("0x010A", Pid("Fuel Pressure", "kPa"))]

  const VwModules: Modules :=
    [("engine", VwEngine), ("transmission", VwTransmission), ("abs", VwAbs), ("instrument", VwInstrument)]

  const NissanModules: Modules := [("engine", NissanEngine), ("transmission", NissanTransmission), ("abs", NissanAbs)]

  const StandardModules: Modules := [("engine", StandardEngine)]

  /** The table the database starts with. */
  const BuiltInParameters: Catalogue :=
    [("vw", VwModules), ("nissan", NissanModules), (StandardKey, StandardModules)]

  /** The built-in manufacturers are "vw", "nissan" and "standard". */
  lemma BuiltInManufacturers(mfg: string)
    ensures Find(BuiltInParameters, mfg) ==
              if mfg == "vw" then Some(VwModules)
              else if mfg == "nissan" then Some(NissanModules)
              else if mfg == StandardKey then Some(StandardModules)
              else None
  {
    var rest := [("nissan", NissanModules), (StandardKey, StandardModules)];
    assert BuiltInParameters[1..] == rest;
    assert rest[1..] == [(StandardKey, StandardModules)];
    assert rest[1..][1..] == [];
    if mfg != "vw" {
      assert Find(BuiltInParameters, mfg) == Find(rest, mfg);
      if mfg != "nissan" {
        assert Find(rest, mfg) == Find(rest[1..], mfg);
      }
    }
  }

  // Lookups

  /** `parameters[mfg][module]`, when both exist. */
  function ModuleTable(cat: Catalogue, mfg: string, moduleName: string): Option<Table>
  {
    match Find(cat, mfg)
    case None => None
    case Some(modules) => Find(modules, moduleName)
  }

  /** `parameters[mfg][module][id]`, with no fallback. */
  function Entry(cat: Catalogue, mfg: string, moduleName: string, id: string): Option<Param>
  {
    match ModuleTable(cat, mfg, moduleName)
    case None => None
    case Some(table) => Find(table, id)
  }

  /**
   * `getParameter`: the manufacturer's own module table when it has one,
   * whether or not that table holds the identifier; otherwise the standard
   * table's module.
   */
  function GetParameter(cat: Catalogue, manufacturer: string, moduleName: string, parameterId: string): Option<Param>
  {
    var mfg := Lower(manufacturer);
    if ModuleTable(cat, mfg, moduleName).Some? then Entry(cat, mfg, moduleName, parameterId)
    else Entry(cat, StandardKey, moduleName, parameterId)
  }

  /** `getModuleParameters`: the manufacturer's module table, or an empty one. */
  function GetModuleParameters(cat: Catalogue, manufacturer: string, moduleName: string): (t: Table)
  {
    match ModuleTable(cat, Lower(manufacturer), moduleName)
    case None => []
    case Some(table) => table
  }

  /** A manufacturer with a module table never falls back, even when the identifier is missing from it. */
  lemma NoFallbackToStandard(cat: Catalogue, manufacturer: string, moduleName: string, parameterId: string)
    requires ModuleTable(cat, Lower(manufacturer), moduleName).Some?
    ensures GetParameter(cat, manufacturer, moduleName, parameterId)
            == Find(GetModuleParameters(cat, manufacturer, moduleName), parameterId)
  {
  }

  /** Without a module table of its own a manufacturer reads the standard table. */
  lemma FallbackToStandard(cat: Catalogue, manufacturer: string, moduleName: string, parameterId: string)
    requires ModuleTable(cat, Lower(manufacturer), moduleName).None?
    ensures GetModuleParameters(cat, manufacturer, moduleName) == []
    ensures GetParameter(cat, manufacturer, moduleName, parameterId) == Entry(cat, StandardKey, moduleName, parameterId)
  {
  }

  /**
   * The built-in table: a manufacturer without an engine table reads the
   * standard engine values, but "VW" has one, so a standard identifier is
   * not found under "VW".
   */
  lemma BuiltInLookups()
    ensures GetParameter(BuiltInParameters, "Ford", "engine", "0x010C") == Some(Pid("Engine RPM", "RPM"))
    ensures GetParameter(BuiltInParameters, "VW", "engine", "0x010C") == None
  {
    assert Lower("Ford") == "ford";
    assert Lower("VW") == "vw";
    BuiltInManufacturers("ford");
    BuiltInManufacturers("vw");
    BuiltInManufacturers(StandardKey);
    assert Find(VwEngine, "0x010C") == None;
  }

  // Validation

  /** What `validateValue` is given: a number, or text it parses as hex. */
  datatype Input = NumberInput(n: int) | TextInput(text: string)

  /** Why a value is refused, in the order the checks run. */
  datatype ValidationError =
    | NotFound
    | ReadOnly
    | InvalidNumber
    | OutOfRange(min: Option<int>, max: Option<int>, unit: string)
    | NotAllowed(allowed: seq<(int, string)>)

  datatype Validation =
    | Accepted(param: Param, value: int, warning: Option<string>)
    | Rejected(error: ValidationError)

  function NumericValue(value: Input): Option<int>
  {
    match value
    case NumberInput(n) => Some(n)
    case TextInput(text) => ParseIntHex(text)
  }

  /** `!param.values[n]` is false: the value has a non-empty label. */
  predicate HasLabel(values: seq<(int, string)>, n: int)
  {
    var text := Find(values, n);
    text.Some? && text.value != ""
  }

  /** `validateValue`: the checks in order, the first failure reported. */
  function ValidateValue(cat: Catalogue, manufacturer: string, moduleName: string, parameterId: string,
                         value: Input): Validation
  {
    match GetParameter(cat, manufacturer, moduleName, parameterId)
    case None => Rejected(NotFound)
    case Some(param) =>
      if param.readOnly then Rejected(ReadOnly)
      else match NumericValue(value)
        case None => Rejected(InvalidNumber)
        case Some(n) =>
          if (param.min.Some? && n < param.min.value) || (param.max.Some? && n > param.max.value) then
            Rejected(OutOfRange(param.min, param.max, param.unit))
          else if param.values.Some? && !HasLabel(param.values.value, n) then
            Rejected(NotAllowed(param.values.value))
          else Accepted(param, n, if param.warning == Some("") then None else param.warning)
  }

  /** `n` lies within the bounds the parameter declares. */
  predicate WithinBounds(param: Param, n: int)
  {
    (param.min.Some? ==> param.min.value <= n) && (param.max.Some? ==> n <= param.max.value)
  }

  /** `n` is one of the parameter's listed values, when it lists any. */
  predicate Listed(param: Param, n: int)
  {
    param.values.Some? ==> exists i :: 0 <= i < |param.values.value| && param.values.value[i].0 == n
  }

  /**
   * An accepted value belongs to a parameter that exists and is writable,
   * is the number the input denotes, lies within the bounds and is a listed
   * value; and every such value is accepted.
   */
  lemma AcceptedExactly(cat: Catalogue, manufacturer: string, moduleName: string, parameterId: string, value: Input)
    ensures var r := ValidateValue(cat, manufacturer, moduleName, parameterId, value);
            var p := GetParameter(cat, manufacturer, moduleName, parameterId);
            var n := NumericValue(value);
            r.Accepted? ==> p == Some(r.param) && !r.param.readOnly && n == Some(r.value)
                            && WithinBounds(r.param, r.value) && Listed(r.param, r.value)
                            && (r.warning.Some? ==> r.warning == r.param.warning && r.warning.value != "")
    ensures var p := GetParameter(cat, manufacturer, moduleName, parameterId);
            var n := NumericValue(value);
            p.Some? && !p.value.readOnly && n.Some? && WithinBounds(p.value, n.value)
            && (p.value.values.Some? ==> HasLabel(p.value.values.value, n.value))
            ==> ValidateValue(cat, manufacturer, moduleName, parameterId, value).Accepted?
  {
  }

  /**
   * The checks run in a fixed order: each error is reported exactly when
   * its check fails and every earlier one passed.
   */
  lemma RejectedInOrder(cat: Catalogue, manufacturer: string, moduleName: string, parameterId: string, value: Input)
    ensures var r := ValidateValue(cat, manufacturer, moduleName, parameterId, value);
            var p := GetParameter(cat, manufacturer, moduleName, parameterId);
            var n := NumericValue(value);
            (r == Rejected(NotFound) <==> p.None?)
            && (r == Rejected(ReadOnly) <==> p.Some? && p.value.readOnly)
            && (r == Rejected(InvalidNumber) <==> p.Some? && !p.value.readOnly && n.None?)
            && (r.Rejected? && r.error.OutOfRange? <==>
                  p.Some? && !p.value.readOnly && n.Some? && !WithinBounds(p.value, n.value))
            && (r.Rejected? && r.error.NotAllowed? <==>
                  p.Some? && !p.value.readOnly && n.Some? && WithinBounds(p.value, n.value)
                  && p.value.values.Some? && !HasLabel(p.value.values.value, n.value))
  {
  }

  /** A label is found only for a listed value. */
  lemma LabelledIsListed(values: seq<(int, string)>, n: int)
    ensures HasLabel(values, n) ==> exists i :: 0 <= i < |values| && values[i].0 == n
  {
  }

  /** Text with no hex digit up front is NaN and is refused after the lookup and read-only checks. */
  lemma NonHexTextRejected(cat: Catalogue, manufacturer: string, moduleName: string, parameterId: string)
    requires GetParameter(cat, manufacturer, moduleName, parameterId).Some?
    requires !GetParameter(cat, manufacturer, moduleName, parameterId).value.readOnly
    ensures ValidateValue(cat, manufacturer, moduleName, parameterId, TextInput("zz")) == Rejected(InvalidNumber)
  {
    assert HexRun("zz") == 0;
  }

  /** The built-in throttle mode: 2 is "Sport"; 5 is out of its 0..3 range; the standard RPM is read-only. */
  lemma BuiltInValidation()
    ensures ValidateValue(BuiltInParameters, "vw", "engine", "0x2001", NumberInput(2)).Accepted?
    ensures ValidateValue(BuiltInParameters, "vw", "engine", "0x2001", NumberInput(5))
            == Rejected(OutOfRange(Some(0), Some(3), "mode"))
    ensures ValidateValue(BuiltInParameters, "Ford", "engine", "0x010C", NumberInput(3000)) == Rejected(ReadOnly)
  {
    assert Lower("vw") == "vw";
    assert Lower("Ford") == "ford";
    BuiltInManufacturers("vw");
    BuiltInManufacturers("ford");
    BuiltInManufacturers(StandardKey);
    assert Find(VwEngine[0].1.values.value, 2) == Some("Sport");
  }

  // Search and filtering

  /** One result row: `{ module, id, ...param }`. */
  datatype Match = Match(moduleName: string, id: string, param: Param)

  /** A module's entries as result rows, in order. */
  function ModuleEntries(moduleName: string, table: Table): (ms: seq<Match>)
    ensures |ms| == |table|
    ensures forall j :: 0 <= j < |table| ==> ms[j] == Match(moduleName, table[j].0, table[j].1)
  {
    if table == [] then []
    else ModuleEntries(moduleName, table[..|table| - 1]) + [Match(moduleName, table[|table| - 1].0, table[|table| - 1].1)]
  }

  /** Every entry of a manufacturer's modules, module by module, as `Object.entries` visits them. */
  function Entries(modules: Modules): seq<Match>
  {
    if modules == [] then []
    else Entries(modules[..|modules| - 1]) + ModuleEntries(modules[|modules| - 1].0, modules[|modules| - 1].1)
  }

  /** The name, or else the description, contains the (lower-cased) term. */
  predicate Hit(m: Match, term: string)
  {
    Contains(Lower(m.param.name), term)
    || (m.param.description.Some? && Contains(Lower(m.param.description.value), term))
  }

  /** The name misses and there is no description: `undefined.toLowerCase()` throws. */
  predicate Crashes(m: Match, term: string)
  {
    !Contains(Lower(m.param.name), term) && m.param.description.None?
  }

  /** No row of `ms` makes the search throw. */
  predicate CrashFree(ms: seq<Match>, term: string)
  {
    ms == [] || (CrashFree(ms[..|ms| - 1], term) && !Crashes(ms[|ms| - 1], term))
  }

  lemma {:induction false} CrashFreeExactly(ms: seq<Match>, term: string)
    ensures CrashFree(ms, term) <==> forall k :: 0 <= k < |ms| ==> !Crashes(ms[k], term)
    decreases |ms|
  {
    if ms != [] {
      CrashFreeExactly(ms[..|ms| - 1], term);
    }
  }

  const DescriptionMissing := "TypeError: Cannot read properties of undefined (reading 'toLowerCase')"

  /** The hits among `ms`, in order. */
  function Hits(ms: seq<Match>, term: string): seq<Match>
  {
    if ms == [] then []
    else Hits(ms[..|ms| - 1], term) + (if Hit(ms[|ms| - 1], term) then [ms[|ms| - 1]] else [])
  }

  /** The rows of `ms` with the given safety level, in order. */
  function WithSafety(ms: seq<Match>, safetyLevel: string): seq<Match>
  {
    if ms == [] then []
    else WithSafety(ms[..|ms| - 1], safetyLevel)
         + (if ms[|ms| - 1].param.safety == Some(safetyLevel) then [ms[|ms| - 1]] else [])
  }

  /**
   * What `searchParameters` returns: nothing for an unknown manufacturer;
   * otherwise the hits, unless some entry's name misses and it has no
   * description, which throws.
   */
  function SearchResult(cat: Catalogue, manufacturer: string, searchTerm: string): Result<seq<Match>, string>
  {
    match Find(cat, Lower(manufacturer))
    case None => Success([])
    case Some(modules) =>
      var all, term := Entries(modules), Lower(searchTerm);
      if !CrashFree(all, term) then Failure(DescriptionMissing)
      else Success(Hits(all, term))
  }

  /** What `getParametersBySafety` returns. */
  function SafetyResult(cat: Catalogue, manufacturer: string, safetyLevel: string): seq<Match>
  {
    match Find(cat, Lower(manufacturer))
    case None => []
    case Some(modules) => WithSafety(Entries(modules), safetyLevel)
  }

  /** The hits are exactly the rows whose name or description contains the term. */
  lemma {:induction false} HitsExactly(ms: seq<Match>, term: string, m: Match)
    ensures m in Hits(ms, term) <==> m in ms && Hit(m, term)
    decreases |ms|
  {
    if ms != [] {
      HitsExactly(ms[..|ms| - 1], term, m);
      assert ms == ms[..|ms| - 1] + [ms[|ms| - 1]];
    }
  }

  lemma {:induction false} WithSafetyExactly(ms: seq<Match>, safetyLevel: string, m: Match)
    ensures m in WithSafety(ms, safetyLevel) <==> m in ms && m.param.safety == Some(safetyLevel)
    decreases |ms|
  {
    if ms != [] {
      WithSafetyExactly(ms[..|ms| - 1], safetyLevel, m);
      assert ms == ms[..|ms| - 1] + [ms[|ms| - 1]];
    }
  }

  /** The rows of a manufacturer are exactly its table's entries, tagged with their module and identifier. */
  lemma {:induction false} EntriesExactly(modules: Modules, m: Match)
    ensures m in Entries(modules) <==>
              exists i :: 0 <= i < |modules| && modules[i].0 == m.moduleName && (m.id, m.param) in modules[i].1
    decreases |modules|
  {
    if modules != [] {
      var init, last := modules[..|modules| - 1], modules[|modules| - 1];
      EntriesExactly(init, m);
      if m in ModuleEntries(last.0, last.1) {
        var j :| 0 <= j < |last.1| && ModuleEntries(last.0, last.1)[j] == m;
        assert last.1[j] == (m.id, m.param);
        assert modules[|modules| - 1] == last;
      }
      if exists i :: 0 <= i < |modules| && modules[i].0 == m.moduleName && (m.id, m.param) in modules[i].1 {
        var i :| 0 <= i < |modules| && modules[i].0 == m.moduleName && (m.id, m.param) in modules[i].1;
        if i < |modules| - 1 {
          assert init[i] == modules[i];
        } else {
          var j :| 0 <= j < |last.1| && last.1[j] == (m.id, m.param);
          assert ModuleEntries(last.0, last.1)[j] == m;
        }
      }
    }
  }

  /** `Entries` of a concatenation is the concatenation of the `Entries`. */
  lemma {:induction false} EntriesAppend(a: Modules, b: Modules)
    ensures Entries(a + b) == Entries(a) + Entries(b)
    decreases |b|
  {
    if b == [] {
      assert a + b == a;
    } else {
      var b', last := b[..|b| - 1], b[|b| - 1];
      var rows := ModuleEntries(last.0, last.1);
      assert (a + b)[..|a + b| - 1] == a + b' && (a + b)[|a + b| - 1] == last;
      assert Entries(a + b) == Entries(a + b') + rows;
      assert Entries(b) == Entries(b') + rows;
      EntriesAppend(a, b');
    }
  }

  /** Where entry `j` of module `i` sits among all of a manufacturer's rows. */
  lemma EntryPosition(modules: Modules, i: int, j: int)
    requires 0 <= i < |modules| && 0 <= j < |modules[i].1|
    ensures var k := |Entries(modules[..i])| + j;
            k < |Entries(modules)|
            && Entries(modules)[k] == Match(modules[i].0, modules[i].1[j].0, modules[i].1[j].1)
  {
    var head := modules[..i + 1];
    assert head[..i] == modules[..i];
    assert modules == head + modules[i + 1..];
    EntriesAppend(head, modules[i + 1..]);
  }

  /**
   * When `searchParameters` does not throw, it returns exactly the
   * manufacturer's entries whose name or description contains the term,
   * ignoring case.
   */
  lemma SearchExactly(cat: Catalogue, manufacturer: string, searchTerm: string, modules: Modules, m: Match)
    requires Find(cat, Lower(manufacturer)) == Some(modules)
    ensures var r := SearchResult(cat, manufacturer, searchTerm);
            r.Success? ==> (m in r.value <==> m in Entries(modules) && Hit(m, Lower(searchTerm)))
  {
    HitsExactly(Entries(modules), Lower(searchTerm), m);
  }

  /** The search throws exactly when one of the manufacturer's entries misses by name and has no description. */
  lemma SearchThrows(cat: Catalogue, manufacturer: string, searchTerm: string, modules: Modules)
    requires Find(cat, Lower(manufacturer)) == Some(modules)
    ensures SearchResult(cat, manufacturer, searchTerm).Failure?
            <==> exists k :: 0 <= k < |Entries(modules)| && Crashes(Entries(modules)[k], Lower(searchTerm))
  {
    var all, term := Entries(modules), Lower(searchTerm);
    assert SearchResult(cat, manufacturer, searchTerm).Failure? <==> !CrashFree(all, term);
    CrashFreeExactly(all, term);
  }

  /** `getParametersBySafety` returns exactly the manufacturer's entries at that safety level. */
  lemma SafetyExactly(cat: Catalogue, manufacturer: string, safetyLevel: string, m: Match)
    ensures Find(cat, Lower(manufacturer)).None? ==> SafetyResult(cat, manufacturer, safetyLevel) == []
    ensures Find(cat, Lower(manufacturer)).Some? ==>
              (m in SafetyResult(cat, manufacturer, safetyLevel) <==>
                 m in Entries(Find(cat, Lower(manufacturer)).value) && m.param.safety == Some(safetyLevel))
  {
    match Find(cat, Lower(manufacturer))
    case None =>
    case Some(modules) =>
      WithSafetyExactly(Entries(modules), safetyLevel, m);
  }

  // Adding

  /** The catalogue after `addParameter`: missing tables created, then the entry set. */
  function WithParameter(cat: Catalogue, mfg: string, moduleName: string, parameterId: string, config: Param): Catalogue
  {
    var modules := match Find(cat, mfg) case None => [] case Some(ms) => ms;
    var table := match Find(modules, moduleName) case None => [] case Some(t) => t;
    Put(cat, mfg, Put(modules, moduleName, Put(table, parameterId, config)))
  }

  /**
   * After `addParameter` the new entry is there and every other
   * (manufacturer, module, identifier) reads as before.
   */
  lemma WithParameterEntries(cat: Catalogue, mfg: string, moduleName: string, parameterId: string, config: Param,
                             mfg': string, moduleName': string, id': string)
    ensures Entry(WithParameter(cat, mfg, moduleName, parameterId, config), mfg, moduleName, parameterId) == Some(config)
    ensures (mfg', moduleName', id') != (mfg, moduleName, parameterId) ==>
              Entry(WithParameter(cat, mfg, moduleName, parameterId, config), mfg', moduleName', id')
              == Entry(cat, mfg', moduleName', id')
  {
    var modules := match Find(cat, mfg) case None => [] case Some(ms) => ms;
    var table := match Find(modules, moduleName) case None => [] case Some(t) => t;
    var table' := Put(table, parameterId, config);
    var modules' := Put(modules, moduleName, table');
    FindPut(cat, mfg, modules', mfg');
    FindPut(modules, moduleName, table', moduleName');
    FindPut(table, parameterId, config, id');
  }

  /**
   * Adding to a module a manufacturer did not have gives it a table of its
   * own, so the other standard identifiers of that module are no longer
   * found under that manufacturer.
   */
  lemma AddingShadowsStandard(cat: Catalogue, manufacturer: string, moduleName: string, parameterId: string,
                              config: Param, id': string)
    requires ModuleTable(cat, Lower(manufacturer), moduleName).None? && id' != parameterId
    ensures GetParameter(WithParameter(cat, Lower(manufacturer), moduleName, parameterId, config),
                         manufacturer, moduleName, id') == None
  {
    var mfg := Lower(manufacturer);
    var cat' := WithParameter(cat, mfg, moduleName, parameterId, config);
    WithParameterEntries(cat, mfg, moduleName, parameterId, config, mfg, moduleName, id');
    assert ModuleTable(cat', mfg, moduleName).Some? by {
      WithParameterEntries(cat, mfg, moduleName, parameterId, config, mfg, moduleName, parameterId);
    }
  }

  /** The rows of one more module follow the rows seen so far. */
  lemma EntriesStep(modules: Modules, i: int)
    requires 0 <= i < |modules|
    ensures Entries(modules[..i + 1]) == Entries(modules[..i]) + ModuleEntries(modules[i].0, modules[i].1)
  {
    assert modules[..i + 1][..i] == modules[..i];
  }

  /** One more entry of a module is one more row. */
  lemma ModuleEntriesStep(moduleName: string, table: Table, j: int)
    requires 0 <= j < |table|
    ensures ModuleEntries(moduleName, table[..j + 1])
            == ModuleEntries(moduleName, table[..j]) + [Match(moduleName, table[j].0, table[j].1)]
  {
    assert table[..j + 1][..j] == table[..j];
  }

  /** A row that does not throw extends the hits, and the rows seen still do not throw. */
  lemma SearchStep(ms: seq<Match>, m: Match, term: string)
    requires CrashFree(ms, term) && !Crashes(m, term)
    ensures CrashFree(ms + [m], term)
    ensures Hits(ms + [m], term) == Hits(ms, term) + if Hit(m, term) then [m] else []
  {
    assert (ms + [m])[..|ms|] == ms;
  }

  lemma WithSafetyStep(ms: seq<Match>, m: Match, safetyLevel: string)
    ensures WithSafety(ms + [m], safetyLevel)
            == WithSafety(ms, safetyLevel) + if m.param.safety == Some(safetyLevel) then [m] else []
  {
    assert (ms + [m])[..|ms|] == ms;
  }

  /** Hits and throwing rows of two runs of rows, one after the other. */
  lemma {:induction false} SearchAppend(a: seq<Match>, b: seq<Match>, term: string)
    ensures Hits(a + b, term) == Hits(a, term) + Hits(b, term)
    ensures CrashFree(a + b, term) <==> CrashFree(a, term) && CrashFree(b, term)
    decreases |b|
  {
    if b == [] {
      assert a + b == a;
    } else {
      SearchAppend(a, b[..|b| - 1], term);
      assert (a + b)[..|a + b| - 1] == a + b[..|b| - 1];
    }
  }

  /** A module whose rows throw makes the whole manufacturer's search throw. */
  lemma CrashSpreads(modules: Modules, i: int, term: string)
    requires 0 <= i <= |modules| && !CrashFree(Entries(modules[..i]), term)
    ensures !CrashFree(Entries(modules), term)
  {
    assert modules == modules[..i] + modules[i..];
    EntriesAppend(modules[..i], modules[i..]);
    SearchAppend(Entries(modules[..i]), Entries(modules[i..]), term);
  }

  /** The inner loop of `searchParameters`: one module's entries in order. */
  method SearchModule(moduleName: string, table: Table, term: string) returns (r: Result<seq<Match>, string>)
    ensures var rows := ModuleEntries(moduleName, table);
            r == if CrashFree(rows, term) then Success(Hits(rows, term)) else Failure(DescriptionMissing)
  {
    var results := [];
    for j := 0 to |table|
      invariant CrashFree(ModuleEntries(moduleName, table[..j]), term)
      invariant results == Hits(ModuleEntries(moduleName, table[..j]), term)
    {
      var m := Match(moduleName, table[j].0, table[j].1);
      ModuleEntriesStep(moduleName, table, j);
      if Hit(m, term) {
        results := results + [m];
      } else if m.param.description.None? {
        CrashFreeExactly(ModuleEntries(moduleName, table), term);
        return Failure(DescriptionMissing);
      }
      SearchStep(ModuleEntries(moduleName, table[..j]), m, term);
    }
    assert table[..|table|] == table;
    r := Success(results);
  }

  /** The safety filter of two runs of rows, one after the other. */
  lemma {:induction false} WithSafetyAppend(a: seq<Match>, b: seq<Match>, safetyLevel: string)
    ensures WithSafety(a + b, safetyLevel) == WithSafety(a, safetyLevel) + WithSafety(b, safetyLevel)
    decreases |b|
  {
    if b == [] {
      assert a + b == a;
    } else {
      WithSafetyAppend(a, b[..|b| - 1], safetyLevel);
      assert (a + b)[..|a + b| - 1] == a + b[..|b| - 1];
    }
  }

  /** The inner loop of `getParametersBySafety`: one module's entries at the level, in order. */
  method SafetyModule(moduleName: string, table: Table, safetyLevel: string) returns (kept: seq<Match>)
    ensures kept == WithSafety(ModuleEntries(moduleName, table), safetyLevel)
  {
    kept := [];
    for j := 0 to |table|
      invariant kept == WithSafety(ModuleEntries(moduleName, table[..j]), safetyLevel)
    {
      var m := Match(moduleName, table[j].0, table[j].1);
      ModuleEntriesStep(moduleName, table, j);
      WithSafetyStep(ModuleEntries(moduleName, table[..j]), m, safetyLevel);
      if m.param.safety == Some(safetyLevel) {
        kept := kept + [m];
      }
    }
    assert table[..|table|] == table;
  }

  /** `ParameterDatabase`: the table, which only `addParameter` changes. */
  class ParameterDatabase {
    var parameters: Catalogue

    /** The standard table that `getParameter` falls back to is always there. */
    predicate Valid()
      reads this
    {
      Find(parameters, StandardKey).Some?
    }

    constructor()
      ensures parameters == BuiltInParameters && Valid()
    {
      parameters := BuiltInParameters;
      BuiltInManufacturers(StandardKey);
    }

    /** `addParameter`: create the manufacturer's and the module's tables when missing, then set the entry. */
    method AddParameter(manufacturer: string, moduleName: string, parameterId: string, paramConfig: Param)
      requires Valid()
      modifies this
      ensures Valid()
      ensures parameters == WithParameter(old(parameters), Lower(manufacturer), moduleName, parameterId, paramConfig)
      ensures GetParameter(parameters, manufacturer, moduleName, parameterId) == Some(paramConfig)
    {
      var mfg := Lower(manufacturer);
      ghost var start := parameters;
      ghost var modules0 := match Find(start, mfg) case None => [] case Some(ms) => ms;
      if Find(parameters, mfg).None? {
        parameters := Put(parameters, mfg, []);
        FindPut(start, mfg, [], mfg);
      }
      var modules := Find(parameters, mfg).value;
      assert modules == modules0;
      ghost var table0 := match Find(modules, moduleName) case None => [] case Some(t) => t;
      if Find(modules, moduleName).None? {
        FindPut(modules, moduleName, [], moduleName);
        FindPut(parameters, mfg, Put(modules, moduleName, []), mfg);
        PutPut(start, mfg, [], Put(modules, moduleName, []));
        parameters := Put(parameters, mfg, Put(modules, moduleName, []));
        modules := Put(modules, moduleName, []);
      }
      var table := Find(modules, moduleName).value;
      assert table == table0;
      var modules' := Put(modules, moduleName, Put(table, parameterId, paramConfig));
      PutPut(modules0, moduleName, [], Put(table, parameterId, paramConfig));
      PutPut(start, mfg, modules, modules');
      PutPut(start, mfg, [], modules');
      parameters := Put(parameters, mfg, modules');
      WithParameterEntries(start, mfg, moduleName, parameterId, paramConfig, mfg, moduleName, parameterId);
      FindPut(start, mfg, modules', StandardKey);
    }

    /** `searchParameters`: every module, every entry, in table order. */
    method SearchParameters(manufacturer: string, searchTerm: string) returns (r: Result<seq<Match>, string>)
      ensures r == SearchResult(parameters, manufacturer, searchTerm)
    {
      var found := Find(parameters, Lower(manufacturer));
      if found.None? {
        return Success([]);
      }
      var modules := found.value;
      var term := Lower(searchTerm);
      var results := [];
      for i := 0 to |modules|
        invariant CrashFree(Entries(modules[..i]), term)
        invariant results == Hits(Entries(modules[..i]), term)
      {
        var found := SearchModule(modules[i].0, modules[i].1, term);
        EntriesStep(modules, i);
        SearchAppend(Entries(modules[..i]), ModuleEntries(modules[i].0, modules[i].1), term);
        if found.Failure? {
          CrashSpreads(modules, i + 1, term);
          return Failure(DescriptionMissing);
        }
        results := results + found.value;
      }
      assert modules[..|modules|] == modules;
      r := Success(results);
    }

    /** `getParametersBySafety`: every module, every entry, in table order. */
    method GetParametersBySafety(manufacturer: string, safetyLevel: string) returns (results: seq<Match>)
      ensures results == SafetyResult(parameters, manufacturer, safetyLevel)
    {
      var found := Find(parameters, Lower(manufacturer));
      if found.None? {
        return [];
      }
      var modules := found.value;
      results := [];
      for i := 0 to |modules|
        invariant results == WithSafety(Entries(modules[..i]), safetyLevel)
      {
        var kept := SafetyModule(modules[i].0, modules[i].1, safetyLevel);
        EntriesStep(modules, i);
        WithSafetyAppend(Entries(modules[..i]), ModuleEntries(modules[i].0, modules[i].1), safetyLevel);
        results := results + kept;
      }
      assert modules[..|modules|] == modules;
    }
  }
}
