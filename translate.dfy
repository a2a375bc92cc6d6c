/**
 * The translator behind `_process_data`: one poll's key/value pairs are merged into
 * three tables that are only ever added to: the thermostat records keyed
 * `C<i>_T<j>`, the shared system map and the custom-name table.
 * The functions here are the specification of the coordinator's update methods.
 */
module Translate {
  import opened Wrappers
  import opened Text
  import opened Constants
  import opened Convert
  import opened Relevance

  /** One entry of `_discovered_thermostats`: identity fields plus the attribute map `data`. */
  datatype ThermostatRecord = ThermostatRecord(
    id: string,
    controller: string,
    thermostat: string,
    data: map<string, Value>)

  /**
   * The coordinator's three dictionaries. `order` is the insertion order of the
   * thermostat dictionary, which the `thermostats` property exposes.
   */
  datatype Tables = Tables(
    thermostats: map<string, ThermostatRecord>,
    order: seq<string>,
    system: map<string, Value>,
    customNames: map<string, string>)

  const Empty: Tables := Tables(map[], [], map[], map[])

  /** The tables are consistent: the order lists each thermostat once, records know their id, only `cust_..._name` keys are names. */
  ghost predicate TablesValid(t: Tables) {
    && (forall i, j | 0 <= i < j < |t.order| :: t.order[i] != t.order[j])
    && (forall id :: id in t.order <==> id in t.thermostats)
    && (forall id | id in t.thermostats ::
          t.thermostats[id].id == id == t.thermostats[id].controller + "_" + t.thermostats[id].thermostat)
    && (forall k | k in t.customNames :: IsCustomNameEntry(k))
  }

  /** `u` extends `t`: no thermostat, attribute, system entry or name disappears, and the thermostat order only grows at the end. */
  ghost predicate Grows(t: Tables, u: Tables) {
    && t.thermostats.Keys <= u.thermostats.Keys
    && (forall id | id in t.thermostats ::
          && u.thermostats[id].(data := map[]) == t.thermostats[id].(data := map[])
          && t.thermostats[id].data.Keys <= u.thermostats[id].data.Keys)
    && t.system.Keys <= u.system.Keys
    && t.customNames.Keys <= u.customNames.Keys
    && |t.order| <= |u.order| && u.order[..|t.order|] == t.order
  }

  lemma GrowsTransitive(t: Tables, u: Tables, w: Tables)
    requires Grows(t, u) && Grows(u, w)
    ensures Grows(t, w)
  {
    assert w.order[..|t.order|] == w.order[..|u.order|][..|t.order|];
  }

  // ---------------------------------------------------------------------
  // Key classification

  /** The tagged form of the prefix test in `_process_data`. */
  datatype KeyKind = ThermostatKey | ControllerKey | SystemKey | IgnoredKey

  function Classify(key: string): (k: KeyKind)
    ensures k == ThermostatKey <==> StartsWith(key, "C") && Contains(key, "_T")
    ensures k == ControllerKey <==> StartsWith(key, "C") && !Contains(key, "_T")
    ensures k == SystemKey <==> StartsWith(key, "sys_")
    ensures k == IgnoredKey <==> !StartsWith(key, "C") && !StartsWith(key, "sys_")
  {
    assert StartsWith(key, "sys_") ==> key[0] == 's';
    assert StartsWith(key, "C") ==> key[0] == 'C';
    if Contains(key, "_T") && StartsWith(key, "C") then ThermostatKey
    else if StartsWith(key, "C") && !Contains(key, "_T") then ControllerKey
    else if StartsWith(key, "sys_") then SystemKey
    else IgnoredKey
  }

  /** The three pieces `key.split("_")` gives a thermostat key. */
  datatype ThermostatKeyParts = ThermostatKeyParts(controller: string, thermostat: string, attribute: string)

  function ThermostatId(p: ThermostatKeyParts): string {
    p.controller + "_" + p.thermostat
  }

  /**
   * `parts = key.split("_")`, nothing below three parts; the attribute is
   * `"_".join(parts[2:])`. Reassembling the pieces gives the key back.
   */
  function ParseThermostatKey(key: string): (r: Option<ThermostatKeyParts>)
    ensures r.None? <==> |Split(key, '_')| < 3
    ensures r.Some? ==> '_' !in r.value.controller && '_' !in r.value.thermostat
    ensures r.Some? ==> key == r.value.controller + "_" + r.value.thermostat + "_" + r.value.attribute
  {
    var parts := Split(key, '_');
    if |parts| < 3 then None
    else
      JoinSplit(key, '_');
      assert parts[1..][1..] == parts[2..];
      assert Join('_', parts) == parts[0] + "_" + (parts[1] + "_" + Join('_', parts[2..]));
      Some(ThermostatKeyParts(parts[0], parts[1], Join('_', parts[2..])))
  }

  /** The pieces are determined by the key: controller and thermostat are the first two underscore-free segments. */
  lemma ParseThermostatKeyOf(c: string, th: string, a: string)
    requires '_' !in c && '_' !in th
    ensures ParseThermostatKey(c + "_" + th + "_" + a) == Some(ThermostatKeyParts(c, th, a))
  {
    var key := c + "_" + th + "_" + a;
    assert key == c + ['_'] + (th + ['_'] + a);
    SplitAtSeparator(c, th + "_" + a, '_');
    SplitAtSeparator(th, a, '_');
    JoinSplit(a, '_');
    var parts := Split(key, '_');
    assert parts == [c] + ([th] + Split(a, '_'));
    assert parts[2..] == Split(a, '_');
  }

  // ---------------------------------------------------------------------
  // The per-key steps

  /** First pass of `_process_data`: a `cust_..._name` key is stored verbatim. */
  function StoreCustomName(t: Tables, key: string, value: string): (u: Tables)
    ensures Grows(t, u)
    ensures u.thermostats == t.thermostats && u.order == t.order && u.system == t.system
    ensures IsCustomNameEntry(key) ==> u.customNames == t.customNames[key := value]
    ensures !IsCustomNameEntry(key) ==> u == t
    ensures TablesValid(t) ==> TablesValid(u)
  {
    if IsCustomNameEntry(key) then t.(customNames := t.customNames[key := value]) else t
  }

  /**
   * The attribute-level upsert of `_process_thermostat_data`: a mapped attribute
   * whose conversion is not `None` is stored under its normalized name; nothing
   * else changes.
   */
  function StoreReading(data: map<string, Value>, attribute: string, value: string): (d: map<string, Value>)
    ensures data.Keys <= d.Keys
    ensures attribute in VariableMapping && ConvertValue(attribute, value).Some? ==>
      d == data[VariableMapping[attribute] := ConvertValue(attribute, value).value]
    ensures attribute !in VariableMapping || ConvertValue(attribute, value).None? ==> d == data
  {
    if attribute in VariableMapping then
      match ConvertValue(attribute, value)
      case None => data
      case Some(v) => data[VariableMapping[attribute] := v]
    else data
  }

  /**
   * The record `C<i>_T<j>` of the parsed key, created empty when it is new and
   * appended to the order, with the reading upserted into it.
   */
  function UpsertReading(t: Tables, p: ThermostatKeyParts, value: string): (u: Tables)
    ensures u.system == t.system && u.customNames == t.customNames
    ensures var id := ThermostatId(p);
      && u.thermostats.Keys == t.thermostats.Keys + {id}
      && u.order == (if id in t.thermostats then t.order else t.order + [id])
      && u.thermostats[id].data ==
           StoreReading(if id in t.thermostats then t.thermostats[id].data else map[], p.attribute, value)
      && (forall other | other in t.thermostats && other != id :: u.thermostats[other] == t.thermostats[other])
  {
    var id := ThermostatId(p);
    var record :=
      if id in t.thermostats then t.thermostats[id]
      else ThermostatRecord(id, p.controller, p.thermostat, map[]);
    var order := if id in t.thermostats then t.order else t.order + [id];
    var data := StoreReading(record.data, p.attribute, value);
    var u := t.(thermostats := t.thermostats[id := record.(data := data)], order := order);
    assert u.order[..|t.order|] == t.order;
    assert u.thermostats[id] == record.(data := data);
    u
  }

  /** The upsert only adds: every record keeps its identity fields and attributes, and the order only grows. */
  lemma UpsertGrows(t: Tables, p: ThermostatKeyParts, value: string)
    ensures Grows(t, UpsertReading(t, p, value))
  {
    var u := UpsertReading(t, p, value);
    var id := ThermostatId(p);
    if id in t.thermostats {
      assert u.thermostats[id] == t.thermostats[id].(data := u.thermostats[id].data);
    }
  }

  /** The upsert keeps the tables consistent: a new id is appended once, and its record knows its id. */
  lemma UpsertKeepsValid(t: Tables, p: ThermostatKeyParts, value: string)
    ensures TablesValid(t) ==> TablesValid(UpsertReading(t, p, value))
  {
    if TablesValid(t) {
      var u := UpsertReading(t, p, value);
      var id := ThermostatId(p);
      if id !in t.thermostats {
        assert id !in t.order;
        forall i, j | 0 <= i < j < |u.order|
          ensures u.order[i] != u.order[j]
        {
          if j == |t.order| {
            assert u.order[i] == t.order[i];
          }
        }
      }
      forall k | k in u.thermostats
        ensures u.thermostats[k].id == k == u.thermostats[k].controller + "_" + u.thermostats[k].thermostat
      {
        if k != id {
          assert u.thermostats[k] == t.thermostats[k];
        }
      }
    }
  }

  /**
   * `_process_thermostat_data`: the record for `C<i>_T<j>` is created even when the
   * attribute is not in the table, then the reading is upserted into it.
   */
  function ThermostatStep(t: Tables, key: string, value: string): (u: Tables)
    ensures Grows(t, u)
    ensures u.system == t.system && u.customNames == t.customNames
    ensures ParseThermostatKey(key).None? ==> u == t
    ensures ParseThermostatKey(key).Some? ==> ThermostatId(ParseThermostatKey(key).value) in u.thermostats
    ensures ParseThermostatKey(key).Some? ==>
      var p := ParseThermostatKey(key).value;
      var id := ThermostatId(p);
      && u.thermostats.Keys == t.thermostats.Keys + {id}
      && u.order == (if id in t.thermostats then t.order else t.order + [id])
      && u.thermostats[id].data ==
           StoreReading(if id in t.thermostats then t.thermostats[id].data else map[], p.attribute, value)
      && (forall other | other in t.thermostats && other != id :: u.thermostats[other] == t.thermostats[other])
    ensures TablesValid(t) ==> TablesValid(u)
  {
    match ParseThermostatKey(key)
    case None => t
    case Some(p) =>
      UpsertGrows(t, p, value);
      UpsertKeepsValid(t, p, value);
      UpsertReading(t, p, value)
  }

  /** `int(value)` as a flag, skipped when unparseable or the sentinel. */
  function ParseFlag(value: string): (r: Option<bool>)
    ensures r.Some? <==> ParseInt(value).Some? && ParseInt(value) != Some(Sentinel)
    ensures r.Some? ==> (r.value <==> ParseInt(value).value != 0)
  {
    match ParseInt(value)
    case None => None
    case Some(n) => if n == Sentinel then None else Some(n != 0)
  }

  /** The controller aggregates are not `stat_` attributes, so the two controller branches never overlap. */
  lemma AggregateIsNoFlag(attribute: string)
    requires attribute in AggregateNames
    ensures !StartsWith(attribute, "stat_")
  {
    assert attribute[0] != 's' || attribute[1] != 't';
  }

  /**
   * `_process_controller_data`: the attribute after the first underscore. The three
   * aggregates are stored under their bare names (the controller index is dropped);
   * a mapped `stat_` attribute is stored as a flag.
   */
  function ControllerStep(t: Tables, key: string, value: string): (u: Tables)
    ensures Grows(t, u)
    ensures u.thermostats == t.thermostats && u.order == t.order && u.customNames == t.customNames
    ensures SplitOnce(key, '_').None? ==> u == t
    ensures var parts := SplitOnce(key, '_');
      parts.Some? && parts.value.1 in AggregateNames ==>
        u.system == if ConvertTemperature(value).Some?
                    then t.system[parts.value.1 := RealV(ConvertTemperature(value).value)]
                    else t.system
    ensures var parts := SplitOnce(key, '_');
      parts.Some? && StartsWith(parts.value.1, "stat_") && parts.value.1 in VariableMapping ==>
        u.system == if ParseFlag(value).Some?
                    then t.system[VariableMapping[parts.value.1] := BoolV(ParseFlag(value).value)]
                    else t.system
    ensures var parts := SplitOnce(key, '_');
      (parts.Some? && parts.value.1 !in AggregateNames &&
       !(StartsWith(parts.value.1, "stat_") && parts.value.1 in VariableMapping)) ==> u == t
    ensures TablesValid(t) ==> TablesValid(u)
  {
    match SplitOnce(key, '_')
    case None => t
    case Some((_, attribute)) =>
      if attribute in AggregateNames then
        AggregateIsNoFlag(attribute);
        match ConvertTemperature(value)
        case None => t
        case Some(c) => t.(system := t.system[attribute := RealV(c)])
      else if StartsWith(attribute, "stat_") && attribute in VariableMapping then
        match ParseFlag(value)
        case None => t
        case Some(b) => t.(system := t.system[VariableMapping[attribute] := BoolV(b)])
      else t
  }

  /** `_process_system_data`: only an exact key of the system table is stored, as a flag. */
  function SystemStep(t: Tables, key: string, value: string): (u: Tables)
    ensures Grows(t, u)
    ensures u.thermostats == t.thermostats && u.order == t.order && u.customNames == t.customNames
    ensures key !in SystemVariableMapping || ParseFlag(value).None? ==> u == t
    ensures key in SystemVariableMapping && ParseFlag(value).Some? ==>
      u.system == t.system[SystemVariableMapping[key] := BoolV(ParseFlag(value).value)]
    ensures TablesValid(t) ==> TablesValid(u)
  {
    if key in SystemVariableMapping then
      match ParseFlag(value)
      case None => t
      case Some(b) => t.(system := t.system[SystemVariableMapping[key] := BoolV(b)])
    else t
  }

  /** Second pass of `_process_data`: route a key by its shape. */
  function Dispatch(t: Tables, key: string, value: string): (u: Tables)
    ensures Grows(t, u)
    ensures u.customNames == t.customNames
    ensures Classify(key) == ThermostatKey ==> u == ThermostatStep(t, key, value)
    ensures Classify(key) == ControllerKey ==> u == ControllerStep(t, key, value)
    ensures Classify(key) == SystemKey ==> u == SystemStep(t, key, value)
    ensures Classify(key) == IgnoredKey ==> u == t
    ensures TablesValid(t) ==> TablesValid(u)
  {
    match Classify(key)
    case ThermostatKey => ThermostatStep(t, key, value)
    case ControllerKey => ControllerStep(t, key, value)
    case SystemKey => SystemStep(t, key, value)
    case IgnoredKey => t
  }

  // ---------------------------------------------------------------------
  // The two passes over one poll

  function CollectCustomNames(t: Tables, data: seq<(string, string)>): (u: Tables)
    ensures Grows(t, u)
    ensures u == t.(customNames := u.customNames)
    ensures forall k | k in t.customNames && (forall i | 0 <= i < |data| :: data[i].0 != k) ::
      k in u.customNames && u.customNames[k] == t.customNames[k]
    ensures TablesValid(t) ==> TablesValid(u)
  {
    if data == [] then t
    else
      var prev := CollectCustomNames(t, data[..|data| - 1]);
      var u := StoreCustomName(prev, data[|data| - 1].0, data[|data| - 1].1);
      GrowsTransitive(t, prev, u);
      u
  }

  function ApplyAll(t: Tables, data: seq<(string, string)>): (u: Tables)
    ensures Grows(t, u)
    ensures u.customNames == t.customNames
    ensures TablesValid(t) ==> TablesValid(u)
  {
    if data == [] then t
    else
      var prev := ApplyAll(t, data[..|data| - 1]);
      var u := Dispatch(prev, data[|data| - 1].0, data[|data| - 1].1);
      GrowsTransitive(t, prev, u);
      u
  }

  /** `_process_data`: custom names first, then every key in poll order. */
  function Process(t: Tables, data: seq<(string, string)>): (u: Tables)
    ensures Grows(t, u)
    ensures TablesValid(t) ==> TablesValid(u)
  {
    var named := CollectCustomNames(t, data);
    GrowsTransitive(t, named, ApplyAll(named, data));
    ApplyAll(named, data)
  }

  // ---------------------------------------------------------------------
  // Properties of a poll

  /** A reading equal to the sentinel writes nothing: every prior value is kept. */
  lemma SentinelKeepsPriorValues(t: Tables, key: string, value: string)
    requires ParseInt(value) == Some(Sentinel)
    ensures var u := Dispatch(t, key, value);
      && u.system == t.system
      && u.customNames == t.customNames
      && (forall id | id in t.thermostats :: u.thermostats[id] == t.thermostats[id])
      && (forall id | id in u.thermostats && id !in t.thermostats :: u.thermostats[id].data == map[])
  {
    match Classify(key)
    case ThermostatKey =>
      match ParseThermostatKey(key) {
        case None =>
        case Some(p) =>
          assert StoreReading(map[], p.attribute, value) == map[];
          forall data: map<string, Value> ensures StoreReading(data, p.attribute, value) == data {}
      }
    case ControllerKey =>
      assert ParseFlag(value).None? && ConvertTemperature(value).None?;
    case SystemKey =>
      assert ParseFlag(value).None?;
    case IgnoredKey =>
  }

  /** A thermostat key `C.._T.._<attribute>` lands in record `C.._T..`, and only the converted attribute changes. */
  lemma ThermostatReadingStored(t: Tables, c: string, th: string, attribute: string, value: string)
    requires '_' !in c && '_' !in th && StartsWith(c, "C") && StartsWith(th, "T")
    ensures var u := Dispatch(t, c + "_" + th + "_" + attribute, value);
      var id := c + "_" + th;
      && u.thermostats.Keys == t.thermostats.Keys + {id}
      && u.order == (if id in t.thermostats then t.order else t.order + [id])
      && u.system == t.system && u.customNames == t.customNames
      && (id in t.thermostats ==> u.thermostats[id].(data := map[]) == t.thermostats[id].(data := map[]))
      && (id !in t.thermostats ==> u.thermostats[id].controller == c && u.thermostats[id].thermostat == th)
      && u.thermostats[id].data ==
           StoreReading(if id in t.thermostats then t.thermostats[id].data else map[], attribute, value)
      && (forall other | other in t.thermostats && other != id :: u.thermostats[other] == t.thermostats[other])
  {
    var key := c + "_" + th + "_" + attribute;
    ParseThermostatKeyOf(c, th, attribute);
    assert key[..1] == c[..1];
    assert OccursAt(key, "_T", |c|) by {
      assert key[|c|] == '_' && key[|c| + 1] == th[0] == 'T';
    }
  }

  /** A controller `stat_` attribute of the table is stored under its normalized name as `bool(int(value))`. */
  lemma ControllerFlagStored(t: Tables, c: string, attribute: string, value: string)
    requires '_' !in c && StartsWith(attribute, "stat_") && attribute in VariableMapping
    ensures ControllerStep(t, c + "_" + attribute, value).system ==
      if ParseFlag(value).Some? then t.system[VariableMapping[attribute] := BoolV(ParseFlag(value).value)]
      else t.system
  {
    assert c + "_" + attribute == c + ['_'] + attribute;
    SplitOnceUnique(c, attribute, '_');
  }

  /**
   * A poll keeps the last value of every `cust_..._name` key it carries: a
   * custom-name pair with no later pair under the same key is in the name
   * table after the name pass, and the routing pass leaves it there.
   */
  lemma {:induction false} LastCustomNameKept(t: Tables, data: seq<(string, string)>, i: nat)
    requires i < |data| && IsCustomNameEntry(data[i].0)
    requires forall j | i < j < |data| :: data[j].0 != data[i].0
    ensures data[i].0 in CollectCustomNames(t, data).customNames
    ensures CollectCustomNames(t, data).customNames[data[i].0] == data[i].1
    ensures Process(t, data).customNames[data[i].0] == data[i].1
  {
    var init := data[..|data| - 1];
    if i < |data| - 1 {
      LastCustomNameKept(t, init, i);
    }
  }

  /** The controller index is dropped: which controller a key names does not matter. */
  lemma ControllerIndexDropped(t: Tables, c1: string, c2: string, attribute: string, value: string)
    requires '_' !in c1 && '_' !in c2
    ensures ControllerStep(t, c1 + "_" + attribute, value) == ControllerStep(t, c2 + "_" + attribute, value)
  {
    SplitOnceUnique(c1, attribute, '_');
    SplitOnceUnique(c2, attribute, '_');
  }

  /** Of two controllers reporting the same aggregate in one poll, the later one's reading is kept. */
  lemma LaterControllerAggregateWins(t: Tables, k1: string, v1: string, k2: string, v2: string, c2: string, aggregate: string)
    requires Classify(k1) == ControllerKey && Classify(k2) == ControllerKey
    requires '_' !in c2 && k2 == c2 + "_" + aggregate
    requires aggregate in AggregateNames && ConvertTemperature(v2).Some?
    ensures var u := ApplyAll(t, [(k1, v1), (k2, v2)]);
      aggregate in u.system && u.system[aggregate] == RealV(ConvertTemperature(v2).value)
  {
    SplitOnceUnique(c2, aggregate, '_');
    var data := [(k1, v1), (k2, v2)];
    assert data[..1] == [(k1, v1)] && data[..1][..0] == [];
  }

  lemma DispatchNeverStoresOutputModuleLost(t: Tables, key: string, value: string)
    requires "output_module_lost" !in t.system
    ensures "output_module_lost" !in Dispatch(t, key, value).system
  {
    OutputModuleEntry();
  }

  /**
   * The only system-table entry that names `output_module_lost` lacks the `sys_`
   * prefix, so no poll ever stores it.
   */
  lemma {:induction false} OutputModuleLostNeverStored(t: Tables, data: seq<(string, string)>)
    requires "output_module_lost" !in t.system
    ensures "output_module_lost" !in Process(t, data).system
  {
    var named := CollectCustomNames(t, data);
    CustomNamesLeaveSystem(t, data);
    ApplyAllNeverStoresOutputModuleLost(named, data);
  }

  lemma {:induction false} CustomNamesLeaveSystem(t: Tables, data: seq<(string, string)>)
    ensures CollectCustomNames(t, data).system == t.system
  {
    if data != [] {
      CustomNamesLeaveSystem(t, data[..|data| - 1]);
    }
  }

  lemma {:induction false} ApplyAllNeverStoresOutputModuleLost(t: Tables, data: seq<(string, string)>)
    requires "output_module_lost" !in t.system
    ensures "output_module_lost" !in ApplyAll(t, data).system
  {
    if data != [] {
      ApplyAllNeverStoresOutputModuleLost(t, data[..|data| - 1]);
      DispatchNeverStoresOutputModuleLost(ApplyAll(t, data[..|data| - 1]), data[|data| - 1].0, data[|data| - 1].1);
    }
  }

  /**
   * Polls accumulate: whatever one poll stored is still there after the next,
   * whichever attributes the next poll carries.
   */
  lemma PollsAccumulate(t: Tables, first: seq<(string, string)>, second: seq<(string, string)>, id: string, field: string)
    requires id in Process(t, first).thermostats && field in Process(t, first).thermostats[id].data
    ensures var u := Process(Process(t, first), second);
      id in u.thermostats && field in u.thermostats[id].data
  {
  }

  // ---------------------------------------------------------------------
  // Custom names

  function ThermostatNameKey(id: string): string {
    "cust_" + id + "_name"
  }

  /** Python's `s[1:]`, which is empty on an empty string. */
  function DropFirst(s: string): string {
    if s == [] then [] else s[1..]
  }

  /** `cust_Controller<n>_Name`, `n` being the first segment of the id without its leading character. */
  function ControllerNameKey(id: string): string {
    "cust_Controller" + DropFirst(Split(id, '_')[0]) + "_Name"
  }

  /**
   * `get_custom_name`: the thermostat's own name, else its controller's name, else
   * the id with its underscores turned into spaces.
   */
  function CustomName(names: map<string, string>, id: string): (r: string)
    ensures ThermostatNameKey(id) in names ==> r == names[ThermostatNameKey(id)]
    ensures ThermostatNameKey(id) !in names && StartsWith(id, "C") && ControllerNameKey(id) in names ==>
      r == names[ControllerNameKey(id)]
    ensures ThermostatNameKey(id) !in names && !(StartsWith(id, "C") && ControllerNameKey(id) in names) ==>
      r == Join(' ', Split(id, '_'))
  {
    ReplaceCharIsSplitJoin(id, '_', ' ');
    if ThermostatNameKey(id) in names then names[ThermostatNameKey(id)]
    else if StartsWith(id, "C") && ControllerNameKey(id) in names then names[ControllerNameKey(id)]
    else ReplaceChar(id, '_', ' ')
  }

  /**
   * Processing stores only keys ending in lower-case `_name`, and a controller
   * name key ends in `_Name`: on tables built by polling, the controller lookup
   * never succeeds.
   */
  lemma ControllerNameNeverFound(t: Tables, id: string)
    ensures TablesValid(t) ==> ControllerNameKey(id) !in t.customNames
    ensures TablesValid(t) ==>
      CustomName(t.customNames, id) ==
        if ThermostatNameKey(id) in t.customNames then t.customNames[ThermostatNameKey(id)]
        else Join(' ', Split(id, '_'))
  {
    var k := ControllerNameKey(id);
    assert k[|k| - 4] == 'N';
    assert !IsCustomNameEntry(k);
  }

  lemma CustomNameFixtures()
    ensures CustomName(map["cust_C1_T1_name" := "Living Room"], "C1_T1") == "Living Room"
    ensures CustomName(map[], "C1_T1") == "C1 T1"
  {
    assert ThermostatNameKey("C1_T1") == "cust_C1_T1_name";
    assert ReplaceChar("C1_T1", '_', ' ') == "C1 T1";
  }

  // ---------------------------------------------------------------------
  // A whole poll

  lemma ParseFixtures()
    ensures ParseInt("45") == Some(45) && ParseInt("1") == Some(1) && ParseInt("698") == Some(698)
  {
    ParseIntToString(45);
    ParseIntToString(1);
    ParseIntToString(698);
    assert IntToString(45) == "45";
    assert IntToString(1) == "1";
    assert IntToString(698) == "698";
  }

  /** Keys that start with a controller name are never custom-name entries: the first pass leaves the tables alone. */
  lemma {:induction false} NoNamesCollected(t: Tables, c: string, data: seq<(string, string)>)
    requires StartsWith(c, "C")
    requires forall i | 0 <= i < |data| :: StartsWith(data[i].0, c)
    ensures CollectCustomNames(t, data) == t
  {
    if data != [] {
      var key := data[|data| - 1].0;
      NoNamesCollected(t, c, data[..|data| - 1]);
      assert key[0] == c[0] == 'C';
    }
  }

  /** The first reading of a thermostat creates its record, with the reading stored in it. */
  lemma FirstReading(t: Tables, c: string, th: string, attribute: string, value: string)
    requires t == Empty
    requires '_' !in c && '_' !in th && StartsWith(c, "C") && StartsWith(th, "T")
    ensures var u := Dispatch(t, c + "_" + th + "_" + attribute, value);
      var id := c + "_" + th;
      && u.order == [id]
      && u.thermostats.Keys == {id}
      && u.thermostats[id].data == StoreReading(map[], attribute, value)
      && u.system == map[] && u.customNames == map[]
  {
    ThermostatReadingStored(t, c, th, attribute, value);
  }

  /** A later reading for the same thermostat is merged into its existing record. */
  lemma NextReading(t: Tables, c: string, th: string, attribute: string, value: string)
    requires '_' !in c && '_' !in th && StartsWith(c, "C") && StartsWith(th, "T")
    requires t.order == [c + "_" + th] && t.thermostats.Keys == {c + "_" + th}
    ensures var u := Dispatch(t, c + "_" + th + "_" + attribute, value);
      var id := c + "_" + th;
      && u.order == [id]
      && u.thermostats.Keys == {id}
      && u.thermostats[id].data == StoreReading(t.thermostats[id].data, attribute, value)
      && u.system == t.system && u.customNames == t.customNames
  {
    ThermostatReadingStored(t, c, th, attribute, value);
  }

  /** `C<i>_<attribute>` with no `T` in the attribute is a controller key whose attribute is everything after `C<i>_`. */
  lemma ControllerKeyOf(c: string, attribute: string)
    requires '_' !in c && StartsWith(c, "C") && 'T' !in attribute
    ensures Classify(c + "_" + attribute) == ControllerKey
    ensures SplitOnce(c + "_" + attribute, '_') == Some((c, attribute))
  {
    var key := c + "_" + attribute;
    forall i | 0 <= i <= |key| - 2
      ensures !OccursAt(key, "_T", i)
    {
      if i < |c| {
        assert key[i..i + 2][0] == c[i] != '_';
      } else {
        assert key[i + 1] == attribute[i - |c|] != 'T';
        assert key[i..i + 2][1] != "_T"[1];
      }
    }
    assert key[..1] == c[..1];
    assert key == c + ['_'] + attribute;
    SplitOnceUnique(c, attribute, '_');
  }

  /** A controller's `average_room_temperature` key is routed to the controller step and stored under its bare name. */
  lemma AverageRoomReading(t: Tables, c: string, value: string)
    requires '_' !in c && StartsWith(c, "C")
    requires ConvertTemperature(value).Some?
    ensures var key := c + "_average_room_temperature";
      && Classify(key) == ControllerKey
      && Dispatch(t, key, value) ==
           t.(system := t.system["average_room_temperature" := RealV(ConvertTemperature(value).value)])
  {
    var attribute := "average_room_temperature";
    assert 'T' !in attribute;
    assert c + "_average_room_temperature" == c + "_" + attribute;
    ControllerKeyOf(c, attribute);
    assert attribute in AggregateNames;
  }

  /** One step of the second pass: the last pair is dispatched on the tables the earlier pairs built. */
  lemma ApplyAllLast(t: Tables, data: seq<(string, string)>)
    requires data != []
    ensures ApplyAll(t, data) == Dispatch(ApplyAll(t, data[..|data| - 1]), data[|data| - 1].0, data[|data| - 1].1)
  {
  }

  /** Two readings of one thermostat on fresh tables give one record holding both. */
  lemma TwoReadings(c: string, th: string, data: seq<(string, string)>)
    requires '_' !in c && '_' !in th && StartsWith(c, "C") && StartsWith(th, "T")
    requires |data| == 2
    requires StartsWith(data[0].0, c + "_" + th + "_") && StartsWith(data[1].0, c + "_" + th + "_")
    ensures var u := ApplyAll(Empty, data);
      var id := c + "_" + th;
      var prefix := |id| + 1;
      && u.order == [id]
      && u.thermostats.Keys == {id}
      && u.thermostats[id].data ==
           StoreReading(StoreReading(map[], data[0].0[prefix..], data[0].1), data[1].0[prefix..], data[1].1)
      && u.system == map[] && u.customNames == map[]
  {
    var prefix := |c + "_" + th| + 1;
    assert data[0].0 == c + "_" + th + "_" + data[0].0[prefix..];
    assert data[1].0 == c + "_" + th + "_" + data[1].0[prefix..];
    ApplyAllLast(Empty, data[..1]);
    assert data[..1][..0] == [];
    FirstReading(Empty, c, th, data[0].0[prefix..], data[0].1);
    ApplyAllLast(Empty, data);
    assert data[..1] == data[..|data| - 1];
    NextReading(ApplyAll(Empty, data[..1]), c, th, data[1].0[prefix..], data[1].1);
  }

  /**
   * A whole poll on fresh tables: two readings of one thermostat and its
   * controller's average room temperature give one record holding both
   * readings and one system entry, with nothing named.
   */
  lemma ExamplePoll(c: string, th: string, a1: string, v1: string, a2: string, v2: string, v3: string)
    requires '_' !in c && '_' !in th && StartsWith(c, "C") && StartsWith(th, "T")
    requires ConvertTemperature(v3).Some?
    ensures var u := Process(Empty,
        [(c + "_" + th + "_" + a1, v1), (c + "_" + th + "_" + a2, v2), (c + "_average_room_temperature", v3)]);
      var id := c + "_" + th;
      && u.order == [id]
      && u.thermostats.Keys == {id}
      && u.thermostats[id].data == StoreReading(StoreReading(map[], a1, v1), a2, v2)
      && u.system == map["average_room_temperature" := RealV(ConvertTemperature(v3).value)]
      && u.customNames == map[]
  {
    var id := c + "_" + th;
    var data := [(id + "_" + a1, v1), (id + "_" + a2, v2), (c + "_average_room_temperature", v3)];
    forall i | 0 <= i < 3
      ensures StartsWith(data[i].0, c)
    {
      assert data[i].0[..|c|] == c;
    }
    NoNamesCollected(Empty, c, data);
    var first := data[..2];
    assert first[0].0[..|id| + 1] == id + "_" && first[1].0[..|id| + 1] == id + "_";
    assert first[0].0[|id| + 1..] == a1 && first[1].0[|id| + 1..] == a2;
    TwoReadings(c, th, first);
    ApplyAllLast(Empty, data);
    AverageRoomReading(ApplyAll(Empty, first), c, v3);
  }

  /** A humidity reading of `45` is stored as the integer 45 under "humidity". */
  lemma HumidityReadingFixture()
    ensures StoreReading(map[], "rh", "45") == map["humidity" := IntV(45)]
  {
    ParseIntToString(45);
    assert IntToString(45) == "45";
    assert KindOf("rh") == IntKind;
    assert ConvertValue("rh", "45") == Some(IntV(45));
    assert "rh" in VariableMapping && VariableMapping["rh"] == "humidity";
  }

  /** A demand flag of `1` is stored as true under "demand_led", next to what the record already holds. */
  lemma DemandLedReadingFixture()
    ensures StoreReading(map["humidity" := IntV(45)], "stat_demand_led", "1") ==
      map["humidity" := IntV(45), "demand_led" := BoolV(true)]
  {
    ParseIntToString(1);
    assert IntToString(1) == "1";
    assert "stat_demand_led" in VariableMapping && VariableMapping["stat_demand_led"] == "demand_led";
    assert KindOf("stat_demand_led") == FlagKind;
  }

  /** A room temperature of `698` tenths of a degree Fahrenheit is 21.0 °C. */
  lemma RoomTemperatureFixture()
    ensures ConvertTemperature("698") == Some(21.0)
  {
    ParseIntToString(698);
    assert IntToString(698) == "698";
  }
}
