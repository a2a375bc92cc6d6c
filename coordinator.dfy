/**
 * `UponorCompanionCoordinator`: the object that owns the discovered thermostats,
 * the system table, the custom names and the two timestamps, and updates them
 * in place once per polling cycle. Each update method is proved to leave the
 * object in the state the matching function of `Translate` or `Availability`
 * computes from the old state; the controller's two calls are parameters of
 * `Refresh`.
 */
module Coordinator {
  import opened Wrappers
  import opened Text
  import opened Constants
  import opened Convert
  import opened Relevance
  import opened Translate
  import opened Availability

  /** The dictionary a cycle hands back: both tables and the time it stands for. */
  datatype Snapshot = Snapshot(
    thermostats: map<string, ThermostatRecord>,
    system: map<string, Value>,
    lastUpdate: int)

  /** How a cycle ends: fresh data, cached data after a tolerated failure, or `UpdateFailed` raised. */
  datatype CycleResult = Fresh(snapshot: Snapshot) | Cached(snapshot: Snapshot) | UpdateFailed

  /** `{k: v for k, v in all_data.items() if k in relevant_variables}`: the kept pairs, in the order of `all_data`. */
  function SelectRelevant(all: seq<(string, string)>, relevant: seq<string>): (r: seq<(string, string)>)
    ensures |r| <= |all|
    ensures forall p :: p in r <==> p in all && p.0 in relevant
    ensures IsSubsequence(r, all)
  {
    if all == [] then []
    else
      var last := all[|all| - 1];
      assert all == all[..|all| - 1] + [last];
      var kept := SelectRelevant(all[..|all| - 1], relevant);
      if last.0 in relevant then
        assert (kept + [last])[..|kept|] == kept;
        kept + [last]
      else
        assert kept == [] || IsSubsequence(kept, all[..|all| - 1]);
        kept
  }

  /**
   * The pairs one cycle processes: nothing when discovery returned no names or
   * the bulk read returned nothing; otherwise the read pairs whose key is a
   * relevant discovered name.
   */
  function CycleData(discovered: seq<string>, fetched: Option<seq<(string, string)>>): (data: seq<(string, string)>)
    ensures discovered == [] || fetched.None? ==> data == []
    ensures discovered != [] && fetched.Some? ==> IsSubsequence(data, fetched.value)
    ensures forall p :: p in data <==>
      fetched.Some? && p in fetched.value && p.0 in discovered && IsRelevant(p.0)
  {
    if discovered == [] then []
    else
      match fetched
      case None => []
      case Some(all) => SelectRelevant(all, Filtered(discovered))
  }

  /** Every pair a cycle processes is one the controller sent, under a relevant discovered name. */
  lemma CycleDataRelevant(discovered: seq<string>, fetched: Option<seq<(string, string)>>, i: nat)
    requires i < |CycleData(discovered, fetched)|
    ensures var p := CycleData(discovered, fetched)[i];
      fetched.Some? && p in fetched.value && p.0 in discovered && IsRelevant(p.0)
  {
    var data := CycleData(discovered, fetched);
    assert data[i] in data;
  }

  class UponorCompanionCoordinator {
    var discoveredThermostats: map<string, ThermostatRecord>
    var thermostatOrder: seq<string>
    var systemData: map<string, Value>
    var customNames: map<string, string>
    var lastSuccessfulUpdate: Option<int>
    var lastResponseTime: Option<int>

    /** The three tables as one value. */
    function Current(): Tables
      reads this
    {
      Tables(discoveredThermostats, thermostatOrder, systemData, customNames)
    }

    /** The two timestamps as one value. */
    function ClockState(): Clock
      reads this
    {
      Clock(lastSuccessfulUpdate, lastResponseTime)
    }

    ghost predicate Valid()
      reads this
    {
      TablesValid(Current()) && ClockValid(ClockState())
    }

    /** Empty tables and no timestamps. */
    constructor()
      ensures Current() == Empty && ClockState() == Start
      ensures Valid()
    {
      discoveredThermostats := map[];
      thermostatOrder := [];
      systemData := map[];
      customNames := map[];
      lastSuccessfulUpdate := None;
      lastResponseTime := None;
    }

    /** `_process_thermostat_data`. */
    method ProcessThermostatData(key: string, value: string)
      modifies this
      ensures Current() == ThermostatStep(old(Current()), key, value)
      ensures ClockState() == old(ClockState())
    {
      var parts := Split(key, '_');
      if |parts| < 3 {
        assert ParseThermostatKey(key).None?;
        return;
      }
      var controller := parts[0];
      var thermostat := parts[1];
      var attribute := Join('_', parts[2..]);
      var id := controller + "_" + thermostat;
      assert ParseThermostatKey(key) == Some(ThermostatKeyParts(controller, thermostat, attribute));
      var thermostats := discoveredThermostats;
      if id !in thermostats {
        thermostats := thermostats[id := ThermostatRecord(id, controller, thermostat, map[])];
        thermostatOrder := thermostatOrder + [id];
      }
      var record := thermostats[id];
      if attribute in VariableMapping {
        var mappedName := VariableMapping[attribute];
        var processed := ConvertValue(attribute, value);
        if processed.Some? {
          thermostats := thermostats[id := record.(data := record.data[mappedName := processed.value])];
        }
      }
      assert thermostats == discoveredThermostats[id := record.(data := StoreReading(record.data, attribute, value))];
      discoveredThermostats := thermostats;
    }

    /** `_process_controller_data`. */
    method ProcessControllerData(key: string, value: string)
      modifies this
      ensures Current() == ControllerStep(old(Current()), key, value)
      ensures ClockState() == old(ClockState())
    {
      var parts := SplitOnce(key, '_');
      if parts.None? {
        return;
      }
      var attribute := parts.value.1;
      if attribute == "average_room_temperature" {
        var temp := ConvertTemperature(value);
        if temp.Some? {
          systemData := systemData["average_room_temperature" := RealV(temp.value)];
        }
      } else if attribute == "supply_temperature" {
        var temp := ConvertTemperature(value);
        if temp.Some? {
          systemData := systemData["supply_temperature" := RealV(temp.value)];
        }
      } else if attribute == "outdoor_temperature" {
        var temp := ConvertTemperature(value);
        if temp.Some? {
          systemData := systemData["outdoor_temperature" := RealV(temp.value)];
        }
      } else if StartsWith(attribute, "stat_") {
        if attribute in VariableMapping {
          var mappedName := VariableMapping[attribute];
          var raw := ParseInt(value);
          if raw.Some? && raw.value != Sentinel {
            systemData := systemData[mappedName := BoolV(raw.value != 0)];
          }
        }
      }
    }

    /** `_process_system_data`. */
    method ProcessSystemData(key: string, value: string)
      modifies this
      ensures Current() == SystemStep(old(Current()), key, value)
      ensures ClockState() == old(ClockState())
    {
      if key in SystemVariableMapping {
        var mappedName := SystemVariableMapping[key];
        var raw := ParseInt(value);
        if raw.Some? && raw.value != Sentinel {
          systemData := systemData[mappedName := BoolV(raw.value != 0)];
        }
      }
    }

    /** `_process_data`: the custom-name pass, then the routing pass, both in poll order. */
    method ProcessData(data: seq<(string, string)>)
      modifies this
      ensures Current() == Process(old(Current()), data)
      ensures ClockState() == old(ClockState())
    {
      for i := 0 to |data|
        invariant Current() == CollectCustomNames(old(Current()), data[..i])
        invariant ClockState() == old(ClockState())
      {
        var (key, value) := data[i];
        assert data[..i + 1][..i] == data[..i];
        if StartsWith(key, "cust_") && EndsWith(key, "_name") {
          customNames := customNames[key := value];
        }
      }
      assert data[..|data|] == data;
      ghost var named := Current();
      for i := 0 to |data|
        invariant Current() == ApplyAll(named, data[..i])
        invariant ClockState() == old(ClockState())
      {
        var (key, value) := data[i];
        assert data[..i + 1][..i] == data[..i];
        if Contains(key, "_T") && StartsWith(key, "C") {
          ProcessThermostatData(key, value);
        } else if StartsWith(key, "C") && !Contains(key, "_T") {
          ProcessControllerData(key, value);
        } else if StartsWith(key, "sys_") {
          ProcessSystemData(key, value);
        }
      }
      assert data[..|data|] == data;
    }

    /**
     * `_async_update_data`, with `discover_variables()` and `get_attributes([])`
     * given as `discovered` and `fetched` and `datetime.now()` as `now`.
     */
    method Refresh(discovered: seq<string>, fetched: Option<seq<(string, string)>>, now: int) returns (r: CycleResult)
      requires Valid()
      modifies this
      ensures Valid()
      ensures var data := CycleData(discovered, fetched);
        data != [] ==>
          && Current() == Process(old(Current()), data)
          && ClockState() == AfterSuccess(old(ClockState()), now)
          && r == Fresh(Snapshot(discoveredThermostats, systemData, now))
      ensures var data := CycleData(discovered, fetched);
        data == [] ==>
          && Current() == old(Current())
          && ClockState() == AfterFailure(old(ClockState()), now)
          && (r == UpdateFailed <==> FailureEscalates(old(ClockState()), now))
          && (r != UpdateFailed ==> r == Cached(Snapshot(discoveredThermostats, systemData, now)))
    {
      var data: seq<(string, string)> := [];
      if discovered != [] {
        var relevant := FilterRelevantVariables(discovered);
        if fetched.Some? {
          data := SelectRelevant(fetched.value, relevant);
        }
      }
      assert data == CycleData(discovered, fetched);
      if data == [] {
        if lastSuccessfulUpdate.None? || now - lastSuccessfulUpdate.value > FailureGrace {
          r := UpdateFailed;
        } else {
          lastResponseTime := Some(now);
          r := Cached(Snapshot(discoveredThermostats, systemData, now));
        }
        return;
      }
      ghost var before := Current();
      ProcessData(data);
      assert TablesValid(Current()) by {
        assert Current() == Process(before, data);
      }
      lastSuccessfulUpdate := Some(now);
      lastResponseTime := lastSuccessfulUpdate;
      r := Fresh(Snapshot(discoveredThermostats, systemData, now));
    }

    /** `get_thermostat_data`: the record's attribute map, or an empty map for an unknown id. */
    function GetThermostatData(id: string): (d: map<string, Value>)
      reads this
      ensures id !in discoveredThermostats ==> d == map[]
      ensures id in discoveredThermostats ==> d == discoveredThermostats[id].data
    {
      if id in discoveredThermostats then discoveredThermostats[id].data else map[]
    }

    /** `get_system_data`. */
    function GetSystemData(): (d: map<string, Value>)
      reads this
      ensures d == Current().system
    {
      systemData
    }

    /**
     * `get_custom_name`. On a valid object the controller lookup never hits, so
     * the result is the thermostat's own name or the id with spaces.
     */
    function GetCustomName(id: string): (name: string)
      reads this
      ensures Valid() && ThermostatNameKey(id) in customNames ==> name == customNames[ThermostatNameKey(id)]
      ensures Valid() && ThermostatNameKey(id) !in customNames ==> name == Join(' ', Split(id, '_'))
    {
      ControllerNameNeverFound(Current(), id);
      CustomName(customNames, id)
    }

    /** `thermostats`: every discovered id once, in discovery order. */
    function Thermostats(): (ids: seq<string>)
      reads this
      ensures Valid() ==> forall id :: id in ids <==> id in discoveredThermostats
      ensures Valid() ==> forall i, j | 0 <= i < j < |ids| :: ids[i] != ids[j]
    {
      thermostatOrder
    }

    /** `is_available` at time `now`. */
    function IsAvailableAt(now: int): (available: bool)
      reads this
      ensures available ==> lastResponseTime.Some? && now - lastResponseTime.value < UnavailableTime
      ensures lastResponseTime.Some? && now - lastResponseTime.value < UnavailableTime ==> available
    {
      IsAvailable(ClockState(), now)
    }
  }
}
