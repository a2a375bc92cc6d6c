/**
 * The constant tables and intervals of the integration: the per-thermostat
 * attribute table, the system attribute table, the polling interval and the
 * availability window, with the facts about them that the coordinator relies on.
 * Durations are whole seconds.
 */
module Constants {
  import opened Text

  /** SCAN_INTERVAL: 30 seconds between polls. */
  const ScanInterval: int := 30

  /** UNAVAILABLE_TIME: 5 minutes without a response before data is unavailable. */
  const UnavailableTime: int := 5 * 60

  /** INT16_MAX, the controller's "not available / no sensor" reading. */
  const Sentinel: int := 32767

  /** VARIABLE_MAPPING: raw attribute suffix to normalized attribute name. */
  const VariableMapping: map<string, string> := map[
    "rh" := "humidity",
    "rh_setpoint" := "humidity_setpoint",
    "rh_control" := "humidity_control",
    "stat_cb_rh_cool_shutdown" := "humidity_cool_shutdown",
    "head1_valve_pos_percent" := "valve_position_1",
    "head2_valve_pos_percent" := "valve_position_2",
    "stat_cb_actuator" := "actuator_status",
    "stat_battery_error" := "battery_error",
    "stat_demand_led" := "demand_led",
    "stat_demand" := "controller_demand",
    "maximum_floor_setpoint" := "floor_temp_max",
    "minimum_floor_setpoint" := "floor_temp_min",
    "stat_cb_floor_limit_reach" := "floor_limit_reached",
    "external_temperature" := "external_temperature",
    "average_room_temperature" := "average_room_temperature",
    "supply_temperature" := "supply_temperature",
    "outdoor_temperature" := "outdoor_temperature",
    "stat_rf_error" := "rf_error",
    "stat_rf_low_sig_warning" := "rf_low_signal",
    "stat_air_sensor_error" := "air_sensor_error",
    "stat_rh_sensor_error" := "rh_sensor_error",
    "stat_valve_position_err" := "valve_position_error",
    "stat_tamper_alarm" := "tamper_alarm",
    "stat_general_system_alarm" := "general_system_alarm",
    "eco_offset" := "eco_offset",
    "stat_eco_program" := "eco_program",
    "stat_cb_eco_forced" := "eco_forced",
    "mode_comfort_eco" := "mode_comfort_eco",
    "sw_version" := "sw_version",
    "thermostat_type" := "thermostat_type",
    "hw_type" := "hw_type"
  ]

  /** SYSTEM_VARIABLE_MAPPING: exact system variable name to normalized name. */
  const SystemVariableMapping: map<string, string> := map[
    "sys_controller_1_presence" := "controller_presence",
    "sys_controller_1_lost" := "controller_lost",
    "stat_out_module_com_lost" := "output_module_lost",
    "sys_pump_management" := "pump_management",
    "sys_valve_exercise" := "valve_exercise",
    "sys_heat_cool_mode" := "heat_cool_mode"
  ]

  /** The three controller-level temperature aggregates. */
  const AggregateNames: set<string> :=
    {"average_room_temperature", "supply_temperature", "outdoor_temperature"}

  ghost predicate Injective(m: map<string, string>) {
    forall a, b | a in m && b in m && a != b :: m[a] != m[b]
  }

  /**
   * Injectivity, checked separately on key pairs grouped by their lengths: pairs
   * of different lengths (the shorter key in one of three length bands) and
   * pairs of equal length.
   */
  lemma InjectiveByLength(m: map<string, string>, k1: int, k2: int)
    requires forall a, b | a in m && b in m && |a| < |b| && |a| <= k1 :: m[a] != m[b]
    requires forall a, b | a in m && b in m && |a| < |b| && k1 < |a| <= k2 :: m[a] != m[b]
    requires forall a, b | a in m && b in m && |a| < |b| && k2 < |a| :: m[a] != m[b]
    requires forall a, b | a in m && b in m && |a| == |b| && a != b :: m[a] != m[b]
    ensures Injective(m)
  {
    forall a, b | a in m && b in m && a != b
      ensures m[a] != m[b]
    {
      if |b| < |a| {
        assert m[b] != m[a];
      }
    }
  }

  lemma VariableMappingShortKeys()
    ensures forall a, b | a in VariableMapping && b in VariableMapping && |a| < |b| && |a| <= 12 ::
      VariableMapping[a] != VariableMapping[b]
  {
  }

  lemma VariableMappingMediumKeys()
    ensures forall a, b | a in VariableMapping && b in VariableMapping && |a| < |b| && 12 < |a| <= 17 ::
      VariableMapping[a] != VariableMapping[b]
  {
  }

  lemma VariableMappingLongKeys()
    ensures forall a, b | a in VariableMapping && b in VariableMapping && |a| < |b| && 17 < |a| ::
      VariableMapping[a] != VariableMapping[b]
  {
  }

  lemma VariableMappingSameLength()
    ensures forall a, b | a in VariableMapping && b in VariableMapping && |a| == |b| && a != b ::
      VariableMapping[a] != VariableMapping[b]
  {
  }

  /** No two raw attributes share a normalized name, so two raw keys of one thermostat never collide. */
  lemma VariableMappingInjective()
    ensures Injective(VariableMapping)
  {
    VariableMappingShortKeys();
    VariableMappingMediumKeys();
    VariableMappingLongKeys();
    VariableMappingSameLength();
    InjectiveByLength(VariableMapping, 12, 17);
  }

  /** The controller aggregates map to themselves, the bare names the controller step writes. */
  lemma AggregatesMapToThemselves()
    ensures forall a | a in AggregateNames :: a in VariableMapping && VariableMapping[a] == a
  {
  }

  /**
   * The one system entry without the `sys_` prefix is the only one named
   * `output_module_lost`, and no thermostat attribute maps to that name.
   */
  lemma OutputModuleEntry()
    ensures "stat_out_module_com_lost" in SystemVariableMapping
    ensures !StartsWith("stat_out_module_com_lost", "sys_")
    ensures forall k | k in SystemVariableMapping && SystemVariableMapping[k] == "output_module_lost" ::
      k == "stat_out_module_com_lost"
    ensures forall a | a in VariableMapping :: VariableMapping[a] != "output_module_lost"
    ensures "output_module_lost" !in AggregateNames
  {
    assert "stat_out_module_com_lost"[..4][1] != "sys_"[1];
  }

  /**
   * A response is still fresh for nine scan intervals and stale from the tenth:
   * data stays available while up to nine polls in a row are missed.
   */
  lemma AvailabilityWindowInScans(k: nat)
    ensures k * ScanInterval < UnavailableTime <==> k < 10
  {
  }
}
