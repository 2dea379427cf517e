/**
  The sensor simulator (src/sensor_simulator.cpp): a temperature that follows
  a simulated heater under a hysteresis thermostat, and humidity and pressure
  that bounce between fixed limits. All quantities are hundredths, as in the
  firmware's state; the setpoint and hysteresis, floats in the firmware, are
  hundredths of a degree here.
 */
module SensorSim {
  import opened Base

  const TempMin := 500
  const TempMax := 3500
  const HumidityMin := 4000
  const HumidityMax := 6000
  const HumidityStep := 5
  const PressureMin := 99000
  const PressureMax := 101000
  const PressureStep := 5

  datatype SimState = SimState(
    temp: int,
    humidity: int,
    pressure: int,
    humidityDir: int,
    pressureDir: int,
    heaterOn: bool,
    setpoint: int,
    hysteresis: int)

  /** Each oscillation direction is +1 or -1. */
  predicate Directed(s: SimState)
  {
    (s.humidityDir == 1 || s.humidityDir == -1) && (s.pressureDir == 1 || s.pressureDir == -1)
  }

  /**
    `sensor_sim_init`: temperature already in hundredths, humidity in percent
    and pressure in hPa scaled by 100, both directions rising, heater off,
    setpoint 20.00 degrees.
   */
  function Init(temp: int, humidity: u8, pressure: u16, hysteresis: int): (s: SimState)
    ensures s.temp == temp && s.humidity == 100 * humidity && s.pressure == 100 * pressure
    ensures s.humidityDir == 1 && s.pressureDir == 1 && Directed(s)
    ensures !s.heaterOn && s.setpoint == 2000 && s.hysteresis == hysteresis
  {
    SimState(temp, 100 * humidity, 100 * pressure, 1, 1, false, 2000, hysteresis)
  }

  /**
    One bounce step: move by `dir * step`, then pin to the top and turn down,
    or pin to the bottom and turn up.
   */
  function Bounce(v: int, dir: int, step: int, lo: int, hi: int): (r: (int, int))
    requires lo < hi
    ensures lo <= r.0 <= hi
    ensures v + dir * step >= hi ==> r == (hi, -1)
    ensures lo < v + dir * step < hi ==> r == (v + dir * step, dir)
    ensures v + dir * step <= lo ==> r == (lo, 1)
  {
    var w := v + dir * step;
    if w >= hi then (hi, -1)
    else if w <= lo then (lo, 1)
    else (w, dir)
  }

  /**
    `sensor_sim_update`, once per second: the temperature moves one hundredth
    toward the heater's effect and is clamped to [5.00, 35.00]; the heater
    switches off at or above setpoint + hysteresis and on below the setpoint,
    judged on the new temperature; humidity and pressure take a bounce step.
   */
  function Update(s: SimState): (r: SimState)
    ensures TempMin <= r.temp <= TempMax
    ensures var moved := if s.heaterOn then s.temp + 1 else s.temp - 1;
            r.temp == Max(TempMin, Min(TempMax, moved))
    ensures s.heaterOn && !r.heaterOn <==> s.heaterOn && r.temp >= s.setpoint + s.hysteresis
    ensures !s.heaterOn && r.heaterOn <==> !s.heaterOn && r.temp < s.setpoint
    ensures HumidityMin <= r.humidity <= HumidityMax
    ensures PressureMin <= r.pressure <= PressureMax
    ensures var w := s.humidity + s.humidityDir * HumidityStep;
            && (w >= HumidityMax ==> r.humidity == HumidityMax && r.humidityDir == -1)
            && (w <= HumidityMin ==> r.humidity == HumidityMin && r.humidityDir == 1)
            && (HumidityMin < w < HumidityMax ==> r.humidity == w && r.humidityDir == s.humidityDir)
    ensures var w := s.pressure + s.pressureDir * PressureStep;
            && (w >= PressureMax ==> r.pressure == PressureMax && r.pressureDir == -1)
            && (w <= PressureMin ==> r.pressure == PressureMin && r.pressureDir == 1)
            && (PressureMin < w < PressureMax ==> r.pressure == w && r.pressureDir == s.pressureDir)
    ensures r.setpoint == s.setpoint && r.hysteresis == s.hysteresis
    ensures Directed(s) ==> Directed(r)
  {
    var t := if s.heaterOn then s.temp + 1 else s.temp - 1;
    var t := if t < TempMin then TempMin else t;
    var t := if t > TempMax then TempMax else t;
    var heater := if s.heaterOn then !(t >= s.setpoint + s.hysteresis) else t < s.setpoint;
    var (h, hd) := Bounce(s.humidity, s.humidityDir, HumidityStep, HumidityMin, HumidityMax);
    var (p, pd) := Bounce(s.pressure, s.pressureDir, PressureStep, PressureMin, PressureMax);
    SimState(t, h, p, hd, pd, heater, s.setpoint, s.hysteresis)
  }

  /** `sensor_sim_set_setpoint`: only the setpoint changes. */
  function SetSetpoint(s: SimState, setpoint: int): (r: SimState)
    ensures r.setpoint == setpoint
    ensures r.(setpoint := s.setpoint) == s
  {
    if setpoint != s.setpoint then s.(setpoint := setpoint) else s
  }

  /** `sensor_sim_get_humidity`: rounded to whole percent, stored in a `uint8_t`. */
  function HumidityPercent(s: SimState): (r: u8)
    ensures 0 <= s.humidity <= 25549 ==> 100 * r - 50 <= s.humidity < 100 * r + 50
  {
    CDiv(s.humidity + 50, 100) % 0x100
  }

  /** `sensor_sim_get_pressure`: rounded to whole hPa, stored in a `uint16_t`. */
  function PressureHpa(s: SimState): (r: u16)
    ensures 0 <= s.pressure <= 6553549 ==> 100 * r - 50 <= s.pressure < 100 * r + 50
  {
    CDiv(s.pressure + 50, 100) % 0x1_0000
  }

  /** The getters round half up: the reading is within half a unit of the hundredths. */
  lemma GettersRound(s: SimState)
    requires 0 <= s.humidity <= 25549 && 0 <= s.pressure <= 6553549
    ensures 100 * HumidityPercent(s) - 50 <= s.humidity < 100 * HumidityPercent(s) + 50
    ensures 100 * PressureHpa(s) - 50 <= s.pressure < 100 * PressureHpa(s) + 50
  {
  }

  /** After any update the getters read 40..60 percent and 990..1010 hPa. */
  lemma GettersAfterUpdate(s: SimState)
    ensures 40 <= HumidityPercent(Update(s)) <= 60
    ensures 990 <= PressureHpa(Update(s)) <= 1010
  {
    var r := Update(s);
    assert 4050 <= r.humidity + 50 <= 6050;
    assert 99050 <= r.pressure + 50 <= 101050;
  }

  /** The getters give back the values the simulator was started with. */
  lemma GettersAfterInit(temp: int, humidity: u8, pressure: u16, hysteresis: int)
    ensures HumidityPercent(Init(temp, humidity, pressure, hysteresis)) == humidity
    ensures PressureHpa(Init(temp, humidity, pressure, hysteresis)) == pressure
  {
  }

  /** The state after n updates. */
  function Run(s: SimState, n: nat): SimState
  {
    if n == 0 then s else Update(Run(s, n - 1))
  }

  /**
    From any state, after at least one update every reading is inside its
    band and, once started, both directions stay +1 or -1.
   */
  lemma {:induction false} RunStaysInBands(s: SimState, n: nat)
    ensures var r := Run(s, n);
            && (n >= 1 ==>
                  && TempMin <= r.temp <= TempMax
                  && HumidityMin <= r.humidity <= HumidityMax
                  && PressureMin <= r.pressure <= PressureMax)
            && (Directed(s) ==> Directed(r))
  {
    if n >= 1 {
      RunStaysInBands(s, n - 1);
    }
  }

  /**
    With the heater on and the room below the switch-off point, the
    temperature rises by one hundredth per update until it reaches it.
   */
  lemma {:induction false} HeaterWarms(s: SimState, n: nat)
    requires s.heaterOn && TempMin <= s.temp && s.temp + n < s.setpoint + s.hysteresis && s.temp + n <= TempMax
    ensures Run(s, n).temp == s.temp + n && Run(s, n).heaterOn
    ensures Run(s, n).setpoint == s.setpoint && Run(s, n).hysteresis == s.hysteresis
  {
    if n > 0 {
      HeaterWarms(s, n - 1);
    }
  }
}
