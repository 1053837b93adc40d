/** Model of the register protocol of the BME280 driver (src/bme280.c): sensor settings, power mode
    and soft reset, over a bus on which any transaction may fail. */
module Bme280Settings {

  // ---- register bytes ---------------------------------------------------------------------

  /** A control register as its fields: bits 0-1, 2-4 and 5-7. */
  datatype Reg = Reg(low: bv2, mid: bv3, high: bv3)

  /** The BME280_GET_BITS macros with the masks of ctrl_meas and config. */
  function Fields(reg: bv8): Reg
  {
    Reg((reg & 0x03) as bv2, ((reg & 0x1C) >> 2) as bv3, ((reg & 0xE0) >> 5) as bv3)
  }

  /** The BME280_SET_BITS macros with those masks. */
  function SetLow(reg: bv8, data: bv8): bv8 { (reg & !0x03) | (data & 0x03) }

  function SetMid(reg: bv8, data: bv8): bv8 { (reg & !0x1C) | ((data << 2) & 0x1C) }

  function SetHigh(reg: bv8, data: bv8): bv8 { (reg & !0xE0) | ((data << 5) & 0xE0) }

  /** Setting one field stores the low bits of the value there and leaves the other bits alone. */
  lemma MacrosUpdateFields(reg: bv8, data: bv8)
    ensures Fields(SetLow(reg, data)) == Fields(reg).(low := (data & 3) as bv2)
    ensures Fields(SetMid(reg, data)) == Fields(reg).(mid := (data & 7) as bv3)
    ensures Fields(SetHigh(reg, data)) == Fields(reg).(high := (data & 7) as bv3)
  {
  }

  /** The byte of a control register. */
  function Byte(reg: Reg): bv8 { ((reg.high as bv8) << 5) | ((reg.mid as bv8) << 2) | (reg.low as bv8) }

  /** The fields stand in bits 0 and 1, 2 to 4 and 5 to 7 of the byte, and make it up. */
  lemma BitsOfByte(reg: Reg, byte: bv8)
    ensures Byte(reg) & 3 == reg.low as bv8
    ensures (Byte(reg) >> 2) & 7 == reg.mid as bv8 && Byte(reg) >> 5 == reg.high as bv8
    ensures Fields(Byte(reg)) == reg && Byte(Fields(byte)) == byte
  {
  }

  /** A byte with the selected ones of the upper fields stored by the macros. */
  function Filled(reg: bv8, mid: bool, first: bv3, high: bool, second: bv3): bv8
  {
    var r := if mid then SetMid(reg, first as bv8) else reg;
    if high then SetHigh(r, second as bv8) else r
  }

  // ---- the sensor -------------------------------------------------------------------------

  /** The control registers, and the humidity oversampling in effect: a value written to ctrl_hum is
      taken over only by the next write to ctrl_meas. */
  datatype Chip = Chip(ctrlHum: bv3, ctrlMeas: Reg, config: Reg, humidityInEffect: bv3)

  datatype Write = CtrlHum(data: bv8) | CtrlMeas(data: bv8) | Config(data: bv8) | SoftReset

  /** The bytes of a burst read from ctrl_hum on. */
  datatype Image = Image(ctrlHum: bv8, ctrlMeas: bv8, config: bv8)

  function ImageOf(c: Chip): Image { Image(c.ctrlHum as bv8, Byte(c.ctrlMeas), Byte(c.config)) }

  const SLEEP_MODE: bv2 := 0

  const AFTER_RESET := Chip(0, Reg(0, 0, 0), Reg(0, 0, 0), 0)

  function Mode(c: Chip): bv2 { c.ctrlMeas.low }

  /** The sensor's reaction to a register write; outside sleep mode config is write-protected. */
  function Written(c: Chip, w: Write): Chip
  {
    match w
    case CtrlHum(data) => c.(ctrlHum := (data & 7) as bv3)
    case CtrlMeas(data) => c.(ctrlMeas := Fields(data), humidityInEffect := c.ctrlHum)
    case Config(data) => if Mode(c) == SLEEP_MODE then c.(config := Fields(data)) else c
    case SoftReset => AFTER_RESET
  }

  lemma HumidityByte(data: bv3)
    ensures ((((data as bv8) & 7) & 7) as bv3) == data
  {
  }

  /** The humidity oversampling set in ctrl_hum is the one the sensor uses. */
  predicate InEffect(c: Chip) { c.humidityInEffect == c.ctrlHum }

  /** Settings as the macros cut them, to three bits each. */
  datatype Settings = Settings(osrP: bv3, osrT: bv3, osrH: bv3, filter: bv3, standby: bv3)

  /** parse_device_settings. */
  function ParseDeviceSettings(i: Image): Settings
  {
    Settings(((i.ctrlMeas & 0x1C) >> 2) as bv3, ((i.ctrlMeas & 0xE0) >> 5) as bv3, (i.ctrlHum & 0x07) as bv3,
             ((i.config & 0x1C) >> 2) as bv3, ((i.config & 0xE0) >> 5) as bv3)
  }

  /** The settings of the sensor. */
  function SettingsOf(c: Chip): Settings
  {
    Settings(c.ctrlMeas.mid, c.ctrlMeas.high, c.ctrlHum, c.config.mid, c.config.high)
  }

  lemma SettingsParsed(c: Chip)
    ensures ParseDeviceSettings(ImageOf(c)) == SettingsOf(c) && (ImageOf(c).ctrlMeas & 3) as bv2 == Mode(c)
  {
    BitsOfByte(c.ctrlMeas, 0);
    BitsOfByte(c.config, 0);
  }

  /** A selection of settings, one bit each. */
  datatype Selection = Selection(press: bool, temp: bool, hum: bool, filter: bool, standby: bool)

  const ALL_SETTINGS_SEL := Selection(true, true, true, true, true)

  predicate Oversampling(d: Selection) { d.press || d.temp || d.hum }

  predicate FilterStandby(d: Selection) { d.filter || d.standby }

  /** The settings after changing the selected ones to the wanted ones. */
  function Changed(s: Settings, d: Selection, wanted: Settings): Settings
  {
    Settings(
      if d.press then wanted.osrP else s.osrP,
      if d.temp then wanted.osrT else s.osrT,
      if d.hum then wanted.osrH else s.osrH,
      if d.filter then wanted.filter else s.filter,
      if d.standby then wanted.standby else s.standby)
  }

  /** What is left of a selection if the write to ctrl_hum is lost. */
  function Received(d: Selection, lost: bool): Selection { if lost then d.(hum := false) else d }

  /** What is left of the settings if the humidity oversampling is lost after a reset. */
  function Reset(s: Settings, lost: bool): Settings { if lost then s.(osrH := 0) else s }

  /** When losing a write does not matter: a new humidity oversampling needs the later write or equals the
      one that is there, an old one needs the write on the way to sleep or is 0. */
  predicate Harmless(s: Settings, d: Selection, wanted: Settings, lost: bool, lostLater: bool)
  {
    if d.hum then !lostLater || Reset(s, lost).osrH == wanted.osrH else !lost || s.osrH == 0
  }

  /** So exactly then are the settings those wanted. */
  lemma ChangedExactly(s: Settings, d: Selection, wanted: Settings, lost: bool, lostLater: bool)
    ensures Changed(Reset(s, lost), Received(d, lostLater), wanted) == Changed(s, d, wanted) <==>
            Harmless(s, d, wanted, lost, lostLater)
  {
  }

  datatype Status = Ok | CommFail | InvalidOsrMacro

  // ---- the driver -------------------------------------------------------------------------

  /** The sensor behind a bus whose n-th transaction fails, without any effect on the sensor, if
      fails(n). */
  class Driver {
    var chip: Chip
    const fails: nat -> bool
    var transactions: nat

    constructor (chip: Chip, fails: nat -> bool)
      ensures this.chip == chip && this.fails == fails && transactions == 0
    {
      this.chip, this.fails, transactions := chip, fails, 0;
    }

    /** No transaction from number a on and before number b fails. */
    predicate Clear(a: nat, b: nat) { forall n :: a <= n < b ==> !fails(n) }

    /** One read transaction. */
    method Read() returns (status: Status, registers: Image)
      modifies this`transactions
      ensures transactions == old(transactions) + 1
      ensures status == if fails(old(transactions)) then CommFail else Ok
      ensures status == Ok ==> registers == ImageOf(chip)
    {
      registers := ImageOf(if fails(transactions) then AFTER_RESET else chip);
      status := if fails(transactions) then CommFail else Ok;
      transactions := transactions + 1;
    }

    method SetReg(w: Write) returns (status: Status)
      modifies this
      ensures transactions == old(transactions) + 1
      ensures status == if fails(old(transactions)) then CommFail else Ok
      ensures chip == if status == Ok then Written(old(chip), w) else old(chip)
    {
      if fails(transactions) {
        status := CommFail;
      } else {
        status := Ok;
        chip := Written(chip, w);
      }
      transactions := transactions + 1;
    }

    /** How many transactions setting the humidity oversampling takes from number t on. */
    function HumidityCost(t: nat): nat { if fails(t) then 1 else if fails(t + 1) then 2 else 3 }

    /** Writes ctrl_hum and then ctrl_meas with the value it has, so that the sensor takes the new
        oversampling over. */
    method SetOsrHumidity(settings: Settings) returns (status: Status)
      modifies this
      ensures transactions == old(transactions) + HumidityCost(old(transactions))
      ensures status == if Clear(old(transactions), old(transactions) + 3) then Ok else CommFail
      ensures chip.ctrlMeas == old(chip.ctrlMeas) && chip.config == old(chip.config)
      ensures chip.ctrlHum == if fails(old(transactions)) then old(chip.ctrlHum) else settings.osrH
      ensures status == Ok ==> InEffect(chip)
    {
      HumidityByte(settings.osrH);
      BitsOfByte(chip.ctrlMeas, 0);
      status := SetReg(CtrlHum((settings.osrH as bv8) & 0x07));
      if status == Ok {
        var registers;
        status, registers := Read();
        if status == Ok {
          status := SetReg(CtrlMeas(registers.ctrlMeas));
        }
      }
    }

    /** The functions that fill in the selected ones of bits 2 to 4 and 5 to 7. */
    static method Fill(reg: bv8, mid: bool, first: bv3, high: bool, second: bv3) returns (data: bv8)
      ensures Fields(data) ==
              Reg(Fields(reg).low, if mid then first else Fields(reg).mid, if high then second else Fields(reg).high)
      ensures data == Filled(reg, mid, first, high, second)
    {
      data := reg;
      if mid {
        MacrosUpdateFields(data, first as bv8);
        data := SetMid(data, first as bv8);
      }
      if high {
        MacrosUpdateFields(data, second as bv8);
        data := SetHigh(data, second as bv8);
      }
    }

    method SetOsrPressTemp(d: Selection, settings: Settings) returns (status: Status)
      modifies this
      ensures status == if Clear(old(transactions), old(transactions) + 2) then Ok else CommFail
      ensures status == Ok ==> transactions == old(transactions) + 2
      ensures chip.ctrlHum == old(chip.ctrlHum) && chip.config == old(chip.config)
      ensures Mode(chip) == Mode(old(chip))
      ensures status != Ok ==> chip == old(chip)
      ensures status == Ok ==>
                && InEffect(chip)
                && Byte(chip.ctrlMeas) ==
                    Filled(Byte(old(chip).ctrlMeas), d.press, settings.osrP, d.temp, settings.osrT)
                && chip.ctrlMeas == Reg(old(chip).ctrlMeas.low,
                                        if d.press then settings.osrP else old(chip).ctrlMeas.mid,
                                        if d.temp then settings.osrT else old(chip).ctrlMeas.high)
                && SettingsOf(chip) ==
                    Changed(SettingsOf(old(chip)), d.(hum := false, filter := false, standby := false), settings)
    {
      var registers;
      status, registers := Read();
      if status == Ok {
        BitsOfByte(chip.ctrlMeas, 0);
        var data := Fill(registers.ctrlMeas, d.press, settings.osrP, d.temp, settings.osrT);
        BitsOfByte(chip.ctrlMeas, data);
        status := SetReg(CtrlMeas(data));
      }
    }

    /** How many transactions a successful set_osr_settings takes. */
    function OsrCost(d: Selection, t: nat): nat
    {
      (if d.hum then HumidityCost(t) else 0) + if d.press || d.temp then 2 else 0
    }

    /** Whether set_osr_settings succeeds: its status is that of its last write. */
    predicate OsrSucceeds(d: Selection, t: nat)
    {
      if d.press || d.temp then Clear(t + OsrCost(d, t) - 2, t + OsrCost(d, t)) else d.hum && Clear(t, t + 3)
    }

    /** The status of the humidity write is overwritten when a pressure or temperature setting is
        selected too: it then succeeds although the humidity oversampling is not set, exactly if the very
        first transaction fails. */
    method SetOsrSettings(d: Selection, settings: Settings) returns (status: Status)
      modifies this
      ensures status == if !Oversampling(d) then InvalidOsrMacro
                        else if OsrSucceeds(d, old(transactions)) then Ok else CommFail
      ensures status == Ok ==> transactions == old(transactions) + OsrCost(d, old(transactions))
      ensures chip.config == old(chip.config) && Mode(chip) == Mode(old(chip))
      ensures status == Ok ==>
                && InEffect(chip)
                && SettingsOf(chip) ==
                    Changed(SettingsOf(old(chip)),
                            Received(d, fails(old(transactions))).(filter := false, standby := false), settings)
                && (SettingsOf(chip) ==
                    Changed(SettingsOf(old(chip)), d.(filter := false, standby := false), settings) <==>
                    !(d.hum && fails(old(transactions))) || SettingsOf(old(chip)).osrH == settings.osrH)
    {
      status := InvalidOsrMacro;
      if d.hum {
        status := SetOsrHumidity(settings);
      }
      if d.press || d.temp {
        status := SetOsrPressTemp(d, settings);
      }
    }

    method SetFilterStandby(d: Selection, settings: Settings) returns (status: Status)
      requires Mode(chip) == SLEEP_MODE
      modifies this
      ensures status == if Clear(old(transactions), old(transactions) + 2) then Ok else CommFail
      ensures status == Ok ==> transactions == old(transactions) + 2
      ensures chip == old(chip).(config := chip.config)
      ensures status == Ok ==>
                && Byte(chip.config) ==
                    Filled(Byte(old(chip).config), d.filter, settings.filter, d.standby, settings.standby)
                && chip.config == Reg(old(chip).config.low,
                                      if d.filter then settings.filter else old(chip).config.mid,
                                      if d.standby then settings.standby else old(chip).config.high)
                && SettingsOf(chip) == Changed(SettingsOf(old(chip)), d.(press := false, temp := false, hum := false),
                                               settings)
    {
      var registers;
      status, registers := Read();
      if status == Ok {
        BitsOfByte(chip.config, 0);
        var data := Fill(registers.config, d.filter, settings.filter, d.standby, settings.standby);
        BitsOfByte(chip.config, data);
        status := SetReg(Config(data));
      }
    }

    method WritePowerMode(mode: bv2) returns (status: Status)
      modifies this
      ensures status == if Clear(old(transactions), old(transactions) + 2) then Ok else CommFail
      ensures status != Ok ==> chip == old(chip)
      ensures status == Ok ==>
                && chip.ctrlMeas == Reg(mode, old(chip).ctrlMeas.mid, old(chip).ctrlMeas.high)
                && chip.config == old(chip).config
                && Mode(chip) == mode && SettingsOf(chip) == SettingsOf(old(chip)) && InEffect(chip)
    {
      var registers;
      status, registers := Read();
      if status == Ok {
        BitsOfByte(chip.ctrlMeas, 0);
        MacrosUpdateFields(registers.ctrlMeas, mode as bv8);
        status := SetReg(CtrlMeas(SetLow(registers.ctrlMeas, mode as bv8)));
      }
    }

    /** Writing all settings back succeeds if the two transactions for pressure and temperature and the
        two for filter and standby do, whatever becomes of the humidity oversampling. */
    method ReloadDeviceSettings(settings: Settings) returns (status: Status)
      requires Mode(chip) == SLEEP_MODE
      modifies this
      ensures status == if ReloadSucceeds(old(transactions)) then Ok else CommFail
      ensures status == Ok ==>
                && transactions == old(transactions) + HumidityCost(old(transactions)) + 4
                && Mode(chip) == SLEEP_MODE && InEffect(chip)
                && SettingsOf(chip) ==
                    Changed(SettingsOf(old(chip)), Received(ALL_SETTINGS_SEL, fails(old(transactions))), settings)
      ensures status == Ok ==> chip.config.low == old(chip).config.low
    {
      status := SetOsrSettings(ALL_SETTINGS_SEL, settings);
      if status == Ok {
        status := SetFilterStandby(ALL_SETTINGS_SEL, settings);
      }
    }

    predicate ReloadSucceeds(t: nat) { Clear(t + HumidityCost(t), t + HumidityCost(t) + 4) }

    predicate SleepSucceeds(t: nat) { Clear(t, t + 2) && ReloadSucceeds(t + 2) }

    function SleepCost(t: nat): nat { 6 + HumidityCost(t + 2) }

    /** Reads the settings in one burst, resets the sensor and writes them back. On success the sensor
        sleeps and has its five settings again, the humidity oversampling in effect included, exactly if
        the third transaction, the write to ctrl_hum, did not fail or there was no humidity oversampling;
        otherwise the humidity oversampling is 0. */
    method PutDeviceToSleep() returns (status: Status)
      modifies this
      ensures status == if SleepSucceeds(old(transactions)) then Ok else CommFail
      ensures status == Ok ==>
                && transactions == old(transactions) + SleepCost(old(transactions))
                && Mode(chip) == SLEEP_MODE && InEffect(chip)
                && SettingsOf(chip) == Reset(SettingsOf(old(chip)), fails(old(transactions) + 2))
                && (SettingsOf(chip) == SettingsOf(old(chip)) <==>
                    !fails(old(transactions) + 2) || SettingsOf(old(chip)).osrH == 0)
      ensures status == Ok ==> chip.config.low == 0
    {
      var registers;
      status, registers := Read();
      if status == Ok {
        status := SetReg(SoftReset);
        if status == Ok {
          SettingsParsed(old(chip));
          status := ReloadDeviceSettings(ParseDeviceSettings(registers));
        }
      }
    }

    /** Whether a call that puts the sensor to sleep first, if it is awake, gets past that. */
    predicate Asleep(awake: bool, t: nat) { !fails(t) && (awake ==> SleepSucceeds(t + 1)) }

    /** The number of the transaction after that. */
    function Next(awake: bool, t: nat): nat { t + 1 + if awake then SleepCost(t + 1) else 0 }

    /** The write to ctrl_hum on the way to sleep fails. */
    predicate LostOnTheWay(awake: bool, t: nat) { awake && fails(t + 3) }

    /** Success means that the sensor has the wanted mode, and the settings it had exactly if no humidity
        oversampling was lost on the way to sleep. */
    method SetSensorMode(mode: bv2) returns (status: Status)
      modifies this
      ensures var awake, t := Mode(old(chip)) != SLEEP_MODE, old(transactions);
              && status == (if Asleep(awake, t) && Clear(Next(awake, t), Next(awake, t) + 2) then Ok else CommFail)
              && (status == Ok ==>
                    && Mode(chip) == mode && InEffect(chip)
                    && SettingsOf(chip) == Reset(SettingsOf(old(chip)), LostOnTheWay(awake, t))
                    && (SettingsOf(chip) == SettingsOf(old(chip)) <==>
                        !LostOnTheWay(awake, t) || SettingsOf(old(chip)).osrH == 0))
      ensures status == Ok ==>
                && chip.ctrlMeas == Reg(mode, old(chip).ctrlMeas.mid, old(chip).ctrlMeas.high)
                && chip.config == Reg(if old(chip).ctrlMeas.low != 0 then 0 else old(chip).config.low,
                                      old(chip).config.mid, old(chip).config.high)
    {
      var registers;
      status, registers := Read();
      SettingsParsed(chip);
      if status == Ok && (registers.ctrlMeas & 0x03) as bv2 != SLEEP_MODE {
        status := PutDeviceToSleep();
      }
      if status == Ok {
        status := WritePowerMode(mode);
      }
    }

    /** Whether the settings proper are written, from transaction t on. */
    predicate WriteSucceeds(d: Selection, t: nat)
    {
      && (Oversampling(d) ==> OsrSucceeds(d, t))
      && (FilterStandby(d) ==> var u := if Oversampling(d) then t + OsrCost(d, t) else t; Clear(u, u + 2))
    }

    /** Success means that the sensor sleeps and that exactly the selected settings have changed, except
        for the humidity oversampling if a write to ctrl_hum was lost: it becomes 0 if that happened on
        the way to sleep, and a new value is not taken over if it happens afterwards. */
    method SetSensorSettings(d: Selection, settings: Settings) returns (status: Status)
      modifies this
      ensures var awake, t := Mode(old(chip)) != SLEEP_MODE, old(transactions);
              && status == (if Asleep(awake, t) && WriteSucceeds(d, Next(awake, t)) then Ok else CommFail)
              && (status == Ok ==>
                    && Mode(chip) == SLEEP_MODE && (Oversampling(d) ==> InEffect(chip))
                    && SettingsOf(chip) ==
                       Changed(Reset(SettingsOf(old(chip)), LostOnTheWay(awake, t)),
                               Received(d, fails(Next(awake, t))), settings))
      ensures status == Ok ==>
                && chip.ctrlMeas == Reg(0, if d.press then settings.osrP else old(chip).ctrlMeas.mid,
                                        if d.temp then settings.osrT else old(chip).ctrlMeas.high)
                && chip.config == Reg(if old(chip).ctrlMeas.low != 0 then 0 else old(chip).config.low,
                                      if d.filter then settings.filter else old(chip).config.mid,
                                      if d.standby then settings.standby else old(chip).config.high)
    {
      var registers;
      status, registers := Read();
      SettingsParsed(chip);
      if status == Ok && (registers.ctrlMeas & 0x03) as bv2 != SLEEP_MODE {
        status := PutDeviceToSleep();
      }
      if status == Ok {
        status := WriteSettings(d, settings);
      }
    }

    /** The settings proper, in a sleeping sensor. */
    method WriteSettings(d: Selection, settings: Settings) returns (status: Status)
      requires Mode(chip) == SLEEP_MODE
      modifies this
      ensures status == if WriteSucceeds(d, old(transactions)) then Ok else CommFail
      ensures status == Ok ==>
                && Mode(chip) == SLEEP_MODE && (Oversampling(d) ==> InEffect(chip))
                && SettingsOf(chip) ==
                    Changed(SettingsOf(old(chip)), Received(d, fails(old(transactions))), settings)
      ensures status == Ok ==> chip.config.low == old(chip).config.low
    {
      status := Ok;
      if Oversampling(d) {
        status := SetOsrSettings(d, settings);
      }
      if status == Ok && FilterStandby(d) {
        status := SetFilterStandby(d, settings);
      }
    }
  }

  /** A run in which only the write to ctrl_hum fails: it reports success, and the humidity oversampling
      is gone. */
  method HumidityLost(chip: Chip) returns (sensor: Driver, status: Status)
    ensures fresh(sensor) && status == Ok
    ensures SettingsOf(sensor.chip) == SettingsOf(chip).(osrH := 0)
  {
    sensor := new Driver(chip, n => n == 2);
    status := sensor.PutDeviceToSleep();
  }
}
