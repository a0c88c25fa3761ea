/**
 * The older supervisory code of beacon/src/beacon.c, with the hibernation
 * tasks of beacon/src/tasks.c. Its rules are those of the later firmware,
 * so the rule functions of module Beacon are reused with a configuration
 * parameter: the older configuration file fixes only the hibernation
 * period, and the transmission periods, timeouts and energy-level
 * positions it reads are not part of this model.
 */
module LegacyBeacon {
  import Scheduler
  import opened Beacon

  /** BEACON_HIBERNATION_PERIOD_SECONDS of beacon/config/config.h. */
  const ConfiguredHibernationPeriodSec: nat := 0
  /** BEACON_HIBERNATION_PERIOD_HOURS of the same file, the period the acknowledgement text promises. */
  const HibernationPeriodHours: nat := 24

  /** The hibernation period the older configuration intends: its hour setting in seconds. */
  function HibernationPeriodSec(): (s: nat)
    ensures s == HibernationPeriodHours * 3600
    ensures s == FirmwareConfig.hibernationPeriodSec
  {
    HibernationPeriodHours * 3600
  }

  /** Whether beacon_run's task_scheduled call for beacon_leave_hibernation fires, for a given period. */
  predicate LeaveDue(period: nat, initialTime: nat, now: nat, hibernation: bool)
  {
    Scheduler.ScheduledDue(Scheduler.Add32(initialTime, period), now, LeaveHibernationDelay, hibernation)
  }

  /** As configured, the beacon leaves hibernation five seconds after entering it. */
  lemma ConfiguredHibernationLastsFiveSeconds(initialTime: nat)
    requires initialTime + LeaveHibernationDelay < Scheduler.Modulus32
    ensures LeaveDue(ConfiguredHibernationPeriodSec, initialTime, initialTime + LeaveHibernationDelay, true)
    ensures forall now :: initialTime <= now < initialTime + LeaveHibernationDelay ==>
      !LeaveDue(ConfiguredHibernationPeriodSec, initialTime, now, true)
  {
  }

  /** With the hour setting in seconds, hibernation lasts at least a day (no wrap-around). */
  lemma HibernationLastsADay(initialTime: nat, now: nat)
    requires initialTime + HibernationPeriodSec() + LeaveHibernationDelay < Scheduler.Modulus32
    requires LeaveDue(HibernationPeriodSec(), initialTime, now, true)
    ensures now >= initialTime + 24 * 60 * 60 + LeaveHibernationDelay
  {
  }

  /** The global `beacon` as beacon/src/beacon.c uses it, and beacon.flags.hibernation of tasks.c. */
  class LegacyBeaconState {
    const cfg: Config
    var hibernation: bool
    var canTransmit: bool
    var transmitting: bool
    var energyLevel: nat
    var lastRadioResetTime: nat
    var lastSystemResetTime: nat
    var lastNghamPktTransmission: nat
    var lastDevicesVerification: nat
    var lastEnergyLevelSet: nat
    var hibernationModeInitialTime: nat
    var timeObdhStartedTx: nat
    var obdh: FSatModule
    var eps: FSatModule
    var flagsHibernation: bool

    ghost predicate Valid()
      reads this
    {
      HasEnergyByte(obdh, cfg.obdhEnergyLevelPos) && HasEnergyByte(eps, cfg.epsEnergyLevelPos)
    }

    /** The state before beacon_init; the modules' buffers are given. */
    constructor(config: Config, obdhBuffer: Buffer, epsBuffer: Buffer)
      ensures cfg == config && obdh.buffer == obdhBuffer && eps.buffer == epsBuffer
      ensures !hibernation && !flagsHibernation
      ensures Valid() <==> config.obdhEnergyLevelPos < |obdhBuffer.data| && config.epsEnergyLevelPos < |epsBuffer.data|
    {
      cfg := config;
      hibernation := false;
      flagsHibernation := false;
      obdh := FSatModule(0, 0, false, obdhBuffer);
      eps := FSatModule(0, 0, false, epsBuffer);
    }

    /** The field assignments at the end of beacon_init (the hardware start-up before them is not modelled). */
    method Init(now: nat)
      modifies this
      ensures !hibernation && canTransmit && !transmitting && energyLevel == EnergyLevel5
      ensures lastRadioResetTime == now && lastSystemResetTime == now && lastNghamPktTransmission == now
      ensures lastDevicesVerification == now && lastEnergyLevelSet == now
      ensures eps == FSatModule(now, 0, false, old(eps.buffer)) && obdh == FSatModule(now, 0, false, old(obdh.buffer))
      ensures hibernationModeInitialTime == old(hibernationModeInitialTime) && timeObdhStartedTx == old(timeObdhStartedTx)
      ensures flagsHibernation == old(flagsHibernation)
      ensures Valid() == old(Valid())
    {
      hibernation := false;
      canTransmit := true;
      transmitting := false;
      energyLevel := EnergyLevel5;
      InitTimes(now);
      eps := eps.(timeLastValidPkt := now, errors := 0, isDead := false);
      obdh := obdh.(timeLastValidPkt := now, errors := 0, isDead := false);
    }

    /** The five time stamps beacon_init sets to the current time. */
    method InitTimes(now: nat)
      modifies this`lastRadioResetTime, this`lastSystemResetTime, this`lastNghamPktTransmission
      modifies this`lastDevicesVerification, this`lastEnergyLevelSet
      ensures lastRadioResetTime == now && lastSystemResetTime == now && lastNghamPktTransmission == now
      ensures lastDevicesVerification == now && lastEnergyLevelSet == now
    {
      lastRadioResetTime := now;
      lastSystemResetTime := now;
      lastNghamPktTransmission := now;
      lastDevicesVerification := now;
      lastEnergyLevelSet := now;
    }

    /** beacon_enter_hibernation */
    method EnterHibernation(now: nat)
      modifies this`hibernation, this`hibernationModeInitialTime
      ensures hibernation
      ensures hibernationModeInitialTime == if old(hibernation) then old(hibernationModeInitialTime) else now
    {
      if !hibernation {
        hibernation := true;
        hibernationModeInitialTime := now;
      }
    }

    /** beacon_leave_hibernation */
    method LeaveHibernation()
      modifies this`hibernation
      ensures !hibernation
    {
      hibernation := false;
    }

    /** task_enter_hibernation of beacon/src/tasks.c: sets the flag (putting the radio to sleep is hardware). */
    method TaskEnterHibernation()
      modifies this`flagsHibernation
      ensures flagsHibernation
    {
      flagsHibernation := true;
    }

    /** task_leave_hibernation of beacon/src/tasks.c */
    method TaskLeaveHibernation()
      modifies this`flagsHibernation
      ensures !flagsHibernation
    {
      flagsHibernation := false;
    }

    /**
     * beacon_get_tx_period, with the configured periods. It returns a uint8_t,
     * so a configured period is taken modulo 256.
     */
    method GetTxPeriod() returns (period: nat)
      ensures period < 256
      ensures period == TxPeriod(cfg, energyLevel) % 256
      ensures TxPeriod(cfg, energyLevel) < 256 ==> period == TxPeriod(cfg, energyLevel)
    {
      if energyLevel == EnergyLevel1 {
        period := cfg.txPeriodL1 % 256;
      } else if energyLevel == EnergyLevel2 {
        period := cfg.txPeriodL2 % 256;
      } else if energyLevel == EnergyLevel3 {
        period := cfg.txPeriodL3 % 256;
      } else if energyLevel == EnergyLevel4 {
        period := cfg.txPeriodL4 % 256;
      } else {
        period := cfg.txPeriodL5 % 256;
      }
    }

    /** beacon_set_energy_level */
    method SetEnergyLevel()
      requires Valid()
      modifies this`energyLevel
      ensures energyLevel == ChosenEnergyLevel(cfg, obdh, eps)
    {
      if obdh.errors == 0 && !obdh.isDead {
        energyLevel := obdh.buffer.data[cfg.obdhEnergyLevelPos] as nat;
      } else if eps.errors == 0 && !eps.isDead {
        energyLevel := eps.buffer.data[cfg.epsEnergyLevelPos] as nat;
      } else {
        energyLevel := EnergyLevel5;
      }
    }

    /** beacon_check_devices_status */
    method CheckDevicesStatus(now: nat)
      modifies this`obdh, this`eps, this`canTransmit
      ensures obdh == Checked(old(obdh), now, cfg.obdhTimeoutSec)
      ensures eps == Checked(old(eps), now, cfg.epsTimeoutSec)
      ensures canTransmit == CanTransmitAfterCheck(old(canTransmit), now, timeObdhStartedTx, cfg.obdhRadioTimeoutSec)
      ensures Valid() == old(Valid())
    {
      if Scheduler.Sub32(now, obdh.timeLastValidPkt) <= cfg.obdhTimeoutSec {
        obdh := obdh.(isDead := false);
      } else {
        obdh := obdh.(isDead := true);
      }
      if Scheduler.Sub32(now, eps.timeLastValidPkt) <= cfg.epsTimeoutSec {
        eps := eps.(isDead := false);
      } else {
        eps := eps.(isDead := true);
      }
      if !canTransmit {
        if Scheduler.Sub32(now, timeObdhStartedTx) >= cfg.obdhRadioTimeoutSec {
          canTransmit := true;
        }
      }
    }

    /** beacon_process_eps_pkt after decoding. */
    method ProcessEpsPkt(outcome: FspOutcome, now: nat)
      requires outcome.Ready? && outcome.srcAdr == FspAdrEps && outcome.pktType == FspPktTypeData ==> AcceptedBy(eps, outcome)
      modifies this`eps
      ensures eps == EpsAfterPacket(old(eps), outcome, now)
      ensures Valid() == old(Valid())
    {
      match outcome {
        case Incomplete =>
        case Invalid =>
          eps := eps.(errors := (eps.errors + 1) % 256);
        case Ready(src, t, payload, len) =>
          if src != FspAdrEps {
            eps := eps.(errors := (eps.errors + 1) % 256);
            return;
          }
          if t == FspPktTypeData {
            eps := eps.(buffer := Fill(eps.buffer, payload, len));
            eps := eps.(timeLastValidPkt := now);
            eps := eps.(errors := 0);
          } else {
            eps := eps.(errors := (eps.errors + 1) % 256);
          }
      }
    }

    /**
     * beacon_run's task_scheduled test for beacon_leave_hibernation, with
     * the period as configured (BEACON_HIBERNATION_PERIOD_SECONDS, 0).
     */
    method LeaveHibernationDue(now: nat) returns (due: bool)
      requires Scheduler.IsU32(hibernationModeInitialTime) && Scheduler.IsU32(now)
      ensures due == LeaveDue(ConfiguredHibernationPeriodSec, hibernationModeInitialTime, now, hibernation)
    {
      var timeToRun := Scheduler.Add32(hibernationModeInitialTime, ConfiguredHibernationPeriodSec);
      due := false;
      if hibernation {
        if now >= timeToRun {
          if Scheduler.Add32(timeToRun, LeaveHibernationDelay) <= now {
            due := true;
          }
        }
      }
    }
  }
}
