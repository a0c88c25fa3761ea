/**
 * The supervisory logic of the beacon firmware
 * (firmware/fsat_beacon_msp430/src/beacon.c): the transmission period for
 * each energy level, the choice of the module the energy level is taken
 * from, the liveness timeouts and the transmit permission, hibernation, the
 * handling of a decoded EPS packet, the antenna-deployment attempt counter,
 * the persisted parameters and the shutdown acknowledgement. Radio, flash,
 * debug output and the FSP/NGHam decoders are outside the model; the current
 * time is a parameter (`now`, a uint32_t reading of time_get_seconds()).
 */
module Beacon {
  import Scheduler
  import Payload
  import opened Wrappers

  // ------------------------------------------------------------------
  // Configuration
  // ------------------------------------------------------------------

  const EnergyLevel1: nat := 1
  const EnergyLevel2: nat := 2
  const EnergyLevel3: nat := 3
  const EnergyLevel4: nat := 4
  const EnergyLevel5: nat := 5

  /** The configuration constants the supervisory code reads. */
  datatype Config = Config(
    txPeriodL1: nat, txPeriodL2: nat, txPeriodL3: nat, txPeriodL4: nat, txPeriodL5: nat,
    obdhTimeoutSec: nat, epsTimeoutSec: nat, obdhRadioTimeoutSec: nat,
    obdhEnergyLevelPos: nat, epsEnergyLevelPos: nat, hibernationPeriodSec: nat)

  /** The values of firmware/fsat_beacon_msp430/config/config.h. */
  const FirmwareConfig := Config(10, 10, 20, 30, 30, 60, 60, 2, 30, 30, 24 * 60 * 60)

  const AntennaMaxDeployments: nat := 10
  /** task_scheduled's timeout argument for leaving hibernation. */
  const LeaveHibernationDelay: nat := 5

  // ------------------------------------------------------------------
  // Transmission period
  // ------------------------------------------------------------------

  /** beacon_get_tx_period: the period for each level, an unknown level treated as level 5. */
  function TxPeriod(cfg: Config, level: nat): (p: nat)
    ensures level < EnergyLevel1 || level > EnergyLevel5 ==> p == cfg.txPeriodL5
  {
    if level == EnergyLevel1 then cfg.txPeriodL1
    else if level == EnergyLevel2 then cfg.txPeriodL2
    else if level == EnergyLevel3 then cfg.txPeriodL3
    else if level == EnergyLevel4 then cfg.txPeriodL4
    else cfg.txPeriodL5
  }

  /** With the firmware's constants, a lower energy level never transmits more often. */
  lemma TxPeriodMonotone(l1: nat, l2: nat)
    requires EnergyLevel1 <= l1 <= l2
    ensures TxPeriod(FirmwareConfig, l1) <= TxPeriod(FirmwareConfig, l2)
  {
  }

  /** Every level, known or not, gets a period between 10 and 30 seconds; level 5 and unknown levels get the longest. */
  lemma TxPeriodBounds(level: nat)
    ensures 10 <= TxPeriod(FirmwareConfig, level) <= 30
    ensures level >= EnergyLevel4 || level < EnergyLevel1 ==> TxPeriod(FirmwareConfig, level) == 30
  {
  }

  // ------------------------------------------------------------------
  // Modules and their buffers
  // ------------------------------------------------------------------

  /** A buffer: its storage and the number of valid bytes (system/buffer is not part of this model). */
  datatype Buffer = Buffer(data: seq<bv8>, size: nat)

  /** buffer_fill: the first `len` stored bytes replaced by src[..len]. */
  function Fill(b: Buffer, src: seq<bv8>, len: nat): (r: Buffer)
    requires len <= |src| && len <= |b.data|
    ensures |r.data| == |b.data| && r.size == len
    ensures r.data[..len] == src[..len] && r.data[len..] == b.data[len..]
  {
    Buffer(src[..len] + b.data[len..], len)
  }

  /** FSatModule: what the beacon knows about the OBDH or the EPS. */
  datatype FSatModule = FSatModule(timeLastValidPkt: nat, errors: nat, isDead: bool, buffer: Buffer)

  /** A module the beacon trusts: no packet errors since the last good one, and not timed out. */
  predicate Healthy(m: FSatModule)
  {
    m.errors == 0 && !m.isDead
  }

  /** The module's stored energy-level byte exists. */
  predicate HasEnergyByte(m: FSatModule, pos: nat)
  {
    pos < |m.buffer.data|
  }

  // ------------------------------------------------------------------
  // Energy level
  // ------------------------------------------------------------------

  /** beacon_set_energy_level: the OBDH's byte when it is healthy, else the EPS's, else level 5. */
  function ChosenEnergyLevel(cfg: Config, obdh: FSatModule, eps: FSatModule): (level: nat)
    requires HasEnergyByte(obdh, cfg.obdhEnergyLevelPos) && HasEnergyByte(eps, cfg.epsEnergyLevelPos)
    ensures level < 256
  {
    if Healthy(obdh) then obdh.buffer.data[cfg.obdhEnergyLevelPos] as nat
    else if Healthy(eps) then eps.buffer.data[cfg.epsEnergyLevelPos] as nat
    else EnergyLevel5
  }

  /** The OBDH is preferred; the EPS is used only when the OBDH is not healthy; with neither the level is 5. */
  lemma EnergyLevelPriority(cfg: Config, obdh: FSatModule, eps: FSatModule)
    requires HasEnergyByte(obdh, cfg.obdhEnergyLevelPos) && HasEnergyByte(eps, cfg.epsEnergyLevelPos)
    ensures Healthy(obdh) ==> ChosenEnergyLevel(cfg, obdh, eps) == obdh.buffer.data[cfg.obdhEnergyLevelPos] as nat
    ensures !Healthy(obdh) && Healthy(eps) ==> ChosenEnergyLevel(cfg, obdh, eps) == eps.buffer.data[cfg.epsEnergyLevelPos] as nat
    ensures !Healthy(obdh) && !Healthy(eps) ==> TxPeriod(cfg, ChosenEnergyLevel(cfg, obdh, eps)) == cfg.txPeriodL5
  {
  }

  /** The choice reads only the health of the two modules and one stored byte of each. */
  lemma EnergyLevelReadsOneByte(cfg: Config, o1: FSatModule, e1: FSatModule, o2: FSatModule, e2: FSatModule)
    requires HasEnergyByte(o1, cfg.obdhEnergyLevelPos) && HasEnergyByte(e1, cfg.epsEnergyLevelPos)
    requires HasEnergyByte(o2, cfg.obdhEnergyLevelPos) && HasEnergyByte(e2, cfg.epsEnergyLevelPos)
    requires Healthy(o1) == Healthy(o2) && Healthy(e1) == Healthy(e2)
    requires o1.buffer.data[cfg.obdhEnergyLevelPos] == o2.buffer.data[cfg.obdhEnergyLevelPos]
    requires e1.buffer.data[cfg.epsEnergyLevelPos] == e2.buffer.data[cfg.epsEnergyLevelPos]
    ensures ChosenEnergyLevel(cfg, o1, e1) == ChosenEnergyLevel(cfg, o2, e2)
  {
  }

  // ------------------------------------------------------------------
  // Liveness and transmit permission
  // ------------------------------------------------------------------

  /** The module after beacon_check_devices_status: dead iff its last good packet is older than the timeout. */
  function Checked(m: FSatModule, now: nat, timeoutSec: nat): (r: FSatModule)
    ensures r.isDead <==> Scheduler.Sub32(now, m.timeLastValidPkt) > timeoutSec
    ensures r.(isDead := m.isDead) == m
  {
    m.(isDead := !(Scheduler.Sub32(now, m.timeLastValidPkt) <= timeoutSec))
  }

  /** can_transmit after the check: it only ever turns true, once the OBDH's radio window has expired. */
  function CanTransmitAfterCheck(canTransmit: bool, now: nat, timeObdhStartedTx: nat, radioTimeoutSec: nat): (r: bool)
    ensures canTransmit ==> r
    ensures !canTransmit ==> (r <==> Scheduler.Sub32(now, timeObdhStartedTx) >= radioTimeoutSec)
  {
    if !canTransmit then Scheduler.Sub32(now, timeObdhStartedTx) >= radioTimeoutSec else canTransmit
  }

  /** A module heard from is alive at the next check within the timeout, whatever it was before. */
  lemma HeardModuleIsAlive(m: FSatModule, now: nat, later: nat, timeoutSec: nat)
    requires Scheduler.IsU32(now) && Scheduler.IsU32(later) && now <= later <= now + timeoutSec
    ensures !Checked(m.(timeLastValidPkt := now), later, timeoutSec).isDead
  {
  }

  /** A module that stays silent for longer than the timeout is declared dead (no wrap-around in between). */
  lemma SilentModuleDies(m: FSatModule, later: nat, timeoutSec: nat)
    requires Scheduler.IsU32(later) && m.timeLastValidPkt + timeoutSec < later
    ensures Checked(m, later, timeoutSec).isDead
  {
  }

  // ------------------------------------------------------------------
  // EPS packets
  // ------------------------------------------------------------------

  const FspAdrEps: nat := 1
  const FspAdrObdh: nat := 3
  const FspPktTypeData: nat := 1

  /** What the FSP decoder made of the available bytes (the decoder itself is not part of this model). */
  datatype FspOutcome =
    | Ready(srcAdr: nat, pktType: nat, payload: seq<bv8>, length: nat)
    | Invalid
    | Incomplete

  /** A data packet from the EPS that fits the EPS buffer. */
  predicate AcceptedBy(m: FSatModule, o: FspOutcome)
  {
    o.Ready? && o.srcAdr == FspAdrEps && o.pktType == FspPktTypeData
      && o.length <= |o.payload| && o.length <= |m.buffer.data|
  }

  /** A packet that counts as an error: invalid, from another address, or not a data packet. */
  predicate Rejected(o: FspOutcome)
  {
    o.Invalid? || (o.Ready? && (o.srcAdr != FspAdrEps || o.pktType != FspPktTypeData))
  }

  /** The uint8_t error counter after one more error. */
  function CountError(m: FSatModule): (r: FSatModule)
    ensures r.(errors := m.errors) == m
    ensures m.errors < 255 ==> r.errors == m.errors + 1
    ensures m.errors == 255 ==> r.errors == 0
  {
    m.(errors := (m.errors + 1) % 256)
  }

  /** The EPS record after beacon_process_eps_pkt has handled the decoder's outcome. */
  function EpsAfterPacket(m: FSatModule, o: FspOutcome, now: nat): (r: FSatModule)
    requires o.Ready? && o.srcAdr == FspAdrEps && o.pktType == FspPktTypeData ==> AcceptedBy(m, o)
    ensures r.isDead == m.isDead && |r.buffer.data| == |m.buffer.data|
    ensures AcceptedBy(m, o) ==> r.errors == 0 && r.timeLastValidPkt == now && r.buffer.size == o.length
    ensures !AcceptedBy(m, o) ==> r.buffer == m.buffer && r.timeLastValidPkt == m.timeLastValidPkt
    ensures Rejected(o) ==> r.errors == (m.errors + 1) % 256
    ensures o.Incomplete? ==> r == m
  {
    match o
    case Incomplete => m
    case Invalid => CountError(m)
    case Ready(src, t, payload, len) =>
      if src != FspAdrEps then CountError(m)
      else if t == FspPktTypeData then m.(buffer := Fill(m.buffer, payload, len), timeLastValidPkt := now, errors := 0)
      else CountError(m)
  }

  /** An accepted data packet stores its payload, clears the errors and restarts the EPS timeout. */
  lemma AcceptedPacketRevives(m: FSatModule, o: FspOutcome, now: nat, later: nat, cfg: Config)
    requires AcceptedBy(m, o)
    requires Scheduler.IsU32(now) && Scheduler.IsU32(later) && now <= later <= now + cfg.epsTimeoutSec
    ensures EpsAfterPacket(m, o, now).buffer.data[..o.length] == o.payload[..o.length]
    ensures EpsAfterPacket(m, o, now).buffer.size == o.length
    ensures Healthy(Checked(EpsAfterPacket(m, o, now), later, cfg.epsTimeoutSec))
  {
  }

  /** Every rejected packet adds one error (modulo 256) and changes nothing else; an incomplete one changes nothing. */
  lemma RejectedPacketCounts(m: FSatModule, o: FspOutcome, now: nat)
    requires Rejected(o) || o.Incomplete?
    ensures Rejected(o) ==> EpsAfterPacket(m, o, now) == m.(errors := (m.errors + 1) % 256)
    ensures o.Incomplete? ==> EpsAfterPacket(m, o, now) == m
    ensures Rejected(o) && m.errors < 255 ==> !Healthy(EpsAfterPacket(m, o, now))
  {
  }

  /** The uint8_t counter wraps: the 256th consecutive error makes the EPS look error-free again. */
  lemma ErrorCounterWraps(m: FSatModule, now: nat)
    requires m.errors == 255 && !m.isDead
    ensures Healthy(EpsAfterPacket(m, Invalid, now))
  {
  }

  // ------------------------------------------------------------------
  // Antenna deployment attempts
  // ------------------------------------------------------------------

  /** deployment_attempts after one run of beacon_antenna_deployment. */
  function AttemptsAfterDeployment(attempts: nat): (r: nat)
    ensures attempts >= AntennaMaxDeployments ==> r == attempts
    ensures attempts < AntennaMaxDeployments ==> r == attempts + 1
  {
    if attempts >= AntennaMaxDeployments then attempts else (attempts + 1) % 256
  }

  /** Runs of the deployment routine, one per boot. */
  function AttemptsAfterRuns(attempts: nat, runs: nat): nat
    decreases runs
  {
    if runs == 0 then attempts else AttemptsAfterRuns(AttemptsAfterDeployment(attempts), runs - 1)
  }

  /** From any count up to the maximum, the antenna is deployed at most ten times in all. */
  lemma {:induction false} AttemptsSaturate(attempts: nat, runs: nat)
    requires attempts <= AntennaMaxDeployments
    ensures AttemptsAfterRuns(attempts, runs) == if attempts + runs <= AntennaMaxDeployments then attempts + runs else AntennaMaxDeployments
    decreases runs
  {
    if runs > 0 {
      AttemptsSaturate(AttemptsAfterDeployment(attempts), runs - 1);
    }
  }

  // ------------------------------------------------------------------
  // Persisted parameters
  // ------------------------------------------------------------------

  /** The fields beacon_save_params writes and beacon_load_params reads back. */
  datatype Params = Params(
    hibernation: bool, energyLevel: nat, lastEnergyLevelSet: nat, deployHibernationExecuted: bool,
    deploymentAttempts: nat, epsTimeLastValidPkt: nat, epsErrors: nat, epsIsDead: bool,
    obdhTimeLastValidPkt: nat, obdhErrors: nat, obdhIsDead: bool)

  /** Byte and long fields within their C widths. */
  predicate ParamsInRange(p: Params)
  {
    p.energyLevel < 256 && p.deploymentAttempts < 256 && p.epsErrors < 256 && p.obdhErrors < 256
    && Scheduler.IsU32(p.lastEnergyLevelSet) && Scheduler.IsU32(p.epsTimeLastValidPkt)
    && Scheduler.IsU32(p.obdhTimeLastValidPkt)
  }

  /** The flash cells the parameters use, one per address (their numeric addresses are not part of this model). */
  datatype FlashImage = FlashImage(
    hibernation: nat, energyLevel: nat, lastEnergyLevelSet: nat, deployHibernationExecuted: nat,
    deploymentAttempts: nat, epsLastTimeValidPkt: nat, epsErrors: nat, epsIsDeadPkt: nat,
    obdhLastTimeValidPkt: nat, obdhErrors: nat, obdhIsDeadPkt: nat, paramsSaved: nat)

  function BoolCell(b: bool): nat
  {
    if b then 1 else 0
  }

  /**
   * What a second flash_write_single does to a byte already written since
   * the region was erased. The flash driver is not part of this model, so
   * both readings are kept: the second value replaces the first, or, as
   * programming NOR flash can only clear bits, the cell keeps the bits
   * both values share.
   */
  datatype ProgramRule = LastWriteWins | ProgramClearsBits

  /** The bitwise AND of two uint8_t values. */
  function And8(a: nat, b: nat): (r: nat)
    ensures r < 256
  {
    (((a % 256) as bv8) & ((b % 256) as bv8)) as nat
  }

  /** A byte ANDed with itself is itself. */
  lemma And8Self(a: nat)
    requires a < 256
    ensures And8(a, a) == a
  {
    assert ((a as bv8) & (a as bv8)) == a as bv8;
  }

  /** The EPS errors cell after lines 767 and 771 both write it: eps.errors, then obdh.errors. */
  function ErrorsCellAsWritten(p: Params, rule: ProgramRule): (cell: nat)
    ensures rule == LastWriteWins ==> cell == p.obdhErrors
    ensures rule == ProgramClearsBits ==> cell == And8(p.epsErrors, p.obdhErrors)
  {
    match rule
    case LastWriteWins => p.obdhErrors
    case ProgramClearsBits => And8(p.epsErrors, p.obdhErrors)
  }

  /** The value of an erased flash byte. */
  const ErasedByte: nat := 0xFF

  /**
   * beacon_save_params as written: the region is erased, every field is
   * written once, except that obdh.errors goes to the EPS errors address a
   * second time, and the OBDH errors cell keeps its erased value.
   */
  function SaveAsWritten(img: FlashImage, p: Params, rule: ProgramRule): (r: FlashImage)
    ensures r.paramsSaved == 1 && r.obdhErrors == ErasedByte
    ensures r.epsErrors == ErrorsCellAsWritten(p, rule)
  {
    FlashImage(BoolCell(p.hibernation), p.energyLevel, p.lastEnergyLevelSet, BoolCell(p.deployHibernationExecuted),
      p.deploymentAttempts, p.epsTimeLastValidPkt, ErrorsCellAsWritten(p, rule), BoolCell(p.epsIsDead),
      p.obdhTimeLastValidPkt, ErasedByte, BoolCell(p.obdhIsDead), 1)
  }

  /** beacon_load_params' reads as written: obdh.errors is read from the EPS errors address too. */
  function LoadAsWritten(img: FlashImage): (p: Params)
    ensures p.epsErrors == img.epsErrors && p.obdhErrors == img.epsErrors
    ensures p.obdhTimeLastValidPkt == img.obdhLastTimeValidPkt && p.deploymentAttempts == img.deploymentAttempts
  {
    Params(img.hibernation != 0, img.energyLevel, img.lastEnergyLevelSet, img.deployHibernationExecuted != 0,
      img.deploymentAttempts, img.epsLastTimeValidPkt, img.epsErrors, img.epsIsDeadPkt != 0,
      img.obdhLastTimeValidPkt, img.epsErrors, img.obdhIsDeadPkt != 0)
  }

  /**
   * After a save and a reload as written, both error counts are the EPS
   * errors cell; every other parameter is restored. Under either program
   * rule, eps.errors is lost whenever it has a bit obdh.errors lacks.
   */
  lemma SaveLoadAsWrittenLosesEpsErrors(img: FlashImage, p: Params, rule: ProgramRule)
    ensures var cell := ErrorsCellAsWritten(p, rule);
      LoadAsWritten(SaveAsWritten(img, p, rule)) == p.(epsErrors := cell, obdhErrors := cell)
    ensures p.epsErrors < 256 && And8(p.epsErrors, p.obdhErrors) != p.epsErrors ==>
      LoadAsWritten(SaveAsWritten(img, p, rule)).epsErrors != p.epsErrors
  {
    if p.epsErrors < 256 && And8(p.epsErrors, p.obdhErrors) != p.epsErrors && rule == LastWriteWins {
      if p.obdhErrors == p.epsErrors {
        And8Self(p.epsErrors);
      }
    }
  }

  /** The example of the finding: 3 EPS errors and no OBDH errors reload as 0 under both rules. */
  lemma EpsErrorsExample(img: FlashImage, p: Params, rule: ProgramRule)
    requires p.epsErrors == 3 && p.obdhErrors == 0
    ensures LoadAsWritten(SaveAsWritten(img, p, rule)).epsErrors == 0
    ensures LoadAsWritten(SaveAsWritten(img, p, rule)).obdhErrors == 0
  {
    assert (3 as bv8) & (0 as bv8) == 0;
  }

  /** Corrected beacon_save_params: obdh.errors written to its own address. */
  function Save(img: FlashImage, p: Params): (r: FlashImage)
    ensures r.paramsSaved == 1
  {
    FlashImage(BoolCell(p.hibernation), p.energyLevel, p.lastEnergyLevelSet, BoolCell(p.deployHibernationExecuted),
      p.deploymentAttempts, p.epsTimeLastValidPkt, p.epsErrors, BoolCell(p.epsIsDead),
      p.obdhTimeLastValidPkt, p.obdhErrors, BoolCell(p.obdhIsDead), 1)
  }

  /** Corrected beacon_load_params' reads: obdh.errors read from its own address. */
  function Load(img: FlashImage): Params
  {
    Params(img.hibernation != 0, img.energyLevel, img.lastEnergyLevelSet, img.deployHibernationExecuted != 0,
      img.deploymentAttempts, img.epsLastTimeValidPkt, img.epsErrors, img.epsIsDeadPkt != 0,
      img.obdhLastTimeValidPkt, img.obdhErrors, img.obdhIsDeadPkt != 0)
  }

  /** Reloading what was saved restores every parameter, whatever the flash held before. */
  lemma LoadSave(img: FlashImage, p: Params)
    ensures Load(Save(img, p)) == p
    ensures Save(img, p) == Save(Save(img, p), p)
  {
  }

  /** beacon_load_default_params, with `now` for time_get_seconds(). */
  function DefaultParams(now: nat): (p: Params)
    ensures !p.hibernation && !p.deployHibernationExecuted && p.deploymentAttempts == 0
    ensures p.energyLevel == EnergyLevel5 && p.epsErrors == 0 && p.obdhErrors == 0 && !p.epsIsDead && !p.obdhIsDead
    ensures p.lastEnergyLevelSet == now && p.epsTimeLastValidPkt == now && p.obdhTimeLastValidPkt == now
  {
    Params(false, EnergyLevel5, now, false, 0, now, 0, false, now, 0, false)
  }

  /** What the corrected beacon_load_params leaves: the saved parameters when the saved flag is 1, else the defaults. */
  function Loaded(img: FlashImage, now: nat): (p: Params)
    ensures img.paramsSaved != 1 ==> p == DefaultParams(now)
  {
    if img.paramsSaved == 1 then Load(img) else DefaultParams(now)
  }

  /** The corrected boot: after a corrected save, beacon_load_params resumes exactly the saved parameters. */
  lemma BootResumesSavedParams(img: FlashImage, p: Params, now: nat)
    ensures Loaded(Save(img, p), now) == p
  {
  }

  /** What beacon_load_params leaves as written: LoadAsWritten when the saved flag is 1, else the defaults. */
  function LoadedAsWritten(img: FlashImage, now: nat): (p: Params)
    ensures img.paramsSaved != 1 ==> p == DefaultParams(now)
    ensures img.paramsSaved == 1 ==> p.epsErrors == img.epsErrors && p.obdhErrors == img.epsErrors
  {
    if img.paramsSaved == 1 then LoadAsWritten(img) else DefaultParams(now)
  }

  /**
   * A boot after a save, as written: every parameter is resumed except the
   * two error counts, which both come back as the EPS errors cell.
   */
  lemma BootAsWrittenMergesErrors(img: FlashImage, p: Params, rule: ProgramRule, now: nat)
    ensures var cell := ErrorsCellAsWritten(p, rule);
      LoadedAsWritten(SaveAsWritten(img, p, rule), now) == p.(epsErrors := cell, obdhErrors := cell)
  {
    SaveLoadAsWrittenLosesEpsErrors(img, p, rule);
  }

  // ------------------------------------------------------------------
  // Shutdown acknowledgement
  // ------------------------------------------------------------------

  /** shutdown_ack_start, "Shutdown received from " with its terminating NUL (sizeof counts it). */
  const ShutdownAckStart: seq<bv8> := [
    0x53, 0x68, 0x75, 0x74, 0x64, 0x6F, 0x77, 0x6E, 0x20, 0x72, 0x65, 0x63, 0x65, 0x69, 0x76, 0x65,
    0x64, 0x20, 0x66, 0x72, 0x6F, 0x6D, 0x20, 0x00]
  /** shutdown_ack_end, ". Wake up time in 24 hours." with its terminating NUL. */
  const ShutdownAckEnd: seq<bv8> := [
    0x2E, 0x20, 0x57, 0x61, 0x6B, 0x65, 0x20, 0x75, 0x70, 0x20, 0x74, 0x69, 0x6D, 0x65, 0x20, 0x69,
    0x6E, 0x20, 0x32, 0x34, 0x20, 0x68, 0x6F, 0x75, 0x72, 0x73, 0x2E, 0x00]
  const SenderLength: nat := 6
  const AckPayloadCapacity: nat := 60
  const DecodedCapacity: nat := 100

  /** A decoded radio packet asking for shutdown: 's' and 'd' after the six sender octets. */
  predicate IsShutdownCommand(data: seq<bv8>)
  {
    |data| == DecodedCapacity && data[6] == 0x73 && data[7] == 0x64
  }

  /** The acknowledgement payload: the start text, the six sender octets, the end text. */
  function ShutdownAck(data: seq<bv8>): (p: seq<bv8>)
    requires |data| >= SenderLength
    ensures |p| == 58 <= AckPayloadCapacity
  {
    ShutdownAckStart + data[..SenderLength] + ShutdownAckEnd
  }

  /** The sender can be read back from the acknowledgement, and both texts keep their NUL terminators. */
  lemma ShutdownAckFields(data: seq<bv8>)
    requires |data| >= SenderLength
    ensures ShutdownAck(data)[..24] == ShutdownAckStart
    ensures ShutdownAck(data)[24..30] == data[..SenderLength]
    ensures ShutdownAck(data)[30..] == ShutdownAckEnd
    ensures ShutdownAck(data)[23] == 0x00 && ShutdownAck(data)[57] == 0x00
  {
    var p := ShutdownAck(data);
    assert p == ShutdownAckStart + (data[..SenderLength] + ShutdownAckEnd);
    assert p[24..] == data[..SenderLength] + ShutdownAckEnd;
    assert p[24..][..6] == data[..SenderLength];
  }

  /** The three loops of beacon_process_radio_pkt that assemble the acknowledgement in the 60-byte pkt_payload. */
  method BuildShutdownAck(data: seq<bv8>) returns (pktPayload: array<bv8>, pktPayloadLen: nat)
    requires |data| >= SenderLength
    ensures pktPayload.Length == AckPayloadCapacity
    ensures pktPayloadLen <= pktPayload.Length && pktPayload[..pktPayloadLen] == ShutdownAck(data)
  {
    pktPayload := new bv8[AckPayloadCapacity];
    var start, sender, end := ShutdownAckStart, data[..SenderLength], ShutdownAckEnd;
    pktPayloadLen := Payload.PutBytes(pktPayload, 0, start);
    ghost var afterStart := pktPayload[..pktPayloadLen];
    pktPayloadLen := Payload.PutBytes(pktPayload, pktPayloadLen, sender);
    ghost var afterSender := pktPayload[..pktPayloadLen];
    assert afterSender == afterStart + sender;
    pktPayloadLen := Payload.PutBytes(pktPayload, pktPayloadLen, end);
    assert pktPayload[..pktPayloadLen] == afterSender + end;
  }

  /** The acknowledgement retry loop: `while (timeout--)`, sending once can_transmit holds; returns whether it sent. */
  method SendWithTimeout(canTransmit: bool, timeout: nat) returns (sent: bool)
    ensures sent <==> canTransmit && timeout > 0
  {
    var remaining := timeout;
    sent := false;
    while remaining > 0
      invariant remaining <= timeout
      invariant !sent
      invariant remaining < timeout ==> !canTransmit
      decreases remaining
    {
      remaining := remaining - 1;
      if canTransmit {
        sent := true;
        return;
      }
    }
  }

  // ------------------------------------------------------------------
  // The beacon state
  // ------------------------------------------------------------------

  /** The global `beacon` of beacon.c and the parameter cells of the flash. */
  class BeaconState {
    var hibernation: bool
    var canTransmit: bool
    var transmitting: bool
    var energyLevel: nat
    var hibernationModeInitialTime: nat
    var timeObdhStartedTx: nat
    var lastEnergyLevelSet: nat
    var lastParamsSaving: nat
    var obdh: FSatModule
    var eps: FSatModule
    var deploymentAttempts: nat
    var deploymentExecuted: bool
    var deployHibernationExecuted: bool
    var paramsSaved: bool
    var flash: FlashImage

    /** Both modules' buffers hold the energy-level byte configured for them. */
    ghost predicate Valid()
      reads this
    {
      HasEnergyByte(obdh, FirmwareConfig.obdhEnergyLevelPos) && HasEnergyByte(eps, FirmwareConfig.epsEnergyLevelPos)
    }

    /**
     * The global `beacon` at power-up, before beacon_init: every field zero,
     * with the modules' buffers and the flash contents given.
     */
    constructor(obdhBuffer: Buffer, epsBuffer: Buffer, flashAtBoot: FlashImage)
      ensures obdh == FSatModule(0, 0, false, obdhBuffer) && eps == FSatModule(0, 0, false, epsBuffer)
      ensures flash == flashAtBoot
      ensures !hibernation && !canTransmit && !transmitting && energyLevel == 0
      ensures hibernationModeInitialTime == 0 && timeObdhStartedTx == 0 && lastEnergyLevelSet == 0 && lastParamsSaving == 0
      ensures deploymentAttempts == 0 && !deploymentExecuted && !deployHibernationExecuted && !paramsSaved
      ensures Valid() <==> FirmwareConfig.obdhEnergyLevelPos < |obdhBuffer.data| && FirmwareConfig.epsEnergyLevelPos < |epsBuffer.data|
    {
      hibernation := false;
      canTransmit := false;
      transmitting := false;
      energyLevel := 0;
      hibernationModeInitialTime := 0;
      timeObdhStartedTx := 0;
      lastEnergyLevelSet := 0;
      lastParamsSaving := 0;
      obdh := FSatModule(0, 0, false, obdhBuffer);
      eps := FSatModule(0, 0, false, epsBuffer);
      deploymentAttempts := 0;
      deploymentExecuted := false;
      deployHibernationExecuted := false;
      paramsSaved := false;
      flash := flashAtBoot;
    }

    /** The fields beacon_save_params persists. */
    function Persisted(): Params
      reads this
    {
      Params(hibernation, energyLevel, lastEnergyLevelSet, deployHibernationExecuted, deploymentAttempts,
        eps.timeLastValidPkt, eps.errors, eps.isDead, obdh.timeLastValidPkt, obdh.errors, obdh.isDead)
    }

    /** beacon_enter_hibernation: only the first call records the start time. */
    method EnterHibernation(now: nat)
      modifies this`hibernation, this`hibernationModeInitialTime
      ensures hibernation
      ensures hibernationModeInitialTime == if old(hibernation) then old(hibernationModeInitialTime) else now
    {
      if !hibernation {
        hibernation := true;
        hibernationModeInitialTime := now;
      }
    }

    /** beacon_leave_hibernation */
    method LeaveHibernation()
      modifies this`hibernation
      ensures !hibernation
    {
      hibernation := false;
    }

    /** beacon_get_tx_period */
    method GetTxPeriod() returns (period: nat)
      ensures period == TxPeriod(FirmwareConfig, energyLevel)
      ensures 10 <= period <= 30
    {
      TxPeriodBounds(energyLevel);
      if energyLevel == EnergyLevel1 {
        period := FirmwareConfig.txPeriodL1;
      } else if energyLevel == EnergyLevel2 {
        period := FirmwareConfig.txPeriodL2;
      } else if energyLevel == EnergyLevel3 {
        period := FirmwareConfig.txPeriodL3;
      } else if energyLevel == EnergyLevel4 {
        period := FirmwareConfig.txPeriodL4;
      } else {
        period := FirmwareConfig.txPeriodL5;
      }
    }

    /** beacon_set_energy_level (the change message is debug output). */
    method SetEnergyLevel()
      requires Valid()
      modifies this`energyLevel
      ensures energyLevel == ChosenEnergyLevel(FirmwareConfig, obdh, eps)
    {
      if obdh.errors == 0 && !obdh.isDead {
        energyLevel := obdh.buffer.data[FirmwareConfig.obdhEnergyLevelPos] as nat;
      } else if eps.errors == 0 && !eps.isDead {
        energyLevel := eps.buffer.data[FirmwareConfig.epsEnergyLevelPos] as nat;
      } else {
        energyLevel := EnergyLevel5;
      }
    }

    /** beacon_check_devices_status */
    method CheckDevicesStatus(now: nat)
      modifies this`obdh, this`eps, this`canTransmit
      ensures Valid() == old(Valid())
      ensures obdh == Checked(old(obdh), now, FirmwareConfig.obdhTimeoutSec)
      ensures eps == Checked(old(eps), now, FirmwareConfig.epsTimeoutSec)
      ensures canTransmit == CanTransmitAfterCheck(old(canTransmit), now, timeObdhStartedTx, FirmwareConfig.obdhRadioTimeoutSec)
    {
      if Scheduler.Sub32(now, obdh.timeLastValidPkt) <= FirmwareConfig.obdhTimeoutSec {
        obdh := obdh.(isDead := false);
      } else {
        obdh := obdh.(isDead := true);
      }
      if Scheduler.Sub32(now, eps.timeLastValidPkt) <= FirmwareConfig.epsTimeoutSec {
        eps := eps.(isDead := false);
      } else {
        eps := eps.(isDead := true);
      }
      if !canTransmit {
        if Scheduler.Sub32(now, timeObdhStartedTx) >= FirmwareConfig.obdhRadioTimeoutSec {
          canTransmit := true;
        }
      }
    }

    /** beacon_process_eps_pkt after decoding: the outcome of the FSP decoder drives the update. */
    method ProcessEpsPkt(outcome: FspOutcome, now: nat)
      requires outcome.Ready? && outcome.srcAdr == FspAdrEps && outcome.pktType == FspPktTypeData ==> AcceptedBy(eps, outcome)
      modifies this`eps
      ensures Valid() == old(Valid())
      ensures eps == EpsAfterPacket(old(eps), outcome, now)
    {
      match outcome {
        case Incomplete =>
        case Invalid =>
          eps := eps.(errors := (eps.errors + 1) % 256);
        case Ready(src, t, payload, len) =>
          if src != FspAdrEps {
            eps := eps.(errors := (eps.errors + 1) % 256);
            return;
          }
          if t == FspPktTypeData {
            eps := eps.(buffer := Fill(eps.buffer, payload, len));
            eps := eps.(timeLastValidPkt := now);
            eps := eps.(errors := 0);
          } else {
            eps := eps.(errors := (eps.errors + 1) % 256);
          }
      }
    }

    /** beacon_load_default_params */
    method LoadDefaultParams(now: nat)
      modifies this`hibernation, this`energyLevel, this`deployHibernationExecuted, this`lastEnergyLevelSet
      modifies this`deploymentAttempts, this`eps, this`obdh
      ensures Persisted() == DefaultParams(now)
      ensures Valid() == old(Valid())
      ensures obdh.buffer == old(obdh.buffer) && eps.buffer == old(eps.buffer)
      ensures flash == old(flash) && paramsSaved == old(paramsSaved)
    {
      hibernation := false;
      energyLevel := EnergyLevel5;
      deployHibernationExecuted := false;
      lastEnergyLevelSet := now;
      deploymentAttempts := 0;
      eps := eps.(timeLastValidPkt := now, errors := 0, isDead := false);
      obdh := obdh.(timeLastValidPkt := now, errors := 0, isDead := false);
    }

    /** beacon_save_params; `rule` is what the second write to the EPS errors cell does. */
    method SaveParams(now: nat, rule: ProgramRule)
      modifies this`flash, this`lastParamsSaving
      ensures flash == SaveAsWritten(old(flash), Persisted(), rule)
      ensures lastParamsSaving == now
    {
      flash := SaveAsWritten(flash, Persisted(), rule);
      lastParamsSaving := now;
    }

    /** beacon_load_params: obdh.errors is read from the EPS errors cell, as at line 732. */
    method LoadParams(now: nat)
      modifies this`hibernation, this`energyLevel, this`deployHibernationExecuted, this`lastEnergyLevelSet
      modifies this`deploymentAttempts, this`eps, this`obdh, this`paramsSaved
      ensures Valid() == old(Valid())
      ensures paramsSaved == (old(flash).paramsSaved == 1)
      ensures Persisted() == LoadedAsWritten(old(flash), now)
      ensures flash == old(flash) && obdh.buffer == old(obdh.buffer) && eps.buffer == old(eps.buffer)
    {
      paramsSaved := flash.paramsSaved == 1;
      if !paramsSaved {
        LoadDefaultParams(now);
      } else {
        var p := LoadAsWritten(flash);
        hibernation := p.hibernation;
        energyLevel := p.energyLevel;
        lastEnergyLevelSet := p.lastEnergyLevelSet;
        deployHibernationExecuted := p.deployHibernationExecuted;
        deploymentAttempts := p.deploymentAttempts;
        eps := eps.(timeLastValidPkt := p.epsTimeLastValidPkt, errors := p.epsErrors, isDead := p.epsIsDead);
        obdh := obdh.(timeLastValidPkt := p.obdhTimeLastValidPkt, errors := p.obdhErrors, isDead := p.obdhIsDead);
      }
    }

    /**
     * beacon_antenna_deployment's counter logic. On the first attempt the
     * routine hibernates through the deployment wait (time passes outside
     * the model; `nowAfterWait` is the time it ends) and saves the
     * parameters; the deployment itself is hardware.
     */
    method AntennaDeployment(nowAfterWait: nat, rule: ProgramRule)
      modifies this`hibernation, this`deployHibernationExecuted, this`flash, this`lastParamsSaving
      modifies this`deploymentAttempts, this`deploymentExecuted
      ensures deploymentAttempts == AttemptsAfterDeployment(old(deploymentAttempts))
      ensures deploymentExecuted && !hibernation
      ensures old(deploymentAttempts) < AntennaMaxDeployments ==> deployHibernationExecuted
      ensures old(deploymentAttempts) >= AntennaMaxDeployments ==> deployHibernationExecuted == old(deployHibernationExecuted)
      ensures old(deploymentAttempts) < AntennaMaxDeployments && !old(deployHibernationExecuted) ==>
        flash == SaveAsWritten(old(flash), old(Persisted()).(hibernation := true, deployHibernationExecuted := true), rule)
      ensures old(deploymentAttempts) >= AntennaMaxDeployments || old(deployHibernationExecuted) ==> flash == old(flash)
      ensures lastParamsSaving ==
        if old(deploymentAttempts) < AntennaMaxDeployments && !old(deployHibernationExecuted) then nowAfterWait else old(lastParamsSaving)
      ensures obdh == old(obdh) && eps == old(eps) && energyLevel == old(energyLevel)
    {
      if deploymentAttempts >= AntennaMaxDeployments {
        hibernation := false;
        deploymentExecuted := true;
        return;
      }
      if !deployHibernationExecuted {
        hibernation := true;
        deployHibernationExecuted := true;
        SaveParams(nowAfterWait, rule);
      }
      deploymentAttempts := (deploymentAttempts + 1) % 256;
      hibernation := false;
      deploymentExecuted := true;
    }

    /**
     * beacon_process_radio_pkt after decoding (`decoded` is the 100-byte
     * data buffer when the NGHam decoder reported a complete packet): a
     * shutdown command is acknowledged, if the radio is free within
     * `timeout` tries, and puts the beacon into hibernation.
     */
    method ProcessRadioPkt(decoded: Option<seq<bv8>>, timeout: nat, now: nat) returns (ack: Option<seq<bv8>>, sent: bool)
      requires decoded.Some? ==> |decoded.value| == DecodedCapacity
      modifies this`hibernation, this`hibernationModeInitialTime, this`transmitting
      ensures !old(hibernation) && decoded.Some? && IsShutdownCommand(decoded.value) ==>
        ack == Some(ShutdownAck(decoded.value)) && (sent <==> canTransmit && timeout > 0)
        && hibernation && hibernationModeInitialTime == now
      ensures !(!old(hibernation) && decoded.Some? && IsShutdownCommand(decoded.value)) ==>
        ack == None && !sent && hibernation == old(hibernation)
        && hibernationModeInitialTime == old(hibernationModeInitialTime)
      ensures transmitting == old(transmitting)
    {
      ack := None;
      sent := false;
      if !hibernation {
        if decoded.Some? {
          var data := decoded.value;
          if data[6] == 0x73 && data[7] == 0x64 {
            var pktPayload, pktPayloadLen := BuildShutdownAck(data);
            ack := Some(pktPayload[..pktPayloadLen]);
            sent := SendWithTimeout(canTransmit, timeout);
            EnterHibernation(now);
          }
        }
      }
    }
  }

  /** The hibernation entered by a shutdown command ends no earlier than the configured period plus task_scheduled's delay. */
  lemma HibernationLastsPeriod(initialTime: nat, now: nat)
    requires initialTime + FirmwareConfig.hibernationPeriodSec + LeaveHibernationDelay < Scheduler.Modulus32
    requires Scheduler.ScheduledDue(Scheduler.Add32(initialTime, FirmwareConfig.hibernationPeriodSec), now, LeaveHibernationDelay, true)
    ensures now >= initialTime + 24 * 60 * 60 + 5
  {
  }
}
