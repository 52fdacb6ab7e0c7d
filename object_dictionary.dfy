/** The object dictionary: the process-wide record of measurements, actuator
    states, command flags and the vehicle's state-machine state. Here it is
    an explicit object handed to the link, not a global. */
module Dictionary {

  /** The states of the vehicle's state machine (only the enumeration exists). */
  datatype Fsm =
    | Idle
    | GimbalHoming
    | MainValvesHoming
    | TarePressures
    | TareOrientation
    | Armed
    | Launch
    | Abort

  /** A C `float` as the dictionary holds it: a finite value, or NaN, the
      sentinel for an unknown measurement. Infinities are not modelled. */
  datatype Float = NaN | Num(value: real)

  class ObjectDictionary {
    var gyroX: Float
    var gyroY: Float
    var gyroZ: Float
    var accX: Float
    var accY: Float
    var accZ: Float
    var baro: Float
    var kalmanYaw: Float
    var kalmanPitch: Float
    var kalmanRoll: Float
    var gimbalX: Float
    var gimbalY: Float
    var hvVoltage: Float
    var lvVoltage: Float
    var chamberPressure: Float
    var pressureTankETH: Float
    var pressureTankN2O: Float
    var pressureInjETH: Float
    var pressureInjN2O: Float
    var pressureLineETH: Float
    var pressureLineN2O: Float
    var currentETHMainValve: Float
    var currentN2OMainValve: Float
    var positionETHMainValve: Float
    var positionN2OMainValve: Float
    var gimbalXCurrent: Float
    var gimbalYCurrent: Float
    var positionGimbalX: Float
    var positionGimbalY: Float
    var tempN2O: Float

    var ventETH: bool
    var ventN2O: bool
    var solN2: bool

    var mainETH: Float
    var mainN2O: Float

    var solETH: bool
    var solN2O: bool
    var igniter: bool
    var sequenceFinished: bool
    var ethMainValvesHoming: bool
    var ethMainValvesHomingDone: bool
    var n2oMainValvesHoming: bool
    var n2oMainValvesHomingDone: bool
    var gimbalHoming: bool
    var gimbalHomingDone: bool
    var thrustControl: bool
    var cmdIdle: bool
    var cmdArm: bool
    var cmdLaunch: bool
    var cmdAbort: bool
    var cmdTareOrientation: bool
    var cmdTarePressures: bool

    var hopperState: Fsm

    /** The measurement fields, each of which starts out unknown. */
    function Measurements(): (m: seq<Float>)
      reads this
      ensures |m| == 30
    {
      [gyroX, gyroY, gyroZ, accX, accY, accZ, baro,
       kalmanYaw, kalmanPitch, kalmanRoll, gimbalX, gimbalY,
       hvVoltage, lvVoltage, chamberPressure,
       pressureTankETH, pressureTankN2O, pressureInjETH, pressureInjN2O,
       pressureLineETH, pressureLineN2O,
       currentETHMainValve, currentN2OMainValve,
       positionETHMainValve, positionN2OMainValve,
       gimbalXCurrent, gimbalYCurrent, positionGimbalX, positionGimbalY,
       tempN2O]
    }

    /** The flags other than the two vents, each of which starts out false. */
    function Flags(): (f: seq<bool>)
      reads this
      ensures |f| == 18
    {
      [solN2, solETH, solN2O, igniter, sequenceFinished,
       ethMainValvesHoming, ethMainValvesHomingDone,
       n2oMainValvesHoming, n2oMainValvesHomingDone,
       gimbalHoming, gimbalHomingDone, thrustControl,
       cmdIdle, cmdArm, cmdLaunch, cmdAbort, cmdTareOrientation, cmdTarePressures]
    }

    /** The state the member initialisers give a fresh dictionary: every
        measurement unknown, both vents open, both main valves at 0, every
        other flag false and the state machine idle. */
    ghost predicate IsDefault()
      reads this
    {
      && (forall i :: 0 <= i < |Measurements()| ==> Measurements()[i] == NaN)
      && ventETH && ventN2O
      && mainETH == Num(0.0) && mainN2O == Num(0.0)
      && (forall i :: 0 <= i < |Flags()| ==> !Flags()[i])
      && hopperState == Idle
    }

    constructor ()
      ensures IsDefault()
    {
      gyroX, gyroY, gyroZ := NaN, NaN, NaN;
      accX, accY, accZ := NaN, NaN, NaN;
      baro := NaN;
      kalmanYaw, kalmanPitch, kalmanRoll := NaN, NaN, NaN;
      gimbalX, gimbalY := NaN, NaN;
      hvVoltage, lvVoltage := NaN, NaN;
      chamberPressure := NaN;
      pressureTankETH, pressureTankN2O := NaN, NaN;
      pressureInjETH, pressureInjN2O := NaN, NaN;
      pressureLineETH, pressureLineN2O := NaN, NaN;
      currentETHMainValve, currentN2OMainValve := NaN, NaN;
      positionETHMainValve, positionN2OMainValve := NaN, NaN;
      gimbalXCurrent, gimbalYCurrent := NaN, NaN;
      positionGimbalX, positionGimbalY := NaN, NaN;
      tempN2O := NaN;
      ventETH, ventN2O, solN2 := true, true, false;
      mainETH, mainN2O := Num(0.0), Num(0.0);
      solETH, solN2O := false, false;
      igniter := false;
      sequenceFinished := false;
      ethMainValvesHoming, ethMainValvesHomingDone := false, false;
      n2oMainValvesHoming, n2oMainValvesHomingDone := false, false;
      gimbalHoming, gimbalHomingDone := false, false;
      thrustControl := false;
      cmdIdle, cmdArm, cmdLaunch, cmdAbort := false, false, false, false;
      cmdTareOrientation, cmdTarePressures := false, false;
      hopperState := Idle;
    }
  }
}
