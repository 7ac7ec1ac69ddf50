/** Satellite numbers, and the MSM satellite and signal identifiers they map to. */
module Satellites {

  datatype System = NoSystem | Gps | Glonass | Galileo | BeiDou

  const NSATGPS := 32
  const NSATGLO := 24
  const NSATGAL := 27
  const NSATQZS := 0  // redefined to 0 in the encoder's source file
  const NSATCMP := 37
  const MAXSAT := NSATGPS + NSATGLO + NSATGAL + NSATQZS + NSATCMP
  const MINPRNCMP := 161
  const MAXPRNCMP := 197

  /** satno: 0 for a number outside the system. */
  function SatNo(sys: System, prn: int): nat {
    if prn <= 0 then 0
    else match sys
      case Gps => if 1 <= prn <= NSATGPS then prn else 0
      case Glonass => if 1 <= prn <= NSATGLO then NSATGPS + prn else 0
      case Galileo => if 1 <= prn <= NSATGAL then NSATGPS + NSATGLO + prn else 0
      case BeiDou =>
        if MINPRNCMP <= prn <= MAXPRNCMP
        then NSATGPS + NSATGLO + NSATGAL + NSATQZS + prn - MINPRNCMP + 1 else 0
      case NoSystem => 0
  }

  /** satsys: the system of a satellite number, and its number within the system. */
  function SatSys(sat: nat): (System, nat) {
    if sat == 0 || MAXSAT < sat then (NoSystem, 0)
    else if sat <= NSATGPS then (Gps, sat)
    else if sat - NSATGPS <= NSATGLO then (Glonass, sat - NSATGPS)
    else if sat - NSATGPS - NSATGLO <= NSATGAL then (Galileo, sat - NSATGPS - NSATGLO)
    else (BeiDou, sat - NSATGPS - NSATGLO - NSATGAL - NSATQZS)
  }

  /** to_satid: 0 for a satellite of another system. */
  function ToSatId(sys: System, sat: nat): (id: nat)
    ensures id <= 64
  {
    var (s, prn) := SatSys(sat);
    if s == sys then prn else 0
  }

  /** GPS ids are the PRNs, BeiDou ids the PRNs counted from 161; raw2rtcm's comparison with 84 tells
      the two systems apart. */
  lemma SatelliteNumbersInvert(prn: nat)
    ensures 1 <= prn <= 32 ==>
              var sat := SatNo(Gps, prn);
              ToSatId(Gps, sat) == prn && ToSatId(BeiDou, sat) == 0 && sat == prn
    ensures 161 <= prn <= 197 ==>
              var sat := SatNo(BeiDou, prn);
              ToSatId(BeiDou, sat) == prn - 160 && ToSatId(Gps, sat) == 0 && sat == prn - 77
    ensures (prn < 1 || prn > 32 ==> SatNo(Gps, prn) == 0) && (prn < 161 || prn > 197 ==> SatNo(BeiDou, prn) == 0)
  {
  }

  /** A system and an id name at most one satellite number. */
  lemma SatIdInjective(sys: System, a: nat, b: nat)
    requires sys != NoSystem && ToSatId(sys, a) == ToSatId(sys, b) != 0
    ensures a == b
  {
  }

  // ---------- signals ----------

  const CODE_NONE := 0
  const CODE_L1C := 1
  const CODE_L1P := 2
  const CODE_L1Y := 4
  const CODE_L1I := 47
  const CODE_L1Q := 48
  const MAXCODE := 48

  /** A RINEX code such as 1C: a band and an attribute. Unnamed stands for the empty string. */
  datatype CodeName = Unnamed | Named(band: nat, attribute: char)

  /** obscodes. */
  function ObsCode(code: nat): CodeName {
    match code
    case 1 => Named(1, 'C')
    case 2 => Named(1, 'P')
    case 3 => Named(1, 'W')
    case 4 => Named(1, 'Y')
    case 5 => Named(1, 'M')
    case 6 => Named(1, 'N')
    case 7 => Named(1, 'S')
    case 8 => Named(1, 'L')
    case 9 => Named(1, 'E')
    case 10 => Named(1, 'A')
    case 11 => Named(1, 'B')
    case 12 => Named(1, 'X')
    case 13 => Named(1, 'Z')
    case 14 => Named(2, 'C')
    case 15 => Named(2, 'D')
    case 16 => Named(2, 'S')
    case 17 => Named(2, 'L')
    case 18 => Named(2, 'X')
    case 19 => Named(2, 'P')
    case 20 => Named(2, 'W')
    case 21 => Named(2, 'Y')
    case 22 => Named(2, 'M')
    case 23 => Named(2, 'N')
    case 24 => Named(5, 'I')
    case 25 => Named(5, 'Q')
    case 26 => Named(5, 'X')
    case 27 => Named(7, 'I')
    case 28 => Named(7, 'Q')
    case 29 => Named(7, 'X')
    case 30 => Named(6, 'A')
    case 31 => Named(6, 'B')
    case 32 => Named(6, 'C')
    case 33 => Named(6, 'X')
    case 34 => Named(6, 'Z')
    case 35 => Named(6, 'S')
    case 36 => Named(6, 'L')
    case 37 => Named(8, 'L')
    case 38 => Named(8, 'Q')
    case 39 => Named(8, 'X')
    case 40 => Named(2, 'I')
    case 41 => Named(2, 'Q')
    case 42 => Named(6, 'I')
    case 43 => Named(6, 'Q')
    case 44 => Named(3, 'I')
    case 45 => Named(3, 'Q')
    case 46 => Named(3, 'X')
    case 47 => Named(1, 'I')
    case 48 => Named(1, 'Q')
    case _ => Unnamed
  }

  /** msm_sig_gps. */
  function MsmSigGps(i: nat): CodeName {
    match i
    case 1 => Named(1, 'C')
    case 2 => Named(1, 'P')
    case 3 => Named(1, 'W')
    case 4 => Named(1, 'Y')
    case 5 => Named(1, 'M')
    case 7 => Named(2, 'C')
    case 8 => Named(2, 'P')
    case 9 => Named(2, 'W')
    case 10 => Named(2, 'Y')
    case 11 => Named(2, 'M')
    case 14 => Named(2, 'S')
    case 15 => Named(2, 'L')
    case 16 => Named(2, 'X')
    case 21 => Named(5, 'I')
    case 22 => Named(5, 'Q')
    case 23 => Named(5, 'X')
    case 29 => Named(1, 'S')
    case 30 => Named(1, 'L')
    case 31 => Named(1, 'X')
    case _ => Unnamed
  }

  /** msm_sig_cmp. */
  function MsmSigCmp(i: nat): CodeName {
    match i
    case 1 => Named(1, 'I')
    case 2 => Named(1, 'Q')
    case 3 => Named(1, 'X')
    case 7 => Named(6, 'I')
    case 8 => Named(6, 'Q')
    case 9 => Named(6, 'X')
    case 13 => Named(7, 'I')
    case 14 => Named(7, 'Q')
    case 15 => Named(7, 'X')
    case _ => Unnamed
  }

  /** obsfreqs, as the runs of equal entries of the table. */
  function Frequency(code: nat): nat {
    if code == CODE_NONE || MAXCODE < code then 0
    else if code <= 13 then 1
    else if code <= 23 then 2
    else if code <= 26 then 3
    else if code <= 29 then 5
    else if code <= 36 then 4
    else if code <= 39 then 6
    else if code <= 41 then 2
    else if code <= 43 then 4
    else if code <= 46 then 3
    else 1
  }

  /** Codes undefined by RTCM are sent as their nearest defined neighbour. */
  function Substitute(sys: System, code: nat): nat {
    if sys != Gps then code
    else if code == CODE_L1Y || code == 5 || code == 6 then CODE_L1P
    else if code == 15 || code == 21 || code == 22 || code == 23 then 19
    else code
  }

  /** to_sigid, with the search through the system's signal table already made; see SigIdIsFirstMatch. */
  function ToSigId(sys: System, code: nat): (id: nat)
    ensures id <= 32
  {
    match sys
    case Gps => GpsSigId(code)
    case BeiDou => CmpSigId(code)
    case _ => 0
  }

  function GpsSigId(code: nat): (id: nat)
    ensures id <= 32
  {
    match code
    case 1 => 2
    case 2 => 3
    case 3 => 4
    case 4 => 3
    case 5 => 3
    case 6 => 3
    case 7 => 30
    case 8 => 31
    case 12 => 32
    case 14 => 8
    case 15 => 9
    case 16 => 15
    case 17 => 16
    case 18 => 17
    case 19 => 9
    case 20 => 10
    case 21 => 9
    case 22 => 9
    case 23 => 9
    case 24 => 22
    case 25 => 23
    case 26 => 24
    case _ => 0
  }

  function CmpSigId(code: nat): (id: nat)
    ensures id <= 32
  {
    match code
    case 12 => 4
    case 27 => 14
    case 28 => 15
    case 29 => 16
    case 33 => 10
    case 42 => 8
    case 43 => 9
    case 47 => 2
    case 48 => 3
    case _ => 0
  }

  function SigTable(sys: System, i: nat): CodeName {
    if sys == Gps then MsmSigGps(i) else MsmSigCmp(i)
  }

  /** The identifier is the first position of the code's name in the table, counted from 1; it is 0
      when the code has no name or the table does not hold it. */
  lemma SigIdIsFirstMatch(sys: System, code: nat)
    requires sys == Gps || sys == BeiDou
    ensures var id, name := ToSigId(sys, code), ObsCode(Substitute(sys, code));
            if id != 0 then
              name.Named? && SigTable(sys, id - 1) == name && forall k: nat | k < id - 1 :: SigTable(sys, k) != name
            else
              name.Unnamed? || forall k: nat | k < 32 :: SigTable(sys, k) != name
  {
  }

  function SignalFrequency(sys: System, code: nat): nat {
    Frequency(Substitute(sys, code))
  }

  /** The two codes the receiver decoder admits are signal 2 of their systems, on frequency 1. */
  lemma AdmittedSignals()
    ensures ToSigId(Gps, CODE_L1C) == 2 && SignalFrequency(Gps, CODE_L1C) == 1
    ensures ToSigId(BeiDou, CODE_L1I) == 2 && SignalFrequency(BeiDou, CODE_L1I) == 1
    ensures ToSigId(Gps, CODE_NONE) == 0 && ToSigId(BeiDou, CODE_NONE) == 0
  {
  }
}
