/** The radar pattern tables of the three DFS regions. */
module DfsTables {
  import opened Options
  import opened DfsModel

  datatype Region = Unset | Fcc | Etsi | Jp | Other

  const MIN_PPB_THRESH: nat := 50

  /** PPB_THRESH_RATE */
  function PpbThreshRate(ppb: nat, rate: nat): nat
    requires rate <= 100
  {
    (ppb * rate + 100 - rate) / 100
  }

  function Prf2Pri(prf: nat): nat
    requires prf > 0
  {
    (1000000 + prf / 2) / prf
  }

  function WidthLower(x: nat): nat { (x * 95 + 50) / 100 }

  function WidthUpper(x: nat): nat { (x * 105 + 50) / 100 }

  function EtsiPattern(id: nat, wMin: nat, wMax: nat, pMin: nat, pMax: nat, prf: nat, ppb: nat): RadarSpec
    requires 0 < pMin && 0 < pMax && Prf2Pri(pMax) >= PRI_TOLERANCE
  {
    RadarSpec(id, WidthLower(wMin), WidthUpper(wMax), Prf2Pri(pMax) - PRI_TOLERANCE,
              Prf2Pri(pMin) * prf + PRI_TOLERANCE, prf, ppb * prf,
              PpbThreshRate(ppb, MIN_PPB_THRESH), PRI_TOLERANCE, false)
  }

  function JpPattern(id: nat, wMin: nat, wMax: nat, pMin: nat, pMax: nat, ppb: nat, rate: nat, chirp: bool): RadarSpec
    requires pMin >= PRI_TOLERANCE && rate <= 100
  {
    RadarSpec(id, WidthLower(wMin), WidthUpper(wMax), pMin - PRI_TOLERANCE, pMax + PRI_TOLERANCE,
              1, ppb, PpbThreshRate(ppb, rate), PRI_TOLERANCE, chirp)
  }

  function FccPattern(id: nat, wMin: nat, wMax: nat, pMin: nat, pMax: nat, ppb: nat, chirp: bool): RadarSpec
    requires pMin >= PRI_TOLERANCE
  {
    JpPattern(id, wMin, wMax, pMin, pMax, ppb, MIN_PPB_THRESH, chirp)
  }

  const ETSI_TYPES: seq<RadarSpec> := [
    EtsiPattern(0, 0, 1, 700, 700, 1, 18),
    EtsiPattern(1, 0, 5, 200, 1000, 1, 10),
    EtsiPattern(2, 0, 15, 200, 1600, 1, 15),
    EtsiPattern(3, 0, 15, 2300, 4000, 1, 25),
    EtsiPattern(4, 20, 30, 2000, 4000, 1, 20),
    EtsiPattern(5, 0, 2, 300, 400, 3, 10),
    EtsiPattern(6, 0, 2, 400, 1200, 3, 15)
  ]

  const FCC_TYPES: seq<RadarSpec> := [
    FccPattern(0, 0, 1, 1428, 1428, 18, false),
    FccPattern(101, 0, 1, 518, 938, 57, false),
    FccPattern(102, 0, 1, 938, 2000, 27, false),
    FccPattern(103, 0, 1, 2000, 3066, 18, false),
    FccPattern(2, 0, 5, 150, 230, 23, false),
    FccPattern(3, 6, 10, 200, 500, 16, false),
    FccPattern(4, 11, 20, 200, 500, 12, false),
    FccPattern(5, 50, 100, 1000, 2000, 1, true),
    FccPattern(6, 0, 1, 333, 333, 9, false)
  ]

  const JP_TYPES: seq<RadarSpec> := [
    JpPattern(0, 0, 1, 1428, 1428, 18, 29, false),
    JpPattern(1, 2, 3, 3846, 3846, 18, 29, false),
    JpPattern(2, 0, 1, 1388, 1388, 18, 50, false),
    JpPattern(3, 0, 4, 4000, 4000, 18, 50, false),
    JpPattern(4, 0, 5, 150, 230, 23, 50, false),
    JpPattern(5, 6, 10, 200, 500, 16, 50, false),
    JpPattern(6, 11, 20, 200, 500, 12, 50, false),
    JpPattern(7, 50, 100, 1000, 2000, 3, 50, true),
    JpPattern(5, 0, 1, 333, 333, 9, 50, false)
  ]

  /** get_dfs_domain_radar_types */
  function RadarTypes(region: Region): Option<seq<RadarSpec>> {
    match region
    case Etsi => Some(ETSI_TYPES)
    case Fcc => Some(FCC_TYPES)
    case Jp => Some(JP_TYPES)
    case _ => None
  }

  ghost predicate ValidSpecs(specs: seq<RadarSpec>) {
    forall i :: 0 <= i < |specs| ==> ValidSpec(specs[i])
  }

  // ---------- the tables in numbers: type, widths, PRI range, PRIs, pulses of a burst and of a detection ----------

  lemma EtsiInNumbers()
    ensures RadarTypes(Etsi) ==
            Some([
              RadarSpec(0, 0, 1, 1413, 1445, 1, 18, 9, 16, false),
              RadarSpec(1, 0, 5, 984, 5016, 1, 10, 5, 16, false),
              RadarSpec(2, 0, 16, 609, 5016, 1, 15, 8, 16, false),
              RadarSpec(3, 0, 16, 234, 451, 1, 25, 13, 16, false),
              RadarSpec(4, 19, 32, 234, 516, 1, 20, 10, 16, false),
              RadarSpec(5, 0, 2, 2484, 10015, 3, 30, 5, 16, false),
              RadarSpec(6, 0, 2, 817, 7516, 3, 45, 8, 16, false)
            ])
  {
  }

  lemma FccInNumbers()
    ensures RadarTypes(Fcc) ==
            Some([
              RadarSpec(0, 0, 1, 1412, 1444, 1, 18, 9, 16, false),
              RadarSpec(101, 0, 1, 502, 954, 1, 57, 29, 16, false),
              RadarSpec(102, 0, 1, 922, 2016, 1, 27, 14, 16, false),
              RadarSpec(103, 0, 1, 1984, 3082, 1, 18, 9, 16, false),
              RadarSpec(2, 0, 5, 134, 246, 1, 23, 12, 16, false),
              RadarSpec(3, 6, 11, 184, 516, 1, 16, 8, 16, false),
              RadarSpec(4, 10, 21, 184, 516, 1, 12, 6, 16, false),
              RadarSpec(5, 48, 105, 984, 2016, 1, 1, 1, 16, true),
              RadarSpec(6, 0, 1, 317, 349, 1, 9, 5, 16, false)
            ])
  {
  }

  lemma JpInNumbers()
    ensures RadarTypes(Jp) ==
            Some([
              RadarSpec(0, 0, 1, 1412, 1444, 1, 18, 5, 16, false),
              RadarSpec(1, 2, 3, 3830, 3862, 1, 18, 5, 16, false),
              RadarSpec(2, 0, 1, 1372, 1404, 1, 18, 9, 16, false),
              RadarSpec(3, 0, 4, 3984, 4016, 1, 18, 9, 16, false),
              RadarSpec(4, 0, 5, 134, 246, 1, 23, 12, 16, false),
              RadarSpec(5, 6, 11, 184, 516, 1, 16, 8, 16, false),
              RadarSpec(6, 10, 21, 184, 516, 1, 12, 6, 16, false),
              RadarSpec(7, 48, 105, 984, 2016, 1, 3, 2, 16, true),
              RadarSpec(5, 0, 1, 317, 349, 1, 9, 5, 16, false)
            ])
  {
  }

  lemma KnownRegions(region: Region)
    ensures RadarTypes(region).Some? <==> region == Etsi || region == Fcc || region == Jp
  {
  }

  /** The threshold never asks for more pulses than a burst has, nor for none: it is one more than the given percentage
      of all pulses but one, rounded down. */
  lemma PpbThreshInRange(ppb: nat, rate: nat)
    requires 1 <= ppb && rate <= 100
    ensures 1 <= PpbThreshRate(ppb, rate) <= ppb
    ensures 100 * (PpbThreshRate(ppb, rate) - 1) <= (ppb - 1) * rate < 100 * PpbThreshRate(ppb, rate)
  {
  }

  /** Every table entry satisfies the relations the detector relies on. */
  lemma TablesAreValid(region: Region)
    ensures RadarTypes(region).Some? ==> ValidSpecs(RadarTypes(region).value)
  {
  }
}
