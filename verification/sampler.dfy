/** Creating the FDS input files from templates (src/fds/sampler.rs): which
    template and which directory a setting uses, the list of placeholder
    replacements, the mesh split of the speed test, the per-line
    replacement, and the settings `create_simulations` and the speed test
    generate. Files, directories and the worker pool are not modelled. */
module Sampler {
  import opened Wrappers
  import opened Simulations
  import Text
  import Benchmarks
  import Lists
  import Modification

  /** A directory path as its components. */
  type Path = seq<string>

  datatype ReplaceType = OneDimensionalTemplate | SpeedTest(size: nat, threads: nat)

  datatype Material = Concrete | Steel

  datatype Settings = Settings(material: Material, kind: SimulationKind, kRamp: bool, cRamp: bool, replaceType: ReplaceType)

  /** The speed test only has an adiabatic template; asking for another
      kind is `unimplemented!()`. */
  predicate HasTemplate(s: Settings)
  {
    s.replaceType.SpeedTest? ==> s.kind.Adiabatic?
  }

  // ---------------------------------------------------------------- directories

  /** `template_dir`. */
  function TemplateDir(s: Settings): (r: Path)
    requires HasTemplate(s)
    ensures |r| == 3 && r[..2] == ["fds", "1D"]
  {
    match s.replaceType
    case OneDimensionalTemplate =>
      (match s.kind
       case Diabatic => ["fds", "1D", "Diabatic"]
       case DiabaticOneSide => ["fds", "1D", "DiabaticOneSide"]
       case Adiabatic => ["fds", "1D", "Adiabatic"])
    case SpeedTest(_, _) => ["fds", "1D", "AdiabaticSpeedTest"]
  }

  function MaterialName(m: Material): string
  {
    match m
    case Concrete => "concrete"
    case Steel => "steel"
  }

  function RampSuffix(kRamp: bool, cRamp: bool): string
  {
    if kRamp && cRamp then "_k_c"
    else if kRamp then "_k"
    else if cRamp then "_c"
    else "_simple"
  }

  /** The last component of `simulation_dir`: material, ramps, and for the
      speed test the cell and core counts. */
  function Leaf(s: Settings): string
  {
    MaterialName(s.material) + RampSuffix(s.kRamp, s.cRamp)
    + match s.replaceType
      case OneDimensionalTemplate => ""
      case SpeedTest(size, cores) => "_" + Text.NatToString(size) + "cells_" + Text.NatToString(cores) + "cores"
  }

  /** `simulation_dir`: the template directory and the leaf. */
  function SimulationDir(s: Settings): (r: Path)
    requires HasTemplate(s)
    ensures |r| == 4 && r[..3] == TemplateDir(s)
  {
    TemplateDir(s) + [Leaf(s)]
  }

  /** Reads material and ramps back from a one-dimensional leaf. */
  function DecodeLeaf(leaf: string): Option<(Material, bool, bool)>
  {
    if |leaf| < 4 then None
    else
      var m := if leaf[0] == 'c' then Concrete else Steel;
      match leaf[|leaf| - 1]
      case 'e' => Some((m, false, false))
      case 'k' => Some((m, true, false))
      case 'c' => if leaf[|leaf| - 3] == 'k' then Some((m, true, true)) else Some((m, false, true))
      case _ => None
  }

  /** The leaf of a one-dimensional setting names its material and ramps. */
  lemma LeafRoundTrip(s: Settings)
    requires s.replaceType.OneDimensionalTemplate?
    ensures DecodeLeaf(Leaf(s)) == Some((s.material, s.kRamp, s.cRamp))
  {
    var leaf := Leaf(s);
    var name, suffix := MaterialName(s.material), RampSuffix(s.kRamp, s.cRamp);
    assert leaf == name + suffix;
    assert leaf[0] == name[0];
    assert leaf[|leaf| - 1] == suffix[|suffix| - 1];
    if s.cRamp {
      assert leaf[|leaf| - 3] == (if s.kRamp then 'k' else name[|name| - 1]);
    }
  }

  /** Distinct one-dimensional settings get distinct directories. */
  lemma SimulationDirsDistinct(a: Settings, b: Settings)
    requires a.replaceType.OneDimensionalTemplate? && b.replaceType.OneDimensionalTemplate?
    ensures SimulationDir(a) == SimulationDir(b) <==> a == b
  {
    if SimulationDir(a) == SimulationDir(b) {
      assert TemplateDir(a)[2] == SimulationDir(a)[2];
      assert Leaf(a) == SimulationDir(a)[3] == SimulationDir(b)[3] == Leaf(b);
      LeafRoundTrip(a);
      LeafRoundTrip(b);
    }
  }

  // ---------------------------------------------------------------- replacements

  /** The placeholders of the templates. */
  datatype Key = Density | Emissivity | Conductivity | ConductivityRamp | SpecificHeat | SpecificHeatRamp | Mesh | Y

  /** The name between the two `#` of a placeholder. */
  function KeyName(k: Key): (r: string)
  {
    match k
    case Density => "DENSITY"
    case Emissivity => "EMISSIVITY"
    case Conductivity => "CONDUCTIVITY"
    case ConductivityRamp => "CONDUCTIVITY_RAMP"
    case SpecificHeat => "SPECIFIC_HEAT"
    case SpecificHeatRamp => "SPECIFIC_HEAT_RAMP"
    case Mesh => "MESH"
    case Y => "Y"
  }

  function KeyText(k: Key): (r: string)
  {
    "#" + KeyName(k) + "#"
  }

  /** Enclosed in `#` with no other `#` inside. */
  predicate Enclosed(t: string)
  {
    |t| >= 2 && t[0] == '#' && t[|t| - 1] == '#' && '#' !in t[1..|t| - 1]
  }

  /** Every placeholder is enclosed, and each has its own length. */
  lemma KeyShape(k: Key, j: Key)
    ensures Enclosed(KeyText(k))
    ensures |KeyText(k)| == |KeyText(j)| ==> k == j
  {
    var t := KeyText(k);
    assert t[1..|t| - 1] == KeyName(k);
    NameHasNoHash(k);
    NamesDiffer(k, j);
  }

  lemma NameHasNoHash(k: Key)
    ensures '#' !in KeyName(k)
  {
    match k
    case Density => assert '#' !in "DENSITY";
    case Emissivity => assert '#' !in "EMISSIVITY";
    case Conductivity => assert '#' !in "CONDUCTIVITY";
    case ConductivityRamp => assert '#' !in "CONDUCTIVITY_RAMP";
    case SpecificHeat => assert '#' !in "SPECIFIC_HEAT";
    case SpecificHeatRamp => assert '#' !in "SPECIFIC_HEAT_RAMP";
    case Mesh => assert '#' !in "MESH";
    case Y => assert '#' !in "Y";
  }

  /** The placeholder names have pairwise different lengths. */
  lemma NamesDiffer(k: Key, j: Key)
    ensures |KeyName(k)| == |KeyName(j)| ==> k == j
  {
  }

  /** An enclosed text occurs in another only as the whole of it. */
  lemma EnclosedOccurrence(t: string, p: string, i: int)
    requires Enclosed(t) && Enclosed(p) && Text.OccursAt(t, p, i)
    ensures i == 0 && p == t
  {
    assert t[i] == t[i..i + |p|][0] == '#';
    assert t[i + |p| - 1] == t[i..i + |p|][|p| - 1] == '#';
  }

  /** One placeholder occurs in another only as the whole of it. */
  lemma KeyOccurrence(k: Key, j: Key, i: int)
    requires Text.OccursAt(KeyText(k), KeyText(j), i)
    ensures j == k && i == 0
  {
    KeyShape(k, j);
    KeyShape(j, k);
    EnclosedOccurrence(KeyText(k), KeyText(j), i);
  }

  /** A text without `#` holds no placeholder. */
  lemma NoHashNoKey(v: string, j: Key, i: int)
    requires '#' !in v
    ensures !Text.OccursAt(v, KeyText(j), i)
  {
    KeyShape(j, j);
  }

  const ConcreteConductivityRamp: string :=
    "&RAMP ID = \"ramp_k\" T = 0.000 F =  1.4 /\n&RAMP ID = \"ramp_k\" T = 100.000 F =  1.2 /\n"
    + "&RAMP ID = \"ramp_k\" T = 200.000 F =  1.1 /\n&RAMP ID = \"ramp_k\" T = 300.000 F =  1.0 /\n"
    + "&RAMP ID = \"ramp_k\" T = 400.000 F =  0.9 /\n&RAMP ID = \"ramp_k\" T = 500.000 F =  0.8 /\n"
    + "&RAMP ID = \"ramp_k\" T = 600.000 F =  0.7 /\n&RAMP ID = \"ramp_k\" T = 700.000 F =  0.7 /\n"
    + "&RAMP ID = \"ramp_k\" T = 800.000 F =  0.6 /\n&RAMP ID = \"ramp_k\" T = 900.000 F =  0.6 /\n"
    + "&RAMP ID = \"ramp_k\" T = 1000.000 F =  0.6 /\n&RAMP ID = \"ramp_k\" T = 1100.000 F =  0.6 /\n"
    + "&RAMP ID = \"ramp_k\" T = 1200.000 F =  0.5 /"

  const ConcreteSpecificHeatRamp: string :=
    "&RAMP ID = \"ramp_c\" T = 20.000 F = 0.9000 /\n&RAMP ID = \"ramp_c\" T = 100.000 F = 0.9000 /\n"
    + "&RAMP ID = \"ramp_c\" T = 200.000 F = 1.0000 /\n&RAMP ID = \"ramp_c\" T = 400.000 F = 1.1000 /\n"
    + "&RAMP ID = \"ramp_c\" T = 1200.000 F = 1.1000 /"

  const SteelConductivityRamp: string :=
    "&RAMP ID = \"ramp_k\" T = 20.000 F = 53.3 /\n&RAMP ID = \"ramp_k\" T = 800.000 F = 27.3 /\n"
    + "&RAMP ID = \"ramp_k\" T = 1200.000 F = 27.3 /"

  const SteelSpecificHeatRamp: string :=
    "&RAMP ID = \"ramp_c\" T = 20.000 F = 0.4398 /\n&RAMP ID = \"ramp_c\" T = 400.000 F = 0.6059 /\n"
    + "&RAMP ID = \"ramp_c\" T = 630.000 F = 0.7864 /\n&RAMP ID = \"ramp_c\" T = 690.000 F = 0.9369 /\n"
    + "&RAMP ID = \"ramp_c\" T = 720.000 F = 1.3883 /\n&RAMP ID = \"ramp_c\" T = 735.000 F = 5.0000 /\n"
    + "&RAMP ID = \"ramp_c\" T = 750.000 F = 1.4829 /\n&RAMP ID = \"ramp_c\" T = 780.000 F = 0.9087 /\n"
    + "&RAMP ID = \"ramp_c\" T = 830.000 F = 0.7250 /\n&RAMP ID = \"ramp_c\" T = 900.000 F = 0.6500 /\n"
    + "&RAMP ID = \"ramp_c\" T = 1200.000 F = 0.6500 /"

  /** The material's values: density, emissivity of a radiating surface,
      constant conductivity and specific heat, and their ramps. */
  datatype Properties = Properties(density: string, emissivity: string, conductivity: string, conductivityRamp: string,
                                   specificHeat: string, specificHeatRamp: string)

  function MaterialProperties(m: Material): Properties
  {
    match m
    case Concrete =>
      Properties("DENSITY=2300", "EMISSIVITY=0.70", "CONDUCTIVITY=1.2", ConcreteConductivityRamp,
                 "SPECIFIC_HEAT=0.9000", ConcreteSpecificHeatRamp)
    case Steel =>
      Properties("DENSITY=7850", "EMISSIVITY=0.79", "CONDUCTIVITY=53.3", SteelConductivityRamp,
                 "SPECIFIC_HEAT=0.4398", SteelSpecificHeatRamp)
  }

  /** `floor(n / c)` by repeated subtraction. */
  function Quot(n: nat, c: nat): nat
    requires c > 0
    decreases n
  {
    if n < c then 0 else 1 + Quot(n - c, c)
  }

  /** `Quot` is the floor of the quotient: `c` fits `Quot(n, c)` times into
      `n` and not once more. */
  lemma {:induction false} QuotFloor(n: nat, c: nat)
    requires c > 0
    ensures Quot(n, c) * c <= n < (Quot(n, c) + 1) * c
    decreases n
  {
    if n >= c {
      QuotFloor(n - c, c);
      Lists.MulStep(Quot(n - c, c), c);
      Lists.MulStep(Quot(n - c, c) + 1, c);
    }
  }

  lemma {:induction false} QuotMonotone(a: nat, b: nat, c: nat)
    requires a <= b && c > 0
    ensures Quot(a, c) <= Quot(b, c)
    decreases a
  {
    if a >= c {
      QuotMonotone(a - c, b - c, c);
    }
  }

  lemma {:induction false} QuotExact(x: nat, c: nat)
    requires c > 0
    ensures Quot(x * c, c) == x
  {
    if x > 0 {
      Lists.MulPred(x, c);
      QuotExact(x - 1, c);
      assert x * c - c == (x - 1) * c;
    }
  }

  /** The start of the `i`-th of `cores` meshes over `row` cells:
      `floor(row / cores * i)`, taken exactly. */
  function MeshStart(row: nat, cores: nat, i: nat): nat
    requires cores > 0
  {
    Quot(row * i, cores)
  }

  /** One `&MESH` line: its cells and first and last cell row. */
  datatype MeshPart = MeshPart(cells: nat, start: nat, end: nat, process: nat)

  /** The meshes of the speed test: `cores` slabs along y, the last one
      ending at `row`; a negative cell count would saturate to zero. */
  function MeshParts(row: nat, cores: nat): (r: seq<MeshPart>)
    ensures |r| == cores
  {
    seq(cores, i requires 0 <= i < cores =>
      var start := MeshStart(row, cores, i);
      var end := if i + 1 == cores then row else MeshStart(row, cores, i + 1);
      MeshPart(if start <= end then end - start else 0, start, end, i))
  }

  /** The sum of the cells of the first `n` parts. */
  function CellSum(parts: seq<MeshPart>, n: nat): nat
    requires n <= |parts|
  {
    if n == 0 then 0 else CellSum(parts, n - 1) + parts[n - 1].cells
  }

  /** The meshes tile the rows: the first starts at 0, each starts where the
      previous one ends, the last ends at `row`, none is inverted, each
      holds its own cells, and together they hold every row. */
  lemma {:induction false} MeshPartition(row: nat, cores: nat)
    requires cores > 0
    ensures var r := MeshParts(row, cores);
            r[0].start == 0 && r[cores - 1].end == row
            && (forall i :: 0 <= i < cores ==>
                  r[i].start <= r[i].end && r[i].cells == r[i].end - r[i].start && r[i].process == i)
            && (forall i :: 0 < i < cores ==> r[i].start == r[i - 1].end)
            && CellSum(r, cores) == row
  {
    var r := MeshParts(row, cores);
    QuotExact(row, cores);
    assert row * cores == cores * row;
    forall i | 0 <= i < cores
      ensures r[i].start <= r[i].end && r[i].end == MeshStart(row, cores, i + 1)
    {
      Lists.MulStep(i, row);
      QuotMonotone(row * i, row * (i + 1), cores);
    }
    MeshSum(row, cores, cores);
    assert row * 0 == 0;
  }

  lemma {:induction false} MeshSum(row: nat, cores: nat, n: nat)
    requires cores > 0 && n <= cores
    requires forall i :: 0 <= i < cores ==>
               MeshParts(row, cores)[i].end == MeshStart(row, cores, i + 1) && MeshParts(row, cores)[i].start <= MeshParts(row, cores)[i].end
    ensures CellSum(MeshParts(row, cores), n) == MeshStart(row, cores, n)
  {
    if n > 0 {
      MeshSum(row, cores, n - 1);
    } else {
      assert row * 0 == 0;
    }
  }

  /** The `&MESH` line of one part; `fmt` is Rust's `Display` of `f64`. */
  function MeshLine(p: MeshPart, fmt: real -> string): string
  {
    "&MESH IJK=3," + Text.NatToString(p.cells) + ",4, XB=0.0,0.3," + fmt(p.start as real / 10.0) + ","
    + fmt(p.end as real / 10.0) + ",0.0,0.4 MPI_PROCESS=" + Text.NatToString(p.process) + " /\n"
  }

  function MeshText(parts: seq<MeshPart>, fmt: real -> string): string
  {
    if |parts| == 0 then "" else MeshText(parts[..|parts| - 1], fmt) + MeshLine(parts[|parts| - 1], fmt)
  }

  /** Density and emissivity: an adiabatic surface does not radiate. */
  function SurfacePairs(s: Settings): seq<(Key, string)>
  {
    var p := MaterialProperties(s.material);
    [(Density, p.density), (Emissivity, if s.kind.Adiabatic? then "EMISSIVITY=0.0" else p.emissivity)]
  }

  /** The conductivity, as a constant or as a reference to its ramp and the ramp. */
  function ConductivityPairs(m: Material, ramp: bool): seq<(Key, string)>
  {
    if ramp then [(Conductivity, "CONDUCTIVITY_RAMP=\"ramp_k\""), (ConductivityRamp, MaterialProperties(m).conductivityRamp)]
    else [(Conductivity, MaterialProperties(m).conductivity)]
  }

  /** The specific heat, as a constant or as a reference to its ramp and the ramp. */
  function SpecificHeatPairs(m: Material, ramp: bool): seq<(Key, string)>
  {
    if ramp then [(SpecificHeat, "SPECIFIC_HEAT_RAMP=\"ramp_c\""), (SpecificHeatRamp, MaterialProperties(m).specificHeatRamp)]
    else [(SpecificHeat, MaterialProperties(m).specificHeat)]
  }

  /** The mesh and the domain height of a speed test. */
  function SpeedTestPairs(t: ReplaceType, fmt: real -> string): seq<(Key, string)>
    requires t.SpeedTest? ==> t.size % 4 == 0
  {
    match t
    case OneDimensionalTemplate => []
    case SpeedTest(size, cores) =>
      var row := size / 4;
      [(Mesh, if cores == 0 then "" else MeshText(MeshParts(row, cores), fmt)), (Y, fmt(row as real / 10.0))]
  }

  /** `build_replace` panics for a speed test whose size is not a multiple
      of 4. */
  predicate CanReplace(s: Settings)
  {
    s.replaceType.SpeedTest? ==> s.replaceType.size % 4 == 0
  }

  /** `build_replace`: the placeholder values of a setting, in the order
      they are applied. */
  function BuildReplace(s: Settings, fmt: real -> string): (r: seq<(Key, string)>)
    requires CanReplace(s)
  {
    SurfacePairs(s) + ConductivityPairs(s.material, s.kRamp) + SpecificHeatPairs(s.material, s.cRamp)
    + SpeedTestPairs(s.replaceType, fmt)
  }

  /** The value of the first pair with this key. */
  function Lookup(pairs: seq<(Key, string)>, k: Key): Option<string>
  {
    if |pairs| == 0 then None
    else if pairs[0].0 == k then Some(pairs[0].1)
    else Lookup(pairs[1..], k)
  }

  /** A key is found iff some pair has it, and then with the value of the
      first such pair. */
  lemma {:induction false} LookupFound(pairs: seq<(Key, string)>, k: Key)
    ensures Lookup(pairs, k).Some? <==> exists i :: 0 <= i < |pairs| && pairs[i].0 == k
    ensures Lookup(pairs, k).Some? ==>
              exists i :: 0 <= i < |pairs| && pairs[i] == (k, Lookup(pairs, k).value)
                          && forall j :: 0 <= j < i ==> pairs[j].0 != k
  {
    if |pairs| > 0 {
      LookupFound(pairs[1..], k);
      assert forall i :: 1 <= i < |pairs| ==> pairs[1..][i - 1] == pairs[i];
      if pairs[0].0 != k && Lookup(pairs, k).Some? {
        var i :| 0 <= i < |pairs[1..]| && pairs[1..][i] == (k, Lookup(pairs, k).value)
                 && forall j :: 0 <= j < i ==> pairs[1..][j].0 != k;
        assert pairs[i + 1] == (k, Lookup(pairs, k).value);
        assert forall j :: 1 <= j < i + 1 ==> pairs[j] == pairs[1..][j - 1];
      }
      if pairs[0].0 == k {
        assert pairs[0] == (k, Lookup(pairs, k).value);
      }
    }
  }

  /** Looking up in a concatenation looks in the first part first. */
  lemma {:induction false} LookupAppend(a: seq<(Key, string)>, b: seq<(Key, string)>, k: Key)
    ensures Lookup(a + b, k) == if Lookup(a, k).Some? then Lookup(a, k) else Lookup(b, k)
  {
    if |a| > 0 {
      assert (a + b)[1..] == a[1..] + b;
      LookupAppend(a[1..], b, k);
    } else {
      assert a + b == b;
    }
  }

  /** In four parts, the first part holding the key decides. */
  lemma LookupParts(a: seq<(Key, string)>, b: seq<(Key, string)>, c: seq<(Key, string)>, d: seq<(Key, string)>, k: Key)
    ensures Lookup(a + b + c + d, k) ==
              if Lookup(a, k).Some? then Lookup(a, k)
              else if Lookup(b, k).Some? then Lookup(b, k)
              else if Lookup(c, k).Some? then Lookup(c, k)
              else Lookup(d, k)
  {
    LookupAppend(a, b, k);
    LookupAppend(a + b, c, k);
    LookupAppend(a + b + c, d, k);
  }

  lemma LookupTwo(x: (Key, string), y: (Key, string), k: Key)
    ensures Lookup([x, y], k) == if x.0 == k then Some(x.1) else if y.0 == k then Some(y.1) else None
  {
    assert [x, y][1..] == [y];
    LookupOne(y, k);
  }

  lemma LookupOne(x: (Key, string), k: Key)
    ensures Lookup([x], k) == if x.0 == k then Some(x.1) else None
  {
    assert [x][1..] == [];
  }

  /** The density is the material's; the emissivity is zero iff the run is
      adiabatic. */
  lemma SurfaceValues(s: Settings, fmt: real -> string)
    requires CanReplace(s)
    ensures Lookup(BuildReplace(s, fmt), Density) == Some(MaterialProperties(s.material).density)
    ensures Lookup(BuildReplace(s, fmt), Emissivity) ==
              Some(if s.kind.Adiabatic? then "EMISSIVITY=0.0" else MaterialProperties(s.material).emissivity)
  {
    var a, b, c, d := SurfacePairs(s), ConductivityPairs(s.material, s.kRamp),
                      SpecificHeatPairs(s.material, s.cRamp), SpeedTestPairs(s.replaceType, fmt);
    LookupTwo(a[0], a[1], Density);
    LookupTwo(a[0], a[1], Emissivity);
    assert a == [a[0], a[1]];
    LookupParts(a, b, c, d, Density);
    LookupParts(a, b, c, d, Emissivity);
  }

  /** Which keys each part holds: the surface part density and emissivity,
      the conductivity part its key and, with a ramp, the ramp's, the
      specific-heat part likewise, the speed-test part the mesh and the
      height. */
  lemma PartKeys(s: Settings, fmt: real -> string, k: Key)
    requires CanReplace(s)
    ensures Lookup(SurfacePairs(s), k).Some? <==> k in {Density, Emissivity}
    ensures Lookup(ConductivityPairs(s.material, s.kRamp), k).Some? <==> k == Conductivity || (s.kRamp && k == ConductivityRamp)
    ensures Lookup(SpecificHeatPairs(s.material, s.cRamp), k).Some? <==> k == SpecificHeat || (s.cRamp && k == SpecificHeatRamp)
    ensures Lookup(SpeedTestPairs(s.replaceType, fmt), k).Some? <==> s.replaceType.SpeedTest? && k in {Mesh, Y}
  {
    var a, b, c, d := SurfacePairs(s), ConductivityPairs(s.material, s.kRamp),
                      SpecificHeatPairs(s.material, s.cRamp), SpeedTestPairs(s.replaceType, fmt);
    LookupTwo(a[0], a[1], k);
    assert a == [a[0], a[1]];
    if s.kRamp {
      LookupTwo(b[0], b[1], k);
      assert b == [b[0], b[1]];
    } else {
      LookupOne(b[0], k);
      assert b == [b[0]];
    }
    if s.cRamp {
      LookupTwo(c[0], c[1], k);
      assert c == [c[0], c[1]];
    } else {
      LookupOne(c[0], k);
      assert c == [c[0]];
    }
    if s.replaceType.SpeedTest? {
      LookupTwo(d[0], d[1], k);
      assert d == [d[0], d[1]];
    }
  }

  /** The conductivity refers to its ramp iff one is asked for, and each ramp
      is written iff it is asked for. */
  lemma RampValues(s: Settings, fmt: real -> string)
    requires CanReplace(s)
    ensures Lookup(BuildReplace(s, fmt), Conductivity) ==
              Some(if s.kRamp then "CONDUCTIVITY_RAMP=\"ramp_k\"" else MaterialProperties(s.material).conductivity)
    ensures Lookup(BuildReplace(s, fmt), ConductivityRamp).Some? <==> s.kRamp
    ensures Lookup(BuildReplace(s, fmt), SpecificHeatRamp).Some? <==> s.cRamp
  {
    var a, b, c, d := SurfacePairs(s), ConductivityPairs(s.material, s.kRamp),
                      SpecificHeatPairs(s.material, s.cRamp), SpeedTestPairs(s.replaceType, fmt);
    PartKeys(s, fmt, Conductivity);
    PartKeys(s, fmt, ConductivityRamp);
    PartKeys(s, fmt, SpecificHeatRamp);
    if s.kRamp {
      LookupTwo(b[0], b[1], Conductivity);
      assert b == [b[0], b[1]];
    } else {
      LookupOne(b[0], Conductivity);
      assert b == [b[0]];
    }
    LookupParts(a, b, c, d, Conductivity);
    LookupParts(a, b, c, d, ConductivityRamp);
    LookupParts(a, b, c, d, SpecificHeatRamp);
  }

  /** The mesh and the height are filled in iff the run is a speed test. */
  lemma SpeedTestValues(s: Settings, fmt: real -> string)
    requires CanReplace(s)
    ensures Lookup(BuildReplace(s, fmt), Mesh).Some? <==> s.replaceType.SpeedTest?
    ensures Lookup(BuildReplace(s, fmt), Y).Some? <==> s.replaceType.SpeedTest?
  {
    var a, b, c, d := SurfacePairs(s), ConductivityPairs(s.material, s.kRamp),
                      SpecificHeatPairs(s.material, s.cRamp), SpeedTestPairs(s.replaceType, fmt);
    PartKeys(s, fmt, Mesh);
    PartKeys(s, fmt, Y);
    LookupParts(a, b, c, d, Mesh);
    LookupParts(a, b, c, d, Y);
  }

  /** The inner loop of `create`: every replacement in order. */
  function ApplyAll(line: string, pairs: seq<(Key, string)>): string
    decreases |pairs|
  {
    if |pairs| == 0 then line
    else ApplyAll(Text.Replace(line, KeyText(pairs[0].0), pairs[0].1), pairs[1..])
  }

  /** A line without placeholders is copied unchanged. */
  lemma {:induction false} ApplyAllNoKeys(line: string, pairs: seq<(Key, string)>)
    requires '#' !in line
    ensures ApplyAll(line, pairs) == line
  {
    if |pairs| > 0 {
      forall i ensures !Text.OccursAt(line, KeyText(pairs[0].0), i) {
        NoHashNoKey(line, pairs[0].0, i);
      }
      Text.ReplaceAbsent(line, KeyText(pairs[0].0), pairs[0].1);
      ApplyAllNoKeys(line, pairs[1..]);
    }
  }

  /** A line that is one placeholder becomes that placeholder's first value
      when no value holds a `#`. */
  lemma {:induction false} ApplyAllPlaceholder(k: Key, pairs: seq<(Key, string)>)
    requires forall i :: 0 <= i < |pairs| ==> '#' !in pairs[i].1
    requires Lookup(pairs, k).Some?
    ensures ApplyAll(KeyText(k), pairs) == Lookup(pairs, k).value
  {
    var t := KeyText(k);
    var p := KeyText(pairs[0].0);
    if pairs[0].0 == k {
      forall i | Text.OccursAt("" + t + "", t, i) ensures i == 0 {
        KeyOccurrence(k, k, i);
      }
      Text.ReplaceOnce("", t, "", pairs[0].1);
      assert "" + t + "" == t;
      assert Text.Replace(t, p, pairs[0].1) == pairs[0].1;
      ApplyAllNoKeys(pairs[0].1, pairs[1..]);
    } else {
      forall i ensures !Text.OccursAt(t, p, i) {
        if Text.OccursAt(t, p, i) {
          KeyOccurrence(k, pairs[0].0, i);
        }
      }
      Text.ReplaceAbsent(t, p, pairs[0].1);
      assert forall i :: 1 <= i < |pairs| ==> pairs[1..][i - 1] == pairs[i];
      ApplyAllPlaceholder(k, pairs[1..]);
    }
  }

  /** The body of `create` after the up-to-date check: every template
      line with all replacements applied. */
  function CreateLines(template: seq<string>, s: Settings, fmt: real -> string): (r: seq<string>)
    requires CanReplace(s)
    ensures |r| == |template|
    ensures forall i :: 0 <= i < |template| && '#' !in template[i] ==> r[i] == template[i]
  {
    var pairs := BuildReplace(s, fmt);
    forall i | 0 <= i < |template| && '#' !in template[i]
      ensures ApplyAll(template[i], pairs) == template[i]
    {
      ApplyAllNoKeys(template[i], pairs);
    }
    seq(|template|, i requires 0 <= i < |template| => ApplyAll(template[i], pairs))
  }

  /** `create` once the directories exist: a missing template is an error;
      an input file strictly newer than its template is kept (`None`);
      otherwise the input file is written from the template. */
  function Create(template: Modification.FileTime, input: Modification.FileTime,
                  lines: seq<string>, s: Settings, fmt: real -> string): (r: Result<Option<seq<string>>>)
    requires CanReplace(s)
    requires input.Some? ==> input.value <= Modification.U128Max
    ensures r.Err? <==> template.None?
    ensures r == Ok(None) <==> template.Some? && input.Some? && template.value < input.value
    ensures r.Ok? && r.value.Some? ==> r.value.value == CreateLines(lines, s, fmt)
  {
    Modification.MinFromIs([input], Modification.U128Max);
    Modification.MaxFromIs([template], 0);
    var modified :- Modification.WasModified([template], [input]);
    if !modified then Ok(None) else Ok(Some(CreateLines(lines, s, fmt)))
  }

  // ---------------------------------------------------------------- settings

  /** The one-dimensional settings of one kind: both materials, each with
      both ramps or none. */
  function KindSettings(k: SimulationKind): seq<Settings>
  {
    [Settings(Concrete, k, true, true, OneDimensionalTemplate), Settings(Concrete, k, false, false, OneDimensionalTemplate),
     Settings(Steel, k, true, true, OneDimensionalTemplate), Settings(Steel, k, false, false, OneDimensionalTemplate)]
  }

  /** The settings of `create_simulations`, kinds in the order adiabatic,
      diabatic, one-sided. */
  function OneDimensionalSettings(methods: Option<seq<SimulationMethod>>, kinds: Option<seq<SimulationKind>>): seq<Settings>
  {
    var one := IsSimulationType(OneDimensional, methods);
    (if one && IsSimulationKind(SimulationKind.Adiabatic, kinds) then KindSettings(SimulationKind.Adiabatic) else [])
    + (if one && IsSimulationKind(Diabatic, kinds) then KindSettings(Diabatic) else [])
    + (if one && IsSimulationKind(DiabaticOneSide, kinds) then KindSettings(DiabaticOneSide) else [])
  }

  /** The four settings of a kind are exactly its one-dimensional settings
      whose two ramps agree. */
  lemma KindSettingsIff(k: SimulationKind, s: Settings)
    ensures s in KindSettings(k) <==>
              s.kind == k && s.replaceType.OneDimensionalTemplate? && s.kRamp == s.cRamp
  {
    var ks := KindSettings(k);
    if s.kind == k && s.replaceType.OneDimensionalTemplate? && s.kRamp == s.cRamp {
      assert s == ks[if s.material.Concrete? then (if s.kRamp then 0 else 1) else (if s.kRamp then 2 else 3)];
    }
  }

  /** A setting is created iff the 1D methods and its kind are selected,
      it is a one-dimensional template, and its two ramps agree. */
  lemma OneDimensionalSettingsIff(methods: Option<seq<SimulationMethod>>, kinds: Option<seq<SimulationKind>>, s: Settings)
    ensures s in OneDimensionalSettings(methods, kinds) <==>
              IsSimulationType(OneDimensional, methods) && IsSimulationKind(s.kind, kinds)
              && s.replaceType.OneDimensionalTemplate? && s.kRamp == s.cRamp
  {
    var one := IsSimulationType(OneDimensional, methods);
    var a := if one && IsSimulationKind(SimulationKind.Adiabatic, kinds) then KindSettings(SimulationKind.Adiabatic) else [];
    var d := if one && IsSimulationKind(Diabatic, kinds) then KindSettings(Diabatic) else [];
    var o := if one && IsSimulationKind(DiabaticOneSide, kinds) then KindSettings(DiabaticOneSide) else [];
    assert OneDimensionalSettings(methods, kinds) == a + d + o;
    assert s in a + d + o <==> s in a || s in d || s in o;
    KindSettingsIff(SimulationKind.Adiabatic, s);
    KindSettingsIff(Diabatic, s);
    KindSettingsIff(DiabaticOneSide, s);
  }

  /** The settings of `create_simulation_for_speed_test`: one adiabatic
      concrete run with both ramps per benchmark size. */
  function SpeedTestSettings(threads: nat): (r: seq<Settings>)
    ensures |r| == |Benchmarks.BenchmarkElements|
    ensures forall i :: 0 <= i < |r| ==> r[i].replaceType == SpeedTest(Benchmarks.BenchmarkElements[i], threads)
  {
    seq(|Benchmarks.BenchmarkElements|, i requires 0 <= i < |Benchmarks.BenchmarkElements| =>
      Settings(Concrete, SimulationKind.Adiabatic, true, true, SpeedTest(Benchmarks.BenchmarkElements[i], threads)))
  }

  /** Every speed-test setting has a template and a size the mesh split
      accepts, so creating them never panics. */
  lemma SpeedTestSettingsValid(threads: nat)
    ensures forall s :: s in SpeedTestSettings(threads) ==> HasTemplate(s) && CanReplace(s)
  {
  }
}
