/** The wake-up registers (software/runtime/runtime.h) and the writes a barrier release makes. */
module WakeUp {
  import opened Arith

  /** NUM_CORES == 2^logCores, split into groups of 2^logGroup and tiles of 2^logTile cores. */
  datatype Topology = Topology(logCores: nat, logGroup: nat, logTile: nat) {
    /** The group and tile masks are 32-bit words. */
    predicate Valid() {
      logTile <= logGroup <= logCores && logCores - logGroup <= 5 && logGroup - logTile <= 5 && logCores <= 30
    }
    function Cores(): nat { Pow2(logCores) }
    function PerGroup(): nat { Pow2(logGroup) }
    function PerTile(): nat { Pow2(logTile) }
    function TilesPerGroup(): nat
      requires Valid()
    {
      Pow2(logGroup - logTile)
    }
    function GroupOf(core: nat): nat { Div(core, PerGroup()) }
    function TileOf(core: nat): nat { Div(core, PerTile()) }
  }

  /** A store to one of the memory-mapped registers. */
  datatype Write =
    | Core(id: nat)                  // wake_up_reg; all ones wakes every core
    | Groups(mask: nat)              // wake_up_group_reg
    | Tiles(reg: nat, mask: nat)     // wake_up_tile_g<reg>_reg

  const ALL_ONES: nat := 0xFFFF_FFFF

  /** (mask >> b) & 1 */
  predicate Bit(mask: nat, b: nat) {
    if b == 0 then mask % 2 == 1 else Bit(mask / 2, b - 1)
  }

  /** ((1U << n) - 1) << i on 32 bits. */
  function Mask(i: nat, n: nat): nat {
    Shl(Pow2(n) - 1, i) % 0x1_0000_0000
  }

  /** Does the write wake core c? */
  predicate Wakes(topo: Topology, w: Write, c: nat)
    requires topo.Valid()
  {
    match w
    case Core(id) => id == ALL_ONES || id == c
    case Groups(mask) => Bit(mask, topo.GroupOf(c))
    case Tiles(reg, mask) => topo.GroupOf(c) == reg && Bit(mask, Mod(topo.TileOf(c), topo.TilesPerGroup()))
  }

  /** wake_up_tile: group ids above 7 fall through to the register of group 0. */
  function TileWrite(group: nat, mask: nat): Write {
    Tiles(if group <= 7 then group else 0, mask)
  }

  /** core_init: the C code computes num_cores_barrier * (core_id / num_cores_barrier). */
  function TeamInit(core: nat, size: nat): nat
    requires size > 0
  {
    Floor(core, size)
  }

  lemma {:induction false} TeamInitInC(core: nat, size: nat)
    requires size > 0
    ensures TeamInit(core, size) == size * (core / size)
  {
    FloorIsDiv(core, size);
  }

  predicate PerCoreBranch(topo: Topology, logSize: nat) {
    Pow2(logSize) < topo.Cores() && Pow2(logSize) < topo.PerGroup() && Pow2(logSize) < topo.PerTile()
  }

  predicate TileBranch(topo: Topology, logSize: nat) {
    topo.PerTile() <= Pow2(logSize) < topo.PerGroup() && Pow2(logSize) < topo.Cores()
  }

  /** The register writes of the winner of a partial barrier of 2^logSize cores. */
  function PartialWrites(topo: Topology, logSize: nat, core: nat): (ws: seq<Write>)
    requires topo.Valid()
    ensures |ws| == if PerCoreBranch(topo, logSize) then Pow2(logSize) else 1
  {
    var size := Pow2(logSize);
    var init := TeamInit(core, size);
    var end := init + size;
    if size >= topo.Cores() then [Core(ALL_ONES)]
    else if size >= topo.PerGroup() then
      var groupInit, groupEnd := topo.GroupOf(init), topo.GroupOf(end);
      [Groups(Mask(groupInit, Minus(groupEnd, groupInit)))]
    else if size >= topo.PerTile() then
      var tileInit, tileEnd := topo.TileOf(init), topo.TileOf(end);
      [TileWrite(Div(tileInit, topo.TilesPerGroup()),
                 Mask(Mod(tileInit, topo.TilesPerGroup()), Minus(tileEnd, tileInit)))]
    else seq(size, i requires 0 <= i < size => Core(init + i))
  }

  /** The tile branch only reaches the teams of the first eight groups. */
  predicate Decodable(topo: Topology, logSize: nat, core: nat) {
    TileBranch(topo, logSize) ==> topo.GroupOf(core) <= 7
  }

  predicate InTeam(core: nat, logSize: nat, c: nat) {
    TeamInit(core, Pow2(logSize)) <= c < TeamInit(core, Pow2(logSize)) + Pow2(logSize)
  }

  // ---------------------------------------------------------------------------------------------
  // Masks
  // ---------------------------------------------------------------------------------------------

  /** A mask of n bits from bit i has exactly those bits set. */
  lemma {:induction false} MaskBits(i: nat, n: nat, b: nat)
    requires i + n <= 32
    ensures Bit(Mask(i, n), b) <==> i <= b < i + n
  {
    MaskFits(i, n);
    ShlBit(n, i, b);
  }

  /** Masks of at most 32 bits lose nothing to truncation. */
  lemma {:induction false} MaskFits(i: nat, n: nat)
    requires i + n <= 32
    ensures Mask(i, n) == Shl(Pow2(n) - 1, i)
  {
    ShlBound(n, i);
    Pow2Limit(i + n);
  }

  lemma {:induction false} Pow2Limit(e: nat)
    requires e <= 32
    ensures Pow2(e) <= 0x1_0000_0000
  {
    Pow2Of32();
    Pow2Blocks(e, 32);
  }

  lemma {:induction false} Pow2Of32()
    ensures Pow2(32) == 0x1_0000_0000 && Pow2(30) == 0x4000_0000 && Pow2(5) == 32
  {
    assert Pow2(8) == 256;
    Pow2Add(8, 8);
    Pow2Add(16, 16);
    assert Pow2(32) == 2 * Pow2(31) == 4 * Pow2(30);
  }

  /** A group or tile number is a bit position of a 32-bit word, and a core id is not all ones. */
  lemma {:induction false} Fits32(e: nat)
    ensures e <= 5 ==> Pow2(e) <= 32
    ensures e <= 30 ==> Pow2(e) < ALL_ONES
  {
    Pow2Of32();
    if e <= 5 {
      Pow2Blocks(e, 5);
    }
    if e <= 30 {
      Pow2Blocks(e, 30);
    }
  }

  lemma {:induction false} ShlBound(n: nat, i: nat)
    ensures Shl(Pow2(n) - 1, i) < Pow2(i + n)
    decreases i
  {
    if i > 0 {
      ShlBound(n, i - 1);
    }
  }

  lemma {:induction false} ShlBit(n: nat, i: nat, b: nat)
    ensures Bit(Shl(Pow2(n) - 1, i), b) <==> i <= b < i + n
    decreases i
  {
    if i == 0 {
      OnesBit(n, b);
    } else if b > 0 {
      ShlBit(n, i - 1, b - 1);
    }
  }

  lemma {:induction false} OnesBit(n: nat, b: nat)
    ensures Bit(Pow2(n) - 1, b) <==> b < n
    decreases b
  {
    if n == 0 {
      ZeroBit(b);
    } else if b > 0 {
      OnesBit(n - 1, b - 1);
    }
  }

  lemma {:induction false} ZeroBit(b: nat)
    ensures !Bit(0, b)
  {
    if b > 0 {
      ZeroBit(b - 1);
    }
  }

  // ---------------------------------------------------------------------------------------------
  // Teams, groups and tiles
  // ---------------------------------------------------------------------------------------------

  /** A team of size `size` lies inside one block of size d. */
  lemma {:induction false} TeamInside(core: nat, size: nat, d: nat)
    requires size > 0 && d > 0 && Aligned(d, size)
    ensures var init := Floor(core, size);
            && Floor(core, d) <= init && init + size <= Floor(core, d) + d
            && Div(init, d) == Div(core, d) && Mod(init, d) + size <= d
  {
    var init, lo := Floor(core, size), Floor(core, d);
    AlignedTrans(lo, d, size);
    AlignedAdd(lo, d, size);
    if init < lo {
      BlockInside(init, size, lo);
    }
    BlockInside(init, size, lo + d);
    FloorMod(core, d);
    DivModAdd(lo, init - lo, d);
    DivModAdd(lo, core - lo, d);
  }

  /** Membership in a team can be read off coarser aligned units, and so can its extent. */
  lemma {:induction false} TeamUnits(core: nat, logSize: nat, logUnit: nat, c: nat)
    requires logUnit <= logSize
    ensures var init, unit, n := TeamInit(core, Pow2(logSize)), Pow2(logUnit), Pow2(logSize - logUnit);
            && Div(init + Pow2(logSize), unit) == Div(init, unit) + n
            && (InTeam(core, logSize, c) <==> Div(init, unit) <= Div(c, unit) < Div(init, unit) + n)
  {
    var init, size, unit := TeamInit(core, Pow2(logSize)), Pow2(logSize), Pow2(logUnit);
    Pow2Blocks(logUnit, logSize);
    AlignedTrans(init, size, unit);
    AlignedAdd(init, size, unit);
    DivModAdd(init, size, unit);
    DivLess(c, init, unit);
    DivLess(c, init + size, unit);
  }

  lemma {:induction false} GroupWriteIs(topo: Topology, logSize: nat, core: nat)
    requires topo.Valid() && topo.logGroup <= logSize && topo.PerGroup() <= Pow2(logSize) < topo.Cores()
    ensures PartialWrites(topo, logSize, core) ==
              [Groups(Mask(topo.GroupOf(TeamInit(core, Pow2(logSize))), Pow2(logSize - topo.logGroup)))]
  {
    TeamUnits(core, logSize, topo.logGroup, core);
  }

  lemma {:induction false} GroupWrite(topo: Topology, logSize: nat, core: nat, c: nat)
    requires topo.Valid() && core < topo.Cores() && c < topo.Cores()
    requires topo.PerGroup() <= Pow2(logSize) < topo.Cores()
    ensures Wakes(topo, PartialWrites(topo, logSize, core)[0], c) <==> InTeam(core, logSize, c)
  {
    Pow2Leq(topo.logGroup, logSize);
    Pow2Less(logSize, topo.logCores);
    TeamUnits(core, logSize, topo.logGroup, c);
    GroupsFit(topo, logSize, core);
    GroupWriteIs(topo, logSize, core);
    MaskBits(topo.GroupOf(TeamInit(core, Pow2(logSize))), Pow2(logSize - topo.logGroup), topo.GroupOf(c));
  }

  /** The groups of a team are bits of the 32-bit group mask. */
  lemma {:induction false} GroupsFit(topo: Topology, logSize: nat, core: nat)
    requires topo.Valid() && core < topo.Cores() && topo.logGroup <= logSize <= topo.logCores
    ensures topo.GroupOf(TeamInit(core, Pow2(logSize))) + Pow2(logSize - topo.logGroup) <= 32
  {
    UnitsFit(core, logSize, topo.logGroup, topo.logCores);
    Fits32(topo.logCores - topo.logGroup);
  }

  /** The units of a team are units of the machine. */
  lemma {:induction false} UnitsFit(core: nat, logSize: nat, logUnit: nat, logCores: nat)
    requires core < Pow2(logCores) && logUnit <= logSize <= logCores
    ensures Div(TeamInit(core, Pow2(logSize)), Pow2(logUnit)) + Pow2(logSize - logUnit) <= Pow2(logCores - logUnit)
  {
    var init, size, cores := TeamInit(core, Pow2(logSize)), Pow2(logSize), Pow2(logCores);
    TeamUnits(core, logSize, logUnit, core);
    assert init + size <= cores by {
      Pow2Blocks(logSize, logCores);
      TeamInside(core, size, cores);
    }
    Pow2Blocks(logUnit, logCores);
    LastUnit(init + size, cores, Pow2(logUnit));
  }

  lemma {:induction false} LastUnit(x: nat, y: nat, d: nat)
    requires d > 0 && Aligned(y, d) && x <= y
    ensures Div(x, d) <= Div(y, d)
  {
    DivLess(x, y, d);
  }

  lemma {:induction false} TileSizes(topo: Topology, logSize: nat)
    requires topo.Valid() && TileBranch(topo, logSize)
    ensures topo.logTile <= logSize < topo.logGroup
    ensures Start(0, topo.PerTile(), topo.TilesPerGroup()) == topo.PerGroup()
    ensures Aligned(topo.TilesPerGroup(), Pow2(logSize - topo.logTile))
    ensures topo.TilesPerGroup() <= 32
  {
    Pow2Leq(topo.logTile, logSize);
    Pow2Less(logSize, topo.logGroup);
    Nested(topo.logTile, logSize, topo.logGroup);
    Fits32(topo.logGroup - topo.logTile);
  }

  lemma {:induction false} Nested(a: nat, b: nat, c: nat)
    requires a <= b < c
    ensures Start(0, Pow2(a), Pow2(c - a)) == Pow2(c) && Aligned(Pow2(c - a), Pow2(b - a))
  {
    Pow2Blocks(a, c);
    Pow2Blocks(b - a, c - a);
  }

  /** The tiles of a team, which do not cross a group border. */
  lemma {:induction false} TeamTiles(topo: Topology, logSize: nat, core: nat)
    requires topo.Valid() && TileBranch(topo, logSize) && topo.logTile <= logSize
    ensures var init, n := TeamInit(core, Pow2(logSize)), Pow2(logSize - topo.logTile);
            var ti, tpg := topo.TileOf(init), topo.TilesPerGroup();
            && topo.TileOf(init + Pow2(logSize)) == ti + n
            && Div(ti, tpg) == topo.GroupOf(core)
            && Mod(ti, tpg) + n <= tpg
  {
    var init, size, n := TeamInit(core, Pow2(logSize)), Pow2(logSize), Pow2(logSize - topo.logTile);
    var ti, tpg := topo.TileOf(init), topo.TilesPerGroup();
    TileSizes(topo, logSize);
    TeamUnits(core, logSize, topo.logTile, core);
    DivDiv(init, topo.PerTile(), tpg);
    Pow2Blocks(logSize, topo.logGroup);
    TeamInside(core, size, topo.PerGroup());
    Pow2Blocks(topo.logTile, logSize);
    TilesAligned(init, topo.PerTile(), n);
    TeamInside(ti, n, tpg);
    AlignedUnique(ti, Floor(ti, n), n, ti);
  }

  /** n tiles of size d make one team: the first tile of a team is a multiple of n. */
  lemma {:induction false} TilesAligned(init: nat, d: nat, n: nat)
    requires d > 0 && n > 0 && Start(0, d, n) > 0 && Aligned(init, Start(0, d, n))
    ensures Aligned(Div(init, d), n)
    decreases init
  {
    if init > 0 {
      var size := Start(0, d, n);
      TilesAligned(init - size, d, n);
      DivStart(d, n);
      DivModAdd(size, init - size, d);
    }
  }

  /** What the single write of the tile branch wakes, for any group. */
  lemma {:induction false} TileWriteWakes(topo: Topology, logSize: nat, core: nat, c: nat)
    requires topo.Valid() && TileBranch(topo, logSize) && topo.logTile <= logSize
    ensures var g, tpg := topo.GroupOf(core), topo.TilesPerGroup();
            var ti, n := topo.TileOf(TeamInit(core, Pow2(logSize))), Pow2(logSize - topo.logTile);
            Wakes(topo, PartialWrites(topo, logSize, core)[0], c) <==>
              && topo.GroupOf(c) == (if g <= 7 then g else 0)
              && Mod(ti, tpg) <= Mod(topo.TileOf(c), tpg) < Mod(ti, tpg) + n
  {
    var ti, tpg, n := topo.TileOf(TeamInit(core, Pow2(logSize))), topo.TilesPerGroup(), Pow2(logSize - topo.logTile);
    TileSizes(topo, logSize);
    TeamTiles(topo, logSize, core);
    MaskBits(Mod(ti, tpg), n, Mod(topo.TileOf(c), tpg));
  }

  /** In the first eight groups the tile branch wakes exactly the team. */
  lemma {:induction false} TileWriteExact(topo: Topology, logSize: nat, core: nat, c: nat)
    requires topo.Valid() && TileBranch(topo, logSize) && topo.GroupOf(core) <= 7
    ensures Wakes(topo, PartialWrites(topo, logSize, core)[0], c) <==> InTeam(core, logSize, c)
  {
    TileSizes(topo, logSize);
    TileWriteWakes(topo, logSize, core, c);
    TeamTiles(topo, logSize, core);
    TeamUnits(core, logSize, topo.logTile, c);
    var ti, tc, tpg := topo.TileOf(TeamInit(core, Pow2(logSize))), topo.TileOf(c), topo.TilesPerGroup();
    DivDiv(c, topo.PerTile(), tpg);
    SameBlock(ti, tc, Pow2(logSize - topo.logTile), tpg);
  }

  /** A range that does not cross a block border, in blocks and offsets. */
  lemma {:induction false} SameBlock(a: nat, b: nat, n: nat, d: nat)
    requires d > 0 && Mod(a, d) + n <= d
    ensures a <= b < a + n <==> Div(b, d) == Div(a, d) && Mod(a, d) <= Mod(b, d) < Mod(a, d) + n
  {
    FloorMod(a, d);
    FloorMod(b, d);
    if a <= b < a + n {
      AlignedUnique(Floor(a, d), Floor(b, d), d, b);
      DivModAdd(Floor(a, d), a - Floor(a, d), d);
      DivModAdd(Floor(a, d), b - Floor(a, d), d);
    }
  }

  // ---------------------------------------------------------------------------------------------
  // The release of a partial barrier
  // ---------------------------------------------------------------------------------------------

  /** The k-th register write wakes exactly the cores of the team at wake position k. */
  lemma {:induction false} PartialWakeExact(topo: Topology, logSize: nat, core: nat, k: nat, c: nat)
    requires topo.Valid() && logSize <= topo.logCores && core < topo.Cores() && c < topo.Cores()
    requires Decodable(topo, logSize, core) && k < |PartialWrites(topo, logSize, core)|
    ensures Wakes(topo, PartialWrites(topo, logSize, core)[k], c) <==>
              InTeam(core, logSize, c) && k == (if PerCoreBranch(topo, logSize) then c - TeamInit(core, Pow2(logSize)) else 0)
  {
    Fits32(topo.logCores);
    Pow2Blocks(logSize, topo.logCores);
    TeamInside(core, Pow2(logSize), topo.Cores());
    if Pow2(logSize) >= topo.Cores() {
    } else if Pow2(logSize) >= topo.PerGroup() {
      GroupWrite(topo, logSize, core, c);
    } else if Pow2(logSize) >= topo.PerTile() {
      TileWriteExact(topo, logSize, core, c);
    }
  }

  ghost predicate Released(topo: Topology, logSize: nat, core: nat, c: nat)
    requires topo.Valid()
  {
    exists k: nat :: k < |PartialWrites(topo, logSize, core)| && Wakes(topo, PartialWrites(topo, logSize, core)[k], c)
  }

  /** The release wakes exactly [core_init, core_end) if and only if it is not the tile branch in a
      group above the eighth; there even the winner sleeps on. */
  lemma {:induction false} ReleaseExactIff(topo: Topology, logSize: nat, core: nat)
    requires topo.Valid() && logSize <= topo.logCores && core < topo.Cores()
    ensures (forall c: nat :: c < topo.Cores() ==> (Released(topo, logSize, core, c) <==> InTeam(core, logSize, c)))
            <==> Decodable(topo, logSize, core)
  {
    if Decodable(topo, logSize, core) {
      forall c: nat | c < topo.Cores()
        ensures Released(topo, logSize, core, c) <==> InTeam(core, logSize, c)
      {
        ReleasedExact(topo, logSize, core, c);
      }
    } else {
      TileSizes(topo, logSize);
      TileWriteWakes(topo, logSize, core, core);
      assert InTeam(core, logSize, core) && !Released(topo, logSize, core, core);
    }
  }

  lemma {:induction false} ReleasedExact(topo: Topology, logSize: nat, core: nat, c: nat)
    requires topo.Valid() && logSize <= topo.logCores && core < topo.Cores() && c < topo.Cores()
    requires Decodable(topo, logSize, core)
    ensures Released(topo, logSize, core, c) <==> InTeam(core, logSize, c)
  {
    var ws := PartialWrites(topo, logSize, core);
    if InTeam(core, logSize, c) {
      var k := if PerCoreBranch(topo, logSize) then c - TeamInit(core, Pow2(logSize)) else 0;
      PartialWakeExact(topo, logSize, core, k, c);
      assert Wakes(topo, ws[k], c);
    }
    if Released(topo, logSize, core, c) {
      var k: nat :| k < |ws| && Wakes(topo, ws[k], c);
      PartialWakeExact(topo, logSize, core, k, c);
    }
  }
}
