/** The parts of the disc record that the map depends on, and the sizes ReadMap derives from them. */
module Geometry {
  import opened Arithmetic
  import opened Words
  import opened Bits

  const DISC_RECORD_BITS: nat := 480
  const FREECHAIN_ZERO: nat := 0x18
  const FREECHAIN_EMPTY: nat := 0xFFFF_FFE8

  datatype Geo = Geo(log2secsize: nat, idlen: nat, log2bpmb: nat, nzones: nat, zoneSpare: nat,
                     shareSize: nat, discSize: nat)
  {
    function SecSize(): nat { Pow2(log2secsize) }

    function Bpmb(): nat { Pow2(log2bpmb) }

    /** Allocation bits of a zone. */
    function ZoneBits(): int { 8 * SecSize() - zoneSpare }

    function IdsPerZone(): int { ZoneBits() / (idlen + 1) }

    function Lfau(): nat { Pow2(if log2bpmb > log2secsize then log2bpmb else log2secsize) }

    /** Smallest object in bytes: room for an id and a terminator, rounded up to whole sectors. */
    function Minimum(): nat { ((idlen + 1) * Bpmb() + SecSize() - 1) / SecSize() * SecSize() }

    /** Allocation starts behind the disc record in zone 0. */
    function FirstBit(zone: nat): nat { if zone == 0 then DISC_RECORD_BITS else 0 }

    /** Bit of the last zone that marks the end of the disc, in 32-bit arithmetic. */
    function DiscEnd(): nat {
      (discSize / Bpmb() - ((nzones - 1) * ZoneBits() - DISC_RECORD_BITS)) % WORD
    }

    /** What the on-disc format demands: every zone has room for a fragment, a link fits in an id
        field, a zone pointer fits in fifteen bits, all home ids fit in an id field, and the disc
        fits in 32-bit bit numbers and byte counts. */
    ghost predicate Ok() {
      && 1 <= idlen <= 24 && 1 <= nzones && 32 <= zoneSpare
      && DISC_RECORD_BITS + idlen < ZoneBits() <= Pow2(idlen)
      && FREECHAIN_ZERO + ZoneBits() < 0x8000
      && nzones * IdsPerZone() <= Pow2(idlen)
      && nzones * ZoneBits() < WORD
      && ZoneBits() * Bpmb() < WORD
    }
  }

  /** The chain position in the low fifteen bits of a zone header, in 32-bit arithmetic. */
  function HeadOff(raw: nat): nat {
    (raw % 0x8000 + WORD - FREECHAIN_ZERO) % WORD
  }

  /** Rounding up to whole sectors leaves room for an id and a terminator. */
  lemma MinimumCoversId(g: Geo)
    ensures g.Minimum() / g.Bpmb() >= g.idlen + 1
  {
    RoundUp((g.idlen + 1) * g.Bpmb(), g.SecSize());
    DivAtLeast(g.Minimum(), g.Bpmb(), g.idlen + 1);
  }
}
