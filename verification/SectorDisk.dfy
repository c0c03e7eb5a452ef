/** The block device under a LuxFS volume: the sectors from the volume's first LBA on. A
    transfer either succeeds exactly or reports failure and leaves the sector as it was; which
    transfers fail is an arbitrary function of their number. */
module SectorDisk {
  import opened Bytes
  import opened LuxFormat

  type Sectors = s: seq<Sector> | |s| == TOTAL_SECTORS
    witness seq(TOTAL_SECTORS, _ => Zeros(SECTOR_SIZE))

  class Disk {
    var ready: bool
    var sectors: Sectors
    var transfers: nat
    const present: bool
    const totalSectors: nat
    const fails: nat -> bool

    constructor (present: bool, totalSectors: nat, sectors: Sectors, fails: nat -> bool)
      ensures this.present == present && this.totalSectors == totalSectors
      ensures this.sectors == sectors && this.fails == fails && !ready && transfers == 0
    {
      this.present, this.totalSectors, this.sectors, this.fails := present, totalSectors, sectors, fails;
      ready, transfers := false, 0;
    }

    ghost predicate NoFaults() {
      forall n: nat :: !fails(n)
    }

    /** Every transfer succeeds. */
    ghost predicate Reliable()
      reads this`ready
    {
      ready && NoFaults()
    }

    /** The next `count` transfers from number `from` on succeed. */
    ghost predicate Clear(from: nat, count: nat)
      reads this`ready
    {
      (count > 0 ==> ready) && forall n: nat :: from <= n < from + count ==> !fails(n)
    }

    /** The number of the next transfer after up to `count` from number `from` on, of which the first
        that fails is the last. */
    ghost function After(from: nat, count: nat): nat
      reads this`ready
      decreases count
    {
      if count == 0 then from
      else if !Clear(from, 1) then from + 1
      else After(from + 1, count - 1)
    }

    /** Transfers in two parts, of which the second is made only if the first succeeds. */
    lemma {:induction false} InTwoParts(from: nat, a: nat, b: nat)
      ensures Clear(from, a + b) <==> Clear(from, a) && Clear(from + a, b)
      ensures After(from, a + b) == if Clear(from, a) then After(from + a, b) else After(from, a)
      decreases a
    {
      if a > 0 {
        InTwoParts(from + 1, a - 1, b);
        InTwoParts(from + 1, a - 1, 0);
      }
    }

    lemma {:induction false} AfterClear(from: nat, count: nat)
      requires Clear(from, count)
      ensures After(from, count) == from + count
      decreases count
    {
      if count > 0 {
        AfterClear(from + 1, count - 1);
      }
    }

    lemma StopsAt(from: nat, k: nat, count: nat)
      requires k < count && Clear(from, k) && !Clear(from + k, 1)
      ensures !Clear(from, count) && After(from, count) == from + k + 1
    {
      InTwoParts(from, k, count - k);
      InTwoParts(from + k, 1, count - k - 1);
    }

    /** A disk that is there, is large enough, and never fails. */
    ghost predicate Attached() {
      present && totalSectors >= START_LBA + TOTAL_SECTORS && NoFaults()
    }

    /** ata_pio_init, with the IDENTIFY exchange reduced to its outcome. */
    method Initialize() returns (ok: bool)
      modifies this`ready
      ensures ok == ready == present
    {
      ready := present;
      return ready;
    }

    method Read(block: nat) returns (ok: bool, buffer: Sector)
      requires block < TOTAL_SECTORS
      modifies this`transfers
      ensures ok ==> buffer == sectors[block]
      ensures transfers == old(transfers) + 1 && (ok <==> Clear(old(transfers), 1))
      ensures Reliable() ==> ok
    {
      ok := ready && !fails(transfers);
      buffer := if ok then sectors[block] else Zeros(SECTOR_SIZE);
      transfers := transfers + 1;
    }

    method Write(block: nat, buffer: Sector) returns (ok: bool)
      requires block < TOTAL_SECTORS
      modifies this`transfers, this`sectors
      ensures sectors == if ok then old(sectors)[block := buffer] else old(sectors)
      ensures transfers == old(transfers) + 1 && (ok <==> Clear(old(transfers), 1))
      ensures Reliable() ==> ok
    {
      ok := ready && !fails(transfers);
      if ok {
        sectors := sectors[block := buffer];
      }
      transfers := transfers + 1;
    }

    /** disk_read_data_block */
    method ReadData(index: u32) returns (ok: bool, buffer: Sector)
      modifies this`transfers
      ensures ok ==> index < DATA_BLOCK_COUNT && buffer == sectors[DATA_BLOCK_START + index]
      ensures index < DATA_BLOCK_COUNT ==> transfers == old(transfers) + 1 && (ok <==> Clear(old(transfers), 1))
      ensures Reliable() && index < DATA_BLOCK_COUNT ==> ok
    {
      if index >= DATA_BLOCK_COUNT {
        return false, Zeros(SECTOR_SIZE);
      }
      ok, buffer := Read(DATA_BLOCK_START + index);
    }

    /** disk_write_data_block */
    method WriteData(index: u32, buffer: Sector) returns (ok: bool)
      modifies this`transfers, this`sectors
      ensures ok ==> index < DATA_BLOCK_COUNT && sectors == old(sectors)[DATA_BLOCK_START + index := buffer]
      ensures !ok ==> sectors == old(sectors)
      ensures index < DATA_BLOCK_COUNT ==> transfers == old(transfers) + 1 && (ok <==> Clear(old(transfers), 1))
      ensures Reliable() && index < DATA_BLOCK_COUNT ==> ok
    {
      if index >= DATA_BLOCK_COUNT {
        return false;
      }
      ok := Write(DATA_BLOCK_START + index, buffer);
    }
  }
}
