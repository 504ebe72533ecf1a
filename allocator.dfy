/** The allocation loop of generateSubnetTable (script.js:150-203): each
    entry, largest first, gets the smallest block that holds its hosts plus
    the network and broadcast addresses, placed right after the previous
    block. The HTML of each row is left out; a row is an Allocation record
    whose addresses the table renders with intToIp. */
module Allocator {
  import opened AddressMath
  import opened Requirements

  /** One row of the table, before rendering (script.js:153-179). */
  datatype Allocation = Allocation(
    entry: HostEntry,
    prefix: int,
    blockSize: nat,
    usable: int,
    network: int,
    broadcast: int,
    firstHost: int,
    lastHost: int,
    spare: int)

  /** Whether `bits` host bits stop the search of script.js:157. */
  predicate BitsSuffice(needed: int, bits: nat) {
    bits >= 32 || Pow2(bits) - 2 >= needed
  }

  /** The search of script.js:156-159 continued from `bits`. */
  function BitsFrom(needed: int, bits: nat): nat
    requires bits <= 32
    decreases 32 - bits
  {
    if Pow2(bits) - 2 < needed && bits < 32 then BitsFrom(needed, bits + 1) else bits
  }

  /** The search from `bits` stops at the first count, at most 32, that
      suffices. */
  lemma {:induction false} BitsFromIsLeast(needed: int, bits: nat)
    requires bits <= 32
    ensures var r := BitsFrom(needed, bits);
      && bits <= r <= 32 && BitsSuffice(needed, r)
      && forall c | bits <= c < r :: !BitsSuffice(needed, c)
    decreases 32 - bits
  {
    if Pow2(bits) - 2 < needed && bits < 32 {
      BitsFromIsLeast(needed, bits + 1);
    }
  }

  /** The number of host bits the loop of script.js:156-159 settles on. */
  function RequiredBits(needed: int): nat {
    BitsFrom(needed, 0)
  }

  /** RequiredBits is the least count, at most 32, whose block has room for
      `needed` hosts besides the network and broadcast addresses. */
  lemma RequiredBitsIsLeast(needed: int)
    ensures var bits := RequiredBits(needed);
      && bits <= 32 && BitsSuffice(needed, bits)
      && forall c | 0 <= c < bits :: !BitsSuffice(needed, c)
  {
    BitsFromIsLeast(needed, 0);
  }

  /** The least sufficient bit count is unique: any count that suffices and
      has no smaller sufficient count is the one RequiredBits picks. */
  lemma RequiredBitsUnique(needed: int, bits: nat)
    requires bits <= 32 && BitsSuffice(needed, bits)
    requires forall c | 0 <= c < bits :: !BitsSuffice(needed, c)
    ensures bits == RequiredBits(needed)
  {
    RequiredBitsIsLeast(needed);
    var r: nat := RequiredBits(needed);
    assert bits < r ==> !BitsSuffice(needed, bits);
    assert r < bits ==> !BitsSuffice(needed, r);
  }

  /** A larger demand never needs fewer bits. */
  lemma RequiredBitsMonotone(a: int, b: int)
    requires a <= b
    ensures RequiredBits(a) <= RequiredBits(b)
  {
    RequiredBitsIsLeast(a);
    RequiredBitsIsLeast(b);
    var rb: nat := RequiredBits(b);
    assert RequiredBits(a) > rb ==> !BitsSuffice(a, rb);
  }

  /** The size of the block for a demand (script.js:161). */
  function BlockSize(needed: int): nat {
    Pow2(RequiredBits(needed))
  }

  /** The row for one entry placed at `cursor` (script.js:153-179),
      including the /31 and /32 branches. */
  function AllocationAt(entry: HostEntry, cursor: int): Allocation {
    var needed := entry.adjusted;
    var bits := RequiredBits(needed);
    var blockSize := Pow2(bits);
    var newPrefix := 32 - bits;
    var usable := if newPrefix == 31 then 2 else if newPrefix == 32 then 1 else blockSize - 2;
    Allocation(
      entry, newPrefix, blockSize, usable,
      cursor,
      cursor + blockSize - 1,
      cursor + (if newPrefix >= 31 then 0 else 1),
      cursor + blockSize - (if newPrefix == 32 then 1 else if newPrefix == 31 then 1 else 2),
      usable - needed)
  }

  /** Every entry of a request has a demand of at least one, so the search
      stops at two bits or more: the block is a /30 or larger, the /31 and
      /32 branches are never taken, the usable count is the block size minus
      two, the first host follows the network address and the last host
      precedes the broadcast address. The block is the smallest whose
      usable count covers the demand, so spare is never negative. */
  lemma AllocationShape(entry: HostEntry, cursor: int)
    requires 1 <= entry.adjusted <= TWO_32 - 2
    ensures var a := AllocationAt(entry, cursor);
      && a.entry == entry
      && 2 <= 32 - a.prefix <= 32 && a.prefix <= 30
      && a.blockSize == Pow2(32 - a.prefix)
      && a.usable == a.blockSize - 2
      && a.network == cursor
      && a.broadcast == a.network + a.blockSize - 1
      && a.firstHost == a.network + 1
      && a.lastHost == a.broadcast - 1
      && a.lastHost - a.firstHost + 1 == a.usable
      && a.spare == a.usable - entry.adjusted >= 0
      && (a.blockSize == 4 || a.blockSize / 2 - 2 < entry.adjusted)
  {
    var needed := entry.adjusted;
    var bits := RequiredBits(needed);
    RequiredBitsIsLeast(needed);
    assert !BitsSuffice(needed, 0) && !BitsSuffice(needed, 1);
    Pow2Constants();
    if bits > 2 {
      assert !BitsSuffice(needed, bits - 1);
    }
  }

  /** A demand beyond 2^32 - 2 stops the search at 32 bits: a /0 block whose
      spare count is negative. */
  lemma AllocationOverflow(entry: HostEntry, cursor: int)
    requires entry.adjusted > TWO_32 - 2
    ensures var a := AllocationAt(entry, cursor);
      a.prefix == 0 && a.blockSize == TWO_32 && a.spare < 0
  {
    var needed := entry.adjusted;
    Pow2Constants();
    forall c | 0 <= c < 32
      ensures !BitsSuffice(needed, c)
    {
      Pow2Monotone(c, 32);
      assert Pow2(c) <= Pow2(32);
    }
    RequiredBitsUnique(needed, 32);
  }

  /** The rows for `entries` placed one after another from `cursor`
      (script.js:150-152, 202). */
  function AllocateAll(entries: seq<HostEntry>, cursor: int): (rows: seq<Allocation>)
    ensures |rows| == |entries|
  {
    if entries == [] then []
    else
      var a := AllocationAt(entries[0], cursor);
      [a] + AllocateAll(entries[1..], cursor + a.blockSize)
  }

  /** The total size of the blocks the entries receive. */
  function SumBlocks(entries: seq<HostEntry>): nat {
    if entries == [] then 0 else BlockSize(entries[0].adjusted) + SumBlocks(entries[1..])
  }

  /** The block of one row and the place of its broadcast address. */
  lemma AllocationBlock(entry: HostEntry, cursor: int)
    ensures var a := AllocationAt(entry, cursor);
      && a.network == cursor
      && a.blockSize == BlockSize(entry.adjusted)
      && a.prefix == 32 - RequiredBits(entry.adjusted)
      && a.broadcast == a.network + a.blockSize - 1
  {
  }

  /** Unfolds AllocateAll at position k of a sequence. */
  lemma AllocateAllStep(entries: seq<HostEntry>, k: int, cursor: int)
    requires 0 <= k < |entries|
    ensures var a := AllocationAt(entries[k], cursor);
      AllocateAll(entries[k..], cursor) == [a] + AllocateAll(entries[k + 1..], cursor + a.blockSize)
  {
    var s := entries[k..];
    var a := AllocationAt(s[0], cursor);
    assert AllocateAll(s, cursor) == [a] + AllocateAll(s[1..], cursor + a.blockSize);
    assert s[0] == entries[k];
    assert s[1..] == entries[k + 1..];
  }

  /** Closed form of the loop: row i is the allocation of entry i at the
      cursor moved past the blocks of the entries before it. */
  lemma {:induction false} AllocateAllRow(entries: seq<HostEntry>, cursor: int, i: int)
    requires 0 <= i < |entries|
    ensures AllocateAll(entries, cursor)[i] == AllocationAt(entries[i], cursor + SumBlocks(entries[..i]))
    decreases i
  {
    if i > 0 {
      var rows := AllocateAll(entries, cursor);
      var a := AllocationAt(entries[0], cursor);
      AllocationBlock(entries[0], cursor);
      var next := cursor + a.blockSize;
      AllocateAllRow(entries[1..], next, i - 1);
      assert rows[i] == AllocateAll(entries[1..], next)[i - 1];
      assert entries[i] == entries[1..][i - 1];
      assert entries[..i][0] == entries[0];
      assert entries[..i][1..] == entries[1..][..i - 1];
    } else {
      assert entries[..0] == [];
    }
  }

  /** The first block starts at the cursor, each block starts right after
      the broadcast address of the one before, and all of them lie in
      [cursor, cursor + SumBlocks(entries)). */
  lemma {:induction false} AllocateAllContiguous(entries: seq<HostEntry>, cursor: int)
    ensures var rows := AllocateAll(entries, cursor);
      && (|rows| > 0 ==> rows[0].network == cursor)
      && (forall i | 0 <= i < |rows| - 1 :: rows[i + 1].network == rows[i].broadcast + 1)
      && (forall i | 0 <= i < |rows| ::
            cursor <= rows[i].network <= rows[i].broadcast < cursor + SumBlocks(entries))
  {
    if entries != [] {
      var rows := AllocateAll(entries, cursor);
      var a := AllocationAt(entries[0], cursor);
      var next := cursor + a.blockSize;
      var tail := AllocateAll(entries[1..], next);
      AllocateAllContiguous(entries[1..], next);
      assert rows[1..] == tail;
      forall i | 0 <= i < |rows| - 1
        ensures rows[i + 1].network == rows[i].broadcast + 1
      {
        if i > 0 {
          assert rows[i] == tail[i - 1] && rows[i + 1] == tail[i];
        }
      }
      forall i | 0 <= i < |rows|
        ensures cursor <= rows[i].network <= rows[i].broadcast < cursor + SumBlocks(entries)
      {
        if i > 0 {
          assert rows[i] == tail[i - 1];
        }
      }
    }
  }

  /** The broadcast address of the last row is the last address of the
      span the blocks cover together. */
  lemma {:induction false} AllocateAllLast(entries: seq<HostEntry>, cursor: int)
    requires entries != []
    ensures AllocateAll(entries, cursor)[|entries| - 1].broadcast == cursor + SumBlocks(entries) - 1
  {
    var a := AllocationAt(entries[0], cursor);
    AllocationBlock(entries[0], cursor);
    var next := cursor + a.blockSize;
    if |entries| == 1 {
      assert entries[1..] == [];
    } else {
      AllocateAllLast(entries[1..], next);
      assert AllocateAll(entries, cursor)[|entries| - 1] == AllocateAll(entries[1..], next)[|entries| - 2];
    }
  }

  /** Every row of a non-empty table ends by cursor + n - 1 exactly when the
      blocks add up to at most n addresses. */
  lemma AllocateAllExtent(entries: seq<HostEntry>, cursor: int, n: int)
    requires entries != []
    ensures var rows := AllocateAll(entries, cursor);
      (forall i | 0 <= i < |rows| :: rows[i].broadcast <= cursor + n - 1) <==> SumBlocks(entries) <= n
  {
    AllocateAllContiguous(entries, cursor);
    AllocateAllLast(entries, cursor);
  }

  /** Address ranges of different rows never overlap: a row's broadcast
      address is below the network address of every later row. */
  lemma {:induction false} AllocateAllDisjoint(entries: seq<HostEntry>, cursor: int)
    ensures var rows := AllocateAll(entries, cursor);
      forall i, j | 0 <= i < j < |rows| :: rows[i].broadcast < rows[j].network
  {
    if entries != [] {
      var rows := AllocateAll(entries, cursor);
      var a := AllocationAt(entries[0], cursor);
      var next := cursor + a.blockSize;
      var tail := AllocateAll(entries[1..], next);
      AllocateAllDisjoint(entries[1..], next);
      AllocateAllContiguous(entries[1..], next);
      assert rows[1..] == tail;
      forall i, j | 0 <= i < j < |rows|
        ensures rows[i].broadcast < rows[j].network
      {
        assert rows[j] == tail[j - 1];
        if i > 0 {
          assert rows[i] == tail[i - 1];
        }
      }
    }
  }

  /** Row i's block is the power of two its entry's demand calls for. */
  lemma RowBlock(entries: seq<HostEntry>, cursor: int, i: int)
    requires 0 <= i < |entries|
    ensures var a := AllocateAll(entries, cursor)[i];
      && a.prefix == 32 - RequiredBits(entries[i].adjusted)
      && a.blockSize == BlockSize(entries[i].adjusted)
    ensures RequiredBits(entries[i].adjusted) <= 32
  {
    RequiredBitsIsLeast(entries[i].adjusted);
    var at := cursor + SumBlocks(entries[..i]);
    AllocateAllRow(entries, cursor, i);
    AllocationBlock(entries[i], at);
  }

  /** Block sizes are powers of two. */
  lemma AllocateAllPowers(entries: seq<HostEntry>, cursor: int)
    ensures var rows := AllocateAll(entries, cursor);
      forall i | 0 <= i < |rows| :: 0 <= 32 - rows[i].prefix <= 32 && rows[i].blockSize == Pow2(32 - rows[i].prefix)
  {
    var rows := AllocateAll(entries, cursor);
    forall i | 0 <= i < |rows|
      ensures 0 <= 32 - rows[i].prefix <= 32 && rows[i].blockSize == Pow2(32 - rows[i].prefix)
    {
      RowBlock(entries, cursor, i);
    }
  }

  /** On entries sorted largest first, block sizes never increase. */
  lemma AllocateAllNonIncreasing(entries: seq<HostEntry>, cursor: int)
    requires SortedDesc(entries)
    ensures var rows := AllocateAll(entries, cursor);
      forall i, j | 0 <= i < j < |rows| :: rows[i].blockSize >= rows[j].blockSize
  {
    var rows := AllocateAll(entries, cursor);
    forall i, j | 0 <= i < j < |rows|
      ensures rows[i].blockSize >= rows[j].blockSize
    {
      BlockSizesOrdered(entries, cursor, i, j);
    }
  }

  lemma BlockSizesOrdered(entries: seq<HostEntry>, cursor: int, i: int, j: int)
    requires SortedDesc(entries) && 0 <= i < j < |entries|
    ensures AllocateAll(entries, cursor)[i].blockSize >= AllocateAll(entries, cursor)[j].blockSize
  {
    RowBlock(entries, cursor, i);
    RowBlock(entries, cursor, j);
    var ni := entries[i].adjusted;
    var nj := entries[j].adjusted;
    SortedDescPairwise(entries, i, j);
    RequiredBitsMonotone(nj, ni);
    Pow2Monotone(RequiredBits(nj), RequiredBits(ni));
  }

  /** On entries sorted largest first, a cursor that is a multiple of the
      first block size makes every network address a multiple of its own
      block size. */
  lemma {:induction false} AllocateAllAligned(entries: seq<HostEntry>, cursor: int)
    requires SortedDesc(entries)
    requires entries != [] ==> Aligned(cursor, RequiredBits(entries[0].adjusted))
    ensures var rows := AllocateAll(entries, cursor);
      forall i | 0 <= i < |rows| :: Aligned(rows[i].network, RequiredBits(entries[i].adjusted))
  {
    if entries != [] {
      var rows := AllocateAll(entries, cursor);
      var b0 := RequiredBits(entries[0].adjusted);
      var next := cursor + Pow2(b0);
      var tail := AllocateAll(entries[1..], next);
      assert rows[1..] == tail;
      if |entries| > 1 {
        var b1 := RequiredBits(entries[1].adjusted);
        RequiredBitsMonotone(entries[1].adjusted, entries[0].adjusted);
        AlignedWeaken(cursor, b1, b0);
        Pow2Aligned(b1, b0);
        AlignedAdd(cursor, Pow2(b0), b1);
        assert entries[1..][0] == entries[1];
      }
      AllocateAllAligned(entries[1..], next);
      forall i | 0 <= i < |rows|
        ensures Aligned(rows[i].network, RequiredBits(entries[i].adjusted))
      {
        if i > 0 {
          assert rows[i] == tail[i - 1];
          assert entries[i] == entries[1..][i - 1];
        }
      }
    }
  }

  /** A demand that fits the usable addresses of a block of 2^k addresses
      needs at most k bits. */
  lemma RequiredBitsWithin(needed: int, k: nat)
    requires k <= 32 && needed <= Pow2(k) - 2
    ensures RequiredBits(needed) <= k
  {
    RequiredBitsIsLeast(needed);
    assert RequiredBits(needed) > k ==> !BitsSuffice(needed, k);
  }

  /** Entries sorted largest first, each fitting a block of 2^k addresses,
      whose blocks add up to at most 2^k, placed from a multiple of 2^k:
      every row lies inside [cursor, cursor + 2^k), is no larger than 2^k,
      and starts at a multiple of its own block size. */
  lemma AllocateAllWithin(entries: seq<HostEntry>, cursor: int, k: nat)
    requires k <= 32 && SortedDesc(entries)
    requires forall i | 0 <= i < |entries| :: entries[i].adjusted <= Pow2(k) - 2
    requires Aligned(cursor, k) && SumBlocks(entries) <= Pow2(k)
    ensures var rows := AllocateAll(entries, cursor);
      forall i | 0 <= i < |rows| ::
        && cursor <= rows[i].network <= rows[i].broadcast <= cursor + Pow2(k) - 1
        && 32 - k <= rows[i].prefix <= 32
        && Aligned(rows[i].network, 32 - rows[i].prefix)
  {
    var rows := AllocateAll(entries, cursor);
    AllocateAllContiguous(entries, cursor);
    if entries != [] {
      RequiredBitsWithin(entries[0].adjusted, k);
      AlignedWeaken(cursor, RequiredBits(entries[0].adjusted), k);
    }
    AllocateAllAligned(entries, cursor);
    forall i | 0 <= i < |rows|
      ensures 32 - k <= rows[i].prefix <= 32 && Aligned(rows[i].network, 32 - rows[i].prefix)
    {
      RowBlock(entries, cursor, i);
      RequiredBitsWithin(entries[i].adjusted, k);
    }
  }

  /** One pass of the loop body of generateSubnetTable (script.js:153-179):
      a while loop finds the bits, then the row's numbers follow. */
  method AllocateEntry(entry: HostEntry, currentBase: int) returns (row: Allocation)
    ensures row == AllocationAt(entry, currentBase)
  {
    var hostsNeeded := entry.adjusted;
    var bits := 0;
    RequiredBitsIsLeast(hostsNeeded);
    while Pow2(bits) - 2 < hostsNeeded && bits < 32
      invariant bits <= RequiredBits(hostsNeeded)
      decreases 32 - bits
    {
      bits := bits + 1;
    }
    assert BitsSuffice(hostsNeeded, bits);
    assert bits == RequiredBits(hostsNeeded);
    var blockSize := Pow2(bits);
    var newPrefix := 32 - bits;
    var usableHosts;
    if newPrefix == 31 {
      usableHosts := 2;
    } else if newPrefix == 32 {
      usableHosts := 1;
    } else {
      usableHosts := blockSize - 2;
    }
    row := Allocation(
      entry, newPrefix, blockSize, usableHosts,
      currentBase,
      currentBase + blockSize - 1,
      currentBase + (if newPrefix >= 31 then 0 else 1),
      currentBase + blockSize - (if newPrefix == 32 then 1 else if newPrefix == 31 then 1 else 2),
      usableHosts - hostsNeeded);
  }

  /** The loop invariant of GenerateSubnetTable survives one iteration. */
  lemma LoopStep(entries: seq<HostEntry>, k: int, cursor: int, rows: seq<Allocation>, row: Allocation, target: seq<Allocation>)
    requires 0 <= k < |entries|
    requires rows + AllocateAll(entries[k..], cursor) == target
    requires row == AllocationAt(entries[k], cursor)
    ensures rows + [row] + AllocateAll(entries[k + 1..], cursor + row.blockSize) == target
  {
    var rest := AllocateAll(entries[k + 1..], cursor + row.blockSize);
    AllocateAllStep(entries, k, cursor);
    assert rows + [row] + rest == rows + ([row] + rest);
  }

  /** generateSubnetTable without the HTML (script.js:150-203): the cursor
      starts at `base` and advances by each row's block size. */
  method GenerateSubnetTable(entries: seq<HostEntry>, base: int) returns (rows: seq<Allocation>)
    ensures rows == AllocateAll(entries, base)
  {
    rows := [];
    var currentBase := base;
    for k := 0 to |entries|
      invariant rows + AllocateAll(entries[k..], currentBase) == AllocateAll(entries, base)
    {
      var row := AllocateEntry(entries[k], currentBase);
      LoopStep(entries, k, currentBase, rows, row, AllocateAll(entries, base));
      rows := rows + [row];
      currentBase := currentBase + row.blockSize;
    }
    assert entries[|entries|..] == [];
  }
}
