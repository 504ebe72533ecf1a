/** The submit handler of the calculator (script.js:28-91): trim and
    validate the network block, parse it, normalise and sort the host
    requirements, reject an empty set and a set that exceeds the usable
    addresses of the block, then allocate. Errors are values instead of
    exceptions; the table is the sequence of Allocation records. */
module Calculator {
  import opened Wrappers
  import opened Text
  import opened AddressMath
  import opened Cidr
  import opened Requirements
  import opened Allocator

  /** The three messages the handler throws (script.js:32, 81, 87), with
      the two numbers the capacity message prints. BlocksDoNotFit is raised
      only by the corrected handler. */
  datatype SubmitError =
    | InvalidNetworkBlock
    | NoValidHostRequirement
    | ExceedsCapacity(needed: int, available: int)
    | BlocksDoNotFit(needed: int, available: int)

  /** What reaches generateSubnetTable: the parsed block and the sorted
      entries. */
  datatype Request = Request(block: NetworkBlock, entries: seq<HostEntry>)

  /** `Math.pow(2, 32 - prefix) - 2` (script.js:45). */
  function Capacity(prefix: nat): int
    requires prefix <= 32
  {
    Pow2(32 - prefix) - 2
  }

  /** script.js:30-88: everything before the call to generateSubnetTable. */
  function PrepareRequest(blockText: string, rows: seq<Row>): Result<Request, SubmitError> {
    var text := Trim(blockText);
    if !ValidateNetworkBlock(text) then Failure(InvalidNetworkBlock)
    else
      var block := ParseNetworkBlock(text);
      var entries := SortByAdjusted(Normalize(rows));
      if |entries| == 0 then Failure(NoValidHostRequirement)
      else
        var total := SumAdjusted(entries);
        var available := Capacity(block.prefix);
        if total > available then Failure(ExceedsCapacity(total, available))
        else Success(Request(block, entries))
  }

  /** The whole handler: the request, then the allocation from the
      unmasked base (script.js:91). */
  function Submit(blockText: string, rows: seq<Row>): Result<seq<Allocation>, SubmitError> {
    match PrepareRequest(blockText, rows)
    case Failure(err) => Failure(err)
    case Success(req) => Success(AllocateAll(req.entries, req.block.base))
  }

  /** The handler as the page runs it, step by step, with the table built
      by the allocation loop. */
  method HandleSubmit(blockText: string, rows: seq<Row>) returns (result: Result<seq<Allocation>, SubmitError>)
    ensures result == Submit(blockText, rows)
  {
    var networkBlock := Trim(blockText);
    if !ValidateNetworkBlock(networkBlock) {
      return Failure(InvalidNetworkBlock);
    }
    var block := ParseNetworkBlock(networkBlock);
    var hostEntries := SortByAdjusted(Normalize(rows));
    if |hostEntries| == 0 {
      return Failure(NoValidHostRequirement);
    }
    var totalHostsNeeded := SumAdjusted(hostEntries);
    var totalAvailableHosts := Capacity(block.prefix);
    if totalHostsNeeded > totalAvailableHosts {
      return Failure(ExceedsCapacity(totalHostsNeeded, totalAvailableHosts));
    }
    var table := GenerateSubnetTable(hostEntries, block.base);
    return Success(table);
  }

  /** Every normalised entry asks for at least one host. */
  lemma NormalizedDemands(rows: seq<Row>)
    ensures forall i | 0 <= i < |Normalize(rows)| :: 1 <= Normalize(rows)[i].hosts <= Normalize(rows)[i].adjusted
  {
    var entries := Normalize(rows);
    forall i | 0 <= i < |entries|
      ensures 1 <= entries[i].hosts <= entries[i].adjusted
    {
      NormalizeMembers(rows, entries[i]);
    }
  }

  /** Sorting changes neither the number of entries, nor their total, nor
      the fact that each asks for at least one host. */
  lemma SortedDemands(rows: seq<Row>)
    ensures var sorted := SortByAdjusted(Normalize(rows));
      && |sorted| == |Normalize(rows)|
      && SumAdjusted(sorted) == SumAdjusted(Normalize(rows))
      && forall i | 0 <= i < |sorted| :: sorted[i].adjusted >= 1
  {
    var entries := Normalize(rows);
    var sorted := SortByAdjusted(entries);
    SortKeepsSum(entries);
    SortIsPermutation(entries);
    NormalizedDemands(rows);
    forall i | 0 <= i < |sorted|
      ensures sorted[i].adjusted >= 1
    {
      assert sorted[i] in multiset(entries);
      var j :| 0 <= j < |entries| && entries[j] == sorted[i];
    }
  }

  /** The outcome of a submit: an invalid block fails first; a valid block
      with no kept row fails next; otherwise the request passes exactly when
      the total adjusted demand is at most 2^(32 - prefix) - 2, and fails
      with that total and that capacity when it is larger. */
  lemma SubmitOutcome(blockText: string, rows: seq<Row>)
    ensures var r := PrepareRequest(blockText, rows);
      && (r == Failure(InvalidNetworkBlock) <==> !ValidateNetworkBlock(Trim(blockText)))
      && (r == Failure(NoValidHostRequirement) <==>
            ValidateNetworkBlock(Trim(blockText)) && Normalize(rows) == [])
    ensures ValidateNetworkBlock(Trim(blockText)) && Normalize(rows) != [] ==>
      var total := SumAdjusted(Normalize(rows));
      var available := Capacity(ParseNetworkBlock(Trim(blockText)).prefix);
      && (PrepareRequest(blockText, rows).Success? <==> total <= available)
      && (total > available ==> PrepareRequest(blockText, rows) == Failure(ExceedsCapacity(total, available)))
  {
    SortedDemands(rows);
  }

  /** A /31 or /32 block has no usable host addresses (capacity 0 or -1),
      so every request with at least one kept row fails on it. */
  lemma SmallBlocksAlwaysFail(blockText: string, rows: seq<Row>)
    requires ValidateNetworkBlock(Trim(blockText))
    requires ParseNetworkBlock(Trim(blockText)).prefix >= 31
    requires Normalize(rows) != []
    ensures PrepareRequest(blockText, rows).Failure?
    ensures PrepareRequest(blockText, rows).error.ExceedsCapacity?
  {
    var entries := Normalize(rows);
    var prefix := ParseNetworkBlock(Trim(blockText)).prefix;
    var total := SumAdjusted(entries);
    assert total >= 1 by {
      NormalizedDemands(rows);
      SumBounds(entries);
    }
    assert Capacity(prefix) <= 0 by {
      assert Pow2(1) == 2 && Pow2(0) == 1;
    }
    SubmitOutcome(blockText, rows);
    assert PrepareRequest(blockText, rows) == Failure(ExceedsCapacity(total, Capacity(prefix)));
  }

  /** On success the request holds the normalised entries sorted largest
      first, stably, without losing or adding one; they are not empty and
      each demand fits the block's capacity. */
  lemma RequestEntries(blockText: string, rows: seq<Row>)
    requires PrepareRequest(blockText, rows).Success?
    ensures var req := PrepareRequest(blockText, rows).value;
      && req.block == ParseNetworkBlock(Trim(blockText))
      && req.entries != []
      && SortedDesc(req.entries)
      && multiset(req.entries) == multiset(Normalize(rows))
      && (forall k :: WithAdjusted(req.entries, k) == WithAdjusted(Normalize(rows), k))
      && SumAdjusted(req.entries) <= Capacity(req.block.prefix)
      && (forall i | 0 <= i < |req.entries| :: 1 <= req.entries[i].adjusted <= Capacity(req.block.prefix))
  {
    var req := PrepareRequest(blockText, rows).value;
    SortIsOrdered(Normalize(rows));
    SortIsPermutation(Normalize(rows));
    SortedDemands(rows);
    SumBounds(req.entries);
    forall k
      ensures WithAdjusted(req.entries, k) == WithAdjusted(Normalize(rows), k)
    {
      SortIsStable(Normalize(rows), k);
    }
  }

  /** What every request that passes the checks satisfies: a prefix the
      validator accepts, at least one entry, entries sorted largest first,
      and each demand between one and the capacity of the block. */
  predicate ValidRequest(req: Request) {
    && 8 <= req.block.prefix <= 32
    && req.entries != []
    && SortedDesc(req.entries)
    && (forall i | 0 <= i < |req.entries| :: 1 <= req.entries[i].adjusted <= Capacity(req.block.prefix))
  }

  lemma PreparedIsValid(blockText: string, rows: seq<Row>)
    requires PrepareRequest(blockText, rows).Success?
    ensures ValidRequest(PrepareRequest(blockText, rows).value)
    ensures |PrepareRequest(blockText, rows).value.entries| == |Normalize(rows)|
  {
    RequestEntries(blockText, rows);
    SortedDemands(rows);
  }

  /** The table of a valid request placed from `cursor`: one row per entry,
      in order, each row right after the one before, no overlap, block sizes
      never growing. */
  lemma TableLayout(req: Request, cursor: int)
    requires ValidRequest(req)
    ensures var table := AllocateAll(req.entries, cursor);
      && table[0].network == cursor
      && (forall i | 0 <= i < |table| :: table[i].entry == req.entries[i])
      && (forall i | 0 <= i < |table| - 1 :: table[i + 1].network == table[i].broadcast + 1)
      && (forall i, j | 0 <= i < j < |table| ::
            table[i].broadcast < table[j].network && table[i].blockSize >= table[j].blockSize)
  {
    var table := AllocateAll(req.entries, cursor);
    AllocateAllContiguous(req.entries, cursor);
    AllocateAllDisjoint(req.entries, cursor);
    AllocateAllNonIncreasing(req.entries, cursor);
    forall i | 0 <= i < |table|
      ensures table[i].entry == req.entries[i]
    {
      AllocateAllRow(req.entries, cursor, i);
    }
  }

  /** A table the handler produces is the table of a valid request with one
      entry per kept row, placed from the base as line 39 computes it. */
  lemma SubmitTable(blockText: string, rows: seq<Row>)
    requires Submit(blockText, rows).Success?
    ensures PrepareRequest(blockText, rows).Success?
    ensures var req := PrepareRequest(blockText, rows).value;
      && ValidRequest(req)
      && |req.entries| == |Normalize(rows)|
      && Submit(blockText, rows).value == AllocateAll(req.entries, req.block.base)
  {
    PreparedIsValid(blockText, rows);
  }

  /** On success the table has one row per kept entry, in the order of the
      sorted entries; the first row starts at the base as line 39 computes
      it, each row starts right after the broadcast address of the one
      before, no two rows overlap, and block sizes never grow. */
  lemma SubmitLayout(blockText: string, rows: seq<Row>)
    requires Submit(blockText, rows).Success?
    ensures var req := PrepareRequest(blockText, rows).value;
      var table := Submit(blockText, rows).value;
      && |table| == |Normalize(rows)| == |req.entries|
      && table[0].network == req.block.base
      && (forall i | 0 <= i < |table| :: table[i].entry == req.entries[i])
      && (forall i | 0 <= i < |table| - 1 :: table[i + 1].network == table[i].broadcast + 1)
      && (forall i, j | 0 <= i < j < |table| ::
            table[i].broadcast < table[j].network && table[i].blockSize >= table[j].blockSize)
  {
    SubmitTable(blockText, rows);
    TableLayout(PrepareRequest(blockText, rows).value, PrepareRequest(blockText, rows).value.block.base);
  }

  /** Row i of the table of a valid request: a /30 or larger block no larger
      than the parent block, with the reserved addresses, the host range and
      the spare count of AllocationShape. */
  lemma TableRow(req: Request, cursor: int, i: int)
    requires ValidRequest(req) && 0 <= i < |req.entries|
    ensures var a := AllocateAll(req.entries, cursor)[i];
      && req.block.prefix <= a.prefix <= 30
      && a.blockSize == Pow2(32 - a.prefix)
      && a.usable == a.blockSize - 2
      && a.firstHost == a.network + 1
      && a.lastHost == a.broadcast - 1
      && a.broadcast == a.network + a.blockSize - 1
      && a.spare == a.usable - a.entry.adjusted >= 0
      && (a.blockSize == 4 || a.blockSize / 2 - 2 < a.entry.adjusted)
  {
    var p := req.block.prefix;
    var e := req.entries[i];
    var at := cursor + SumBlocks(req.entries[..i]);
    AllocateAllRow(req.entries, cursor, i);
    assert Capacity(p) <= TWO_32 - 2 by {
      Pow2Monotone(32 - p, 32);
      Pow2Constants();
    }
    AllocationShape(e, at);
    RequiredBitsWithin(e.adjusted, 32 - p);
  }

  /** Each row of a successful table is a /30 or larger block no larger than
      the parent block, with the network and broadcast addresses reserved,
      the first and last hosts just inside them, and a usable count that
      covers the demand with the smallest such block. */
  lemma SubmitRows(blockText: string, rows: seq<Row>, i: int)
    requires Submit(blockText, rows).Success?
    requires 0 <= i < |Submit(blockText, rows).value|
    ensures var block := PrepareRequest(blockText, rows).value.block;
      var a := Submit(blockText, rows).value[i];
      && block.prefix <= a.prefix <= 30
      && a.blockSize == Pow2(32 - a.prefix)
      && a.usable == a.blockSize - 2
      && a.firstHost == a.network + 1
      && a.lastHost == a.broadcast - 1
      && a.broadcast == a.network + a.blockSize - 1
      && a.spare == a.usable - a.entry.adjusted >= 0
      && (a.blockSize == 4 || a.blockSize / 2 - 2 < a.entry.adjusted)
  {
    SubmitTable(blockText, rows);
    TableRow(PrepareRequest(blockText, rows).value, PrepareRequest(blockText, rows).value.block.base, i);
  }

  /** The handler with both findings corrected: the blocks, not only the
      demands, must fit the parent block (BlocksDoNotFit otherwise), and
      allocation starts at the network address of the block rather than at
      the address as typed. */
  function PrepareRequestCorrected(blockText: string, rows: seq<Row>): Result<Request, SubmitError> {
    match PrepareRequest(blockText, rows)
    case Failure(err) => Failure(err)
    case Success(req) =>
      var span := Pow2(32 - req.block.prefix);
      var blocks := SumBlocks(req.entries);
      if blocks > span then Failure(BlocksDoNotFit(blocks, span)) else Success(req)
  }

  function SubmitCorrected(blockText: string, rows: seq<Row>): Result<seq<Allocation>, SubmitError> {
    match PrepareRequestCorrected(blockText, rows)
    case Failure(err) => Failure(err)
    case Success(req) => Success(AllocateAll(req.entries, BlockStart(req.block)))
  }

  /** The first address of the parent block: the base modulo 2^32 with its
      32 - prefix host bits cleared, which AddressMath.NetworkAddressFacts
      shows is the networkAddress of script.js:43. */
  function BlockStart(block: NetworkBlock): int
    requires block.prefix <= 32
  {
    ToUint32(block.base) - LowBits(ToUint32(block.base), 32 - block.prefix)
  }

  /** What the corrected gate is for: the corrected handler succeeds
      exactly when the original checks pass and every row of the table
      placed from the first address of the parent block ends inside that
      block. */
  lemma CorrectedGateIsContainment(blockText: string, rows: seq<Row>)
    ensures SubmitCorrected(blockText, rows).Success? <==>
      && PrepareRequest(blockText, rows).Success?
      && (var req := PrepareRequest(blockText, rows).value;
          var first := BlockStart(req.block);
          var table := AllocateAll(req.entries, first);
          forall i | 0 <= i < |table| :: table[i].broadcast <= first + Pow2(32 - req.block.prefix) - 1)
  {
    if PrepareRequest(blockText, rows).Success? {
      var req := PrepareRequest(blockText, rows).value;
      PreparedIsValid(blockText, rows);
      AllocateAllExtent(req.entries, BlockStart(req.block), Pow2(32 - req.block.prefix));
    }
  }

  /** A valid request whose blocks add up to at most the parent block,
      placed from the first address of the block: every row lies inside the
      block (whose last address is its broadcast address, ClearedParent), is
      no larger than the block, starts at a multiple of its own size, and no
      two rows overlap. */
  lemma CorrectedTableFits(req: Request)
    requires ValidRequest(req) && SumBlocks(req.entries) <= Pow2(32 - req.block.prefix)
    ensures var first := BlockStart(req.block);
      var table := AllocateAll(req.entries, first);
      && Aligned(first, 32 - req.block.prefix)
      && table[0].network == first
      && (forall i | 0 <= i < |table| ::
            && first <= table[i].network <= table[i].broadcast <= first + Pow2(32 - req.block.prefix) - 1
            && req.block.prefix <= table[i].prefix <= 32
            && Aligned(table[i].network, 32 - table[i].prefix))
      && (forall i, j | 0 <= i < j < |table| :: table[i].broadcast < table[j].network)
  {
    assert req.block.prefix <= 30 by {
      assert Pow2(1) == 2 && Pow2(0) == 1;
      assert Capacity(req.block.prefix) >= req.entries[0].adjusted >= 1;
    }
    ClearedIsAligned(ToUint32(req.block.base), 32 - req.block.prefix);
    TableInBlock(req, BlockStart(req.block), BlockStart(req.block) + Pow2(32 - req.block.prefix) - 1);
  }

  /** The table of a valid request placed from a multiple of the parent
      block's size, when the blocks add up to at most that size. */
  lemma TableInBlock(req: Request, first: int, last: int)
    requires ValidRequest(req) && SumBlocks(req.entries) <= Pow2(32 - req.block.prefix)
    requires Aligned(first, 32 - req.block.prefix) && last == first + Pow2(32 - req.block.prefix) - 1
    ensures var table := AllocateAll(req.entries, first);
      && table[0].network == first
      && (forall i | 0 <= i < |table| ::
            && first <= table[i].network <= table[i].broadcast <= last
            && req.block.prefix <= table[i].prefix <= 32
            && Aligned(table[i].network, 32 - table[i].prefix))
      && (forall i, j | 0 <= i < j < |table| :: table[i].broadcast < table[j].network)
  {
    AllocateAllWithin(req.entries, first, 32 - req.block.prefix);
    AllocateAllContiguous(req.entries, first);
    AllocateAllDisjoint(req.entries, first);
  }

  /** Clearing the host bits of an address in a /8 to /30 gives a multiple
      of the block size whose broadcast address, as line 44 computes it, is
      the last address of the block. */
  lemma ClearedParent(u: int, p: nat)
    requires 0 <= u < TWO_32 && 8 <= p <= 30
    ensures var n := u - LowBits(u, 32 - p);
      && 0 <= n < TWO_32
      && Aligned(n, 32 - p)
      && BroadcastAddress(n, p) == n + Pow2(32 - p) - 1
  {
    var k: nat := 32 - p;
    ClearedBlock(u, k);
    ClearedIsAligned(u, k);
    BroadcastAddressValue(u - LowBits(u, k), p);
  }

  /** A table the corrected handler produces is the table of a valid
      request whose blocks fit the parent block, placed from the network
      address of that block; CorrectedTableFits says where its rows lie. */
  lemma SubmitCorrectedTable(blockText: string, rows: seq<Row>)
    requires SubmitCorrected(blockText, rows).Success?
    ensures PrepareRequest(blockText, rows).Success?
    ensures var req := PrepareRequest(blockText, rows).value;
      && ValidRequest(req)
      && req.block == ParseNetworkBlock(Trim(blockText))
      && SumBlocks(req.entries) <= Pow2(32 - req.block.prefix)
      && SubmitCorrected(blockText, rows).value == AllocateAll(req.entries, BlockStart(req.block))
  {
    PreparedIsValid(blockText, rows);
  }
}
