# VLSM subnet calculator — a Dafny model

The calculator takes a parent network block in CIDR notation (`a.b.c.d/p`) and a list of subnet requirements. Each requirement has:
- a name;
- a host count;
- an optional growth percentage.

It returns a VLSM (variable-length subnet masking) plan. The requirements are sorted largest first. Each one receives the smallest power-of-two block that holds its hosts plus the network and broadcast addresses. The blocks are laid out one after another from the base address of the parent block. Every row of the table gives:
- the prefix;
- the network and broadcast addresses;
- the first and last host;
- the number of spare addresses.

All of this logic is in `script.js`. This project models it as follows:

| file | module | what it models |
|---|---|---|
| `wrappers.dfy` | `Wrappers` | `Option` and `Result`. |
| `text.dfy` | `Text` | `String.prototype.trim`, `split` on one character and its inverse `join`, and decimal digits. |
| `address_math.dfy` | `AddressMath` | The JavaScript 32-bit operators the source uses: signed `<<`, `>>>`, `&` and `\|`. They are written as arithmetic on unbounded integers. The file also holds the base address of line 39, the unused mask, network and broadcast addresses of lines 42-44, and `intToIp`. |
| `cidr.dfy` | `Cidr` | `validateNetworkBlock`, with its regular expression as a character-level predicate, and the parse of lines 36-39. |
| `requirements.dfy` | `Requirements` | The requirement rows, their normalisation and growth, the stable descending sort and the total. |
| `allocator.dfy` | `Allocator` | The allocation loop of `generateSubnetTable`, as a recursive specification (`AllocateAll`) and as the imperative loop that is proved equal to it (`GenerateSubnetTable`, `AllocateEntry`). |
| `calculator.dfy` | `Calculator` | The submit handler, with its three errors as values. It also holds a corrected handler for the two findings below. |
| `findings.dfy` | `Findings` | Concrete inputs that exhibit the two findings, on the handler as written and on the corrected one. |

Some conventions of the model:
- Addresses are unbounded integers. As in the source, the base is the signed value line 39 produces: a first octet of 128 or more gives a negative number. The table stores addresses as the source computes them. Reduction modulo 2^32 happens only where `intToIp` applies `>>>`.
- Form input arrives already parsed. Each host and growth value is an `Option<int>`, where `None` stands for `parseInt`'s NaN.
- The table is a sequence of `Allocation` records rather than HTML.

## Model

| member | source | states |
|---|---|---|
| Text.TrimSpec | script.js:30 | `trim` removes trimmable characters only at the two ends. The result is the slice from the first non-trimmable character to the last one. It is empty exactly when every character is trimmable. |
| Text.TrimIdempotent | script.js:30 | Trimming twice is trimming once. |
| AddressMath.OctetsAreBigEndianBytes | script.js:226-231 | `intToIp` prints four values, each in 0..255. Recombining them big-endian gives the address modulo 2^32. |
| AddressMath.OctetsOfCombine | script.js:226-231 | For four bytes, `intToIp`'s decomposition of their big-endian combination gives back the same four bytes. |
| AddressMath.SignedBaseIsAddress | script.js:39 | The base built with signed shifts is the unsigned address, minus 2^32 exactly when the first octet is at least 128. Modulo 2^32 it is the address. |
| AddressMath.SubnetMaskValue | script.js:42 | The mask is `prefix` one bits followed by `32 - prefix` zero bits: 2^32 - 2^(32-prefix). |
| AddressMath.NetworkAddressFacts | script.js:43 | The network address is the base modulo 2^32 with its `32 - prefix` low bits cleared. |
| AddressMath.BroadcastAddressValue | script.js:44 | For an aligned network address and a prefix up to /31, the broadcast address is the last address of the block. For /32 the shift count wraps to 0 and the result is 255.255.255.255. |
| Cidr.PatternIsRegex | script.js:110-111 | The split-based test accepts exactly the language of `/^(\d{1,3}\.){3}\d{1,3}\/\d{1,2}$/`: four runs of 1-3 digits joined by dots, then `/`, then 1-2 digits. |
| Cidr.ValidateIff | script.js:108-126 | `validateNetworkBlock` accepts a text exactly when it is four digit runs of length 1-3, each at most 255, then a 1-2 digit prefix in 8..32. Both directions are proved. |
| Cidr.ParseNetworkBlock | script.js:36-39 | A validated block yields a prefix in 8..32 and four byte-sized octets. The base is their big-endian combination, minus 2^32 when the first octet has its top bit set. |
| Cidr.FormatThenParse | script.js:36-39 | Printing an address with `intToIp` and adding a prefix in 8..32 gives text the validator accepts. Parsing that text gives back the prefix, the printed octets, and the address modulo 2^32. |
| Requirements.GrownHostsIsCeiling | script.js:64-65 | The grown count is the least integer at least hosts·(100+growth)/100. With a positive growth it exceeds the host count. |
| Requirements.NormalizeRow | script.js:49-76 | A row is kept exactly when its trimmed name is non-empty and its host count is a number above zero. A kept entry has the trimmed name, `adjusted >= hosts`, and `future` null unless growth was applied. |
| Requirements.AdjustedByGrowth | script.js:59-67 | Growth that is absent, NaN, zero or negative leaves `adjusted == hosts`. A positive growth makes `adjusted` the ceiling of the grown count and sets `future` to it. |
| Requirements.NormalizeMembers | script.js:48-77 | An entry survives the map and filter exactly when it is the normalisation of some row. Every surviving entry is well formed. |
| Requirements.NormalizeAppend | script.js:48-77 | The map and filter keep form order: the entries of two consecutive runs of rows are the first run's entries followed by the second's. |
| Requirements.NormalizeInOrder | script.js:48-77 | No rows give no entries. Otherwise the entries are the first row's entry, if line 55 keeps that row, followed by the entries of the remaining rows. This fixes the result entry by entry, multiplicity and form order included, so the sort's stability refers back to form order. |
| Requirements.NormalizeCount | script.js:55-77 | The number of entries equals the number of rows the test of line 55 keeps. |
| Requirements.SortIsOrdered | script.js:78 | After the sort, adjusted counts never increase along the sequence. |
| Requirements.SortIsPermutation | script.js:78 | The sort is a permutation of its input, as equal multisets. |
| Requirements.SortIsStable | script.js:78 | For every count, the entries with that count keep their input order. |
| Requirements.SortKeepsSum | script.js:85 | Sorting does not change the total that line 85 sums. |
| Requirements.SumBounds | script.js:85 | A total of positive counts is at least each count and at least the number of entries. |
| Allocator.RequiredBitsIsLeast | script.js:156-159 | The bit search returns the least count, at most 32, with 2^bits - 2 >= needed. |
| Allocator.RequiredBitsMonotone | script.js:156-159 | A larger demand never needs fewer bits. |
| Allocator.AllocationShape | script.js:156-179 | For a demand between 1 and 2^32 - 2 the block is /30 or larger, so the /31 and /32 branches are unreachable. Then `usable = blockSize - 2`; first host = network + 1; last host = broadcast - 1; broadcast = network + blockSize - 1. `spare = usable - needed >= 0`, and no smaller block would do. |
| Allocator.AllocationOverflow | script.js:157-179 | A demand above 2^32 - 2 stops the search at 32 bits: a /0 block of 2^32 addresses with negative spare. |
| Allocator.AllocateEntry | script.js:153-179 | The loop body, with its `while` search for the bits, computes exactly the row `AllocationAt` specifies. |
| Allocator.GenerateSubnetTable | script.js:150-203 | The `for` loop that advances the cursor by each block size returns exactly `AllocateAll(entries, base)`. |
| Allocator.AllocateAllRow | script.js:150-202 | Row i is entry i placed at the base plus the block sizes of the entries before it. |
| Allocator.AllocateAllContiguous | script.js:150-202 | The first row starts at the base. Each later row starts right after the broadcast address of the one before. All rows lie within base + the sum of block sizes. |
| Allocator.AllocateAllLast | script.js:150-202 | The last row's broadcast address is the base plus the sum of all block sizes, minus one. |
| Allocator.AllocateAllExtent | script.js:150-202 | Every row of a non-empty table ends by base + n - 1 exactly when the blocks add up to at most n addresses. |
| Allocator.AllocateAllDisjoint | script.js:175-202 | The address ranges of different rows never overlap. |
| Allocator.AllocateAllPowers | script.js:161-162 | Every block size is 2^(32 - prefix). |
| Allocator.AllocateAllNonIncreasing | script.js:161 | On entries sorted largest first, block sizes never increase. |
| Allocator.AllocateAllAligned | script.js:161-202 | On sorted entries, a base that is a multiple of the first block size makes every network address a multiple of its own block size. |
| Allocator.AllocateAllWithin | script.js:150-203 | Suppose the sorted demands each fit 2^k - 2, their blocks sum to at most 2^k, and the base is a multiple of 2^k. Then every row lies in [base, base + 2^k), is no larger than 2^k, and is aligned. |
| Calculator.HandleSubmit | script.js:28-91 | The handler computes exactly `Submit`: invalid block, then empty set, then the capacity gate, then the allocation from the unmasked base. |
| Calculator.SubmitOutcome | script.js:31-88 | An invalid block fails first. A valid block with no kept row fails next. Otherwise the request passes exactly when the total adjusted demand is at most 2^(32-prefix) - 2, so a total equal to the capacity passes. Otherwise it fails with that total and that capacity. |
| Calculator.SmallBlocksAlwaysFail | script.js:45-88 | On a /31 or /32 parent, every request with a kept row fails the capacity gate. |
| Calculator.RequestEntries | script.js:77-88 | A request that passes holds the normalised entries, non-empty and sorted largest first, stably, as a permutation. Their total and each demand are within the capacity. |
| Calculator.SubmitLayout | script.js:150-203 | A successful table has one row per kept entry, in sorted order. It starts at the unmasked base of line 39, its rows are contiguous and pairwise disjoint, and block sizes never grow. |
| Calculator.SubmitRows | script.js:156-179 | Every row of a successful table is a /30 or larger block, no larger than the parent, with the host range and spare count of AllocationShape. |
| Calculator.CorrectedGateIsContainment | script.js:85-88 | The corrected handler succeeds exactly when the original checks pass and every row of the table placed from the parent's network address ends inside the parent block. Both directions are proved. |
| Calculator.SubmitCorrectedTable | script.js:43 | A table from the corrected handler is a valid request's table whose blocks fit the parent. It is placed from the parent's network address. |
| Calculator.CorrectedTableFits | script.js:150-203 | When the blocks fit, the table placed from the parent's network address lies entirely inside the parent block. Every row is aligned to its own size, and no two rows overlap. |
| Calculator.ClearedParent | script.js:43-44 | Clearing the host bits of an address in a /8 to /30 gives an aligned network address. Its broadcast address, as line 44 computes it, is the last address of the block. |
| Findings.Parent10 | script.js:43-44 | For 10.0.0.0/24, lines 43-44 give network 10.0.0.0 and broadcast 10.0.0.255. |
| Findings.RawSumGateOverflow | script.js:85-88 | As written, 10.0.0.0/24 with two subnets of 127 hosts passes the gate. The second subnet becomes 10.0.1.0/24, outside the parent block. |
| Findings.RawSumGateCorrected | script.js:85-88 | The corrected handler rejects that request: its blocks need 512 addresses and the parent has 256. |
| Findings.Network192 | script.js:43 | The network address of 192.168.1.5/24 is 192.168.1.0. |
| Findings.UnmaskedBaseMisaligns | script.js:91 | As written, 192.168.1.5/24 with one subnet of 50 hosts yields a /26 whose network address is 192.168.1.5. That address is not a multiple of 64. |
| Findings.UnmaskedBaseCorrected | script.js:43 | The corrected handler places that subnet at 192.168.1.0, aligned to 64. |

## Left out

- The DOM, in both directions. The model does not cover the event wiring, adding and removing rows, reading input fields, the `alert`, or writing `innerHTML` (script.js:5-26, 93-100, 234-247). The handler returns a `Result` of records or a typed error instead.
- The HTML table text, the role label with its growth note, and the colour class chosen from the spare count (script.js:134-148, 181-199, 205-218). These are presentation only.
- `parseInt`'s lenient prefix parsing and its NaN on the form fields (script.js:51-53). Host and growth values arrive as `Option<int>`, with `None` for NaN. An empty growth field arrives as `Some(0)`, as line 53 makes it. The octets and prefix of a validated block are all digits, so for them the model reads the digits exactly.
- GrownHosts: floating-point growth (script.js:64-65) is replaced by the exact integer ceiling `(hosts*(100+growth)+99)/100`. JavaScript can overshoot by one: 100 hosts at 10% growth gives `110.00000000000001`, so `Math.ceil` yields 111, while the model yields 110.
- Subnet mask, network and broadcast addresses (script.js:42-44): the source computes them and never uses them. They are modelled as helper functions with their values proved, but the handler as written does not call them. Only the corrected handler uses the network address.
- Trim, Insert, SortByAdjusted, RequiredBits, Normalize and AllocateAll: these functions carry no `ensures` of their own, or one that states only a length. Their meaning is proved in separate lemmas: TrimSpec, SortIsOrdered, SortIsPermutation, SortIsStable, RequiredBitsIsLeast, NormalizeInOrder, NormalizeMembers, AllocateAllRow and others.
- Line 43 computes the masked network address, but line 91 passes the unmasked base of line 39 to the allocator. The model of the handler follows line 91. Only the corrected handler starts from the network address.
- Numbers in JavaScript are doubles. For a request that passes the capacity gate the cursor stays far below 2^53, where doubles stop being exact. So the model uses unbounded integers and reduces modulo 2^32 only where the source applies `>>>`.

## Findings

| source | as written | input that shows it | evidently intended | confidence | as-written member | corrected member |
|---|---|---|---|---|---|---|
| script.js:85-88 | The gate compares the sum of adjusted host counts with 2^(32-prefix) - 2. Each subnet, however, occupies a whole power-of-two block that includes its own network and broadcast addresses. | `10.0.0.0/24` with two subnets of 127 hosts: 254 <= 254 passes, and the second subnet is allocated as 10.0.1.0/24, outside the parent block. | Reject a request whose blocks add up to more than the parent block, so every subnet lies inside it. | not executed | Findings.RawSumGateOverflow | Calculator.CorrectedTableFits (with Calculator.CorrectedGateIsContainment, Findings.RawSumGateCorrected) |
| script.js:91 (with 39, 43) | Allocation starts at the base exactly as typed. Host bits the user entered are kept, and the masked network address of line 43 is never used. | `192.168.1.5/24` with one subnet of 50 hosts: the /26 gets network address 192.168.1.5, which is not a multiple of 64. | Allocate from the network address of the parent block, so every subnet is aligned to its size. | not executed | Findings.UnmaskedBaseMisaligns | Calculator.CorrectedTableFits (with Calculator.SubmitCorrectedTable, Findings.UnmaskedBaseCorrected) |
