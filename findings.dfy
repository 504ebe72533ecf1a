/** Two requests on which the submit handler of script.js does something its
    own checks and output evidently do not intend, worked out to the
    resulting table, together with what the corrected handler of module
    Calculator does on the same requests. */
module Findings {
  import opened Wrappers
  import opened Text
  import opened AddressMath
  import opened Cidr
  import opened Requirements
  import opened Allocator
  import opened Calculator

  /** The text of a block as typed, with nothing to trim, accepted by the
      validator and parsed back into the given bytes and prefix. */
  lemma TypedBlock(s: string, o: seq<nat>, prefix: nat)
    requires AreBytes(o) && 8 <= prefix <= 32
    requires s == CidrText(DecimalTexts(o), DecimalString(prefix))
    requires !IsTrimmable(s[0]) && !IsTrimmable(s[|s| - 1])
    ensures Trim(s) == s && ValidateNetworkBlock(s)
    ensures ParseNetworkBlock(s).prefix == prefix && ParseNetworkBlock(s).octets == o
  {
    TrimUntrimmed(s);
    FormatBytesThenParse(o, prefix);
  }

  /** The block 10.0.0.0/24: base 10 * 2^24, 254 usable addresses. */
  lemma Block10()
    ensures Trim("10.0.0.0/24") == "10.0.0.0/24" && ValidateNetworkBlock("10.0.0.0/24")
    ensures ParseNetworkBlock("10.0.0.0/24") == NetworkBlock(24, [10, 0, 0, 0], 167772160)
  {
    Text10();
    TypedBlock("10.0.0.0/24", [10, 0, 0, 0], 24);
  }

  lemma Text10()
    ensures CidrText(DecimalTexts([10, 0, 0, 0]), DecimalString(24)) == "10.0.0.0/24"
  {
    assert DecimalTexts([10, 0, 0, 0]) == ["10", "0", "0", "0"] by {
      assert DecimalString(10) == "10";
      assert DecimalString(0) == "0";
    }
    assert DecimalString(24) == "24";
    assert Join(["10", "0", "0", "0"], '.') == "10.0.0.0";
  }

  /** The block 192.168.1.5/24 as typed: a host address, not the start of
      the block. The first byte has its top bit set, so the base as line 39
      computes it is negative. */
  lemma Block192()
    ensures Trim("192.168.1.5/24") == "192.168.1.5/24" && ValidateNetworkBlock("192.168.1.5/24")
    ensures ParseNetworkBlock("192.168.1.5/24") == NetworkBlock(24, [192, 168, 1, 5], -1062731515)
  {
    Text192();
    TypedBlock("192.168.1.5/24", [192, 168, 1, 5], 24);
  }

  lemma Text192()
    ensures CidrText(DecimalTexts([192, 168, 1, 5]), DecimalString(24)) == "192.168.1.5/24"
  {
    assert DecimalTexts([192, 168, 1, 5]) == ["192", "168", "1", "5"] by {
      Render192();
    }
    assert DecimalString(24) == "24";
    Join192();
  }

  lemma Join192()
    ensures Join(["192", "168", "1", "5"], '.') == "192.168.1.5"
  {
  }

  lemma Render192()
    ensures DecimalString(192) == "192" && DecimalString(168) == "168"
    ensures DecimalString(1) == "1" && DecimalString(5) == "5"
  {
    assert DecimalString(19) == "19";
    assert DecimalString(16) == "16";
  }

  /** Two subnets of 127 hosts each, without growth. */
  function TwoHalves(): seq<Row> {
    [Row("a", Some(127), Some(0)), Row("b", Some(127), Some(0))]
  }

  function HalfEntry(name: string): HostEntry {
    HostEntry(name, 127, Some(0), 127, None)
  }

  /** Both rows are kept unchanged and are already in order. */
  lemma NormalizeTwoHalves()
    ensures Normalize(TwoHalves()) == [HalfEntry("a"), HalfEntry("b")]
    ensures SortByAdjusted(Normalize(TwoHalves())) == [HalfEntry("a"), HalfEntry("b")]
  {
    TrimUntrimmed("a");
    TrimUntrimmed("b");
    var rows := TwoHalves();
    assert NormalizeRows(rows) == [Some(HalfEntry("a")), Some(HalfEntry("b"))];
    var s := [HalfEntry("a"), HalfEntry("b")];
    assert Somes([Some(HalfEntry("a")), Some(HalfEntry("b"))]) == s;
    assert SortByAdjusted(s[1..]) == [HalfEntry("b")];
  }

  /** 127 hosts need 8 bits: a block of 256 addresses. */
  lemma Bits127()
    ensures RequiredBits(127) == 8 && BlockSize(127) == 256
  {
    assert Pow2(7) == 128 && Pow2(8) == 256;
    forall c | 0 <= c < 8
      ensures !BitsSuffice(127, c)
    {
      Pow2Monotone(c, 7);
    }
    RequiredBitsUnique(127, 8);
  }

  /** The request passes the capacity check: 127 + 127 = 254 = 2^8 - 2. */
  lemma PrepareTwoHalves()
    ensures PrepareRequest("10.0.0.0/24", TwoHalves()) ==
      Success(Request(NetworkBlock(24, [10, 0, 0, 0], 167772160), [HalfEntry("a"), HalfEntry("b")]))
  {
    Block10();
    NormalizeTwoHalves();
    assert Capacity(24) == 254 by {
      assert Pow2(8) == 256;
    }
  }

  /** The block 10.0.0.0/24 ends at 10.0.0.255: its network address is
      167772160 and its broadcast address, as line 44 computes it,
      167772415. */
  lemma Parent10()
    ensures NetworkAddress(167772160, 24) == 167772160
    ensures BroadcastAddress(167772160, 24) == 167772415
  {
    Network10();
    Broadcast10();
  }

  lemma Network10()
    ensures NetworkAddress(167772160, 24) == 167772160
  {
    NetworkAddressFacts(167772160, 24);
    Low10();
  }

  lemma Broadcast10()
    ensures BroadcastAddress(167772160, 24) == 167772415
  {
    Low10();
    BroadcastAddressValue(167772160, 24);
    assert Pow2(8) == 256;
  }

  lemma Low10()
    ensures LowBits(167772160, 8) == 0
  {
    assert Pow2(8) == 256;
    LowBitsShift(0, 167772160, 655360, 8, 256);
    LowBitsOfSmall(0, 8);
  }

  /** Finding 1, as written: the capacity check of script.js:85-88 compares
      the sum of the demands with 2^(32 - prefix) - 2, but every subnet takes
      a whole power-of-two block including its own network and broadcast
      addresses. Two subnets of 127 hosts in 10.0.0.0/24 pass the check
      (254 <= 254) and need two blocks of 256, so the second subnet is
      10.0.1.0/24, past the broadcast address 10.0.0.255 of the block. */
  lemma RawSumGateOverflow()
    ensures Submit("10.0.0.0/24", TwoHalves()).Success?
    ensures var table := Submit("10.0.0.0/24", TwoHalves()).value;
      && |table| == 2
      && table[0].network == 167772160 && table[0].broadcast == 167772415
      && table[1].network == 167772416 && table[1].broadcast == 167772671
      && table[1].prefix == 24
  {
    PrepareTwoHalves();
    Bits127();
    var entries := [HalfEntry("a"), HalfEntry("b")];
    AllocationBlock(entries[0], 167772160);
    AllocationBlock(entries[1], 167772416);
    assert AllocateAll(entries, 167772160) ==
      [AllocationAt(entries[0], 167772160), AllocationAt(entries[1], 167772416)] by {
      assert entries[1..] == [entries[1]];
      assert entries[1..][1..] == [];
    }
  }

  /** Finding 1, corrected: the same request is rejected because its blocks
      add up to 512 addresses and the parent block has 256. */
  lemma RawSumGateCorrected()
    ensures SubmitCorrected("10.0.0.0/24", TwoHalves()) == Failure(BlocksDoNotFit(512, 256))
  {
    PrepareTwoHalves();
    Bits127();
    var entries := [HalfEntry("a"), HalfEntry("b")];
    assert SumBlocks(entries) == 512 by {
      assert entries[1..] == [entries[1]];
      assert entries[1..][1..] == [];
    }
    assert Pow2(8) == 256;
  }

  /** One subnet of 50 hosts, without growth. */
  function OneSubnet(): seq<Row> {
    [Row("web", Some(50), Some(0))]
  }

  function WebEntry(): HostEntry {
    HostEntry("web", 50, Some(0), 50, None)
  }

  /** 50 hosts need 6 bits: a /26 block of 64 addresses. */
  lemma Bits50()
    ensures RequiredBits(50) == 6 && BlockSize(50) == 64
  {
    assert Pow2(5) == 32 && Pow2(6) == 64;
    forall c | 0 <= c < 6
      ensures !BitsSuffice(50, c)
    {
      Pow2Monotone(c, 5);
    }
    RequiredBitsUnique(50, 6);
  }

  lemma NormalizeOneSubnet()
    ensures Normalize(OneSubnet()) == [WebEntry()]
    ensures SortByAdjusted(Normalize(OneSubnet())) == [WebEntry()]
  {
    TrimUntrimmed("web");
    assert NormalizeRows(OneSubnet()) == [Some(WebEntry())];
    assert Somes([Some(WebEntry())]) == [WebEntry()];
  }

  lemma PrepareOneSubnet()
    ensures PrepareRequest("192.168.1.5/24", OneSubnet()) ==
      Success(Request(NetworkBlock(24, [192, 168, 1, 5], -1062731515), [WebEntry()]))
  {
    Block192();
    NormalizeOneSubnet();
    assert Capacity(24) == 254 by {
      assert Pow2(8) == 256;
    }
  }

  /** The base 192.168.1.5 is odd: its low bit is set. */
  lemma Low192()
    ensures LowBits(-1062731515, 6) == 5 && LowBits(3232235781, 8) == 5
  {
    assert Pow2(6) == 64 && Pow2(8) == 256;
    LowBitsShift(5, -1062731515, -16605180, 6, 64);
    LowBitsOfSmall(5, 6);
    LowBitsShift(5, 3232235781, 12625921, 8, 256);
    LowBitsOfSmall(5, 8);
  }

  /** The network address line 43 computes for 192.168.1.5/24 is
      192.168.1.0. */
  lemma Network192()
    ensures NetworkAddress(-1062731515, 24) == 3232235776
  {
    NetworkAddressFacts(-1062731515, 24);
    Low192();
  }

  /** Finding 2, as written: script.js:91 allocates from the base as typed,
      not from the network address line 43 computes. For 192.168.1.5/24 and
      one subnet of 50 hosts the table's only row is a /26 whose network
      address is 192.168.1.5 (the signed base -1062731515), which is not a
      multiple of the block size 64: not the network address of any /26. */
  lemma UnmaskedBaseMisaligns()
    ensures Submit("192.168.1.5/24", OneSubnet()).Success?
    ensures var table := Submit("192.168.1.5/24", OneSubnet()).value;
      && |table| == 1
      && table[0].prefix == 26 && table[0].blockSize == 64
      && table[0].network == -1062731515
      && ToUint32(table[0].network) == 3232235781
      && !Aligned(table[0].network, 32 - table[0].prefix)
  {
    PrepareOneSubnet();
    Bits50();
    Low192();
    AllocationBlock(WebEntry(), -1062731515);
  }

  /** Finding 2, corrected: the corrected handler places the same subnet at
      192.168.1.0, the network address of the block, a multiple of 64. */
  lemma UnmaskedBaseCorrected()
    ensures SubmitCorrected("192.168.1.5/24", OneSubnet()).Success?
    ensures var table := SubmitCorrected("192.168.1.5/24", OneSubnet()).value;
      && |table| == 1
      && table[0].prefix == 26
      && table[0].network == 3232235776
      && Aligned(table[0].network, 32 - table[0].prefix)
  {
    PrepareOneSubnet();
    Bits50();
    Low192();
    assert BlockStart(NetworkBlock(24, [192, 168, 1, 5], -1062731515)) == 3232235776;
    assert SumBlocks([WebEntry()]) == 64;
    assert Pow2(8) == 256;
    AllocationBlock(WebEntry(), 3232235776);
    assert Pow2(6) == 64;
    LowBitsShift(0, 3232235776, 50503684, 6, 64);
    LowBitsOfSmall(0, 6);
  }
}
