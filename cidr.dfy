/** The network block the user types, in CIDR notation: validateNetworkBlock
    (script.js:108-126) and the parse at the top of the submit handler
    (script.js:36-39). */
module Cidr {
  import opened Text
  import opened AddressMath

  /** One to `maxLen` decimal digits: the regex atoms `\d{1,3}` and `\d{1,2}`. */
  predicate DigitRun(s: string, maxLen: nat) {
    1 <= |s| <= maxLen && AllDigits(s)
  }

  /** The text `o0.o1.o2.o3/p`. */
  function CidrText(octets: seq<string>, prefix: string): string
    requires |octets| == 4
  {
    Join(octets, '.') + ['/'] + prefix
  }

  /** The language of `/^(\d{1,3}\.){3}\d{1,3}\/\d{1,2}$/`: four runs of one
      to three digits separated by dots, a slash, and one or two digits. */
  ghost predicate RegexAccepts(s: string) {
    exists octets: seq<string>, prefix: string {:trigger CidrText(octets, prefix)} ::
      && |octets| == 4
      && (forall i | 0 <= i < 4 :: DigitRun(octets[i], 3))
      && DigitRun(prefix, 2)
      && s == CidrText(octets, prefix)
  }

  /** The regex test as the rest of the validator reads the text: split at
      '/' into two pieces and the first piece at '.' into four. */
  predicate MatchesCidrPattern(s: string) {
    var halves := Split(s, '/');
    && |halves| == 2
    && DigitRun(halves[1], 2)
    && var octets := Split(halves[0], '.');
    && |octets| == 4
    && (forall i | 0 <= i < 4 :: DigitRun(octets[i], 3))
  }

  /** The split-based test accepts exactly the regex language. */
  lemma PatternIsRegex(s: string)
    ensures MatchesCidrPattern(s) <==> RegexAccepts(s)
  {
    if MatchesCidrPattern(s) {
      MatchedTextIsCidrText(s);
    }
    if RegexAccepts(s) {
      var octets: seq<string>, prefix: string :|
        && |octets| == 4
        && (forall i | 0 <= i < 4 :: DigitRun(octets[i], 3))
        && DigitRun(prefix, 2)
        && s == CidrText(octets, prefix);
      ParseCidrText(octets, prefix);
    }
  }

  /** A digit run contains neither separator. */
  lemma DigitsAvoidSeparators(s: string, maxLen: nat)
    requires DigitRun(s, maxLen)
    ensures '/' !in s && '.' !in s
  {
  }

  /** A matching text is the CIDR text of its own pieces. */
  lemma MatchedTextIsCidrText(s: string)
    requires MatchesCidrPattern(s)
    ensures s == CidrText(OctetTexts(s), PrefixText(s))
  {
    var halves := Split(s, '/');
    JoinSplit(s, '/');
    JoinSplit(halves[0], '.');
    assert Join(halves, '/') == halves[0] + ['/'] + halves[1];
  }

  /** Splitting a CIDR text recovers its pieces. */
  lemma ParseCidrText(octets: seq<string>, prefix: string)
    requires |octets| == 4
    requires forall i | 0 <= i < 4 :: DigitRun(octets[i], 3)
    requires DigitRun(prefix, 2)
    ensures MatchesCidrPattern(CidrText(octets, prefix))
    ensures OctetTexts(CidrText(octets, prefix)) == octets
    ensures PrefixText(CidrText(octets, prefix)) == prefix
  {
    forall i | 0 <= i < 4
      ensures '/' !in octets[i] && '.' !in octets[i]
    {
      DigitsAvoidSeparators(octets[i], 3);
    }
    DigitsAvoidSeparators(prefix, 2);
    var ip := Join(octets, '.');
    JoinAvoids(octets, '.', '/');
    assert Join([ip, prefix], '/') == ip + ['/'] + prefix;
    SplitJoin([ip, prefix], '/');
    SplitJoin(octets, '.');
  }

  /** The octet texts of a text that matches the pattern. */
  function OctetTexts(s: string): (texts: seq<string>)
    requires MatchesCidrPattern(s)
    ensures |texts| == 4 && forall i | 0 <= i < 4 :: DigitRun(texts[i], 3)
  {
    Split(Split(s, '/')[0], '.')
  }

  /** The prefix text of a text that matches the pattern. */
  function PrefixText(s: string): (text: string)
    requires MatchesCidrPattern(s)
    ensures DigitRun(text, 2)
  {
    Split(s, '/')[1]
  }

  /** `parseInt` of the prefix. */
  function PrefixValue(s: string): nat
    requires MatchesCidrPattern(s)
  {
    DecimalValue(PrefixText(s))
  }

  /** `ip.split(".").map(x => parseInt(x))`. */
  function OctetValues(s: string): (o: seq<int>)
    requires MatchesCidrPattern(s)
    ensures |o| == 4
  {
    OctetValuesOf(OctetTexts(s))
  }

  /** parseInt of each of four digit runs. */
  function OctetValuesOf(t: seq<string>): (o: seq<int>)
    requires |t| == 4 && forall i | 0 <= i < 4 :: AllDigits(t[i])
    ensures |o| == 4
  {
    [DecimalValue(t[0]), DecimalValue(t[1]), DecimalValue(t[2]), DecimalValue(t[3])]
  }

  /** validateNetworkBlock (script.js:108-126): the pattern, a prefix in
      8..32 and octets of at most 255. */
  predicate ValidateNetworkBlock(s: string) {
    && MatchesCidrPattern(s)
    && 8 <= PrefixValue(s) <= 32
    && AreBytes(OctetValues(s))
  }

  /** Pieces that make a block the validator accepts: digit runs of the
      right lengths, byte-sized octets and a prefix in 8..32. */
  predicate WellFormedPieces(octets: seq<string>, prefix: string) {
    && |octets| == 4
    && (forall i | 0 <= i < 4 :: DigitRun(octets[i], 3) && DecimalValue(octets[i]) <= 255)
    && DigitRun(prefix, 2) && 8 <= DecimalValue(prefix) <= 32
  }

  /** The validator accepts exactly the CIDR texts of well-formed pieces. */
  lemma ValidateIff(s: string)
    ensures ValidateNetworkBlock(s) <==>
      exists octets: seq<string>, prefix: string {:trigger CidrText(octets, prefix)} ::
        WellFormedPieces(octets, prefix) && s == CidrText(octets, prefix)
  {
    if ValidateNetworkBlock(s) {
      ValidatedHasWellFormedPieces(s);
    }
    if exists octets: seq<string>, prefix: string {:trigger CidrText(octets, prefix)} ::
        WellFormedPieces(octets, prefix) && s == CidrText(octets, prefix)
    {
      var octets: seq<string>, prefix: string :|
        WellFormedPieces(octets, prefix) && s == CidrText(octets, prefix);
      WellFormedPiecesValidate(octets, prefix);
    }
  }

  lemma ValidatedHasWellFormedPieces(s: string)
    requires ValidateNetworkBlock(s)
    ensures WellFormedPieces(OctetTexts(s), PrefixText(s))
    ensures s == CidrText(OctetTexts(s), PrefixText(s))
  {
    MatchedTextIsCidrText(s);
    var t := OctetTexts(s);
    var o := OctetValues(s);
    assert DecimalValue(t[0]) == o[0] && DecimalValue(t[1]) == o[1];
    assert DecimalValue(t[2]) == o[2] && DecimalValue(t[3]) == o[3];
  }

  lemma WellFormedPiecesValidate(octets: seq<string>, prefix: string)
    requires WellFormedPieces(octets, prefix)
    ensures ValidateNetworkBlock(CidrText(octets, prefix))
  {
    ParseCidrText(octets, prefix);
  }

  /** The prefix and base address the submit handler reads from a valid
      block (script.js:36-39). */
  datatype NetworkBlock = NetworkBlock(prefix: nat, octets: seq<int>, base: int)

  /** script.js:36-39: split at '/', parse the prefix and the octets, and
      compose the base with signed shifts. */
  function ParseNetworkBlock(s: string): (b: NetworkBlock)
    requires ValidateNetworkBlock(s)
    ensures 8 <= b.prefix <= 32 && AreBytes(b.octets)
    ensures b.octets == OctetValues(s) && b.prefix == PrefixValue(s)
    ensures ToUint32(b.base) == Combine(b.octets)
    ensures b.base == Combine(b.octets) - (if b.octets[0] >= 128 then TWO_32 else 0)
  {
    var o := OctetValues(s);
    SignedBaseIsAddress(o);
    NetworkBlock(PrefixValue(s), o, SignedBase(o))
  }

  /** The text of an address and a prefix, as a user would type it. */
  function FormatNetworkBlock(address: int, prefix: nat): string {
    IntToIp(address) + ['/'] + DecimalString(prefix)
  }

  /** The decimal texts of four bytes are runs of one to three digits that
      read back as the bytes. */
  lemma DecimalTextsOfBytes(o: seq<nat>)
    requires AreBytes(o)
    ensures forall i | 0 <= i < 4 :: DigitRun(DecimalTexts(o)[i], 3)
    ensures OctetValuesOf(DecimalTexts(o)) == o
  {
    var t := DecimalTexts(o);
    ByteText(o[0]);
    ByteText(o[1]);
    ByteText(o[2]);
    ByteText(o[3]);
    assert t == [DecimalString(o[0]), DecimalString(o[1]), DecimalString(o[2]), DecimalString(o[3])];
    assert o == [o[0], o[1], o[2], o[3]];
  }

  /** A byte is written with one to three digits. */
  lemma ByteText(n: nat)
    requires n <= 255
    ensures DigitRun(DecimalString(n), 3)
  {
    DecimalStringLength(n, 3);
  }

  /** Four bytes written in decimal with a prefix in 8..32 give a text the
      validator accepts, and the parse reads back the same numbers. */
  lemma FormatBytesThenParse(o: seq<nat>, prefix: nat)
    requires AreBytes(o) && 8 <= prefix <= 32
    ensures var s := CidrText(DecimalTexts(o), DecimalString(prefix));
      && ValidateNetworkBlock(s)
      && OctetValues(s) == o
      && PrefixValue(s) == prefix
  {
    var texts := DecimalTexts(o);
    var p := DecimalString(prefix);
    DecimalTextsOfBytes(o);
    DecimalStringLength(prefix, 2);
    ParseCidrText(texts, p);
  }

  /** Writing an address with intToIp and a prefix in 8..32 gives a text the
      validator accepts, and parsing it gives back the prefix, the printed
      bytes, and the address modulo 2^32. */
  lemma FormatThenParse(address: int, prefix: nat)
    requires 8 <= prefix <= 32
    ensures ValidateNetworkBlock(FormatNetworkBlock(address, prefix))
    ensures var b := ParseNetworkBlock(FormatNetworkBlock(address, prefix));
      && b.prefix == prefix
      && b.octets == Octets(address)
      && ToUint32(b.base) == ToUint32(address)
  {
    var o := Octets(address);
    OctetsAreBigEndianBytes(address);
    FormatBytesThenParse(o, prefix);
    assert FormatNetworkBlock(address, prefix) == CidrText(DecimalTexts(o), DecimalString(prefix));
  }
}
