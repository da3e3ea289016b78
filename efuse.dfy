/** The factory (default) MAC address of an ESP32, read from two words of
    eFuse block 0 and checked against the CRC-8 stored beside it
    (esp_efuse_mac_get_default). The register reads become the parameter
    `w` and the ROM routine esp_crc8 becomes the parameter `crc8`. */
module Efuse {
  import opened MacTypes

  /** The two 32-bit words read from EFUSE_BLK0_RDATA1_REG (`low`) and
      EFUSE_BLK0_RDATA2_REG (`high`). */
  datatype EfuseWords = EfuseWords(low: bv32, high: bv32)

  /** What block 0 holds: the six address bytes and the CRC-8 programmed
      with them. */
  datatype FactoryMac = FactoryMac(mac: Mac, storedCrc: bv8)

  /** Bits 15..0 of the high word that mark the vendor's own addresses. */
  const VendorTag: bv32 := 0x18fe
  /** The closed range of low words reserved for the vendor's internal use. */
  const ReservedLow: bv32 := 0x346a85c7
  const ReservedHigh: bv32 := 0x346a85f8

  predicate InReservedRange(low: bv32)
  {
    ReservedLow <= low <= ReservedHigh
  }

  /** Assignment of a uint32_t to a uint8_t: the low eight bits. */
  function LowByte(x: bv32): bv8
  {
    (x & 0xFF) as bv8
  }

  /** The bit layout of block 0: byte 0 and byte 1 of the address are bits
      15..8 and 7..0 of the high word, bytes 2..5 are the low word in
      big-endian order, and the stored CRC is bits 23..16 of the high word. */
  function Unpack(w: EfuseWords): FactoryMac
  {
    FactoryMac(
      [ LowByte(w.high >> 8), LowByte(w.high),
        LowByte(w.low >> 24), LowByte(w.low >> 16), LowByte(w.low >> 8), LowByte(w.low) ],
      StoredCrc(w))
  }

  function StoredCrc(w: EfuseWords): bv8
  {
    LowByte(w.high >> 16)
  }

  /** The layout seen from the programming side: the words that hold the
      address and CRC of `f`, with `spare` in bits 31..24 of the high word. */
  function Pack(f: FactoryMac, spare: bv8): EfuseWords
  {
    EfuseWords(
      (f.mac[2] as bv32 << 24) | (f.mac[3] as bv32 << 16)
        | (f.mac[4] as bv32 << 8) | f.mac[5] as bv32,
      (spare as bv32 << 24) | (f.storedCrc as bv32 << 16)
        | (f.mac[0] as bv32 << 8) | f.mac[1] as bv32)
  }

  /** The low word of a programmed block reads back as address bytes 2..5. */
  lemma PackedLowWord(f: FactoryMac, spare: bv8)
    ensures var low := Pack(f, spare).low;
      LowByte(low >> 24) == f.mac[2] && LowByte(low >> 16) == f.mac[3]
      && LowByte(low >> 8) == f.mac[4] && LowByte(low) == f.mac[5]
  {
  }

  /** The high word of a programmed block reads back as address bytes 0..1
      and the CRC. */
  lemma PackedHighWord(f: FactoryMac, spare: bv8)
    ensures var high := Pack(f, spare).high;
      LowByte(high >> 8) == f.mac[0] && LowByte(high) == f.mac[1]
      && LowByte(high >> 16) == f.storedCrc
  {
  }

  /** Reading back what was programmed gives the same address and CRC. */
  lemma UnpackPack(f: FactoryMac, spare: bv8)
    ensures Unpack(Pack(f, spare)) == f
  {
    PackedLowWord(f, spare);
    PackedHighWord(f, spare);
    assert Unpack(Pack(f, spare)).mac == f.mac;
  }

  /** The layout uses every bit of both words except bits 31..24 of the high
      word: unpacking loses nothing else. */
  lemma PackUnpack(w: EfuseWords)
    ensures Pack(Unpack(w), LowByte(w.high >> 24)) == w
  {
  }

  /** The decision taken after the CRC comparison. A mismatch aborts unless
      bits 15..0 of the high word are the vendor tag; with the tag, the
      reserved-range test has no else branch, so an address outside the
      range falls through to ESP_OK as well. */
  function CrcCheck(w: EfuseWords, calcCrc: bv8): (o: Outcome)
    ensures o == Aborted <==> StoredCrc(w) != calcCrc && w.high & 0xFFFF != VendorTag
    ensures o != Aborted ==> o == Returned(EspOk)
  {
    if StoredCrc(w) != calcCrc then
      if w.high & 0xFFFF == VendorTag then
        if InReservedRange(w.low) then Returned(EspOk)
        else Returned(EspOk)
      else Aborted
    else Returned(EspOk)
  }

  /** With the vendor tag, a CRC mismatch is accepted both inside the
      reserved range and just below it. */
  lemma TaggedMismatchIgnoresRange(w: EfuseWords, calcCrc: bv8)
    requires w.high & 0xFFFF == VendorTag && StoredCrc(w) != calcCrc
    ensures CrcCheck(w, calcCrc) == Returned(EspOk)
    ensures CrcCheck(w.(low := ReservedLow - 1), calcCrc) == CrcCheck(w.(low := ReservedLow), calcCrc)
  {
  }

  /** The first half of esp_efuse_mac_get_default: the six byte stores that
      copy the address out of the two block-0 words into `mac`. */
  method StoreFactoryMac(mac: array<bv8>, w: EfuseWords)
    requires mac.Length == 6
    modifies mac
    ensures mac[..] == Unpack(w).mac
  {
    mac[0] := LowByte(w.high >> 8);
    mac[1] := LowByte(w.high);
    mac[2] := LowByte(w.low >> 24);
    mac[3] := LowByte(w.low >> 16);
    mac[4] := LowByte(w.low >> 8);
    mac[5] := LowByte(w.low);
  }

  /** esp_efuse_mac_get_default: fills `mac` with the factory address, then
      compares the stored CRC with esp_crc8 of the six bytes it wrote. The
      buffer is filled before the check, so it holds the address whatever
      the outcome. */
  method EfuseMacGetDefault(mac: array<bv8>, w: EfuseWords, crc8: seq<bv8> -> bv8)
    returns (o: Outcome)
    requires mac.Length == 6
    modifies mac
    ensures mac[..] == Unpack(w).mac
    ensures o == CrcCheck(w, crc8(mac[..]))
  {
    StoreFactoryMac(mac, w);
    var calcCrc := crc8(mac[..]);
    o := CrcCheck(w, calcCrc);
  }
}
