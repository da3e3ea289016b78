# ESP32 MAC-address identity, modelled in Dafny

This project models how the ESP32 system API of RIOT's ESP32 port gives a
device its hardware (MAC) addresses. The code is in
`cpu/esp32/vendor/esp-idf/esp_funcs.c`, lines 232–379. It covers:

- **The factory address** (`esp_efuse_mac_get_default`).
  - It decodes six address bytes and a stored CRC-8 from two 32-bit words of eFuse block 0.
  - It checks the CRC-8 against `esp_crc8` of the bytes.
  - On a mismatch it halts the system unless the high word carries the vendor tag `0x18fe`.
- **Deriving a locally administered address** (`esp_derive_mac`).
  - A loop of at most 64 attempts sets the IEEE 802 U/L bit (`0x02` of byte 0).
  - It XORs `idx << 2` into byte 0 until the result differs from the universal address.
- **The base-address override** (`base_mac_addr`, `esp_base_mac_addr_get`).
  - This is a process-wide six-byte buffer. All zero means "not set".
- **Per-interface addresses** (`esp_read_mac`).
  - The source address is the override, or else the factory address.
  - Each role (Wi-Fi station, Wi-Fi soft-AP, Bluetooth, Ethernet) then receives its own address.
  - The rule depends on the build-time policy `UNIVERSAL_MAC_ADDR_NUM`: four universal addresses or two.

The project has four modules:

- `MacTypes` (`mac_types.dfy`):
  - six-byte addresses as `seq<bv8>`, so uint8_t arithmetic wraps natively;
  - the error codes, and an `Outcome` that separates a returned code from `abort()`;
  - the buffer idioms `memcpy(.., 6)` and `mac[5] += n`.
- `Efuse` (`efuse.dfy`):
  - the eFuse word layout, as a pair of pure functions `Unpack`/`Pack`;
  - the CRC decision `CrcCheck`;
  - the method `EfuseMacGetDefault`, which fills a caller's array.
- `Derive` (`derive.dfy`):
  - the loop of `esp_derive_mac` as a method over arrays;
  - its specification function `DerivedMac`, with lemmas about it.
- `SystemApi` (`system_api.dfy`):
  - the class `IdentityStore`, which holds `base_mac_addr` as an array field and the policy as a constant;
  - `BaseMacAddrGet` and `ReadMac`;
  - the specification functions `ResolveSource` and `InterfaceMac`, with lemmas about the role addresses.

Three externals become parameters:

- the register reads `REG_READ(EFUSE_BLK0_RDATA1_REG / RDATA2_REG)` become the value `EfuseWords(low, high)`;
- the ROM routine `esp_crc8` becomes an uninterpreted function parameter `crc8`;
- `abort()` becomes the outcome `Aborted`.

The comment beside the CRC check (lines 260–261) speaks of a small reserved
range of addresses, `[0x346a85c7, 0x346a85f8]` in the low word, that is
accepted despite a bad CRC. The code accepts more: the range test has no
`else` branch, so a tagged address outside the range also falls through to
`ESP_OK`. The model follows the code, and `CrcCheck` and
`TaggedMismatchIgnoresRange` state that behaviour.

## Model

| member | source | states |
|---|---|---|
| MacTypes.AddToLast | cpu/esp32/vendor/esp-idf/esp_funcs.c:348 | `mac[5] += n` leaves bytes 0..4 unchanged. Byte 5 grows by n modulo 256. The result differs from the input exactly when n is not zero. |
| MacTypes.LastByteIncrement | cpu/esp32/vendor/esp-idf/esp_funcs.c:360 | Adding one to a last byte of 0xFF gives 0x00 with no carry into byte 4. Below 0xFF the byte grows by one. |
| MacTypes.Memcpy | cpu/esp32/vendor/esp-idf/esp_funcs.c:311 | After `memcpy(dst, src, 6)`, dst holds src's six bytes. |
| MacTypes.IncLast | cpu/esp32/vendor/esp-idf/esp_funcs.c:366 | The buffer afterwards is its old contents with n added to byte 5 modulo 256. |
| Efuse.PackedLowWord | cpu/esp32/vendor/esp-idf/esp_funcs.c:250-253 | The low word reads back as address bytes 2..5, most significant byte first. |
| Efuse.PackedHighWord | cpu/esp32/vendor/esp-idf/esp_funcs.c:248-255 | Bits 15..8 and 7..0 of the high word read back as bytes 0 and 1. Bits 23..16 read back as the stored CRC. |
| Efuse.UnpackPack | cpu/esp32/vendor/esp-idf/esp_funcs.c:248-255 | Decoding the words that hold an address and CRC gives back that address and CRC. |
| Efuse.PackUnpack | cpu/esp32/vendor/esp-idf/esp_funcs.c:248-255 | Decoding loses nothing but bits 31..24 of the high word: re-encoding the decoded fields rebuilds both words. |
| Efuse.CrcCheck | cpu/esp32/vendor/esp-idf/esp_funcs.c:257-271 | The check aborts if and only if the stored CRC differs from the computed one and bits 15..0 of the high word are not 0x18fe. In every other case it returns ESP_OK. |
| Efuse.TaggedMismatchIgnoresRange | cpu/esp32/vendor/esp-idf/esp_funcs.c:262-265 | With the vendor tag, a CRC mismatch returns ESP_OK. It gives the same result just below the reserved range as at its bottom. |
| Efuse.StoreFactoryMac | cpu/esp32/vendor/esp-idf/esp_funcs.c:248-253 | The six byte stores leave the decoded factory address in the buffer. |
| Efuse.EfuseMacGetDefault | cpu/esp32/vendor/esp-idf/esp_funcs.c:238-272 | The buffer holds the decoded factory address whatever the outcome. The outcome is the CRC decision on esp_crc8 of those bytes. |
| Derive.BreakIndex | cpu/esp32/vendor/esp-idf/esp_funcs.c:287-294 | The attempt at which the loop stops is in range. All earlier attempts reproduce the universal byte 0. That attempt differs from it, unless it is the last. |
| Derive.BreakIndexAtMostOne | cpu/esp32/vendor/esp-idf/esp_funcs.c:287-294 | The loop stops at attempt 0 when the U/L bit is clear and at attempt 1 when it is set. It never exhausts its 64 attempts. |
| Derive.DerivedMacIsFirstDifferingAttempt | cpu/esp32/vendor/esp-idf/esp_funcs.c:287-294 | The derived address is the universal one with byte 0 replaced by the first differing candidate. |
| Derive.DerivedMacProperties | cpu/esp32/vendor/esp-idf/esp_funcs.c:286-294 | Derivation keeps bytes 1..5 and the multicast bit. It sets the U/L bit and always gives an address different from its input. Byte 0 becomes u0 with bit 0x02 set when the U/L bit is clear and u0 with bit 0x04 flipped when it is set. |
| Derive.DeriveMac | cpu/esp32/vendor/esp-idf/esp_funcs.c:277-297 | A null pointer gives ESP_ERR_INVALID_ARG and nothing is written. Otherwise the result is ESP_OK and the local buffer holds the derived address. The universal buffer is never changed. |
| SystemApi.FourUniversalOnlyLastByteChanges | cpu/esp32/vendor/esp-idf/esp_funcs.c:342-367 | With four universal addresses, every role keeps bytes 0..4 of the source. Station, soft-AP, Bluetooth and Ethernet add 0, 1, 2 and 3 to byte 5, modulo 256. |
| SystemApi.TwoUniversalShape | cpu/esp32/vendor/esp-idf/esp_funcs.c:342-373 | With two universal addresses, the station gets the source and Bluetooth gets source + 1 in byte 5. Soft-AP and Ethernet get locally administered addresses: the soft-AP keeps bytes 1..5 of the source, and Ethernet has Bluetooth's byte 5. |
| SystemApi.RolesGetDistinctAddresses | cpu/esp32/vendor/esp-idf/esp_funcs.c:341-376 | Under either policy, any two different roles receive different addresses. |
| SystemApi.IdentityStore.constructor | cpu/esp32/vendor/esp-idf/esp_funcs.c:233 | The store's override holds the given six bytes and its policy is the given one. |
| SystemApi.IdentityStore.BaseMacAddrGet | cpu/esp32/vendor/esp-idf/esp_funcs.c:302-314 | An all-zero override gives ESP_ERR_INVALID_MAC and leaves the buffer untouched. Otherwise the buffer receives the override and the result is ESP_OK. The override never changes. |
| SystemApi.IdentityStore.FillRoleMac | cpu/esp32/vendor/esp-idf/esp_funcs.c:341-376 | The switch leaves in `mac` the address that the policy assigns to the role, computed from the source address. |
| SystemApi.IdentityStore.ReadMac | cpu/esp32/vendor/esp-idf/esp_funcs.c:319-379 | A null buffer or an out-of-range type gives ESP_ERR_INVALID_ARG and writes nothing. Otherwise the source is the non-zero override, else the factory address. An unset override with a failing CRC check aborts and writes nothing; every other case gives ESP_OK and the role's address. The override never changes. |
| SystemApi.ReadMacIsStable | cpu/esp32/vendor/esp-idf/esp_funcs.c:319-379 | Two queries for the same type end the same way. When they succeed, they give identical addresses. |

## Left out

- `esp_restart_noos`, `esp_panic_wdt_stop`, `esp_reent_init` and `_esp_error_check_failed`: hardware register sequences, newlib set-up and error printing, with nothing computed.
- Logging and timestamps, and the `spi_ram_*` bring-up: formatting, clocks and external-RAM set-up.
- The `os_*` / `esp_random` pass-throughs, the `sc_ack_*` stubs and the `ethbroadcast` constant: they compute nothing.
- `esp_crc8`: a ROM routine that is not part of this model. It is a function parameter, so every property holds for any CRC-8 routine.
- `REG_READ`: the two eFuse words are an input value.
- Logging calls (`ESP_LOGE/I/W`): dropped. `abort()` is the outcome `Aborted`, after which nothing is written.
- The numeric values of `esp_mac_type_t`: they come from a header that is not part of this model. `ReadMac` takes the type as an `int` and assumes STA = 0, SOFTAP = 1, BT = 2 and ETH = 3, the order the range check presumes. The switch's `default` branch is unreachable after the range check, so it is not modelled.
- `UNIVERSAL_MAC_ADDR_NUM`: the static assertion admits only two values, modelled as a two-valued enumeration. The `else if` on the second value is therefore a plain `else`.
- SystemApi.IdentityStore.ReadMac: the return codes of `esp_efuse_mac_get_default` and `esp_derive_mac` are ignored, as in the code. Only an abort from the former changes the outcome.
- SystemApi.IdentityStore.BaseMacAddrGet: requires the caller's buffer to be distinct from `base_mac_addr`, a static buffer that callers cannot name.
- Derive.DeriveMac: requires the two buffers to be distinct, since memcpy's arguments must not overlap. `esp_read_mac` always passes two different buffers.
- Nothing in this component writes `base_mac_addr`. Its contents are chosen when the store is constructed.
