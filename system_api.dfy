/** The MAC-address queries of the ESP32 system API: the process-wide base
    MAC override (`base_mac_addr`), esp_base_mac_addr_get, and esp_read_mac,
    which gives each network interface role its own address. */
module SystemApi {
  import opened MacTypes
  import opened Efuse
  import opened Derive

  /** UNIVERSAL_MAC_ADDR_NUM: how many universally administered addresses
      the device owns. A static assertion in the source admits these two. */
  datatype UniversalMacAddrNum = FourUniversal | TwoUniversal

  /** The interface roles of esp_mac_type_t, in their declared order. */
  datatype MacType = WifiSta | WifiSoftAp | Bt | Eth

  /** The numeric values of esp_mac_type_t that esp_read_mac accepts: the
      range from ESP_MAC_WIFI_STA to ESP_MAC_ETH. */
  const MacWifiStaCode: int := 0
  const MacEthCode: int := 3

  predicate IsMacTypeCode(t: int)
  {
    MacWifiStaCode <= t <= MacEthCode
  }

  function RoleOf(t: int): MacType
    requires IsMacTypeCode(t)
  {
    if t == 0 then WifiSta else if t == 1 then WifiSoftAp else if t == 2 then Bt else Eth
  }

  /** The address esp_read_mac starts from: a non-zero override wins;
      otherwise the factory address, or None when its CRC check aborts. */
  function ResolveSource(base: Mac, w: EfuseWords, crc8: seq<bv8> -> bv8): Option<Mac>
  {
    if !IsZero(base) then Some(base)
    else if CrcCheck(w, crc8(Unpack(w).mac)) == Aborted then None
    else Some(Unpack(w).mac)
  }

  /** The address that role `role` receives from the source address `src`.
      With four universal addresses, roles take src + 0, 1, 2, 3 in the last
      byte. With two, the station and Bluetooth roles take src + 0 and + 1,
      and the access-point and Ethernet roles take the locally administered
      addresses derived from those two. */
  function InterfaceMac(n: UniversalMacAddrNum, role: MacType, src: Mac): Mac
  {
    match role
    case WifiSta => src
    case WifiSoftAp => if n == FourUniversal then AddToLast(src, 1) else DerivedMac(src)
    case Bt => if n == FourUniversal then AddToLast(src, 2) else AddToLast(src, 1)
    case Eth => if n == FourUniversal then AddToLast(src, 3) else DerivedMac(AddToLast(src, 1))
  }

  /** The offset a role adds to the last byte when the device owns four
      universal addresses. */
  function UniversalOffset(role: MacType): bv8
  {
    match role
    case WifiSta => 0
    case WifiSoftAp => 1
    case Bt => 2
    case Eth => 3
  }

  /** With four universal addresses every role keeps bytes 0..4 of the
      source and adds its offset to byte 5, modulo 256. */
  lemma FourUniversalOnlyLastByteChanges(role: MacType, src: Mac)
    ensures InterfaceMac(FourUniversal, role, src)[..5] == src[..5]
    ensures InterfaceMac(FourUniversal, role, src)[5] - src[5] == UniversalOffset(role)
  {
  }

  /** With two universal addresses the station and Bluetooth roles keep the
      U/L bit of the source, while the access-point and Ethernet roles are
      locally administered, keep bytes 1..4 of the source, and take byte 5
      from the station and Bluetooth addresses respectively. */
  lemma TwoUniversalShape(src: Mac)
    ensures InterfaceMac(TwoUniversal, WifiSta, src) == src
    ensures InterfaceMac(TwoUniversal, Bt, src) == AddToLast(src, 1)
    ensures InterfaceMac(TwoUniversal, WifiSoftAp, src)[0] & 0x02 == 0x02
    ensures InterfaceMac(TwoUniversal, Eth, src)[0] & 0x02 == 0x02
    ensures InterfaceMac(TwoUniversal, WifiSoftAp, src)[1..] == src[1..]
    ensures InterfaceMac(TwoUniversal, Eth, src)[1..5] == src[1..5]
    ensures InterfaceMac(TwoUniversal, Eth, src)[5] == InterfaceMac(TwoUniversal, Bt, src)[5]
  {
    DerivedMacProperties(src);
    DerivedMacProperties(AddToLast(src, 1));
  }

  /** Under either policy the four roles receive four different addresses. */
  lemma RolesGetDistinctAddresses(n: UniversalMacAddrNum, a: MacType, b: MacType, src: Mac)
    requires a != b
    ensures InterfaceMac(n, a, src) != InterfaceMac(n, b, src)
  {
    var one := AddToLast(src, 1);
    DerivedMacProperties(src);
    DerivedMacProperties(one);
    var ra, rb := InterfaceMac(n, a, src), InterfaceMac(n, b, src);
    if n == FourUniversal {
      FourUniversalOnlyLastByteChanges(a, src);
      FourUniversalOnlyLastByteChanges(b, src);
      assert ra[5] - src[5] != rb[5] - src[5];
    } else {
      assert src[5] != one[5];
      assert ra[5] != rb[5] || ra[0] != rb[0] || ra == DerivedMac(one) || rb == DerivedMac(one);
    }
  }

  /** The device's identity store: the base MAC override and the build-time
      address policy. */
  class IdentityStore {
    /** base_mac_addr: the runtime override of the base address, all zero
        when unset. Nothing in this component writes it. */
    var baseMacAddr: array<bv8>
    /** UNIVERSAL_MAC_ADDR_NUM. */
    const universalMacAddrNum: UniversalMacAddrNum

    ghost predicate Valid()
      reads this
    {
      baseMacAddr.Length == 6
    }

    /** The override as an address value. */
    function BaseMac(): Mac
      requires Valid()
      reads this, baseMacAddr
    {
      baseMacAddr[..]
    }

    /** A store whose override holds `base` (all zero for "unset") and whose
        policy is `n`. */
    constructor (base: Mac, n: UniversalMacAddrNum)
      ensures Valid() && fresh(baseMacAddr)
      ensures BaseMac() == base && universalMacAddrNum == n
    {
      var a := new bv8[6];
      forall i | 0 <= i < 6 {
        a[i] := base[i];
      }
      baseMacAddr := a;
      universalMacAddrNum := n;
    }

    /** esp_base_mac_addr_get: an all-zero override gives
        ESP_ERR_INVALID_MAC and leaves `mac` alone; otherwise `mac` receives
        the override and the result is ESP_OK. The override itself never
        changes. */
    method BaseMacAddrGet(mac: array<bv8>) returns (err: EspErr)
      requires Valid() && mac.Length == 6 && mac != baseMacAddr
      modifies mac
      ensures err == (if IsZero(BaseMac()) then ErrInvalidMac else EspOk)
      ensures mac[..] == (if IsZero(BaseMac()) then old(mac[..]) else BaseMac())
      ensures BaseMac() == old(BaseMac())
    {
      if baseMacAddr[..] == NullMac {
        return ErrInvalidMac;
      }
      Memcpy(mac, baseMacAddr);
      return EspOk;
    }

    /** The role switch of esp_read_mac: `mac` receives the address of
        `role` computed from the source address in `efuseMac`. The
        two-universal Ethernet case increments byte 5 of `efuseMac` itself
        before deriving from it. */
    method FillRoleMac(mac: array<bv8>, efuseMac: array<bv8>, role: MacType)
      requires mac.Length == 6 && efuseMac.Length == 6 && mac != efuseMac
      modifies mac, efuseMac
      ensures mac[..] == InterfaceMac(universalMacAddrNum, role, old(efuseMac[..]))
    {
      ghost var src: Mac := efuseMac[..];
      var n := universalMacAddrNum;
      match role {
        case WifiSta =>
          Memcpy(mac, efuseMac);
        case WifiSoftAp =>
          if n == FourUniversal {
            Memcpy(mac, efuseMac);
            IncLast(mac, 1);
          } else {
            var _ := DeriveMac(mac, efuseMac);
          }
        case Bt =>
          Memcpy(mac, efuseMac);
          if n == FourUniversal {
            IncLast(mac, 2);
          } else {
            IncLast(mac, 1);
          }
        case Eth =>
          if n == FourUniversal {
            Memcpy(mac, efuseMac);
            IncLast(mac, 3);
          } else {
            IncLast(efuseMac, 1);
            var _ := DeriveMac(mac, efuseMac);
          }
      }
    }

    /** esp_read_mac. A null buffer or a type outside ESP_MAC_WIFI_STA ..
        ESP_MAC_ETH gives ESP_ERR_INVALID_ARG and writes nothing. Otherwise
        the source address is resolved (the call aborts, writing nothing,
        when the override is unset and the factory CRC check aborts) and
        `mac` receives the role's address, with result ESP_OK. */
    method ReadMac(mac: array?<bv8>, t: int, w: EfuseWords, crc8: seq<bv8> -> bv8)
      returns (o: Outcome)
      requires Valid()
      requires mac != null ==> mac.Length == 6 && mac != baseMacAddr
      modifies mac
      ensures BaseMac() == old(BaseMac())
      ensures mac == null || !IsMacTypeCode(t) ==> o == Returned(ErrInvalidArg)
      ensures mac != null && !IsMacTypeCode(t) ==> mac[..] == old(mac[..])
      ensures mac != null && IsMacTypeCode(t) ==>
                match ResolveSource(BaseMac(), w, crc8)
                case None => o == Aborted && mac[..] == old(mac[..])
                case Some(src) =>
                  o == Returned(EspOk) && mac[..] == InterfaceMac(universalMacAddrNum, RoleOf(t), src)
    {
      if mac == null {
        return Returned(ErrInvalidArg);
      }
      if t < MacWifiStaCode || t > MacEthCode {
        return Returned(ErrInvalidArg);
      }

      var efuseMac := new bv8[6];
      var st := BaseMacAddrGet(efuseMac);
      if st != EspOk {
        var d := EfuseMacGetDefault(efuseMac, w, crc8);
        if d == Aborted {
          return Aborted;
        }
      }
      ghost var src: Mac := efuseMac[..];
      assert ResolveSource(BaseMac(), w, crc8) == Some(src);
      FillRoleMac(mac, efuseMac, RoleOf(t));
      return Returned(EspOk);
    }
  }

  /** Two queries for the same role end the same way and, when they
      succeed, give byte-identical addresses: the result depends only on the
      override, the policy, the eFuse words and the CRC routine, none of
      which a query changes. */
  method ReadMacIsStable(s: IdentityStore, a: array<bv8>, b: array<bv8>, t: int,
                         w: EfuseWords, crc8: seq<bv8> -> bv8)
    returns (oa: Outcome, ob: Outcome)
    requires s.Valid() && a.Length == 6 && b.Length == 6
    requires a != s.baseMacAddr && b != s.baseMacAddr && a != b
    modifies a, b
    ensures oa == ob
    ensures oa == Returned(EspOk) ==> a[..] == b[..]
  {
    oa := s.ReadMac(a, t, w, crc8);
    ob := s.ReadMac(b, t, w, crc8);
  }
}
