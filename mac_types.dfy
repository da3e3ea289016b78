/** Byte-level vocabulary shared by the MAC-address routines of the ESP32
    system API: six-byte addresses, the esp_err_t codes they return, and the
    8-bit arithmetic the routines do on the last byte. */
module MacTypes {

  /** A six-byte hardware (MAC) address; each byte is a C `uint8_t`. */
  type Mac = s: seq<bv8> | |s| == 6 witness [0, 0, 0, 0, 0, 0]

  /** The all-zero address, which stands for "no override set". */
  const NullMac: Mac := [0, 0, 0, 0, 0, 0]

  /** The esp_err_t values these routines return. */
  datatype EspErr = EspOk | ErrInvalidArg | ErrInvalidMac

  datatype Option<T> = None | Some(value: T)

  /** How a call ends: it returns an error code, or it calls abort() and the
      system halts. */
  datatype Outcome = Returned(err: EspErr) | Aborted

  /** True when every byte is zero (memcmp against a zero buffer gives 0). */
  predicate IsZero(m: Mac)
  {
    m == NullMac
  }

  /** `m[5] += n` on a uint8_t: the last byte grows by n modulo 256 (bv8
      addition wraps), with no carry into byte 4; the result differs from m
      exactly when n is not zero. */
  function AddToLast(m: Mac, n: bv8): (r: Mac)
    ensures r[..5] == m[..5]
    ensures r[5] - m[5] == n
    ensures r != m <==> n != 0
  {
    m[5 := m[5] + n]
  }

  /** Incrementing a last byte of 0xFF gives 0x00 and leaves bytes 0-4 alone;
      below 0xFF the byte simply grows by one. */
  lemma LastByteIncrement(m: Mac)
    ensures AddToLast(m, 1)[5] as int == if m[5] == 0xFF then 0 else m[5] as int + 1
    ensures AddToLast(m, 1)[..5] == m[..5]
  {
  }

  /** memcpy(dst, src, 6) between two distinct six-byte buffers. */
  method Memcpy(dst: array<bv8>, src: array<bv8>)
    requires dst.Length == 6 && src.Length == 6 && dst != src
    modifies dst
    ensures dst[..] == src[..]
  {
    forall i | 0 <= i < 6 {
      dst[i] := src[i];
    }
  }

  /** `buf[5] += k` on a six-byte buffer of uint8_t. */
  method IncLast(buf: array<bv8>, k: bv8)
    requires buf.Length == 6
    modifies buf
    ensures buf[..] == AddToLast(old(buf[..]), k)
  {
    buf[5] := buf[5] + k;
  }
}
