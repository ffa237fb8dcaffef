/** Types and operations that several components share. */
module Common {

  datatype Option<+T> = None | Some(value: T)

  /** A value, or the status the source returns in its place. */
  datatype Result<+T, +E> = Ok(value: T) | Err(error: E)

  /** The kinds of connection (library/include/dn_device.h). */
  datatype Connection = Tcp | Udp | Com

  const WCHAR := 4       // bytes of a wchar_t
  const TEXT_MAX := 16383  // from that many characters on the size below is too small

  /** The bytes SysAllocStringLen asks for: room for the characters and a NUL, but the count is passed and
      the size is computed in 16 bits (library/src/dn_common.c). */
  function AllocBytes(chars: nat): (n: nat)
    ensures n < 0x1_0000
    ensures n >= WCHAR * (chars + 1) <==> chars < TEXT_MAX
  {
    WCHAR * (chars % 0x1_0000 + 1) % 0x1_0000
  }

  /** `s` without its element number `i`. */
  function Without<T>(s: seq<T>, i: nat): (r: seq<T>)
    requires i < |s|
    ensures |r| == |s| - 1
    ensures forall k :: 0 <= k < |r| ==> r[k] == s[if k < i then k else k + 1]
  {
    s[..i] + s[i + 1..]
  }
}
