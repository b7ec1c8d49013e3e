/** Types shared by the security utilities of the LIM (link-layer management) module. */
module LimTypes {

  /** An octet, as the driver's tANI_U8. */
  type byte = bv8

  /** A 6-octet link-layer address (tSirMacAddr). */
  type MacAddr = s: seq<byte> | |s| == 6 witness [0, 0, 0, 0, 0, 0]

  /** Optional value; `None` stands for NULL or a failed lookup. */
  datatype Option<T> = None | Some(value: T)

  /** The roles a LIM instance or a session can take (the eLIM_*_ROLE values used here). */
  datatype SystemRole = ApRole | StaRole | StaInIbssRole | OtherRole
}
