/** The UCI packet header (section "Control Packets" of the FiRA UCI specification, as restated by the
    code in uwb/extns/inc/uci_defs.h) and the constants the HAL uses. */
module Uci {
  import opened Bytes

  const HEADER_SIZE := 4
  const MAX_DATA_LEN := 4200

  const MT_DATA := 0
  const MT_CMD := 1
  const MT_RSP := 2

  /** MT is the top three bits of byte 0, PBF bit 4, GID the low four; OID the low six of byte 1. */
  function MessageType(octet0: byte): nat { octet0 / 0x20 }
  predicate Chained(octet0: byte) { octet0 / 0x10 % 2 == 1 }
  function Gid(octet0: byte): nat { octet0 % 0x10 }
  function Oid(octet1: byte): nat { octet1 % 0x40 }

  predicate IsMessage(s: seq<byte>, mt: nat, gid: nat, oid: nat) {
    |s| >= 2 && MessageType(s[0]) == mt && Gid(s[0]) == gid && Oid(s[1]) == oid
  }

  predicate IsSetAppConfig(s: seq<byte>) { IsMessage(s, MT_CMD, 1, 3) }
  predicate IsSetCountryCode(s: seq<byte>) { IsMessage(s, MT_CMD, 0x0C, 1) }
  predicate IsSetCalibration(s: seq<byte>) { IsMessage(s, MT_CMD, 0x0F, 0x21) }
  predicate IsCapsResponse(s: seq<byte>) { IsMessage(s, MT_RSP, 0, 3) }

  /** The same by the bytes: the continuation bit and the two high bits of the second byte do not matter. */
  lemma KindsByBytes(s: seq<byte>)
    requires |s| >= 2
    ensures IsSetAppConfig(s) <==> (s[0] == 0x21 || s[0] == 0x31) && (s[1] == 0x03 || s[1] == 0x43 || s[1] == 0x83 || s[1] == 0xC3)
    ensures IsSetCountryCode(s) <==> (s[0] == 0x2C || s[0] == 0x3C) && (s[1] == 0x01 || s[1] == 0x41 || s[1] == 0x81 || s[1] == 0xC1)
    ensures IsSetCalibration(s) <==> (s[0] == 0x2F || s[0] == 0x3F) && (s[1] == 0x21 || s[1] == 0x61 || s[1] == 0xA1 || s[1] == 0xE1)
    ensures IsCapsResponse(s) <==> (s[0] == 0x40 || s[0] == 0x50) && (s[1] == 0x03 || s[1] == 0x43 || s[1] == 0x83 || s[1] == 0xC3)
  {
  }

  /** Session parameters that carry a channel number, and the two channels regulation may block. */
  const TAG_CHANNEL_NUMBER := 0x04
  const CHANNEL_5 := 5
  const CHANNEL_9 := 9

  /** Capability tags holding channel bit masks. */
  const TAG_UWB_CHANNELS := 0x0E
  const TAG_CCC_UWB_CHANNELS := 0xA3
}
