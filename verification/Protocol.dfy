/** The device protocol tables of software/usb_ir/device-interface.c and the code
    translation of software/usb_ir/protocol-versions.c. */
module Protocol {
  import opened Bytes

  const CTL_START: Byte := 0x00
  const CTL_TODEV: Byte := 0xCD
  const CTL_FROMDEV: Byte := 0xDC
  const CODE_OFFSET := 3
  const MIN_CTL_LENGTH := 4
  const MAX_PACKET_SIZE := 8

  const NO_PAYLOAD := 0xFF
  const ANY_PAYLOAD := 0x00

  const EXCH_VERSIONS: Byte := 0xFE

  const DEV_ERROR: Byte := 0x00
  const GETVERSION: Byte := 0x01
  const WRITEBLOCK: Byte := 0x02
  const CHECKSUM: Byte := 0x03
  const INVALID_ARG: Byte := 0x04
  const GETCONFIG0: Byte := 0x07
  const SETCONFIG0: Byte := 0x08
  const GETCONFIG1: Byte := 0x09
  const SETCONFIG1: Byte := 0x0A
  const GETFEATURES: Byte := 0x10
  const GETBUFSIZE: Byte := 0x11
  const RECVON: Byte := 0x12
  const RAWRECVON: Byte := 0x13
  const RECVOFF: Byte := 0x14
  const SEND: Byte := 0x15
  const SETCHANNELS: Byte := 0x17
  const SETPINCONFIG: Byte := 0x1B
  const GETPINS: Byte := 0x1C
  const SETPINS: Byte := 0x1D
  const PINBURST: Byte := 0x1E
  const EXECUTE: Byte := 0x1F
  const GETID: Byte := 0x20
  const SETID: Byte := 0x21
  const REPEATER: Byte := 0x25
  const RESEND: Byte := 0x27
  const RECV: Byte := 0x30
  const OVERRECV: Byte := 0x31
  const OVERSEND: Byte := 0x32
  const LISTDEVS: Byte := 0x80
  const DEVADDR: Byte := 0x81
  const GETCHANNELS: Byte := 0x16
  const GETCARRIER: Byte := 0x18
  const SETCARRIER: Byte := 0x19
  const GETPINCONFIG: Byte := 0x1A
  const IDSOFF: Byte := 0x22
  const IDSON: Byte := 0x23
  const IDSTATE: Byte := 0x24
  const GETLOCATION: Byte := 0x26
  const SENDSIZE: Byte := 0x28
  const LISTALIASES: Byte := 0x29
  const GETADDRESS: Byte := 0x2A
  const RESET: Byte := 0xFF

  /** codeMap0 without its terminating RESET entry: current code, version 0 code. */
  const CODE_MAP_0: seq<(Byte, Byte)> := [
    (DEV_ERROR, 0x00), (GETVERSION, 0x01), (SEND, 0x02), (RECVON, 0x03), (RECVOFF, 0x04),
    (GETPINS, 0x05), (SETPINS, 0x06), (GETCONFIG0, 0x07), (SETCONFIG0, 0x08), (GETCONFIG1, 0x09),
    (SETCONFIG1, 0x0A), (GETBUFSIZE, 0x0B), (WRITEBLOCK, 0x0C), (EXECUTE, 0x0D), (PINBURST, 0x0E),
    (GETID, 0x0F), (SETCHANNELS, 0x11), (RECV, 0x10), (OVERRECV, 0x20), (OVERSEND, 0x30)
  ]

  function Column(entry: (Byte, Byte), second: bool): Byte {
    if second then entry.1 else entry.0
  }

  /** The translation by the first matching entry from x on; None when there is none. */
  datatype Translation = Untranslated | Translated(code: Byte)

  function Translate(codes: seq<(Byte, Byte)>, code: Byte, toVersion: bool, x: nat): Translation
    requires x <= |codes|
    decreases |codes| - x
  {
    if x == |codes| then Untranslated
    else if code == Column(codes[x], !toVersion) then Translated(Column(codes[x], toVersion))
    else Translate(codes, code, toVersion, x + 1)
  }

  /** translateDevice: versions up to 4 speak protocol 0, all others the current one. A code
      without an entry is left as it is. */
  function DeviceCode(code: Byte, deviceVersion: nat, toVersion: bool): Byte {
    if deviceVersion > 4 || code == EXCH_VERSIONS then code
    else match Translate(CODE_MAP_0, code, toVersion, 0)
      case Untranslated => code
      case Translated(c) => c
  }

  /** The search loop of translateProtocol. */
  method SearchCode(codes: seq<(Byte, Byte)>, code: Byte, toVersion: bool) returns (ok: bool, result: Byte)
    ensures match Translate(codes, code, toVersion, 0)
      case Untranslated => !ok && result == code
      case Translated(c) => ok && result == c
  {
    ok, result := false, code;
    for x := 0 to |codes|
      invariant Translate(codes, code, toVersion, 0) == Translate(codes, code, toVersion, x)
    {
      if code == Column(codes[x], !toVersion) {
        return true, Column(codes[x], toVersion);
      }
    }
  }

  /** translateDevice. */
  method TranslateDevice(code: Byte, deviceVersion: nat, toVersion: bool) returns (ok: bool, result: Byte)
    ensures result == DeviceCode(code, deviceVersion, toVersion)
    ensures ok <==> deviceVersion > 4 || code == EXCH_VERSIONS || Translate(CODE_MAP_0, code, toVersion, 0).Translated?
  {
    ok, result := true, code;
    if deviceVersion <= 4 && code != EXCH_VERSIONS {
      ok, result := SearchCode(CODE_MAP_0, code, toVersion);
    }
  }

  /** The packet type table: direction, request payload, whether an ack comes back, and
      the payload of the reply. */
  datatype PacketType = Unknown | PacketType(direction: Byte, outData: nat, ack: bool, inData: nat)

  /** The type of a code to the device, for the versions in which it exists. */
  function ToDev(known: bool, outData: nat, ack: bool, inData: nat): PacketType {
    if known then PacketType(CTL_TODEV, outData, ack, inData) else Unknown
  }

  /** findTypeEntry over the table: the entry of a code that covers the version. */
  function TypeOf(code: Byte, v: nat): PacketType {
    if code == EXCH_VERSIONS then ToDev(true, 2, true, 2)
    else if code == LISTDEVS then ToDev(v == 1, NO_PAYLOAD, true, ANY_PAYLOAD)
    else if code == DEVADDR then ToDev(v == 1, ANY_PAYLOAD, true, ANY_PAYLOAD)
    else if code == GETVERSION then ToDev(true, NO_PAYLOAD, true, 2)
    else if code == GETFEATURES then ToDev(v >= 0x101, NO_PAYLOAD, true, if v <= 0x203 then 1 else 2)
    else if code == SEND then ToDev(true, ANY_PAYLOAD, true, NO_PAYLOAD)
    else if code == RESEND then ToDev(v >= 0x309, NO_PAYLOAD, true, NO_PAYLOAD)
    else if code == LISTALIASES || code == GETADDRESS then ToDev(true, NO_PAYLOAD, true, ANY_PAYLOAD)
    else if code == SENDSIZE then ToDev(true, ANY_PAYLOAD, true, 2)
    else if code == RECVON || code == RECVOFF then ToDev(true, NO_PAYLOAD, true, NO_PAYLOAD)
    else if code == RAWRECVON then ToDev(v >= 0x101, NO_PAYLOAD, true, NO_PAYLOAD)
    else if code == GETPINS then ToDev(v <= 3 || v >= 0x101, NO_PAYLOAD, true, 2)
    else if code == SETPINS then ToDev(v <= 3 || v >= 0x101, 2, true, NO_PAYLOAD)
    else if code == GETPINCONFIG then ToDev(v <= 3 || v >= 0x101, NO_PAYLOAD, true, 8)
    else if code == SETPINCONFIG then ToDev(v <= 3 || v >= 0x101, 8, true, NO_PAYLOAD)
    else if code == GETCONFIG0 || code == GETCONFIG1 then ToDev(v <= 3, NO_PAYLOAD, true, 4)
    else if code == SETCONFIG0 || code == SETCONFIG1 then ToDev(v <= 3, 4, true, NO_PAYLOAD)
    else if code == GETBUFSIZE then ToDev(true, NO_PAYLOAD, true, 1)
    else if code == WRITEBLOCK then ToDev(true, 68, true, if v <= 0x1FF then NO_PAYLOAD else 2)
    else if code == CHECKSUM then ToDev(v >= 0x200, 1, true, 2)
    else if code == EXECUTE then ToDev(true, NO_PAYLOAD, false, NO_PAYLOAD)
    else if code == PINBURST then ToDev(v >= 2, if v == 2 then 64 else ANY_PAYLOAD, true, NO_PAYLOAD)
    else if code == GETID then ToDev(true, NO_PAYLOAD, true, 12)
    else if code == SETID then ToDev(true, ANY_PAYLOAD, true, if v <= 0x1FF then NO_PAYLOAD else 2)
    else if code == IDSOFF || code == IDSON then ToDev(true, NO_PAYLOAD, true, NO_PAYLOAD)
    else if code == IDSTATE then ToDev(true, NO_PAYLOAD, true, 1)
    else if code == REPEATER then ToDev(v >= 0x306, NO_PAYLOAD, true, NO_PAYLOAD)
    else if code == RESET then ToDev(true, NO_PAYLOAD, false, NO_PAYLOAD)
    else if code == GETCHANNELS then ToDev(v >= 4, NO_PAYLOAD, true, 1)
    else if code == SETCHANNELS then ToDev(v >= 3, 1, true, NO_PAYLOAD)
    else if code == GETCARRIER then ToDev(v >= 0x101, NO_PAYLOAD, true, 4)
    else if code == SETCARRIER then ToDev(v >= 0x101, 4, true, 4)
    else if code == GETLOCATION then ToDev(true, NO_PAYLOAD, true, 2)
    else if code == RECV || code == OVERRECV then PacketType(CTL_FROMDEV, NO_PAYLOAD, false, ANY_PAYLOAD)
    else if code == OVERSEND then PacketType(CTL_FROMDEV, NO_PAYLOAD, false, NO_PAYLOAD)
    else if code == INVALID_ARG then ToDev(v >= 0x101, NO_PAYLOAD, false, NO_PAYLOAD)
    else Unknown
  }

  lemma {:induction false} TranslateAt(codes: seq<(Byte, Byte)>, code: Byte, toVersion: bool, x: nat, k: nat)
    requires x <= k < |codes| && Column(codes[k], !toVersion) == code
    requires forall i | x <= i < k :: Column(codes[i], !toVersion) != code
    ensures Translate(codes, code, toVersion, x) == Translated(Column(codes[k], toVersion))
    decreases k - x
  {
    if x < k {
      TranslateAt(codes, code, toVersion, x + 1, k);
    }
  }

  /** The table in numbers. */
  lemma CodesInNumbers()
    ensures CODE_MAP_0 == [
      (0x00, 0x00), (0x01, 0x01), (0x15, 0x02), (0x12, 0x03), (0x14, 0x04), (0x1C, 0x05), (0x1D, 0x06),
      (0x07, 0x07), (0x08, 0x08), (0x09, 0x09), (0x0A, 0x0A), (0x11, 0x0B), (0x02, 0x0C), (0x1F, 0x0D),
      (0x1E, 0x0E), (0x20, 0x0F), (0x17, 0x11), (0x30, 0x10), (0x31, 0x20), (0x32, 0x30)]
  {
  }

  /** No code appears twice in a column of the table. */
  lemma CodesDistinct()
    ensures forall i, j | 0 <= i < j < |CODE_MAP_0| ::
      CODE_MAP_0[i].0 != CODE_MAP_0[j].0 && CODE_MAP_0[i].1 != CODE_MAP_0[j].1
  {
  }

  /** On a device of protocol 0, the codes of the table translate forth and back, and from
      version 5 on all codes stay as they are. */
  lemma CodesRoundTrip(k: nat, code: Byte, version: nat)
    requires k < |CODE_MAP_0|
    ensures version <= 4 ==> DeviceCode(CODE_MAP_0[k].0, version, true) == CODE_MAP_0[k].1
    ensures version <= 4 ==> DeviceCode(CODE_MAP_0[k].1, version, false) == CODE_MAP_0[k].0
    ensures version > 4 ==> DeviceCode(code, version, true) == DeviceCode(code, version, false) == code
  {
    CodesDistinct();
    TranslateAt(CODE_MAP_0, CODE_MAP_0[k].0, true, 0, k);
    TranslateAt(CODE_MAP_0, CODE_MAP_0[k].1, false, 0, k);
  }

  /** The codes that matter for labels and signals on the devices of protocol 0. */
  lemma TranslatedCodes(version: nat)
    ensures DeviceCode(GETID, version, true) == (if version <= 4 then 0x0F else GETID)
    ensures DeviceCode(DeviceCode(GETID, version, true), version, false) == GETID
    ensures DeviceCode(WRITEBLOCK, version, true) == (if version <= 4 then 0x0C else WRITEBLOCK)
    ensures DeviceCode(SEND, version, true) == (if version <= 4 then WRITEBLOCK else SEND)
  {
    TranslateAt(CODE_MAP_0, GETID, true, 0, 15);
    TranslateAt(CODE_MAP_0, 0x0F, false, 0, 15);
    TranslateAt(CODE_MAP_0, WRITEBLOCK, true, 0, 12);
    TranslateAt(CODE_MAP_0, SEND, true, 0, 2);
  }
}
