/** The firmware download code itself, with its global send and receive structures, against a scripted
    device (uwb/halimpl/fwd/sr1xx/phNxpUciHal_fwd.cc:133-331, 386-684). */
module HbciHost {
  import opened Bytes
  import opened Hbci
  import Lrc

  class Host {
    // The device, as the script of its decisions, and what has passed.
    var script: seq<Io>
    var trace: seq<Event>
    // gphHbci_MosiApdu
    var mosi: Header
    const mosiPayload: array<byte>
    // gphHbci_MisoApdu
    var miso: Header
    const misoPayload: array<byte>

    ghost predicate Valid() {
      mosiPayload.Length == MAX_DATA_MOSI + 1 && misoPayload.Length == MAX_DATA_MISO + 1 && mosiPayload != misoPayload
    }

    ghost function View(): Link
      reads this, misoPayload
    {
      Link(script, trace, miso, misoPayload[..])
    }

    constructor (script: seq<Io>)
      ensures Valid() && this.script == script && trace == []
    {
      this.script, trace := script, [];
      mosi, miso := Header(0, 0, 0, 0), Header(0, 0, 0, 0);
      mosiPayload, misoPayload := new byte[MAX_DATA_MOSI + 1], new byte[MAX_DATA_MISO + 1];
    }

    /** phHbci_PutApdu. */
    method PutApdu(bytes: seq<byte>) returns (ok: bool)
      modifies this`script, this`trace
      ensures Outcome(ok, View()) == Hbci.Put(old(View()), bytes)
    {
      if script == [] { return false; }
      var io := script[0];
      script := script[1..];
      if io.Fails? { return false; }
      trace := trace + [Sent(bytes)];
      ok := true;
    }

    /** phHbci_GetApdu into the header. */
    method GetHeader() returns (ok: bool)
      modifies this`script, this`trace, this`miso
      ensures Outcome(ok, View()) == Hbci.GetHeader(old(View()))
    {
      if script == [] { return false; }
      var io := script[0];
      script := script[1..];
      if io.Fails? { return false; }
      miso := Overlay(miso, io.bytes);
      trace := trace + [Got(Taken(io.bytes), miso)];
      ok := true;
    }

    method GetStatus() returns (ok: bool)
      modifies this
      ensures mosi == HeaderOf(old(mosi.cls), old(mosi.ins), 0)
      ensures Outcome(ok, View()) == Exchange(old(View()), Query(mosi.cls, mosi.ins))
    {
      mosi := HeaderOf(mosi.cls, mosi.ins, 0);
      ok := PutApdu(mosi.Octets());
      if !ok { return; }
      ok := GetHeader();
    }

    method GeneralStatus(mode: byte) returns (ok: bool)
      ensures ok == Ready(mode, miso)
      ensures ok <==>
        miso.cls == 2 && ((mode == 0 && miso.ins == 0x21) || (mode == 0x23 && miso.ins == 0x23) || (mode == 0x24 && miso.ins == 0x24))
    {
      if miso.cls == ANSWER {
        if miso.ins == STATUS { return mode == 0; }
        if miso.ins == MODE_PATCH_ROM { return mode == MODE_PATCH_ROM; }
        if miso.ins == MODE_HIF_IMAGE { return mode == MODE_HIF_IMAGE; }
      }
      return false;
    }

    method SendAcknowledged(bytes: seq<byte>) returns (ok: bool)
      modifies this`script, this`trace, this`miso
      ensures Outcome(ok, View()) == Acknowledged(old(View()), bytes)
    {
      ok := PutApdu(bytes);
      if !ok { return; }
      ok := GetHeader();
      if ok && (miso.cls != ACK || miso.ins != VALID_APDU) { ok := false; }
    }

    /** One turn of the loop below, on what is left of the image. */
    method SendBlock(img: seq<byte>) returns (ok: bool, dataSz: nat)
      requires Valid()
      modifies this, mosiPayload
      ensures mosi.cls == old(mosi.cls) && mosi.ins == old(mosi.ins) && dataSz == BlockSize(|img|)
      ensures Outcome(ok, View()) == PutBlock(old(View()), mosi.cls, mosi.ins, img)
    {
      var len: word;
      if |img| > MAX_DATA_MOSI {
        dataSz, len := MAX_DATA_MOSI, SEGMENTED;
      } else {
        dataSz, len := |img|, if |img| > 0 then |img| + 1 else 0;
      }
      mosi := HeaderOf(mosi.cls, mosi.ins, len);
      ok := SendAcknowledged(mosi.Octets());
      if !ok || dataSz == 0 { return; }
      forall k | 0 <= k < dataSz { mosiPayload[k] := img[k]; }
      assert mosiPayload[..dataSz] == img[..dataSz];
      var lrc := Lrc.CalcLrc(mosi.Octets() + mosiPayload[..dataSz]);
      mosiPayload[dataSz] := lrc;
      assert mosiPayload[..dataSz + 1] == BlockData(mosi.cls, mosi.ins, img);
      ok := SendAcknowledged(mosiPayload[..dataSz + 1]);
    }

    method PutCommand(img: seq<byte>) returns (ok: bool)
      requires Valid()
      modifies this, mosiPayload
      ensures mosi.cls == old(mosi.cls) && mosi.ins == old(mosi.ins)
      ensures Outcome(ok, View()) == Hbci.PutCommand(old(View()), mosi.cls, mosi.ins, img)
    {
      var rest := img;
      while true
        invariant mosi.cls == old(mosi.cls) && mosi.ins == old(mosi.ins)
        invariant Hbci.PutCommand(View(), mosi.cls, mosi.ins, rest) == Hbci.PutCommand(old(View()), mosi.cls, mosi.ins, img)
        decreases |rest|
      {
        var sent, dataSz := SendBlock(rest);
        if !sent || dataSz == |rest| { return sent; }
        rest := rest[dataSz..];
      }
    }

    /** phHbci_MasterHIFImage and phHbci_MasterPatchROM. */
    method MasterImage(mode: byte, base: byte, img: seq<byte>) returns (ok: bool)
      requires Valid() && base <= 0xF0
      modifies this, mosiPayload
      ensures Outcome(ok, View()) == Download(old(View()), StatusQuery(), mode, base, img)
    {
      mosi := HeaderOf(QUERY, STATUS, 0);
      while true
        invariant Download(View(), Query(mosi.cls, mosi.ins), mode, base, img) ==
          Download(old(View()), StatusQuery(), mode, base, img)
        decreases |script|
      {
        var again, done := TakeTurn(mode, base, img);
        if !again { return done; }
      }
    }

    /** One turn of the status loop, and the query for the next. */
    method TakeTurn(mode: byte, base: byte, img: seq<byte>) returns (again: bool, ok: bool)
      requires Valid() && base <= 0xF0
      modifies this, mosiPayload
      ensures StatusTurn(old(View()), old(Query(mosi.cls, mosi.ins)), mode, base, img) ==
        if again then Again(View()) else Over(Outcome(ok, View()))
      ensures again ==> mosi.cls == base as int + QUERY && mosi.ins == DOWNLOAD
    {
      again := false;
      ok := GetStatus();
      if !ok { return; }
      if miso.cls == ANSWER || miso.cls == ACK {
        ok := GeneralStatus(mode);
        if !ok { return; }
        mosi := HeaderOf(base as int + COMMAND, DOWNLOAD, 0);
        ok := PutCommand(img);
        if !ok { return; }
        mosi := HeaderOf(base as int + QUERY, DOWNLOAD, 0);
        again := true;
      } else {
        ok := miso.cls == base as int + ANSWER && miso.ins == SUCCESS;
      }
    }

    method Master(mode: byte, img: seq<byte>) returns (ok: bool)
      requires Valid()
      modifies this, mosiPayload
      ensures Outcome(ok, View()) == Hbci.Master(old(View()), mode, img)
    {
      mosi := HeaderOf(QUERY, STATUS, 0);
      ok := GetStatus();
      if !ok { return; }
      ok := GeneralStatus(0);
      if !ok { return; }
      mosi := HeaderOf(COMMAND, mode, 0);
      ok := PutCommand([]);
      if !ok { return; }
      if mode == MODE_PATCH_ROM {
        ok := MasterImage(mode, BASE_PATCH_ROM, img);
      } else if mode == MODE_HIF_IMAGE {
        ok := MasterImage(mode, BASE_HIF_IMAGE, img);
      } else {
        ok := false;
      }
    }

    /** phHbci_GetApdu into the payload. */
    method ReadPayload(n: nat) returns (ok: bool)
      requires Valid()
      modifies this`script, misoPayload
      ensures Outcome(ok, View()) == GetPayload(old(View()), n)
    {
      if n == 0 || n > MAX_DATA_MISO + 1 || script == [] { return false; }
      var io := script[0];
      script := script[1..];
      if io.Fails? { return false; }
      ghost var before := misoPayload[..];
      var got := if |io.bytes| > n then io.bytes[..n] else io.bytes;
      forall k | 0 <= k < |got| { misoPayload[k] := got[k]; }
      assert misoPayload[..] == got + before[|got|..];
      ok := true;
    }

    /** What the host thinks of an answer's header. */
    method Judge(cls: byte, ins: byte, maxSz: nat, matchMaxSz: bool) returns (code: byte)
      ensures code == Verdict(miso, cls, ins, maxSz, matchMaxSz)
    {
      var size := miso.Length();
      var dataSz := if size == 0 then 0 else size as int - 1;
      code := VALID_APDU;
      if miso.cls != cls / 0x10 * 0x10 + ANSWER {
        code := INVALID_CLASS;
      } else if miso.ins != ins {
        code := INVALID_INSTRUCTION;
      } else if size >= SEGMENTED {
        code := INVALID_LENGTH;
      } else if dataSz > maxSz {
        code := INVALID_LENGTH;
      } else if matchMaxSz && dataSz != maxSz {
        code := INVALID_LENGTH;
      }
    }

    /** phHbci_QueryInfo: on success the data is appended to what `info` holds already. */
    method QueryInfo(info: array<byte>, infoSz: nat, maxSz: nat, matchMaxSz: bool) returns (ok: bool, newSz: nat)
      requires Valid() && info != misoPayload && info != mosiPayload && infoSz + maxSz <= info.Length
      modifies this, misoPayload, info
      ensures infoSz <= newSz <= info.Length
      ensures Info(ok, View(), info[infoSz..newSz]) == Hbci.QueryInfo(old(View()), old(mosi.cls), old(mosi.ins), maxSz, matchMaxSz)
      ensures info[..infoSz] == old(info[..infoSz]) && (!ok ==> info[..] == old(info[..]))
    {
      newSz := infoSz;
      if maxSz > MAX_DATA_MISO { return false, infoSz; }
      var cls, ins := mosi.cls, mosi.ins;
      ok := GetStatus();
      if !ok { return; }
      var size := miso.Length();
      var dataSz := if size == 0 then 0 else size as int - 1;
      if size < SEGMENTED && dataSz == 0 { return false, infoSz; }
      var code := Judge(cls, ins, maxSz, matchMaxSz);
      mosi := HeaderOf(ACK, code, 0);
      ok := PutApdu(mosi.Octets());
      if !ok { return; }
      if code != VALID_APDU { return false, infoSz; }
      ok, newSz := CollectInfo(info, infoSz);
    }

    /** The last part of phHbci_QueryInfo. */
    method CollectInfo(info: array<byte>, infoSz: nat) returns (ok: bool, newSz: nat)
      requires Valid() && info != misoPayload && infoSz + DataSize(miso) <= info.Length
      modifies this`script, misoPayload, info
      ensures infoSz <= newSz <= info.Length && Info(ok, View(), info[infoSz..newSz]) == Collect(old(View()))
      ensures info[..infoSz] == old(info[..infoSz]) && (!ok ==> info[..] == old(info[..]))
    {
      var size := miso.Length();
      var dataSz := if size == 0 then 0 else size as int - 1;
      newSz := infoSz;
      ok := ReadPayload(size);
      if !ok { return; }
      var lrc := Lrc.CalcLrc(miso.Octets() + misoPayload[..dataSz]);
      if misoPayload[dataSz] != lrc { return false, infoSz; }
      CopyBytes(misoPayload, 0, info, infoSz, dataSz);
      newSz := infoSz + dataSz;
      assert info[infoSz..newSz] == misoPayload[..dataSz];
    }
  }
}
