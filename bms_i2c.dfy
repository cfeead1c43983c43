/**
 * The ESP32 node's I²C link to the battery gauge (ESP32/main/src/I2C.c):
 * SBS register reads, word commands, and ManufacturerBlockAccess reads and
 * writes of data flash. The bus is a log of the frames transmitted; whether
 * the gauge answers a probe, a transmit or a receive, and the bytes it
 * returns, are parameters.
 */
module BmsI2c {
  import opened Common
  import FirmwareUtils

  /** The most bytes one ManufacturerBlockAccess read returns. */
  const BlockSize: nat := 32

  /** The smaller of two numbers (`MIN`). */
  function Min(a: nat, b: nat): nat
  {
    if a <= b then a else b
  }

  /** Reversing twice gives the sequence back. */
  lemma ReverseTwice<T>(s: seq<T>)
    ensures Reverse(Reverse(s)) == s
  {
  }

  // ----------------------------------------------------------------------
  // Frames
  // ----------------------------------------------------------------------

  /** The frame `write_word` sends: the command, then the word's bytes last first. */
  function WordFrame(command: Byte, word: seq<Byte>): seq<Byte>
  {
    [command] + Reverse(word)
  }

  /** The frame `read_data_flash` sends first: block access, the address length, the address bytes last first. */
  function ReadRequestFrame(blockAccess: Byte, address: seq<Byte>): seq<Byte>
  {
    [blockAccess, |address| % 256] + Reverse(address)
  }

  /**
   * The frame `write_data_flash` sends: block access, the length of what
   * follows (as a byte), the address bytes last first, the data in order.
   */
  function WriteBlockFrame(blockAccess: Byte, address: seq<Byte>, data: seq<Byte>): seq<Byte>
  {
    [blockAccess, (|address| + |data|) % 256] + Reverse(address) + data
  }

  /**
   * A command or address the firmware packs with
   * `convert_uint_to_n_bytes(x, word, 2, true)` (most significant byte
   * first) reaches the wire least significant byte first, the order of the
   * SMBus word protocol: the two reversals cancel.
   */
  lemma WireIsLittleEndian(command: Byte, blockAccess: Byte, x: nat, data: seq<Byte>)
    requires x < 65536
    ensures var packed := FirmwareUtils.Packed(x, 2, true);
      && WordFrame(command, packed) == [command] + FirmwareUtils.LeastFirst(x, 2)
      && FirmwareUtils.LittleEndianValue(WordFrame(command, packed)[1..]) == x
      && ReadRequestFrame(blockAccess, packed) == [blockAccess, 2] + FirmwareUtils.LeastFirst(x, 2)
      && WriteBlockFrame(blockAccess, packed, data) == [blockAccess, (2 + |data|) % 256] + FirmwareUtils.LeastFirst(x, 2) + data
  {
    var l := FirmwareUtils.LeastFirst(x, 2);
    ReverseTwice(l);
    assert FirmwareUtils.Pow256(2) == 65536;
    FirmwareUtils.PackedRoundTrip(x, 2);
    assert ([command] + l)[1..] == l;
  }

  /**
   * A data-flash write frame names its own length: byte 1 counts the bytes
   * after it (while that is below 256), the address follows, and the data
   * takes the rest, in order.
   */
  lemma WriteBlockFrameLayout(blockAccess: Byte, address: seq<Byte>, data: seq<Byte>)
    requires |address| + |data| < 256
    ensures var f := WriteBlockFrame(blockAccess, address, data);
      && |f| == 2 + |address| + |data| && f[0] == blockAccess && f[1] == |f| - 2
      && Reverse(f[2..2 + |address|]) == address && f[2 + |address|..] == data
  {
    var f := WriteBlockFrame(blockAccess, address, data);
    assert f[2..2 + |address|] == Reverse(address);
    ReverseTwice(address);
  }

  // ----------------------------------------------------------------------
  // Frame building
  // ----------------------------------------------------------------------

  /** Writes `src` last element first into `dst` from `at`. */
  method ReverseInto(dst: array<Byte>, at: nat, src: seq<Byte>)
    requires at + |src| <= dst.Length
    modifies dst
    ensures dst[..] == old(dst[..at]) + Reverse(src) + old(dst[at + |src|..])
  {
    ghost var r := Reverse(src);
    for i := 0 to |src|
      invariant dst[..] == old(dst[..at]) + r[..i] + old(dst[at + i..])
    {
      dst[at + i] := src[|src| - 1 - i];
      assert r[..i + 1] == r[..i] + [r[i]];
    }
  }

  /** Writes `src` in order into `dst` from `at`. */
  method CopyInto(dst: array<Byte>, at: nat, src: seq<Byte>)
    requires at + |src| <= dst.Length
    modifies dst
    ensures dst[..] == old(dst[..at]) + src + old(dst[at + |src|..])
  {
    for i := 0 to |src|
      invariant dst[..] == old(dst[..at]) + src[..i] + old(dst[at + i..])
    {
      dst[at + i] := src[i];
      assert src[..i + 1] == src[..i] + [src[i]];
    }
  }

  /** The bus to the gauge and the frames sent on it so far. */
  class BmsBus {
    /** `I2C_MANUFACTURER_BLOCK_ACCESS`, from the build configuration. */
    const blockAccess: Byte
    var sent: seq<seq<Byte>>

    constructor(blockAccess: Byte)
      ensures this.blockAccess == blockAccess && sent == []
    {
      this.blockAccess := blockAccess;
      sent := [];
    }

    /**
     * `read_SBS_data`: the probe's error is returned as is; a missing or
     * empty buffer gives `ESP_ERR_INVALID_ARG`; otherwise the register
     * byte is sent, a failed transmit returns its error, and the receive's
     * result is returned, the buffer holding the bytes received when it
     * succeeds. `probe`, `transmitted` and `received` are the driver's
     * results, `response` the bytes the gauge returns.
     */
    method ReadSbsData(probe: int, reg: Byte, data: array?<Byte>, dataSize: nat,
                       transmitted: int, received: int, response: seq<Byte>) returns (ret: int)
      requires data != null ==> dataSize <= data.Length
      requires |response| == dataSize
      modifies this, data
      ensures probe != EspOk ==> ret == probe && sent == old(sent)
      ensures probe == EspOk && (data == null || dataSize == 0) ==> ret == EspErrInvalidArg && sent == old(sent)
      ensures probe == EspOk && data != null && dataSize > 0 ==>
        && sent == old(sent) + [[reg]]
        && ret == (if transmitted != EspOk then transmitted else received)
        && data[..] == (if transmitted == EspOk && received == EspOk then response + old(data[dataSize..]) else old(data[..]))
    {
      if probe != EspOk {
        return probe;
      }
      if data == null || dataSize == 0 {
        return EspErrInvalidArg;
      }
      sent := sent + [[reg]];
      if transmitted != EspOk {
        return transmitted;
      }
      if received == EspOk {
        CopyInto(data, 0, response);
      }
      return received;
    }

    /**
     * `write_word`: when the gauge answers the probe, builds the frame of
     * the command and the word's bytes in reverse and sends it; a failed
     * transmit is only logged.
     */
    method WriteWord(deviceOk: bool, command: Byte, word: seq<Byte>)
      modifies this
      ensures sent == old(sent) + (if deviceOk then [WordFrame(command, word)] else [])
    {
      if !deviceOk {
        return;
      }
      var data := new Byte[1 + |word|](_ => 0);
      data[0] := command;
      ReverseInto(data, 1, word);
      assert data[..] == WordFrame(command, word);
      sent := sent + [data[..]];
    }

    /**
     * `read_data_flash`: when the gauge answers the probe, sends the address
     * request; if that transmit fails nothing more happens. Otherwise it
     * sends the block access command again and receives `1 + a + 32` bytes
     * (a count, the echoed address, the block); when the receive succeeds
     * the first `min(data_size, 32)` block bytes are copied to `data`.
     */
    method ReadDataFlash(deviceOk: bool, address: seq<Byte>, data: array<Byte>, dataSize: nat,
                         requested: bool, received: bool, response: seq<Byte>)
      requires Min(dataSize, BlockSize) <= data.Length
      requires |response| == 1 + |address| + BlockSize
      modifies this, data
      ensures !deviceOk ==> sent == old(sent) && data[..] == old(data[..])
      ensures deviceOk && !requested ==> sent == old(sent) + [ReadRequestFrame(blockAccess, address)] && data[..] == old(data[..])
      ensures deviceOk && requested ==>
        && sent == old(sent) + [ReadRequestFrame(blockAccess, address), [blockAccess]]
        && var n := Min(dataSize, BlockSize);
           data[..] == (if received then response[1 + |address|..1 + |address| + n] + old(data[n..]) else old(data[..]))
    {
      if !deviceOk {
        return;
      }
      var addr := new Byte[2 + |address|](_ => 0);
      addr[0] := blockAccess;
      addr[1] := |address| % 256;
      ReverseInto(addr, 2, address);
      assert addr[..] == ReadRequestFrame(blockAccess, address);
      sent := sent + [addr[..]];
      if !requested {
        return;
      }
      sent := sent + [[blockAccess]];
      if received {
        var n := Min(dataSize, |response| - 1 - |address|);
        CopyInto(data, 0, response[1 + |address|..1 + |address| + n]);
      }
    }

    /**
     * `write_data_flash`: when the gauge answers the probe, builds the frame
     * of block access, the length, the address in reverse and the data, and
     * sends it. Its loop counters are bytes, so address and data are each
     * shorter than 256 bytes.
     */
    method WriteDataFlash(deviceOk: bool, address: seq<Byte>, data: seq<Byte>)
      requires |address| < 256 && |data| < 256
      modifies this
      ensures sent == old(sent) + (if deviceOk then [WriteBlockFrame(blockAccess, address, data)] else [])
    {
      if !deviceOk {
        return;
      }
      var block := new Byte[2 + |address| + |data|](_ => 0);
      block[0] := blockAccess;
      block[1] := (|address| + |data|) % 256;
      ReverseInto(block, 2, address);
      CopyInto(block, 2 + |address|, data);
      assert block[..] == WriteBlockFrame(blockAccess, address, data);
      sent := sent + [block[..]];
    }
  }
}
