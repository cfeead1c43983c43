/**
 * The gauge driver of the shared firmware (main/src/I2C.c): register reads
 * and writes, and the data-flash protocol of the bq gauges — select a
 * subclass (register 0x3E) and a 32-byte block (0x3F), read the block from
 * 0x40, write its bytes back one register at a time, and commit them by
 * writing the block checksum to 0x60.
 *
 * The bus is a log of the frames the gauge accepted. The driver's result
 * for each transaction (the probe's error when the gauge does not answer,
 * otherwise the transfer's) and the bytes the gauge returns are parameters.
 */
module DataFlash {
  import opened Common
  import FirmwareUtils
  import Bms
  import BmsI2c

  /** `I2C_DATA_FLASH_CLASS`: selects the data-flash subclass. */
  const DataFlashClass: Byte := 0x3E

  /** `I2C_DATA_FLASH_BLOCK`: selects the 32-byte block of the subclass. */
  const DataFlashBlock: Byte := 0x3F

  /** `I2C_BLOCK_DATA_START`: the register of the block's first byte. */
  const BlockDataStart: Byte := 0x40

  /** `I2C_BLOCK_DATA_CHECKSUM`: writing the checksum here commits the block. */
  const BlockDataChecksum: Byte := 0x60

  /** The number of bytes in one data-flash block. */
  const BlockSize: nat := 32

  // ----------------------------------------------------------------------
  // Frames and blocks
  // ----------------------------------------------------------------------

  /** The frame `write_data` sends: the register, then `n` bytes of `data`, least significant first. */
  function WriteFrame(reg: Byte, data: nat, n: nat): (f: seq<Byte>)
    ensures |f| == n + 1 && f[0] == reg
  {
    [reg] + FirmwareUtils.LeastFirst(data, n)
  }

  /** The frames delivered by one transaction: its frame when the driver reports `ESP_OK`. */
  function Delivered(frame: seq<Byte>, result: int): seq<seq<Byte>>
  {
    if result == EspOk then [frame] else []
  }

  /** The frames delivered when the subclass and the block of `offset` are selected. */
  function Selection(subclass: Byte, offset: Byte, classWritten: int, blockWritten: int): seq<seq<Byte>>
  {
    Delivered(WriteFrame(DataFlashClass, subclass, 1), classWritten)
      + Delivered(WriteFrame(DataFlashBlock, FirmwareUtils.GetBlock(offset), 1), blockWritten)
  }

  /**
   * A value that fits in `n` bytes is read back from its write frame by a
   * receiver that takes the bytes after the register least significant
   * first.
   */
  lemma WriteFrameReadsBack(reg: Byte, data: nat, n: nat)
    requires data < FirmwareUtils.Pow256(n)
    ensures var f := WriteFrame(reg, data, n);
      |f| == n + 1 && f[0] == reg && FirmwareUtils.LittleEndianValue(f[1..]) == data
  {
    var f := WriteFrame(reg, data, n);
    assert f[1..] == FirmwareUtils.LeastFirst(data, n);
    FirmwareUtils.PackedRoundTrip(data, n);
  }

  /** `0xFF - checksum` after `checksum += b` over the block in 8-bit arithmetic. */
  function Checksum(block: seq<Byte>): (c: Byte)
  {
    255 - Sum(block) % 256
  }

  /**
   * The checksum is the one byte that brings the 8-bit sum of the block and
   * itself to 0xFF, the value the gauge checks before it commits a block.
   */
  lemma ChecksumCompletesBlock(block: seq<Byte>, c: Byte)
    ensures (Sum(block) + c) % 256 == 0xFF <==> c == Checksum(block)
  {
    var s := Sum(block) % 256;
    assert (Sum(block) + c) % 256 == (s + c) % 256;
    if (s + c) % 256 == 0xFF {
      assert s + c == 0xFF || s + c == 0xFF + 256;
    }
  }

  /**
   * The block after `set_I2_value` patches it: the high byte of the 16-bit
   * two's complement value at `at`, the low byte at `at + 1` — `value >> 8`
   * is an arithmetic shift, `& 0xFF` keeps the low eight bits.
   */
  function WithValue(block: seq<Byte>, at: nat, value: int): (r: seq<Byte>)
    requires at + 1 < |block|
    ensures |r| == |block|
  {
    block[at := (value / 256) % 256][at + 1 := value % 256]
  }

  /**
   * The patched block holds `value` big-endian: the gauge reading bytes
   * `at` and `at + 1` as a signed 16-bit number gets `value`, and every
   * other byte is the one that was read.
   */
  lemma ValueReadsBack(block: seq<Byte>, at: nat, value: int)
    requires at + 1 < |block| && -32768 <= value < 32768
    ensures var r := WithValue(block, at, value);
      && Bms.Signed16(r[at + 1], r[at]) == value
      && forall i :: 0 <= i < |block| && i != at && i != at + 1 ==> r[i] == block[i]
  {
    var hi, lo := (value / 256) % 256, value % 256;
    assert value == (value / 256) * 256 + lo;
    if value >= 0 {
      assert value / 256 < 128 && hi == value / 256;
    } else {
      assert -128 <= value / 256 < 0 && hi == value / 256 + 256;
    }
  }

  /** The block after `set_device_name` patches it: ten name bytes from `at`. */
  function WithName(block: seq<Byte>, at: nat, name: seq<Byte>): (r: seq<Byte>)
    requires at + 10 <= |block| && |name| >= 10
    ensures |r| == |block|
  {
    block[..at] + name[..10] + block[at + 10..]
  }

  /** The patched block holds the name's first ten bytes from `at`, and every other byte is the one that was read. */
  lemma NameReadsBack(block: seq<Byte>, at: nat, name: seq<Byte>)
    requires at + 10 <= |block| && |name| >= 10
    ensures var r := WithName(block, at, name);
      && r[at..at + 10] == name[..10]
      && forall i :: 0 <= i < |block| && (i < at || at + 10 <= i) ==> r[i] == block[i]
  {
  }

  /**
   * The 33 frames that write a block back: byte `i` to register 0x40 + i,
   * then the checksum to 0x60.
   */
  function CommitFrames(block: seq<Byte>): (fs: seq<seq<Byte>>)
    requires |block| == BlockSize
    ensures |fs| == BlockSize + 1
  {
    seq(BlockSize, i requires 0 <= i < BlockSize => WriteFrame(BlockDataStart + i, block[i], 1))
      + [WriteFrame(BlockDataChecksum, Checksum(block), 1)]
  }

  /**
   * What the gauge makes of 33 frames: a block when frame `i` writes one
   * byte to 0x40 + i and the last writes to 0x60 a checksum that brings the
   * 8-bit sum to 0xFF; nothing otherwise.
   */
  function Committed(fs: seq<seq<Byte>>): Option<seq<Byte>>
  {
    if |fs| != BlockSize + 1 then None
    else if exists i :: 0 <= i < BlockSize && (|fs[i]| != 2 || fs[i][0] != BlockDataStart + i) then None
    else if |fs[BlockSize]| != 2 || fs[BlockSize][0] != BlockDataChecksum then None
    else
      var block := seq(BlockSize, i requires 0 <= i < BlockSize => fs[i][1]);
      if (Sum(block) + fs[BlockSize][1]) % 256 == 0xFF then Some(block) else None
  }

  /** The gauge takes the frames that write a block back as exactly that block. */
  lemma CommitReadsBack(block: seq<Byte>)
    requires |block| == BlockSize
    ensures Committed(CommitFrames(block)) == Some(block)
  {
    var fs := CommitFrames(block);
    forall i | 0 <= i < BlockSize
      ensures |fs[i]| == 2 && fs[i][0] == BlockDataStart + i && fs[i][1] == block[i]
    {
      assert fs[i] == WriteFrame(BlockDataStart + i, block[i], 1);
    }
    var read := seq(BlockSize, i requires 0 <= i < BlockSize => fs[i][1]);
    assert read == block;
    ChecksumCompletesBlock(block, Checksum(block));
  }

  /** The number of transactions, from the first, that succeeded before the first failure. */
  function Completed(results: seq<int>): (k: nat)
    ensures k <= |results|
    ensures forall i :: 0 <= i < k ==> results[i] == EspOk
    ensures k < |results| ==> results[k] != EspOk
  {
    if results == [] || results[0] != EspOk then 0 else 1 + Completed(results[1..])
  }

  /** Any count of leading successes followed by a failure or the end is the completed count. */
  lemma {:induction false} CompletedUnique(results: seq<int>, k: nat)
    requires k <= |results|
    requires forall i :: 0 <= i < k ==> results[i] == EspOk
    requires k < |results| ==> results[k] != EspOk
    ensures Completed(results) == k
  {
    if k > 0 {
      CompletedUnique(results[1..], k - 1);
    }
  }

  /** The result an operation returns after its block write-back: the first failure's error, or `ESP_OK`. */
  function Outcome(writes: seq<int>): (ret: int)
    ensures ret == EspOk <==> forall i :: 0 <= i < |writes| ==> writes[i] == EspOk
  {
    var k := Completed(writes);
    if k == |writes| then EspOk else writes[k]
  }

  /**
   * When every write of `set_I2_value` succeeds, the gauge commits the
   * patched block: `value` reads back big-endian at `at`, and every other
   * byte is the one that was read.
   */
  lemma ValueCommitted(block: seq<Byte>, at: nat, value: int)
    requires |block| == BlockSize && at + 1 < BlockSize && -32768 <= value < 32768
    ensures match Committed(CommitFrames(WithValue(block, at, value)))
      case None => false
      case Some(b) =>
        && Bms.Signed16(b[at + 1], b[at]) == value
        && forall i :: 0 <= i < BlockSize && i != at && i != at + 1 ==> b[i] == block[i]
  {
    CommitReadsBack(WithValue(block, at, value));
    ValueReadsBack(block, at, value);
  }

  /**
   * When every write of `set_device_name` succeeds, the gauge commits the
   * patched block: the name's first ten bytes from `at`, and every other
   * byte the one that was read.
   */
  lemma NameCommitted(block: seq<Byte>, at: nat, name: seq<Byte>)
    requires |block| == BlockSize && at + 10 <= BlockSize && |name| >= 10
    ensures match Committed(CommitFrames(WithName(block, at, name)))
      case None => false
      case Some(b) =>
        && b[at..at + 10] == name[..10]
        && forall i :: 0 <= i < BlockSize && (i < at || at + 10 <= i) ==> b[i] == block[i]
  {
    CommitReadsBack(WithName(block, at, name));
    NameReadsBack(block, at, name);
  }

  // ----------------------------------------------------------------------
  // The driver
  // ----------------------------------------------------------------------

  /** Adds up the block's bytes in 8-bit arithmetic and returns `0xFF` minus the sum. */
  method BlockChecksum(block: array<Byte>) returns (checksum: Byte)
    ensures checksum == Checksum(block[..])
  {
    var sum: Byte := 0;
    for i := 0 to block.Length
      invariant sum == Sum(block[..i]) % 256
    {
      assert block[..i + 1][..i] == block[..i];
      sum := (sum + block[i]) % 256;
    }
    assert block[..block.Length] == block[..];
    checksum := 0xFF - sum;
  }

  /** The bus to the gauge and the frames it accepted so far. */
  class GaugeBus {
    var sent: seq<seq<Byte>>

    constructor()
      ensures sent == []
    {
      sent := [];
    }

    /**
     * `read_data`: a missing or empty buffer gives `ESP_ERR_INVALID_ARG`
     * before the gauge is probed; otherwise the register byte is sent and
     * the transaction's result returned, the buffer holding the reply when
     * it succeeds.
     */
    method ReadData(reg: Byte, data: array?<Byte>, len: nat, result: int, reply: seq<Byte>) returns (ret: int)
      requires data != null ==> len <= data.Length
      requires |reply| == len
      modifies this, data
      ensures data == null || len == 0 ==>
        ret == EspErrInvalidArg && sent == old(sent) && (data != null ==> data[..] == old(data[..]))
      ensures data != null && len > 0 ==>
        && ret == result
        && sent == old(sent) + Delivered([reg], result)
        && data[..] == (if result == EspOk then reply + old(data[len..]) else old(data[..]))
    {
      if data == null || len == 0 {
        return EspErrInvalidArg;
      }
      if result != EspOk {
        return result;
      }
      sent := sent + [[reg]];
      BmsI2c.CopyInto(data, 0, reply);
      return EspOk;
    }

    /**
     * `write_data`: builds the frame of the register and `n` bytes of the
     * 32-bit `data`, byte `i` being `(data >> 8i) & 0xFF`, and returns the
     * transaction's result; the gauge has the frame when it succeeds.
     */
    method WriteData(reg: Byte, data: nat, n: nat, result: int) returns (ret: int)
      requires data < 0x1_0000_0000 && n <= 4
      modifies this
      ensures ret == result
      ensures sent == old(sent) + Delivered(WriteFrame(reg, data, n), result)
    {
      if result != EspOk {
        return result;
      }
      var buffer := new Byte[1 + n](_ => 0);
      buffer[0] := reg;
      for i := 0 to n
        modifies buffer
        invariant buffer[0] == reg
        invariant forall k :: 0 <= k < i ==> buffer[k + 1] == FirmwareUtils.ByteOf(data, k)
      {
        buffer[i + 1] := FirmwareUtils.ByteOf(data, i);
      }
      forall k | 0 <= k < n
        ensures buffer[k + 1] == FirmwareUtils.LeastFirst(data, n)[k]
      {
        FirmwareUtils.ByteOfIsLeastFirst(data, n, k);
      }
      assert buffer[..] == WriteFrame(reg, data, n);
      sent := sent + [buffer[..]];
      return EspOk;
    }

    /**
     * `read_bytes`: subclass 0 reads `n` bytes straight from register
     * `offset`. Any other subclass selects the subclass and the block of
     * `offset` — ignoring whether those writes succeed — and reads from
     * 0x40 + offset % 32 in that block. The read's error is dropped.
     */
    method ReadBytes(subclass: Byte, offset: Byte, data: array?<Byte>, n: nat,
                     classWritten: int, blockWritten: int, read: int, reply: seq<Byte>)
      requires data != null ==> n <= data.Length
      requires |reply| == n
      modifies this, data
      ensures var selection := if subclass == 0 then [] else Selection(subclass, offset, classWritten, blockWritten);
        var reg := if subclass == 0 then offset else BlockDataStart + offset % 32;
        && (data == null || n == 0 ==> sent == old(sent) + selection && (data != null ==> data[..] == old(data[..])))
        && (data != null && n > 0 ==>
             && sent == old(sent) + selection + Delivered([reg], read)
             && data[..] == (if read == EspOk then reply + old(data[n..]) else old(data[..])))
    {
      var ret;
      if subclass == 0 {
        ret := ReadData(offset, data, n, read, reply);
      } else {
        var block := FirmwareUtils.GetBlock(offset);
        FirmwareUtils.GetBlockIsBlockOfOffset(offset);
        ret := WriteData(DataFlashClass, subclass, 1, classWritten);
        ret := WriteData(DataFlashBlock, block, 1, blockWritten);
        ret := ReadData(BlockDataStart + offset % 32, data, n, read, reply);
      }
    }

    /**
     * Selects the subclass and the block of `offset` (whether those writes
     * succeed is ignored) and reads the block into a fresh 32-byte buffer.
     */
    method ReadBlock(subclass: Byte, offset: Byte, classWritten: int, blockWritten: int,
                     read: int, current: seq<Byte>) returns (ret: int, block: array<Byte>)
      requires |current| == BlockSize
      modifies this
      ensures fresh(block) && block.Length == BlockSize && ret == read
      ensures sent == old(sent) + Selection(subclass, offset, classWritten, blockWritten) + Delivered([BlockDataStart], read)
      ensures read == EspOk ==> block[..] == current
    {
      var b := FirmwareUtils.GetBlock(offset);
      FirmwareUtils.GetBlockIsBlockOfOffset(offset);
      ret := WriteData(DataFlashClass, subclass, 1, classWritten);
      ret := WriteData(DataFlashBlock, b, 1, blockWritten);
      block := new Byte[BlockSize](_ => 0);
      ret := ReadData(BlockDataStart, block, BlockSize, read, current);
    }

    /**
     * Writes the block back byte by byte, stopping at the first failed
     * write with its error, then writes `0xFF` minus the 8-bit sum of the
     * block to the checksum register. `writes` are the results of those 33
     * transactions.
     */
    method WriteBack(block: array<Byte>, writes: seq<int>) returns (ret: int)
      requires block.Length == BlockSize && |writes| == BlockSize + 1
      modifies this
      ensures ret == Outcome(writes)
      ensures sent == old(sent) + CommitFrames(block[..])[..Completed(writes)]
    {
      ghost var frames := CommitFrames(block[..]);
      for i := 0 to BlockSize
        invariant sent == old(sent) + frames[..i]
        invariant forall k :: 0 <= k < i ==> writes[k] == EspOk
      {
        ret := WriteData(BlockDataStart + i, block[i], 1, writes[i]);
        assert frames[i] == WriteFrame(BlockDataStart + i, block[i], 1);
        assert frames[..i + 1] == frames[..i] + [frames[i]];
        if ret != EspOk {
          CompletedUnique(writes, i);
          return;
        }
      }
      var checksum := BlockChecksum(block);
      ret := WriteData(BlockDataChecksum, checksum, 1, writes[BlockSize]);
      assert frames[..BlockSize + 1] == frames;
      if ret != EspOk {
        CompletedUnique(writes, BlockSize);
        return;
      }
      CompletedUnique(writes, BlockSize + 1);
      return EspOk;
    }

    /**
     * `set_I2_value`: reads the block of `offset` in `subclass` (a failed
     * read returns its error), puts the 16-bit `value` big-endian at
     * offset % 32, and writes the block back with its checksum, returning
     * the first failed write's error or `ESP_OK`. The block must hold both
     * bytes, so offset % 32 is at most 30.
     */
    method SetI2Value(subclass: Byte, offset: Byte, value: int,
                      classWritten: int, blockWritten: int, read: int, current: seq<Byte>,
                      writes: seq<int>) returns (ret: int)
      requires -32768 <= value < 32768 && offset % 32 <= 30
      requires |current| == BlockSize && |writes| == BlockSize + 1
      modifies this
      ensures var selected := old(sent) + Selection(subclass, offset, classWritten, blockWritten);
        && (read != EspOk ==> ret == read && sent == selected)
        && (read == EspOk ==>
             && ret == Outcome(writes)
             && sent == selected + [[BlockDataStart]]
                  + CommitFrames(WithValue(current, offset % 32, value))[..Completed(writes)])
    {
      var block;
      ret, block := ReadBlock(subclass, offset, classWritten, blockWritten, read, current);
      if ret != EspOk {
        return;
      }
      var at := offset % 32;
      block[at] := (value / 256) % 256;
      block[at + 1] := value % 256;
      assert block[..] == WithValue(current, at, value);
      ret := WriteBack(block, writes);
    }

    /**
     * `set_device_name`: reads the block of `offset` in `subclass` (a failed
     * read returns its error), copies the name's first ten bytes to
     * offset % 32 onwards, and writes the block back with its checksum,
     * returning the first failed write's error or `ESP_OK`. The block must
     * hold all ten, so offset % 32 is at most 22.
     */
    method SetDeviceName(subclass: Byte, offset: Byte, name: seq<Byte>,
                         classWritten: int, blockWritten: int, read: int, current: seq<Byte>,
                         writes: seq<int>) returns (ret: int)
      requires |name| >= 10 && offset % 32 <= 22
      requires |current| == BlockSize && |writes| == BlockSize + 1
      modifies this
      ensures var selected := old(sent) + Selection(subclass, offset, classWritten, blockWritten);
        && (read != EspOk ==> ret == read && sent == selected)
        && (read == EspOk ==>
             && ret == Outcome(writes)
             && sent == selected + [[BlockDataStart]]
                  + CommitFrames(WithName(current, offset % 32, name))[..Completed(writes)])
    {
      var block;
      ret, block := ReadBlock(subclass, offset, classWritten, blockWritten, read, current);
      if ret != EspOk {
        return;
      }
      var at := offset % 32;
      BmsI2c.CopyInto(block, at, name[..10]);
      ret := WriteBack(block, writes);
    }
  }
}
