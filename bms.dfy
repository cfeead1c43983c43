/**
 * The battery management system's status and telemetry decoding
 * (ESP32/main/src/BMS.c): the seal state from the OperationStatus register,
 * and the telemetry record assembled from the little-endian register and
 * data-flash bytes the gauge returns.
 */
module Bms {
  import opened Common
  import FirmwareUtils

  // ----------------------------------------------------------------------
  // get_sealed_status
  // ----------------------------------------------------------------------

  /** The seal states `get_sealed_status` reports. */
  const Sealed: int := 0
  const Unsealed: int := 1
  const FullAccess: int := 2
  const StatusError: int := -1

  /**
   * `get_sealed_status`, from the OperationStatus bytes read: bit SEC0 (bit
   * 0) and bit SEC1 (bit 1) of byte 1 give 11 sealed, 10 unsealed, 01 full
   * access and 00 an error.
   */
  function SealedStatus(data: seq<Byte>): (s: int)
    requires |data| >= 2
    ensures SecurityBits(s) == data[1] % 4
  {
    var sec0 := data[1] % 2 == 1;
    var sec1 := data[1] / 2 % 2 == 1;
    if sec1 && sec0 then Sealed
    else if sec1 && !sec0 then Unsealed
    else if !sec1 && sec0 then FullAccess
    else StatusError
  }

  /** The SEC1,SEC0 bits that stand for a seal state. */
  function SecurityBits(state: int): Byte
  {
    if state == Sealed then 3 else if state == Unsealed then 2 else if state == FullAccess then 1 else 0
  }

  /**
   * The status is one of the four states, read from the two SEC bits of
   * byte 1 alone; the bits of each state read back as that state.
   */
  lemma SealedStatusMeaning(data: seq<Byte>, other: seq<Byte>)
    requires |data| >= 2 && |other| >= 2
    ensures SealedStatus(data) in {Sealed, Unsealed, FullAccess, StatusError}
    ensures data[1] % 4 == other[1] % 4 ==> SealedStatus(data) == SealedStatus(other)
    ensures SecurityBits(SealedStatus(data)) == data[1] % 4
    ensures forall s :: s in {Sealed, Unsealed, FullAccess, StatusError} ==> SealedStatus([0, SecurityBits(s)]) == s
  {
  }

  // ----------------------------------------------------------------------
  // update_telemetry_data
  // ----------------------------------------------------------------------

  /** `(uint16_t)(hi << 8 | lo)`: the unsigned 16-bit value of a little-endian byte pair. */
  function Unsigned16(lo: Byte, hi: Byte): (w: nat)
    ensures w < 65536
  {
    hi * 256 + lo
  }

  /** `(int16_t)(hi << 8 | lo)`: the same pair read as a two's complement 16-bit value. */
  function Signed16(lo: Byte, hi: Byte): (v: int)
    ensures -32768 <= v < 32768
  {
    var w := Unsigned16(lo, hi);
    if w >= 32768 then w - 65536 else w
  }

  /** The two bytes, least significant first, that hold a 16-bit value in two's complement. */
  function Pair(v: int): (r: seq<Byte>)
    requires -32768 <= v < 65536
    ensures |r| == 2
  {
    var w := if v < 0 then v + 65536 else v;
    [w % 256, w / 256]
  }

  /** The pair is the little-endian layout of the unsigned value. */
  lemma UnsignedIsLittleEndian(lo: Byte, hi: Byte)
    ensures Unsigned16(lo, hi) == FirmwareUtils.LittleEndianValue([lo, hi])
  {
    assert [lo, hi][1..] == [hi] && [hi][1..] == [];
    assert FirmwareUtils.LittleEndianValue([hi]) == hi;
  }

  /**
   * A value stored as a little-endian pair reads back: unsigned values from
   * 0 to 65535, signed values from -32768 to 32767; a signed value is
   * negative exactly when the high byte has its top bit set.
   */
  lemma PairRoundTrip(v: int)
    ensures 0 <= v < 65536 ==> Unsigned16(Pair(v)[0], Pair(v)[1]) == v
    ensures -32768 <= v < 32768 ==> Signed16(Pair(v)[0], Pair(v)[1]) == v
    ensures -32768 <= v < 32768 ==> (v < 0 <==> Pair(v)[1] >= 128)
  {
  }

  /** The telemetry record the node reports. */
  datatype Telemetry = Telemetry(
    q: int, h: int, aT: int, v: int, i: int,
    v1: int, v2: int, v3: int, v4: int,
    i1: int, i2: int, i3: int, i4: int,
    t1: int, t2: int, t3: int, t4: int, cT: int,
    otc: int)

  /** The bytes each read returns: one for the charge and health registers, two for the rest, 32 per DAStatus block. */
  predicate ReadsWellSized(soc: seq<Byte>, soh: seq<Byte>, temp: seq<Byte>, volt: seq<Byte>, curr: seq<Byte>,
                           da1: seq<Byte>, da2: seq<Byte>, otc: seq<Byte>)
  {
    |soc| >= 1 && |soh| >= 1 && |temp| >= 2 && |volt| >= 2 && |curr| >= 2
    && |da1| >= 32 && |da2| >= 32 && |otc| >= 2
  }

  /**
   * The record the reads decode to: charge and health from their single
   * bytes; temperature and voltage unsigned; current signed; cell voltages
   * from DAStatus1 bytes 0-7 and cell currents (signed) from bytes 12-19;
   * cell temperatures from DAStatus2 bytes 2-9 and the cell temperature
   * `cT` from bytes 10-11; the OTC threshold signed.
   */
  function Decode(soc: seq<Byte>, soh: seq<Byte>, temp: seq<Byte>, volt: seq<Byte>, curr: seq<Byte>,
                  da1: seq<Byte>, da2: seq<Byte>, otc: seq<Byte>): (t: Telemetry)
    requires ReadsWellSized(soc, soh, temp, volt, curr, da1, da2, otc)
    ensures 0 <= t.q < 256 && 0 <= t.h < 256
    ensures 0 <= t.aT < 65536 && 0 <= t.v < 65536 && -32768 <= t.i < 32768
    ensures 0 <= t.v1 < 65536 && 0 <= t.v2 < 65536 && 0 <= t.v3 < 65536 && 0 <= t.v4 < 65536
    ensures -32768 <= t.i1 < 32768 && -32768 <= t.i2 < 32768 && -32768 <= t.i3 < 32768 && -32768 <= t.i4 < 32768
    ensures 0 <= t.t1 < 65536 && 0 <= t.t2 < 65536 && 0 <= t.t3 < 65536 && 0 <= t.t4 < 65536 && 0 <= t.cT < 65536
    ensures -32768 <= t.otc < 32768
  {
    Telemetry(
      soc[0], soh[0], Unsigned16(temp[0], temp[1]), Unsigned16(volt[0], volt[1]), Signed16(curr[0], curr[1]),
      Unsigned16(da1[0], da1[1]), Unsigned16(da1[2], da1[3]), Unsigned16(da1[4], da1[5]), Unsigned16(da1[6], da1[7]),
      Signed16(da1[12], da1[13]), Signed16(da1[14], da1[15]), Signed16(da1[16], da1[17]), Signed16(da1[18], da1[19]),
      Unsigned16(da2[2], da2[3]), Unsigned16(da2[4], da2[5]), Unsigned16(da2[6], da2[7]), Unsigned16(da2[8], da2[9]),
      Unsigned16(da2[10], da2[11]),
      Signed16(otc[0], otc[1]))
  }

  /**
   * The decoded record depends on DAStatus1 only through bytes 0-7 and
   * 12-19, and on DAStatus2 only through bytes 2-11.
   */
  lemma DecodeReadsOnlyItsBytes(soc: seq<Byte>, soh: seq<Byte>, temp: seq<Byte>, volt: seq<Byte>, curr: seq<Byte>,
                                da1: seq<Byte>, da2: seq<Byte>, otc: seq<Byte>, da1': seq<Byte>, da2': seq<Byte>)
    requires ReadsWellSized(soc, soh, temp, volt, curr, da1, da2, otc)
    requires ReadsWellSized(soc, soh, temp, volt, curr, da1', da2', otc)
    requires da1[..8] == da1'[..8] && da1[12..20] == da1'[12..20] && da2[2..12] == da2'[2..12]
    ensures Decode(soc, soh, temp, volt, curr, da1, da2, otc) == Decode(soc, soh, temp, volt, curr, da1', da2', otc)
  {
    assert forall k :: 0 <= k < 8 ==> da1[k] == da1[..8][k];
    assert forall k :: 0 <= k < 8 ==> da1'[k] == da1'[..8][k];
    assert forall k :: 12 <= k < 20 ==> da1[k] == da1[12..20][k - 12] && da1'[k] == da1'[12..20][k - 12];
    assert forall k :: 2 <= k < 12 ==> da2[k] == da2[2..12][k - 2] && da2'[k] == da2'[2..12][k - 2];
  }

  /** The DAStatus1 block a gauge holding these cell readings returns (zeros elsewhere). */
  function DaStatus1(t: Telemetry): (r: seq<Byte>)
    requires 0 <= t.v1 < 65536 && 0 <= t.v2 < 65536 && 0 <= t.v3 < 65536 && 0 <= t.v4 < 65536
    requires -32768 <= t.i1 < 32768 && -32768 <= t.i2 < 32768 && -32768 <= t.i3 < 32768 && -32768 <= t.i4 < 32768
    ensures |r| == 32
  {
    Pair(t.v1) + Pair(t.v2) + Pair(t.v3) + Pair(t.v4) + [0, 0, 0, 0]
    + Pair(t.i1) + Pair(t.i2) + Pair(t.i3) + Pair(t.i4) + seq(12, _ => 0)
  }

  /**
   * Cell voltages (0 to 65535 mV) and cell currents (-32768 to 32767 mA)
   * laid out in a DAStatus1 block as the gauge stores them decode back to
   * the same readings.
   */
  lemma CellReadingsRoundTrip(t: Telemetry, soc: seq<Byte>, soh: seq<Byte>, temp: seq<Byte>, volt: seq<Byte>,
                              curr: seq<Byte>, da2: seq<Byte>, otc: seq<Byte>)
    requires 0 <= t.v1 < 65536 && 0 <= t.v2 < 65536 && 0 <= t.v3 < 65536 && 0 <= t.v4 < 65536
    requires -32768 <= t.i1 < 32768 && -32768 <= t.i2 < 32768 && -32768 <= t.i3 < 32768 && -32768 <= t.i4 < 32768
    requires ReadsWellSized(soc, soh, temp, volt, curr, DaStatus1(t), da2, otc)
    ensures var d := Decode(soc, soh, temp, volt, curr, DaStatus1(t), da2, otc);
      && d.v1 == t.v1 && d.v2 == t.v2 && d.v3 == t.v3 && d.v4 == t.v4
      && d.i1 == t.i1 && d.i2 == t.i2 && d.i3 == t.i3 && d.i4 == t.i4
  {
    var b := DaStatus1(t);
    PairRoundTrip(t.v1);
    PairRoundTrip(t.v2);
    PairRoundTrip(t.v3);
    PairRoundTrip(t.v4);
    PairRoundTrip(t.i1);
    PairRoundTrip(t.i2);
    PairRoundTrip(t.i3);
    PairRoundTrip(t.i4);
    assert b[0] == Pair(t.v1)[0] && b[1] == Pair(t.v1)[1];
    assert b[2] == Pair(t.v2)[0] && b[3] == Pair(t.v2)[1];
    assert b[4] == Pair(t.v3)[0] && b[5] == Pair(t.v3)[1];
    assert b[6] == Pair(t.v4)[0] && b[7] == Pair(t.v4)[1];
    assert b[12] == Pair(t.i1)[0] && b[13] == Pair(t.i1)[1];
    assert b[14] == Pair(t.i2)[0] && b[15] == Pair(t.i2)[1];
    assert b[16] == Pair(t.i3)[0] && b[17] == Pair(t.i3)[1];
    assert b[18] == Pair(t.i4)[0] && b[19] == Pair(t.i4)[1];
  }

  /** The global `telemetry_data`, updated field by field. */
  class TelemetryData {
    var q: int
    var h: int
    var aT: int
    var v: int
    var i: int
    var v1: int
    var v2: int
    var v3: int
    var v4: int
    var i1: int
    var i2: int
    var i3: int
    var i4: int
    var t1: int
    var t2: int
    var t3: int
    var t4: int
    var cT: int
    var otc: int

    constructor()
      ensures Record() == Telemetry(0, 0, 0, 0, 0, 0, 0, 0, 0, 0, 0, 0, 0, 0, 0, 0, 0, 0, 0)
    {
      q, h, aT, v, i := 0, 0, 0, 0, 0;
      v1, v2, v3, v4 := 0, 0, 0, 0;
      i1, i2, i3, i4 := 0, 0, 0, 0;
      t1, t2, t3, t4, cT := 0, 0, 0, 0, 0;
      otc := 0;
    }

    /** The fields as a record. */
    function Record(): Telemetry
      reads this
    {
      Telemetry(q, h, aT, v, i, v1, v2, v3, v4, i1, i2, i3, i4, t1, t2, t3, t4, cT, otc)
    }

    /** The SBS register reads: charge and health bytes, temperature and voltage unsigned, current signed. */
    method ReadRegisters(soc: seq<Byte>, soh: seq<Byte>, temp: seq<Byte>, volt: seq<Byte>, curr: seq<Byte>)
      requires |soc| >= 1 && |soh| >= 1 && |temp| >= 2 && |volt| >= 2 && |curr| >= 2
      modifies this`q, this`h, this`aT, this`v, this`i
      ensures q == soc[0] && h == soh[0]
      ensures aT == Unsigned16(temp[0], temp[1]) && v == Unsigned16(volt[0], volt[1]) && i == Signed16(curr[0], curr[1])
    {
      q := soc[0];
      h := soh[0];
      aT := Unsigned16(temp[0], temp[1]);
      v := Unsigned16(volt[0], volt[1]);
      i := Signed16(curr[0], curr[1]);
    }

    /** The DAStatus1 block: cell voltages from bytes 0-7, signed cell currents from bytes 12-19. */
    method ReadCellStatus(da1: seq<Byte>)
      requires |da1| >= 32
      modifies this`v1, this`v2, this`v3, this`v4, this`i1, this`i2, this`i3, this`i4
      ensures v1 == Unsigned16(da1[0], da1[1]) && v2 == Unsigned16(da1[2], da1[3])
      ensures v3 == Unsigned16(da1[4], da1[5]) && v4 == Unsigned16(da1[6], da1[7])
      ensures i1 == Signed16(da1[12], da1[13]) && i2 == Signed16(da1[14], da1[15])
      ensures i3 == Signed16(da1[16], da1[17]) && i4 == Signed16(da1[18], da1[19])
    {
      v1 := Unsigned16(da1[0], da1[1]);
      v2 := Unsigned16(da1[2], da1[3]);
      v3 := Unsigned16(da1[4], da1[5]);
      v4 := Unsigned16(da1[6], da1[7]);
      i1 := Signed16(da1[12], da1[13]);
      i2 := Signed16(da1[14], da1[15]);
      i3 := Signed16(da1[16], da1[17]);
      i4 := Signed16(da1[18], da1[19]);
    }

    /** The DAStatus2 block: cell temperatures from bytes 2-9, `cT` from bytes 10-11. */
    method ReadCellTemperatures(da2: seq<Byte>)
      requires |da2| >= 32
      modifies this`t1, this`t2, this`t3, this`t4, this`cT
      ensures t1 == Unsigned16(da2[2], da2[3]) && t2 == Unsigned16(da2[4], da2[5])
      ensures t3 == Unsigned16(da2[6], da2[7]) && t4 == Unsigned16(da2[8], da2[9])
      ensures cT == Unsigned16(da2[10], da2[11])
    {
      t1 := Unsigned16(da2[2], da2[3]);
      t2 := Unsigned16(da2[4], da2[5]);
      t3 := Unsigned16(da2[6], da2[7]);
      t4 := Unsigned16(da2[8], da2[9]);
      cT := Unsigned16(da2[10], da2[11]);
    }

    /**
     * `update_telemetry_data`: assigns every field from the bytes of the
     * reads (the charge, health, temperature, voltage and current
     * registers, the DAStatus1 and DAStatus2 blocks and the OTC threshold),
     * which the I²C layer supplies.
     */
    method UpdateTelemetryData(soc: seq<Byte>, soh: seq<Byte>, temp: seq<Byte>, volt: seq<Byte>, curr: seq<Byte>,
                               da1: seq<Byte>, da2: seq<Byte>, otcBytes: seq<Byte>)
      requires ReadsWellSized(soc, soh, temp, volt, curr, da1, da2, otcBytes)
      modifies this
      ensures Record() == Decode(soc, soh, temp, volt, curr, da1, da2, otcBytes)
    {
      ReadRegisters(soc, soh, temp, volt, curr);
      ReadCellStatus(da1);
      ReadCellTemperatures(da2);
      otc := Signed16(otcBytes[0], otcBytes[1]);
    }
  }
}
