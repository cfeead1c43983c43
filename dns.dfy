/**
 * The captive-portal DNS responder (ESP32/main/src/DNS.c): every query is
 * answered in place, in the query's own buffer, with one A record holding
 * the access point's address (RFC 1035, sections 4.1.1, 4.1.3 and 4.1.4).
 */
module Dns {
  import opened Common
  import FirmwareUtils

  /** The length of the fixed DNS header, RFC 1035 section 4.1.1. */
  const HeaderLength: nat := 12

  /** The number of bytes the answer record takes. */
  const AnswerLength: nat := 16

  /** A received query and the buffer it sits in (`dns_packet_t`). */
  class DnsPacket {
    const buffer: array<Byte>
    const len: nat
    const capacity: nat

    constructor(buffer: array<Byte>, len: nat, capacity: nat)
      ensures this.buffer == buffer && this.len == len && this.capacity == capacity
    {
      this.buffer := buffer;
      this.len := len;
      this.capacity := capacity;
    }
  }

  /** The header bytes the responder overwrites: flags 0x81 0x80 and ANCOUNT 1. */
  function PatchHeader(b: seq<Byte>): (r: seq<Byte>)
    requires |b| >= 8
    ensures |r| == |b|
  {
    b[2 := 0x81][3 := 0x80][6 := 0x00][7 := 0x01]
  }

  /**
   * The answer record, RFC 1035 section 4.1.3: a compression pointer to
   * offset 12 (section 4.1.4), TYPE A, CLASS IN, TTL 3600 seconds,
   * RDLENGTH 4 and the IPv4 address.
   */
  function Answer(ip: seq<Byte>): (r: seq<Byte>)
    requires |ip| == 4
    ensures |r| == AnswerLength
  {
    [0xC0, 0x0C, 0x00, 0x01, 0x00, 0x01, 0x00, 0x00, 0x0E, 0x10, 0x00, 0x04] + ip
  }

  /** The buffer after a reply: the patched header and query up to `len`, then the answer record. */
  function Reply(b: seq<Byte>, len: nat, ip: seq<Byte>): (r: seq<Byte>)
    requires |b| >= 8 && len + AnswerLength <= |b| && |ip| == 4
    ensures |r| == |b|
  {
    var h := PatchHeader(b);
    h[..len] + Answer(ip) + h[len + AnswerLength..]
  }

  /**
   * `handle_dns_request`: sets the response flags and the answer count, and
   * when the buffer has room for sixteen more bytes appends the answer
   * record at `len` and sends `len + 16` bytes; otherwise nothing is sent
   * (the header bytes are already patched). `ip` is the access point's
   * address.
   */
  method HandleDnsRequest(packet: DnsPacket, ip: seq<Byte>) returns (sent: Option<seq<Byte>>)
    requires |ip| == 4 && 8 <= packet.buffer.Length && packet.capacity <= packet.buffer.Length
    modifies packet.buffer
    ensures packet.capacity < packet.len + AnswerLength ==>
      sent.None? && packet.buffer[..] == PatchHeader(old(packet.buffer[..]))
    ensures packet.capacity >= packet.len + AnswerLength ==>
      && packet.buffer[..] == Reply(old(packet.buffer[..]), packet.len, ip)
      && sent == Some(packet.buffer[..packet.len + AnswerLength])
  {
    var buffer := packet.buffer;
    buffer[2] := 0x81;
    buffer[3] := 0x80;
    buffer[6] := 0x00;
    buffer[7] := 0x01;
    ghost var patched := buffer[..];
    assert patched == PatchHeader(old(buffer[..]));

    var offset := packet.len;
    if packet.capacity < offset + AnswerLength {
      return None;
    }
    WriteAnswer(buffer, offset, ip);
    offset := offset + AnswerLength;
    assert buffer[..] == Reply(old(buffer[..]), packet.len, ip) by {
      var r := Reply(old(buffer[..]), packet.len, ip);
      assert r == patched[..packet.len] + Answer(ip) + patched[offset..];
    }
    sent := Some(buffer[..offset]);
  }

  /**
   * Writes the answer record byte after byte through a moving offset:
   * pointer, TYPE, CLASS, TTL, RDLENGTH, address.
   */
  method WriteAnswer(buffer: array<Byte>, offset: nat, ip: seq<Byte>)
    requires |ip| == 4 && offset + AnswerLength <= buffer.Length
    modifies buffer
    ensures buffer[..] == old(buffer[..offset]) + Answer(ip) + old(buffer[offset + AnswerLength..])
  {
    var answer := Answer(ip);
    var k := 0;
    while k < AnswerLength
      invariant k <= AnswerLength
      invariant buffer[..] == old(buffer[..offset]) + answer[..k] + old(buffer[offset + k..])
    {
      buffer[offset + k] := answer[k];
      assert answer[..k + 1] == answer[..k] + [answer[k]];
      k := k + 1;
    }
  }

  /** The header flags, RFC 1035 section 4.1.1. */
  datatype Flags = Flags(qr: bool, opcode: nat, aa: bool, tc: bool, rd: bool, ra: bool, z: nat, rcode: nat)

  /** The flags held in header bytes 2 and 3. */
  function DecodeFlags(hi: Byte, lo: Byte): Flags
  {
    Flags(hi / 128 == 1, hi / 8 % 16, hi / 4 % 2 == 1, hi / 2 % 2 == 1, hi % 2 == 1,
      lo / 128 == 1, lo / 16 % 8, lo % 16)
  }

  /** A resource record whose name is a compression pointer, RFC 1035 sections 4.1.3 and 4.1.4. */
  datatype ResourceRecord = ResourceRecord(nameOffset: nat, rrType: nat, rrClass: nat, ttl: nat, rdata: seq<Byte>)

  /**
   * Reads a resource record at the front of `r` whose name is a pointer:
   * two bytes with the top two bits set and the offset in the other
   * fourteen, then TYPE, CLASS, TTL, RDLENGTH and RDLENGTH bytes of RDATA.
   */
  function ReadPointerRecord(r: seq<Byte>): Option<ResourceRecord>
  {
    if |r| < 12 || r[0] / 64 != 3 then None
    else
      var rdlength := FirmwareUtils.BigEndianValue(r[10..12]);
      if |r| < 12 + rdlength then None
      else Some(ResourceRecord(
        (r[0] as int % 64) * 256 + r[1] as int,
        FirmwareUtils.BigEndianValue(r[2..4]),
        FirmwareUtils.BigEndianValue(r[4..6]),
        FirmwareUtils.BigEndianValue(r[6..10]),
        r[12..12 + rdlength]))
  }

  /** The value of a two-byte big-endian field. */
  lemma BigEndianPair(b: seq<Byte>)
    requires |b| == 2
    ensures FirmwareUtils.BigEndianValue(b) == 256 * (b[0] as int) + b[1] as int
  {
    assert b[..|b| - 1] == [b[0]];
    assert FirmwareUtils.BigEndianValue([b[0]]) == b[0] as int by {
      assert [b[0]][..0] == [];
    }
  }

  /** The appended record reads back as an A record for the name at offset 12, class IN, TTL 3600, holding `ip`. */
  lemma AnswerReadsBack(ip: seq<Byte>)
    requires |ip| == 4
    ensures ReadPointerRecord(Answer(ip)) == Some(ResourceRecord(HeaderLength, 1, 1, 3600, ip))
  {
    var r := Answer(ip);
    BigEndianPair(r[2..4]);
    BigEndianPair(r[4..6]);
    BigEndianPair(r[10..12]);
    var ttl := r[6..10];
    assert ttl == [0x00, 0x00, 0x0E, 0x10];
    assert ttl[..1][..0] == [] && ttl[..2][..1] == ttl[..1] && ttl[..3][..2] == ttl[..2] && ttl[..3][2] == 0x0E;
    assert FirmwareUtils.BigEndianValue(ttl[..1]) == 0;
    assert FirmwareUtils.BigEndianValue(ttl[..2]) == 0;
    assert FirmwareUtils.BigEndianValue(ttl[..3]) == 0x0E;
    assert r[12..16] == ip;
  }

  /**
   * A sent reply to a query of at least a header's length keeps the query's
   * ID (bytes 0-1), its question count (bytes 4-5) and everything from byte
   * 8 to `len`; it says QR (a response), RD, RA, opcode 0, RCODE 0 (no
   * error) and AA clear, answers one record, and that record, at `len`,
   * points at the question name after the header and gives `ip`.
   */
  lemma ReplyMeaning(b: seq<Byte>, len: nat, ip: seq<Byte>)
    requires HeaderLength <= len && len + AnswerLength <= |b| && |ip| == 4
    ensures var r := Reply(b, len, ip)[..len + AnswerLength];
      && |r| == len + AnswerLength
      && r[0..2] == b[0..2] && r[4..6] == b[4..6] && r[8..len] == b[8..len]
      && DecodeFlags(r[2], r[3]) == Flags(true, 0, false, false, true, true, 0, 0)
      && FirmwareUtils.BigEndianValue(r[6..8]) == 1
      && ReadPointerRecord(r[len..]) == Some(ResourceRecord(HeaderLength, 1, 1, 3600, ip))
  {
    var r := Reply(b, len, ip)[..len + AnswerLength];
    assert r[len..] == Answer(ip);
    AnswerReadsBack(ip);
    BigEndianPair(r[6..8]);
  }
}
