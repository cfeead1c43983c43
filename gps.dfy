/**
 * The GPS receiver's sentence handling (ESP32/main/src/GPS.c): the NMEA 0183
 * checksum, the split of a `$GPRMC` sentence's data into its fields, and the
 * conversion of an NMEA `ddmm.mmmm` coordinate to signed decimal degrees.
 */
module Gps {
  import opened Common
  import FirmwareUtils

  // ----------------------------------------------------------------------
  // validate_nmea_checksum
  // ----------------------------------------------------------------------

  /** The byte `(uint8_t)c` of a character. */
  function CharByte(c: char): bv8
  {
    ((c as int) % 256) as bv8
  }

  /** The NMEA 0183 checksum of `s`: the exclusive or of all its bytes, folded from the left. */
  function XorAll(s: seq<char>): (r: bv8)
    ensures s != [] ==> r == CharByte(s[0]) ^ XorAll(s[1..])
  {
    if s == [] then 0
    else
      var init := s[..|s| - 1];
      assert init != [] ==> init[1..] == s[1..][..|s| - 2];
      XorAll(init) ^ CharByte(s[|s| - 1])
  }

  /** Extending a checksummed slice by one character folds that character in. */
  lemma XorAllSnoc(s: seq<char>, p: nat)
    requires 1 <= p < |s|
    ensures XorAll(s[1..p + 1]) == XorAll(s[1..p]) ^ CharByte(s[p])
  {
    var t := s[1..p + 1];
    assert t[..|t| - 1] == s[1..p];
  }

  /** The checksum of a concatenation is the exclusive or of the parts' checksums. */
  lemma {:induction false} XorAllAppend(a: seq<char>, b: seq<char>)
    ensures XorAll(a + b) == XorAll(a) ^ XorAll(b)
  {
    if b == [] {
      assert a + b == a;
    } else {
      var b' := b[..|b| - 1];
      assert (a + b)[..|a + b| - 1] == a + b';
      XorAllAppend(a, b');
    }
  }

  /**
   * The checksum detects any one corrupted byte: two sentences that differ in
   * one character, as bytes, have different checksums.
   */
  lemma SingleErrorDetected(before: seq<char>, c: char, d: char, after: seq<char>)
    requires CharByte(c) != CharByte(d)
    ensures XorAll(before + [c] + after) != XorAll(before + [d] + after)
  {
    XorAllAppend(before + [c], after);
    XorAllAppend(before + [d], after);
    assert (before + [c])[..|before|] == before;
    assert (before + [d])[..|before|] == before;
  }

  /** The index of the first `c` in `s` (`strchr`). */
  function IndexOf(s: seq<char>, c: char): (r: Option<nat>)
    ensures r.None? ==> c !in s
    ensures r.Some? ==> r.value < |s| && s[r.value] == c && c !in s[..r.value]
  {
    if s == [] then None
    else if s[0] == c then Some(0)
    else match IndexOf(s[1..], c)
      case None => None
      case Some(k) => assert s[..k + 1] == [s[0]] + s[1..][..k]; Some(k + 1)
  }

  /**
   * Whether a sentence carries a valid NMEA 0183 checksum: it starts with
   * '$', has a '*', and the exclusive or of the characters between them
   * equals the low byte of the hexadecimal number read after the first '*'.
   */
  predicate ChecksumValid(sentence: seq<char>): (ok: bool)
    ensures ok ==> |sentence| >= 2 && sentence[0] == '$' && '*' in sentence[1..]
  {
    && sentence != [] && sentence[0] == '$'
    && match IndexOf(sentence, '*')
      case None => false
      case Some(k) => k >= 1 && XorAll(sentence[1..k]) as int == FirmwareUtils.Strtol16(sentence[k + 1..]) % 256
  }

  /**
   * `validate_nmea_checksum`: folds the checksum over the characters
   * between '$' and the first '*' and compares it with the value written
   * after the '*'.
   */
  method ValidateNmeaChecksum(sentence: seq<char>) returns (ok: bool)
    ensures ok == ChecksumValid(sentence)
    ensures sentence == [] || sentence[0] != '$' || '*' !in sentence ==> !ok
  {
    if sentence == [] || sentence[0] != '$' {
      return false;
    }
    var asterisk := IndexOf(sentence, '*');
    if asterisk.None? || asterisk.value < 1 {
      return false;
    }
    var checksum: bv8 := 0;
    var p := 1;
    while p < asterisk.value
      invariant 1 <= p <= asterisk.value
      invariant checksum == XorAll(sentence[1..p])
    {
      XorAllSnoc(sentence, p);
      checksum := checksum ^ CharByte(sentence[p]);
      p := p + 1;
    }
    var received := FirmwareUtils.Strtol16(sentence[asterisk.value + 1..]) % 256;
    ok := checksum as int == received;
  }

  /** The two uppercase hexadecimal digits of a byte. */
  function HexPair(b: Byte): seq<char>
  {
    [FirmwareUtils.HexDigit(b / 16), FirmwareUtils.HexDigit(b % 16)]
  }

  /** The two digits of a byte read back, after the '*', as the byte. */
  lemma HexPairReadsBack(b: Byte)
    ensures FirmwareUtils.Strtol16(HexPair(b)) % 256 == b
  {
    FirmwareUtils.HexDigitReadsBack(b / 16);
    FirmwareUtils.HexDigitReadsBack(b % 16);
    FirmwareUtils.HexByteOfDigits(FirmwareUtils.HexDigit(b / 16), FirmwareUtils.HexDigit(b % 16));
  }

  /**
   * A sentence written as '$', a body without '*', '*' and the two digits
   * of the body's checksum passes the check: the check accepts exactly what
   * a sender computes.
   */
  lemma ChecksumRoundTrip(body: seq<char>)
    requires '*' !in body
    ensures ChecksumValid("$" + body + "*" + HexPair(XorAll(body) as int))
  {
    var b := XorAll(body) as int;
    var tail := HexPair(b);
    var head := "$" + body;
    var s := head + "*" + tail;
    assert s == head + ("*" + tail);
    FirstAfter(head, '*', tail);
    var k := |head|;
    assert s[1..k] == body;
    assert s[k + 1..] == tail;
    HexPairReadsBack(b);
  }

  /**
   * A number after the '*' too large for a 32-bit `long` saturates before
   * its low byte is taken: "$*100000000" reads as 0x7FFFFFFF, whose low byte
   * 0xFF is not the empty body's checksum 0, so the sentence is rejected.
   */
  lemma OverlongChecksumSaturates()
    ensures FirmwareUtils.Strtol16("100000000") == FirmwareUtils.LongMax
    ensures !ChecksumValid("$*100000000")
  {
    var t := "100000000";
    HexNumberOfWord();
    var v := FirmwareUtils.Strtol16(t);
    assert v == 0x7FFF_FFFF;
    var s := "$*100000000";
    assert IndexOf(s, '*') == Some(1) by {
      assert s[1..][0] == '*';
    }
    assert s[1..1] == [] && s[2..] == t;
    assert XorAll(s[1..1]) == 0;
    assert v % 256 == 255;
  }

  /** "100000000", read as hexadecimal, is 2^32. */
  lemma HexNumberOfWord()
    ensures FirmwareUtils.HexNumber("100000000") == 0x1_0000_0000
  {
    var t := "100000000";
    OneThenZeros(8);
    assert t == ['1'] + seq(8, _ => '0');
    FirmwareUtils.HexNumberOfHexDigits(t);
    assert Power16(8) == 0x1_0000_0000 by {
      assert Power16(4) == 0x1_0000;
    }
  }

  /** A one followed by `n` zeros, in hexadecimal, is 16 to the `n`. */
  lemma {:induction false} OneThenZeros(n: nat)
    ensures var t := ['1'] + seq(n, _ => '0');
      FirmwareUtils.HexDigitsValue(t) == Power16(n)
  {
    if n > 0 {
      OneThenZeros(n - 1);
      var t := ['1'] + seq(n - 1, _ => '0');
      FirmwareUtils.HexDigitsSnoc(t, '0');
      assert t + ['0'] == ['1'] + seq(n, _ => '0');
    }
  }

  /** 16 to the `n`. */
  function Power16(n: nat): (p: nat)
    ensures p >= 1
  {
    if n == 0 then 1 else 16 * Power16(n - 1)
  }

  /** The first `c` of `p + [c] + t`, when `p` holds none, is at `|p|`. */
  lemma {:induction false} FirstAfter(p: seq<char>, c: char, t: seq<char>)
    requires c !in p
    ensures IndexOf(p + ([c] + t), c) == Some(|p|)
  {
    if p != [] {
      assert (p + ([c] + t))[1..] == p[1..] + ([c] + t);
      FirstAfter(p[1..], c, t);
    }
  }

  // ----------------------------------------------------------------------
  // nmea_to_decimal
  // ----------------------------------------------------------------------

  /** C's conversion of a double to `int`: truncation toward zero. */
  function Truncate(x: real): int
  {
    if x >= 0.0 then x.Floor else -((-x).Floor)
  }

  /**
   * `nmea_to_decimal`: `ddmm.mmmm` (degrees times 100 plus minutes) as
   * decimal degrees, negated for the southern and western hemispheres.
   */
  function NmeaToDecimal(coord: real, hemi: char): (r: real)
    ensures coord >= 0.0 && (hemi == 'S' || hemi == 'W') ==> r <= 0.0
    ensures coord >= 0.0 && hemi != 'S' && hemi != 'W' ==> r >= 0.0
  {
    var degrees := Truncate(coord / 100.0);
    var minutes := coord - (degrees * 100) as real;
    var decimal := degrees as real + minutes / 60.0;
    if hemi == 'S' || hemi == 'W' then -decimal else decimal
  }

  /**
   * A coordinate of `d` degrees and `m` minutes reads as `d + m/60` degrees,
   * positive for 'N' and 'E' and negative for 'S' and 'W'; the hemisphere
   * changes nothing but the sign.
   */
  lemma NmeaToDecimalMeaning(d: nat, m: real, hemi: char)
    requires 0.0 <= m < 100.0
    ensures var value := d as real + m / 60.0;
      && NmeaToDecimal(100.0 * d as real + m, hemi) == (if hemi == 'S' || hemi == 'W' then -value else value)
    ensures d > 0 || m > 0.0 ==> (NmeaToDecimal(100.0 * d as real + m, hemi) < 0.0 <==> hemi == 'S' || hemi == 'W')
  {
    var coord := 100.0 * d as real + m;
    assert coord / 100.0 == d as real + m / 100.0;
    assert d as real <= coord / 100.0 < d as real + 1.0;
    assert (coord / 100.0).Floor == d;
    assert Truncate(coord / 100.0) == d;
  }

  // ----------------------------------------------------------------------
  // parse_gprmc
  // ----------------------------------------------------------------------

  /** The number of fields parse_gprmc keeps. */
  const FieldCount: nat := 12

  /** The most characters a field keeps (its buffer holds one more, for the NUL). */
  const FieldWidth: nat := 9

  /** The characters that end a field. */
  predicate IsSeparator(c: char)
  {
    c == ',' || c == '*'
  }

  /** The index just after the last separator of `p` (0 if there is none): where the open field starts. */
  function OpenStart(p: seq<char>): (k: nat)
    ensures k <= |p|
  {
    if p == [] then 0
    else if IsSeparator(p[|p| - 1]) then |p|
    else OpenStart(p[..|p| - 1])
  }

  /** The pieces of `s` that a separator closes, in order. */
  function Segments(s: seq<char>): seq<seq<char>>
  {
    if s == [] then []
    else
      var p := s[..|s| - 1];
      if IsSeparator(s[|s| - 1]) then Segments(p) + [p[OpenStart(p)..]] else Segments(p)
  }

  /** A field as stored: its first nine characters at most. */
  function Clip(f: seq<char>): (r: seq<char>)
    ensures |r| <= FieldWidth && |r| <= |f| && r == f[..|r|]
    ensures |f| <= FieldWidth ==> r == f
  {
    if |f| <= FieldWidth then f else f[..FieldWidth]
  }

  /** The field table holding the first twelve of `segs`, clipped, and "" for each one missing. */
  function Table(segs: seq<seq<char>>): (r: seq<seq<char>>)
    ensures |r| == FieldCount
  {
    seq(FieldCount, k requires 0 <= k < FieldCount => if k < |segs| then Clip(segs[k]) else "")
  }

  /** The twelve fields parse_gprmc reads from the data of a sentence. */
  function Fields(s: seq<char>): (r: seq<seq<char>>)
    ensures |r| == FieldCount
  {
    Table(Segments(s))
  }

  /** Storing one more piece fills the next free row of the table. */
  lemma TableStep(segs: seq<seq<char>>, piece: seq<char>)
    requires |segs| < FieldCount
    ensures Table(segs + [piece]) == Table(segs)[|segs| := Clip(piece)]
  {
  }

  /** The table depends only on the first twelve pieces. */
  lemma TableOfPrefix(segs: seq<seq<char>>, more: seq<seq<char>>)
    requires |segs| == FieldCount
    ensures Table(segs + more) == Table(segs)
  {
  }

  /** The first character of a field, NUL for an empty one (`*data[i]`). */
  function Head(f: seq<char>): char
  {
    if f == [] then '\0' else f[0]
  }

  /** C's `atoi`: white space, an optional sign, then the leading digits (none gives 0). */
  function Atoi(t: seq<char>): int
  {
    var u := FirmwareUtils.DropSpaces(t);
    var v := if u != [] && (u[0] == '+' || u[0] == '-') then u[1..] else u;
    var m: int := DigitsValue(v[..LeadingDigits(v)]);
    if u != [] && u[0] == '-' then -m else m
  }

  /** `atoi` reads the notation of a number back as the number. */
  lemma AtoiOfNotation(n: nat)
    ensures Atoi(DecimalString(n)) == n
  {
    var s := DecimalString(n);
    DecimalStringShape(n);
    assert FirmwareUtils.DropSpaces(s) == s;
    LeadingDigitsUnique(s, |s|);
    assert s[..|s|] == s;
  }

  /**
   * The decoded RMC sentence. The floating-point fields (time, latitude,
   * longitude, speed, course) are kept as their text; the integer fields are
   * read with `atoi`.
   */
  datatype Gprmc = Gprmc(
    time: seq<char>, status: char,
    latitude: seq<char>, latDir: char,
    longitude: seq<char>, longDir: char,
    speed: seq<char>, course: seq<char>,
    date: int, magneticVariation: int, magneticVariationDirection: int,
    mode: char)

  /** The record built from the twelve fields. */
  function Record(data: seq<seq<char>>): Gprmc
    requires |data| == FieldCount
  {
    Gprmc(data[0], Head(data[1]), data[2], Head(data[3]), data[4], Head(data[5]),
      data[6], data[7], Atoi(data[8]), Atoi(data[9]), Atoi(data[10]), Head(data[11]))
  }

  /**
   * The sentence decode as the source writes it: the data after "$GPRMC,"
   * (so field 0 is the UTC time and field 1 the status) is rejected when
   * field 0 is "V", or when the mode is not 'A'.
   */
  function ParseGprmcAsWritten(gprmc: seq<char>): (r: Option<Gprmc>)
    ensures r.Some? ==> r.value.mode == 'A' && Fields(gprmc)[0] != "V"
    ensures Fields(gprmc)[0] != "V" && Fields(gprmc)[1] != "V" ==> r == Decode(gprmc)
  {
    var data := Fields(gprmc);
    if data[0] == "V" then None
    else if Head(data[11]) != 'A' then None
    else Some(Record(data))
  }

  /**
   * The sentence decode as intended: rejected when the status field says the
   * data is void ("V"), or when the mode is not 'A'.
   */
  function Decode(gprmc: seq<char>): (r: Option<Gprmc>)
    ensures r.Some? ==>
      && r.value.mode == 'A' && Fields(gprmc)[1] != "V"
      && r.value.time == Fields(gprmc)[0] && r.value.latitude == Fields(gprmc)[2]
      && r.value.longitude == Fields(gprmc)[4] && r.value.date == Atoi(Fields(gprmc)[8])
  {
    var data := Fields(gprmc);
    if data[1] == "V" then None
    else if Head(data[11]) != 'A' then None
    else Some(Record(data))
  }

  /** Joining fields, each followed by ',' except the last, which '*' follows. */
  function Sentence(fields: seq<seq<char>>): seq<char>
  {
    if fields == [] then []
    else Sentence(fields[..|fields| - 1]) + fields[|fields| - 1] + (if |fields| == FieldCount then "*" else ",")
  }

  /** Appending characters that are no separator closes nothing and keeps the open field's start. */
  lemma {:induction false} OpenPiece(x: seq<char>, piece: seq<char>)
    requires forall i :: 0 <= i < |piece| ==> !IsSeparator(piece[i])
    ensures Segments(x + piece) == Segments(x) && OpenStart(x + piece) == OpenStart(x)
  {
    if piece != [] {
      var q := piece[..|piece| - 1];
      assert (x + piece)[..|x + piece| - 1] == x + q;
      OpenPiece(x, q);
    } else {
      assert x + piece == x;
    }
  }

  /** A joined list of fields splits back into those fields. */
  lemma {:induction false} SentenceSegments(fields: seq<seq<char>>)
    requires |fields| <= FieldCount
    requires forall k, i :: 0 <= k < |fields| && 0 <= i < |fields[k]| ==> !IsSeparator(fields[k][i])
    ensures Segments(Sentence(fields)) == fields
    ensures OpenStart(Sentence(fields)) == |Sentence(fields)|
  {
    if fields != [] {
      var init := fields[..|fields| - 1];
      var last := fields[|fields| - 1];
      SentenceSegments(init);
      var x := Sentence(init);
      OpenPiece(x, last);
      var sep := if |fields| == FieldCount then "*" else ",";
      var s := Sentence(fields);
      assert s == (x + last) + sep;
      assert s[..|s| - 1] == x + last;
      assert (x + last)[|x|..] == last;
      assert fields == init + [last];
    }
  }

  /**
   * Twelve fields without separators, each of at most nine characters,
   * written as a sentence's data ("f0,f1,...,f11*") come back as those
   * twelve fields.
   */
  lemma FieldsRoundTrip(fields: seq<seq<char>>)
    requires |fields| == FieldCount
    requires forall k :: 0 <= k < FieldCount ==> |fields[k]| <= FieldWidth
    requires forall k, i :: 0 <= k < FieldCount && 0 <= i < |fields[k]| ==> !IsSeparator(fields[k][i])
    ensures Fields(Sentence(fields)) == fields
  {
    SentenceSegments(fields);
  }

  /**
   * The source's check looks at the time field, so a void fix whose mode is
   * 'A' is accepted; the intended check rejects it.
   */
  lemma AsWrittenAcceptsVoidFix()
    ensures var data := ["123519", "V", "4807.038", "N", "01131.000", "E", "022.4", "084.4", "230394", "003.1", "W", "A"];
      && ParseGprmcAsWritten(Sentence(data)).Some?
      && ParseGprmcAsWritten(Sentence(data)).value.status == 'V'
      && Decode(Sentence(data)).None?
  {
    var data := ["123519", "V", "4807.038", "N", "01131.000", "E", "022.4", "084.4", "230394", "003.1", "W", "A"];
    FieldsRoundTrip(data);
  }

  /** Appending one character closes a field exactly when it is a separator. */
  lemma SegmentsStep(s: seq<char>, end: nat)
    requires end < |s|
    ensures s[..end + 1][..end] == s[..end]
    ensures Segments(s[..end + 1]) == Segments(s[..end]) + (if IsSeparator(s[end]) then [s[OpenStart(s[..end])..end]] else [])
    ensures OpenStart(s[..end + 1]) == if IsSeparator(s[end]) then end + 1 else OpenStart(s[..end])
  {
    assert s[..end + 1][..end] == s[..end];
    assert s[..end][OpenStart(s[..end])..] == s[OpenStart(s[..end])..end];
  }

  /** Extending a string never changes the pieces already closed. */
  lemma {:induction false} SegmentsGrow(s: seq<char>, end: nat)
    requires end <= |s|
    ensures |Segments(s[..end])| <= |Segments(s)| && Segments(s[..end]) == Segments(s)[..|Segments(s[..end])|]
    decreases |s| - end
  {
    if end < |s| {
      SegmentsGrow(s, end + 1);
      SegmentsStep(s, end);
    } else {
      assert s[..end] == s;
    }
  }

  /**
   * `parse_gprmc`: splits the data on ',' and '*' into a table of twelve
   * fields of at most nine characters, stopping at the end of the string or
   * once twelve fields are filled, and decodes the record. A void status or
   * a mode other than 'A' gives no record.
   */
  method ParseGprmc(gprmc: seq<char>) returns (r: Option<Gprmc>)
    ensures r == Decode(gprmc)
  {
    var data := new seq<char>[FieldCount](_ => "");
    var i, start, end := 0, 0, 0;
    while end < |gprmc| && i < FieldCount
      invariant 0 <= end <= |gprmc| && start == OpenStart(gprmc[..end])
      invariant i == |Segments(gprmc[..end])| <= FieldCount
      invariant data[..] == Fields(gprmc[..end])
    {
      SegmentsStep(gprmc, end);
      if IsSeparator(gprmc[end]) {
        TableStep(Segments(gprmc[..end]), gprmc[start..end]);
        data[i] := Clip(gprmc[start..end]);
        i := i + 1;
        start := end + 1;
      }
      end := end + 1;
    }
    SegmentsGrow(gprmc, end);
    if end < |gprmc| {
      var segs := Segments(gprmc);
      assert segs == segs[..i] + segs[i..];
      TableOfPrefix(segs[..i], segs[i..]);
    } else {
      assert gprmc[..end] == gprmc;
    }
    if data[1] == "V" {
      return None;
    }
    var sentence := Record(data[..]);
    if sentence.mode != 'A' {
      return None;
    }
    return Some(sentence);
  }
}
