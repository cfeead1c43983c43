/**
 * The firmware's string and byte helpers (main/src/utils.c): packing an
 * unsigned integer into bytes, URL encoding and decoding of form fields
 * (RFC 3986), ordering MAC addresses, the data-flash block of an offset,
 * random authentication tokens and the substitution of placeholders in an
 * HTML template.
 */
module FirmwareUtils {
  import opened Common

  /** A buffer that holds the first `j` elements of `r` and is extended by the piece that follows them holds one piece more. */
  lemma PrefixExtends<T>(r: seq<T>, done: seq<T>, piece: seq<T>, rest: seq<T>, j: nat)
    requires j <= |r| && done == r[..j] && r[j..] == piece + rest
    ensures j + |piece| <= |r| && done + piece == r[..j + |piece|] && r[j + |piece|..] == rest
  {
    assert r == done + piece + rest;
  }

  /** If `before` kept `orig` from `j` on and `after` kept `before` from `next` on, `after` keeps `orig` from `next` on. */
  lemma SuffixShifts<T>(before: seq<T>, after: seq<T>, orig: seq<T>, j: nat, next: nat)
    requires j <= next <= |before| == |after| == |orig|
    requires before[j..] == orig[j..] && after[next..] == before[next..]
    ensures after[next..] == orig[next..]
  {
    assert before[next..] == before[j..][next - j..];
    assert orig[next..] == orig[j..][next - j..];
  }

  /** The characters of a C string: bytes, none of them the terminating NUL. */
  predicate IsCString(s: seq<char>)
  {
    forall i :: 0 <= i < |s| ==> 0 < s[i] as int < 256
  }

  // ----------------------------------------------------------------------
  // convert_uint_to_n_bytes
  // ----------------------------------------------------------------------

  /** 256 to the power `n`. */
  function Pow256(n: nat): (p: nat)
    ensures p >= 1
  {
    if n == 0 then 1 else 256 * Pow256(n - 1)
  }

  /** `(x >> (k * 8)) & 0xFF`: byte `k` of `x`, counted from the least significant. */
  function ByteOf(x: nat, k: nat): Byte
  {
    if k == 0 then x % 256 else ByteOf(x / 256, k - 1)
  }

  /** The `n` low bytes of `x`, least significant first. */
  function LeastFirst(x: nat, n: nat): (r: seq<Byte>)
    ensures |r| == n
  {
    if n == 0 then [] else [x % 256] + LeastFirst(x / 256, n - 1)
  }

  /** The number stored in bytes that come least significant first. */
  function LittleEndianValue(b: seq<Byte>): nat
  {
    if b == [] then 0 else b[0] + 256 * LittleEndianValue(b[1..])
  }

  /** The number stored in bytes that come most significant first. */
  function BigEndianValue(b: seq<Byte>): nat
  {
    if b == [] then 0 else 256 * BigEndianValue(b[..|b| - 1]) + b[|b| - 1]
  }

  /**
   * The bytes convert_uint_to_n_bytes writes. With `littleEndian` false the
   * least significant byte comes first; with it true the most significant
   * comes first, the opposite of what the flag's name says.
   */
  function Packed(x: nat, n: nat, littleEndian: bool): (r: seq<Byte>)
    ensures |r| == n
  {
    if littleEndian then Reverse(LeastFirst(x, n)) else LeastFirst(x, n)
  }

  /** Byte `k` of the least-significant-first bytes is the shifted and masked input. */
  lemma {:induction false} ByteOfIsLeastFirst(x: nat, n: nat, k: nat)
    requires k < n
    ensures LeastFirst(x, n)[k] == ByteOf(x, k)
  {
    if k > 0 {
      ByteOfIsLeastFirst(x / 256, n - 1, k - 1);
    }
  }

  /**
   * A number that fits in `n` bytes is recovered from its packing in either
   * order: read least significant first when the flag is false, most
   * significant first when it is true.
   */
  lemma PackedRoundTrip(x: nat, n: nat)
    requires x < Pow256(n)
    ensures LittleEndianValue(Packed(x, n, false)) == x
    ensures BigEndianValue(Packed(x, n, true)) == x
  {
    LeastFirstReadsBack(x, n);
    ReversedReadsBack(x, n);
  }

  /** The quotient and remainder by 256 of a number below 256^n, n > 0. */
  lemma SplitByte(x: nat, n: nat)
    requires n > 0 && x < Pow256(n)
    ensures x == 256 * (x / 256) + x % 256 && x / 256 < Pow256(n - 1)
  {
  }

  /** Least-significant-first bytes read back little-endian. */
  lemma {:induction false} LeastFirstReadsBack(x: nat, n: nat)
    requires x < Pow256(n)
    ensures LittleEndianValue(LeastFirst(x, n)) == x
  {
    if n > 0 {
      SplitByte(x, n);
      LeastFirstReadsBack(x / 256, n - 1);
      var l := LeastFirst(x, n);
      assert l[1..] == LeastFirst(x / 256, n - 1);
    }
  }

  /** Least-significant-first bytes, reversed, read back big-endian. */
  lemma {:induction false} ReversedReadsBack(x: nat, n: nat)
    requires x < Pow256(n)
    ensures BigEndianValue(Reverse(LeastFirst(x, n))) == x
  {
    if n > 0 {
      var q := x / 256;
      SplitByte(x, n);
      ReversedReadsBack(q, n - 1);
      var l := LeastFirst(x, n);
      var r := Reverse(l);
      assert l[1..] == LeastFirst(q, n - 1);
      assert r[..n - 1] == Reverse(LeastFirst(q, n - 1));
      assert r[n - 1] == x % 256;
    }
  }

  /**
   * `convert_uint_to_n_bytes`: the `n` bytes of a 32-bit input written to
   * the front of `output`, in the order the flag selects.
   */
  method ConvertUintToNBytes(input: nat, output: array<Byte>, n: nat, littleEndian: bool)
    requires input < 0x1_0000_0000 && n <= 4 && n <= output.Length
    modifies output
    ensures output[..n] == Packed(input, n, littleEndian)
    ensures output[n..] == old(output[n..])
  {
    for i := 0 to n
      invariant forall k :: 0 <= k < i ==> output[k] == Packed(input, n, littleEndian)[k]
      invariant output[n..] == old(output[n..])
    {
      var shift := if littleEndian then n - 1 - i else i;
      ByteOfIsLeastFirst(input, n, shift);
      output[i] := ByteOf(input, shift);
    }
  }

  // ----------------------------------------------------------------------
  // compare_mac
  // ----------------------------------------------------------------------

  /** The comparison of `a` and `b` from position `i` on: -1, 0 or 1 at the first difference. */
  function CompareFrom(a: seq<Byte>, b: seq<Byte>, i: nat): int
    requires |a| == |b| && i <= |a|
    decreases |a| - i
  {
    if i == |a| then 0
    else if a[i] < b[i] then -1
    else if a[i] > b[i] then 1
    else CompareFrom(a, b, i + 1)
  }

  /** `compare_mac`: the six bytes of the two addresses compared in order. */
  function CompareMac(mac1: seq<Byte>, mac2: seq<Byte>): int
    requires |mac1| == 6 && |mac2| == 6
  {
    CompareFrom(mac1, mac2, 0)
  }

  /** `a` comes before `b` in lexicographic order: they agree up to a position where `a` is smaller. */
  ghost predicate LexBefore(a: seq<Byte>, b: seq<Byte>)
    requires |a| == |b|
  {
    exists j :: 0 <= j < |a| && a[..j] == b[..j] && a[j] < b[j]
  }

  /** Two sequences that first differ at `j` cannot also agree past it. */
  lemma FirstDifference(a: seq<Byte>, b: seq<Byte>, j: nat, m: nat)
    requires |a| == |b| && j < |a| && m <= |a| && a[..j] == b[..j] && a[j] != b[j]
    ensures a[..m] == b[..m] ==> m <= j
  {
    if m > j {
      assert a[..m][j] != b[..m][j];
    }
  }

  /** From a position up to which `a` and `b` agree, the comparison is 0, -1 or 1 by lexicographic order. */
  lemma {:induction false} CompareFromMeaning(a: seq<Byte>, b: seq<Byte>, i: nat)
    requires |a| == |b| && i <= |a| && a[..i] == b[..i]
    ensures CompareFrom(a, b, i) == 0 <==> a == b
    ensures CompareFrom(a, b, i) == -1 <==> LexBefore(a, b)
    ensures CompareFrom(a, b, i) == 1 <==> LexBefore(b, a)
    decreases |a| - i
  {
    if i == |a| {
      assert a == a[..i] && b == b[..i];
    } else if a[i] != b[i] {
      assert a != b by { assert a[i] != b[i]; }
      if a[i] < b[i] {
        assert LexBefore(a, b);
        forall j | 0 <= j < |a| && b[..j] == a[..j] ensures !(b[j] < a[j]) {
          FirstDifference(a, b, i, j);
          if j < i { assert a[j] == a[..i][j] == b[..i][j] == b[j]; }
        }
      } else {
        assert LexBefore(b, a);
        forall j | 0 <= j < |a| && a[..j] == b[..j] ensures !(a[j] < b[j]) {
          FirstDifference(a, b, i, j);
          if j < i { assert a[j] == a[..i][j] == b[..i][j] == b[j]; }
        }
      }
    } else {
      assert a[..i + 1] == a[..i] + [a[i]] && b[..i + 1] == b[..i] + [b[i]];
      CompareFromMeaning(a, b, i + 1);
    }
  }

  /**
   * compare_mac orders addresses lexicographically: 0 exactly for equal
   * addresses, -1 exactly when the first is smaller at the first differing
   * byte, 1 exactly when it is larger; so swapping the arguments negates
   * the result.
   */
  lemma CompareMacIsLexicographic(mac1: seq<Byte>, mac2: seq<Byte>)
    requires |mac1| == 6 && |mac2| == 6
    ensures CompareMac(mac1, mac2) in {-1, 0, 1}
    ensures CompareMac(mac1, mac2) == 0 <==> mac1 == mac2
    ensures CompareMac(mac1, mac2) == -1 <==> LexBefore(mac1, mac2)
    ensures CompareMac(mac1, mac2) == 1 <==> LexBefore(mac2, mac1)
    ensures CompareMac(mac2, mac1) == -CompareMac(mac1, mac2)
  {
    CompareFromMeaning(mac1, mac2, 0);
    CompareFromMeaning(mac2, mac1, 0);
    CompareFromRange(mac1, mac2, 0);
  }

  /** The comparison only ever yields -1, 0 or 1. */
  lemma {:induction false} CompareFromRange(a: seq<Byte>, b: seq<Byte>, i: nat)
    requires |a| == |b| && i <= |a|
    ensures CompareFrom(a, b, i) in {-1, 0, 1}
    decreases |a| - i
  {
    if i < |a| && a[i] == b[i] {
      CompareFromRange(a, b, i + 1);
    }
  }

  // ----------------------------------------------------------------------
  // get_block
  // ----------------------------------------------------------------------

  /**
   * `get_block`: the ceiling of `offset / 32`, less one unless it is zero;
   * the 32-byte data-flash block that holds byte `offset`.
   */
  function GetBlock(offset: Byte): (block: int)
  {
    var up := -((-(offset as real) / 32.0).Floor);
    if up != 0 then up - 1 else up
  }

  /**
   * get_block(0) is 0; otherwise the block is (offset - 1) / 32, the block
   * whose 32 offsets (32·block, 32·block + 32] contain `offset`.
   */
  lemma GetBlockIsBlockOfOffset(offset: Byte)
    ensures offset == 0 ==> GetBlock(offset) == 0
    ensures offset > 0 ==> GetBlock(offset) == (offset - 1) / 32
    ensures offset > 0 ==> 32 * GetBlock(offset) < offset <= 32 * GetBlock(offset) + 32
    ensures 0 <= GetBlock(offset) < 8
  {
    var f := (-(offset as real) / 32.0).Floor;
    assert f as real <= -(offset as real) / 32.0 < f as real + 1.0;
    assert 32 * f <= -(offset as int) < 32 * f + 32;
  }

  // ----------------------------------------------------------------------
  // random_token
  // ----------------------------------------------------------------------

  /** The alphabet random tokens are drawn from: `charset` in random_token, spelled in three parts. */
  const Uppercase: seq<char> := "ABCDEFGHIJKLMNOPQRSTUVWXYZ"
  const Lowercase: seq<char> := "abcdefghijklmnopqrstuvwxyz"
  const Digits: seq<char> := "0123456789"
  const Charset: seq<char> := Uppercase + Lowercase + Digits

  /** An ASCII letter or digit. */
  predicate IsAlphanumeric(c: char)
  {
    'A' <= c <= 'Z' || 'a' <= c <= 'z' || '0' <= c <= '9'
  }

  /** The characters picked by the random draws, one per draw (`charset[esp_random() % 62]`). */
  function TokenChars(draws: seq<nat>): (t: seq<char>)
    ensures |t| == |draws|
  {
    seq(|draws|, i requires 0 <= i < |draws| => Charset[draws[i] % 62])
  }

  /** The character at index `i` of the 62 letters and digits in the alphabet's order. */
  function AlphabetAt(i: nat): char
    requires i < 62
  {
    if i < 26 then ('A' as int + i) as char
    else if i < 52 then ('a' as int + i - 26) as char
    else ('0' as int + i - 52) as char
  }

  /** The alphabet is the 26 uppercase letters, the 26 lowercase letters and the 10 digits, each run in order. */
  lemma CharsetLayout()
    ensures |Charset| == 62
    ensures forall i :: 0 <= i < 62 ==> Charset[i] == AlphabetAt(i)
  {
    assert forall i :: 0 <= i < 26 ==> Uppercase[i] == ('A' as int + i) as char;
    assert forall i :: 0 <= i < 26 ==> Lowercase[i] == ('a' as int + i) as char;
    assert forall i :: 0 <= i < 10 ==> Digits[i] == ('0' as int + i) as char;
  }

  /** Every character of a token is an ASCII letter or digit. */
  lemma TokenIsAlphanumeric(draws: seq<nat>)
    ensures forall i :: 0 <= i < |draws| ==> IsAlphanumeric(TokenChars(draws)[i])
  {
    CharsetLayout();
  }

  /** Every ASCII letter or digit is in the alphabet, so some draw picks it. */
  lemma CharsetHasEveryAlphanumeric(c: char)
    requires IsAlphanumeric(c)
    ensures exists d :: 0 <= d < 62 && Charset[d] == c
  {
    CharsetLayout();
    if 'A' <= c <= 'Z' {
      assert Charset[c as int - 'A' as int] == c;
    } else if 'a' <= c <= 'z' {
      assert Charset[c as int - 'a' as int + 26] == c;
    } else {
      assert Charset[c as int - '0' as int + 52] == c;
    }
  }

  /**
   * `random_token`: each of the `tokenLength` positions of `key` gets the
   * alphabet character picked by the next hardware random number (given
   * here as `draws`), then the last position is overwritten by NUL.
   */
  method RandomToken(key: array<char>, tokenLength: nat, draws: seq<nat>)
    requires 1 <= tokenLength <= key.Length && |draws| == tokenLength
    modifies key
    ensures key[..tokenLength - 1] == TokenChars(draws[..tokenLength - 1])
    ensures key[tokenLength - 1] == '\0'
    ensures key[tokenLength..] == old(key[tokenLength..])
  {
    for i := 0 to tokenLength
      invariant forall k :: 0 <= k < i ==> key[k] == Charset[draws[k] % 62]
      invariant key[tokenLength..] == old(key[tokenLength..])
    {
      key[i] := Charset[draws[i] % 62];
    }
    key[tokenLength - 1] := '\0';
  }

  // ----------------------------------------------------------------------
  // url_encode and url_decode
  // ----------------------------------------------------------------------

  /** The unreserved characters of RFC 3986, section 2.3: letters, digits, '-', '_', '.', '~'. */
  predicate Unreserved(c: char)
  {
    'a' <= c <= 'z' || 'A' <= c <= 'Z' || '0' <= c <= '9' || c == '-' || c == '_' || c == '.' || c == '~'
  }

  /** The uppercase hexadecimal digit of a value below 16. */
  function HexDigit(v: nat): char
    requires v < 16
  {
    if v < 10 then ('0' as int + v) as char else ('A' as int + v - 10) as char
  }

  /** url_encode's digit table "0123456789ABCDEF" holds the uppercase digit of each value at its index. */
  lemma HexTable(v: nat)
    requires v < 16
    ensures "0123456789ABCDEF"[v] == HexDigit(v)
  {
  }

  /** A hexadecimal digit, either case. */
  predicate IsHexDigit(c: char)
  {
    '0' <= c <= '9' || 'a' <= c <= 'f' || 'A' <= c <= 'F'
  }

  /** The value of a hexadecimal digit. */
  function HexDigitValue(c: char): (v: nat)
    requires IsHexDigit(c)
    ensures v < 16
  {
    if '0' <= c <= '9' then c as int - '0' as int
    else if 'a' <= c <= 'f' then c as int - 'a' as int + 10
    else c as int - 'A' as int + 10
  }

  /** The uppercase digits read back as their values. */
  lemma HexDigitReadsBack(v: nat)
    requires v < 16
    ensures IsHexDigit(HexDigit(v)) && HexDigitValue(HexDigit(v)) == v
  {
  }

  /** `%HH` with uppercase digits, RFC 3986 section 2.1: the escape of one byte (of its low eight bits). */
  function Escape(c: char): (r: seq<char>)
    ensures |r| == 3
  {
    ['%', HexDigit(c as int / 16 % 16), HexDigit(c as int % 16)]
  }

  /** What url_encode writes for one character when there is room. */
  function Unit(c: char): seq<char>
  {
    if Unreserved(c) then [c] else Escape(c)
  }

  /** The encoding of `s` with unlimited room. */
  function FullEncode(s: seq<char>): seq<char>
  {
    if s == [] then [] else Unit(s[0]) + FullEncode(s[1..])
  }

  /**
   * What `url_encode` writes before the terminating NUL when `room` more
   * characters may be written: an unreserved character needs one place, an
   * escape needs strictly more than three, and the first character that
   * does not fit ends the output.
   */
  function Encoded(s: seq<char>, room: nat): (r: seq<char>)
    ensures |r| <= room
  {
    if s == [] || room == 0 then []
    else if Unreserved(s[0]) then [s[0]] + Encoded(s[1..], room - 1)
    else if room > 3 then Escape(s[0]) + Encoded(s[1..], room - 3)
    else []
  }

  /** One step of the encoding: the unit for the first character, or the end. */
  lemma EncodedStep(s: seq<char>, room: nat)
    requires s != [] && room > 0
    ensures Unreserved(s[0]) ==> Encoded(s, room) == [s[0]] + Encoded(s[1..], room - 1)
    ensures !Unreserved(s[0]) && room > 3 ==> Encoded(s, room) == Escape(s[0]) + Encoded(s[1..], room - 3)
    ensures !Unreserved(s[0]) && room <= 3 ==> Encoded(s, room) == []
  {
  }

  /**
   * One round of url_encode's loop at `src[i]`, with `room` places left
   * before the terminator: writes the character's unit at `dest[j..]` and
   * returns where the output continues, or reports that it does not fit.
   */
  method EncodeAt(dest: array<char>, src: seq<char>, i: nat, j: nat, room: nat) returns (next: nat, stop: bool)
    requires i < |src| && room > 0 && j + room <= dest.Length
    modifies dest
    ensures stop ==> next == j && Encoded(src[i..], room) == []
    ensures !stop ==> (j < next <= j + room
      && Encoded(src[i..], room) == dest[j..next] + Encoded(src[i + 1..], room - (next - j)))
    ensures dest[..j] == old(dest[..j]) && dest[next..] == old(dest[next..])
  {
    var c := src[i];
    EncodedStep(src[i..], room);
    assert src[i..][1..] == src[i + 1..];
    if Unreserved(c) {
      dest[j] := c;
      next, stop := j + 1, false;
      assert dest[j..next] == [c];
    } else if room > 3 {
      // `(src[i] >> 4) & 0xF` keeps the high nibble even for a negative signed char.
      dest[j] := '%';
      dest[j + 1] := HexDigit(c as int / 16 % 16);
      dest[j + 2] := HexDigit(c as int % 16);
      next, stop := j + 3, false;
      assert dest[j..next] == Escape(c);
    } else {
      next, stop := j, true;
    }
  }

  /**
   * `url_encode`: the encoding that fits in `destSize` characters including
   * the terminator, NUL-terminated, with nothing written after the NUL.
   */
  method UrlEncode(dest: array<char>, src: seq<char>, destSize: nat)
    requires IsCString(src) && 1 <= destSize <= dest.Length
    modifies dest
    ensures var r := Encoded(src, destSize - 1);
      && |r| < destSize && dest[..|r|] == r && dest[|r|] == '\0'
      && dest[|r| + 1..] == old(dest[|r| + 1..])
  {
    ghost var r := Encoded(src, destSize - 1);
    var i: nat, j: nat := 0, 0;
    while i < |src| && j < destSize - 1
      invariant i <= |src| && j <= |r| && j < destSize
      invariant dest[..j] == r[..j] && dest[j..] == old(dest[..])[j..]
      invariant r[j..] == Encoded(src[i..], destSize - 1 - j)
      decreases |src| - i
    {
      var next, stop := EncodeStep(dest, src, i, j, destSize, r, old(dest[..]));
      if stop {
        break;
      }
      j, i := next, i + 1;
    }
    assert r[j..] == [] by {
      if i == |src| { assert src[i..] == []; }
    }
    dest[j] := '\0';
    assert dest[..j] == r;
  }

  /**
   * One pass of `url_encode`'s loop, seen against the whole encoding `r`:
   * either nothing fits and the encoding ends here, or one more unit of `r`
   * is written and the rest of `r` encodes the rest of the source.
   */
  method EncodeStep(dest: array<char>, src: seq<char>, i: nat, j: nat, destSize: nat, ghost r: seq<char>, ghost orig: seq<char>)
    returns (next: nat, stop: bool)
    requires i < |src| && j < destSize - 1 && destSize <= dest.Length == |orig|
    requires j <= |r| && dest[..j] == r[..j] && dest[j..] == orig[j..]
    requires r[j..] == Encoded(src[i..], destSize - 1 - j)
    modifies dest
    ensures stop ==> next == j && dest[..] == old(dest[..]) && r[j..] == []
    ensures !stop ==>
      && j < next <= |r| && next <= destSize - 1
      && dest[..next] == r[..next] && dest[next..] == orig[next..]
      && r[next..] == Encoded(src[i + 1..], destSize - 1 - next)
  {
    ghost var before := dest[..];
    next, stop := EncodeAt(dest, src, i, j, destSize - 1 - j);
    if stop {
      assert dest[..] == dest[..j] + dest[j..];
      return;
    }
    PrefixExtends(r, before[..j], dest[j..next], Encoded(src[i + 1..], destSize - 1 - next), j);
    assert dest[..next] == before[..j] + dest[j..next];
    SuffixShifts(before, dest[..], orig, j, next);
  }

  /** Whether the character is one of C's `isspace` characters. */
  predicate IsSpace(c: char)
  {
    c == ' ' || 9 <= c as int <= 13
  }

  /** The string after its leading white space. */
  function DropSpaces(t: seq<char>): seq<char>
  {
    if t != [] && IsSpace(t[0]) then DropSpaces(t[1..]) else t
  }

  /** The number of hexadecimal digits at the front of `t`. */
  function LeadingHexLength(t: seq<char>): (n: nat)
    ensures n <= |t| && forall i :: 0 <= i < n ==> IsHexDigit(t[i])
  {
    if t == [] || !IsHexDigit(t[0]) then 0 else 1 + LeadingHexLength(t[1..])
  }

  /** The value of a string of hexadecimal digits. */
  function HexDigitsValue(t: seq<char>): nat
    requires forall i :: 0 <= i < |t| ==> IsHexDigit(t[i])
  {
    if t == [] then 0 else 16 * HexDigitsValue(t[..|t| - 1]) + HexDigitValue(t[|t| - 1])
  }

  /** The range of the ESP32's `long`, which is 32 bits wide. */
  const LongMax: int := 0x7FFF_FFFF
  const LongMin: int := -0x8000_0000

  /**
   * The number `strtol(t, NULL, 16)` spells before any range check: white
   * space skipped, an optional sign, an optional "0x" before a digit, then
   * as many hexadecimal digits as there are (none gives 0).
   */
  function HexNumber(t: seq<char>): int
  {
    var u := DropSpaces(t);
    var negative := u != [] && u[0] == '-';
    var v := if u != [] && (u[0] == '+' || u[0] == '-') then u[1..] else u;
    var w := if |v| >= 3 && v[0] == '0' && (v[1] == 'x' || v[1] == 'X') && IsHexDigit(v[2]) then v[2..] else v;
    var m: int := HexDigitsValue(w[..LeadingHexLength(w)]);
    if negative then -m else m
  }

  /** A value brought into the range of `long`, as `strtol` saturates to LONG_MIN or LONG_MAX. */
  function SaturateLong(x: int): (r: int)
    ensures LongMin <= r <= LongMax
    ensures LongMin <= x <= LongMax ==> r == x
    ensures x > LongMax ==> r == LongMax
    ensures x < LongMin ==> r == LongMin
  {
    if x < LongMin then LongMin else if x > LongMax then LongMax else x
  }

  /** C's `strtol(t, NULL, 16)` on the ESP32: the number `t` spells, saturated to the range of `long`. */
  function Strtol16(t: seq<char>): (r: int)
    ensures LongMin <= r <= LongMax
  {
    SaturateLong(HexNumber(t))
  }

  /** A string of hexadecimal digits is read whole. */
  lemma {:induction false} AllHexLength(t: seq<char>)
    requires forall i :: 0 <= i < |t| ==> IsHexDigit(t[i])
    ensures LeadingHexLength(t) == |t|
  {
    if t != [] {
      AllHexLength(t[1..]);
    }
  }

  /** Reading one more digit multiplies by 16 and adds it. */
  lemma HexDigitsSnoc(t: seq<char>, c: char)
    requires forall i :: 0 <= i < |t| ==> IsHexDigit(t[i])
    requires IsHexDigit(c)
    ensures HexDigitsValue(t + [c]) == 16 * HexDigitsValue(t) + HexDigitValue(c)
  {
    assert (t + [c])[..|t|] == t;
  }

  /** The byte `(char)strtol(hex, NULL, 16)` for the two characters after a '%'. */
  function HexByte(a: char, b: char): char
  {
    (Strtol16([a, b]) % 256) as char
  }

  /** Two hexadecimal digits of either case decode to the byte they spell. */
  lemma HexByteOfDigits(a: char, b: char)
    requires IsHexDigit(a) && IsHexDigit(b)
    ensures HexByte(a, b) as int == 16 * HexDigitValue(a) + HexDigitValue(b)
  {
    HexNumberOfDigits(a, b);
    var v := 16 * HexDigitValue(a) + HexDigitValue(b);
    DigitPairIsByte(HexDigitValue(a), HexDigitValue(b));
    assert Strtol16([a, b]) == v;
  }

  /** Two base-16 digits make a number below 256. */
  lemma DigitPairIsByte(x: nat, y: nat)
    requires x < 16 && y < 16
    ensures 16 * x + y < 256
  {
  }

  /** A string made only of hexadecimal digits reads as their value: no space, sign or "0x" to skip. */
  lemma HexNumberOfHexDigits(t: seq<char>)
    requires t != [] && forall i :: 0 <= i < |t| ==> IsHexDigit(t[i])
    ensures HexNumber(t) == HexDigitsValue(t)
  {
    assert DropSpaces(t) == t;
    AllHexLength(t);
    assert t[..|t|] == t;
  }

  /** Two hexadecimal digits spell the number 16a+b. */
  lemma HexNumberOfDigits(a: char, b: char)
    requires IsHexDigit(a) && IsHexDigit(b)
    ensures HexNumber([a, b]) == 16 * HexDigitValue(a) + HexDigitValue(b)
  {
    var t := [a, b];
    HexNumberOfHexDigits(t);
    HexDigitsSnoc([], a);
    HexDigitsSnoc([a], b);
    assert [] + [a] == [a] && [a] + [b] == t;
  }

  /**
   * Whether decoding reaches the end of `s`: every '%' the scan meets has
   * two more characters after it. On a '%' closer to the end url_decode
   * does not advance and never returns.
   */
  predicate WellEscaped(s: seq<char>)
  {
    if s == [] then true
    else if s[0] == '%' then |s| >= 3 && WellEscaped(s[3..])
    else WellEscaped(s[1..])
  }

  /** What `url_decode` writes before the NUL: '+' becomes a space, `%HH` the byte `HH`, all else is copied. */
  function UrlDecoded(s: seq<char>): (r: seq<char>)
    requires WellEscaped(s)
    ensures |r| <= |s|
  {
    if s == [] then []
    else if s[0] == '%' then [HexByte(s[1], s[2])] + UrlDecoded(s[3..])
    else if s[0] == '+' then [' '] + UrlDecoded(s[1..])
    else [s[0]] + UrlDecoded(s[1..])
  }

  /** One step of the decoding: what the first character or escape produces. */
  lemma UrlDecodedStep(s: seq<char>)
    requires WellEscaped(s) && s != []
    ensures s[0] == '%' ==> WellEscaped(s[3..]) && UrlDecoded(s) == [HexByte(s[1], s[2])] + UrlDecoded(s[3..])
    ensures s[0] != '%' ==> WellEscaped(s[1..])
    ensures s[0] == '+' ==> UrlDecoded(s) == [' '] + UrlDecoded(s[1..])
    ensures s[0] != '%' && s[0] != '+' ==> UrlDecoded(s) == [s[0]] + UrlDecoded(s[1..])
  {
  }

  /** Decodes the character or escape at `src[s]` into `dest[d]` and returns where the next one starts. */
  method DecodeAt(dest: array<char>, src: seq<char>, s: nat, d: nat) returns (next: nat)
    requires s < |src| && WellEscaped(src[s..]) && d < dest.Length
    modifies dest
    ensures s < next <= |src| && WellEscaped(src[next..])
    ensures UrlDecoded(src[s..]) == [dest[d]] + UrlDecoded(src[next..])
    ensures dest[..d] == old(dest[..d]) && dest[d + 1..] == old(dest[d + 1..])
  {
    var c := src[s];
    var out, step := c, 1;
    if c == '%' {
      out, step := HexByte(src[s + 1], src[s + 2]), 3;
    } else if c == '+' {
      out := ' ';
    }
    UrlDecodedStep(src[s..]);
    assert src[s..][step..] == src[s + step..];
    dest[d] := out;
    next := s + step;
  }

  /** `url_decode`: the decoding of `src` written to the front of `dest`, NUL-terminated. */
  method UrlDecode(dest: array<char>, src: seq<char>)
    requires IsCString(src) && WellEscaped(src) && |UrlDecoded(src)| < dest.Length
    modifies dest
    ensures var r := UrlDecoded(src);
      dest[..|r|] == r && dest[|r|] == '\0' && dest[|r| + 1..] == old(dest[|r| + 1..])
  {
    ghost var r := UrlDecoded(src);
    var s, d := 0, 0;
    while s < |src|
      invariant 0 <= s <= |src| && WellEscaped(src[s..]) && d <= |r|
      invariant dest[..d] == r[..d] && r[d..] == UrlDecoded(src[s..])
      invariant dest[d..] == old(dest[d..])
      decreases |src| - s
    {
      ghost var before := dest[..];
      s := DecodeAt(dest, src, s, d);
      assert dest[d + 1..] == before[d + 1..];
      assert before[d + 1..] == old(dest[d..])[1..];
      assert dest[..d + 1] == r[..d + 1] by {
        assert dest[..d + 1] == dest[..d] + [dest[d]];
        assert r[..d + 1] == r[..d] + [r[d]];
      }
      assert r[d + 1..] == r[d..][1..];
      d := d + 1;
    }
    assert src[s..] == [];
    dest[d] := '\0';
    assert dest[..d] == r;
  }

  /** The two digits of a byte's escape read back as the byte. */
  lemma EscapeDigitsReadBack(c: char)
    requires c as int < 256
    ensures HexByte(HexDigit(c as int / 16 % 16), HexDigit(c as int % 16)) == c
  {
    HexDigitReadsBack(c as int / 16 % 16);
    HexDigitReadsBack(c as int % 16);
    HexByteOfDigits(HexDigit(c as int / 16 % 16), HexDigit(c as int % 16));
    ByteFromDigits(c as int);
  }

  /** A byte is sixteen times its high digit plus its low digit. */
  lemma ByteFromDigits(x: nat)
    requires x < 256
    ensures 16 * (x / 16 % 16) + x % 16 == x
  {
    assert x / 16 < 16;
  }

  /** The unit written for one byte decodes back to that byte, whatever follows it. */
  lemma DecodeUnit(c: char, rest: seq<char>)
    requires 0 < c as int < 256 && WellEscaped(rest)
    ensures WellEscaped(Unit(c) + rest) && UrlDecoded(Unit(c) + rest) == [c] + UrlDecoded(rest)
  {
    var e := Unit(c) + rest;
    if Unreserved(c) {
      assert e[1..] == rest;
      UrlDecodedStep(e);
    } else {
      assert e[3..] == rest;
      EscapeDigitsReadBack(c);
      UrlDecodedStep(e);
    }
  }

  /** A full encoding decodes back to the original string: `url_decode(url_encode(s)) == s`. */
  lemma {:induction false} EncodeDecodeRoundTrip(s: seq<char>)
    requires IsCString(s)
    ensures WellEscaped(FullEncode(s)) && UrlDecoded(FullEncode(s)) == s
  {
    if s != [] {
      EncodeDecodeRoundTrip(s[1..]);
      DecodeUnit(s[0], FullEncode(s[1..]));
    }
  }

  /**
   * The bounded encoding is the full encoding of a prefix of the input:
   * the output never ends in a partial escape.
   */
  lemma {:induction false} EncodedIsWholeUnits(s: seq<char>, room: nat)
    ensures exists k :: 0 <= k <= |s| && Encoded(s, room) == FullEncode(s[..k])
  {
    if s == [] || room == 0 || (!Unreserved(s[0]) && room <= 3) {
      assert Encoded(s, room) == FullEncode(s[..0]);
    } else {
      var room' := if Unreserved(s[0]) then room - 1 else room - 3;
      EncodedIsWholeUnits(s[1..], room');
      var k :| 0 <= k <= |s[1..]| && Encoded(s[1..], room') == FullEncode(s[1..][..k]);
      assert s[..k + 1][1..] == s[1..][..k];
      assert Encoded(s, room) == FullEncode(s[..k + 1]);
    }
  }

  /** With more room than the full encoding needs, nothing is cut off. */
  lemma {:induction false} EncodedAllWhenRoom(s: seq<char>, room: nat)
    requires |FullEncode(s)| < room
    ensures Encoded(s, room) == FullEncode(s)
  {
    if s != [] {
      var room' := if Unreserved(s[0]) then room - 1 else room - 3;
      EncodedAllWhenRoom(s[1..], room');
    }
  }

  /**
   * Decoding what url_encode wrote gives back a prefix of the input, and
   * the whole input when the buffer is larger than the full encoding.
   */
  lemma EncodedDecodesToPrefix(s: seq<char>, destSize: nat)
    requires IsCString(s) && destSize >= 1
    ensures WellEscaped(Encoded(s, destSize - 1))
    ensures exists k :: 0 <= k <= |s| && UrlDecoded(Encoded(s, destSize - 1)) == s[..k]
    ensures |FullEncode(s)| + 1 < destSize ==> UrlDecoded(Encoded(s, destSize - 1)) == s
  {
    EncodedIsWholeUnits(s, destSize - 1);
    var k :| 0 <= k <= |s| && Encoded(s, destSize - 1) == FullEncode(s[..k]);
    EncodeDecodeRoundTrip(s[..k]);
    if |FullEncode(s)| + 1 < destSize {
      EncodedAllWhenRoom(s, destSize - 1);
      EncodeDecodeRoundTrip(s);
    }
  }

  // ----------------------------------------------------------------------
  // replace_placeholder
  // ----------------------------------------------------------------------

  /** Whether `h` begins with `p` (`strncmp(h, p, strlen(p)) == 0`). */
  predicate StartsWith(h: seq<char>, p: seq<char>)
  {
    |p| <= |h| && h[..|p|] == p
  }

  /** The first of placeholders `k`, …, `num - 1`, in list order, that `h` begins with. */
  function FirstMatch(h: seq<char>, phs: seq<seq<char>>, num: nat, k: nat): (r: Option<nat>)
    requires num <= |phs|
    decreases num - k
    ensures r.Some? ==> (k <= r.value < num && StartsWith(h, phs[r.value])
      && forall j :: k <= j < r.value ==> !StartsWith(h, phs[j]))
    ensures r.None? ==> forall j :: k <= j < num ==> !StartsWith(h, phs[j])
  {
    if k >= num then None
    else if StartsWith(h, phs[k]) then Some(k)
    else FirstMatch(h, phs, num, k + 1)
  }

  /**
   * The replacement table replace_placeholder can finish with: `num`
   * placeholders and substitutes, no placeholder empty (an empty one is
   * found at every position and the scan never advances).
   */
  predicate ValidTable(phs: seq<seq<char>>, subs: seq<seq<char>>, num: nat)
  {
    num <= |phs| && num <= |subs| && forall k :: 0 <= k < num ==> phs[k] != []
  }

  /**
   * The page replace_placeholder builds: scanning left to right, the first
   * placeholder in list order found at the current position is replaced by
   * its substitute and skipped; with none, the character is copied.
   */
  function Replaced(h: seq<char>, phs: seq<seq<char>>, subs: seq<seq<char>>, num: nat): seq<char>
    requires ValidTable(phs, subs, num)
    decreases |h|
  {
    if h == [] then []
    else match FirstMatch(h, phs, num, 0)
      case Some(k) => subs[k] + Replaced(h[|phs[k]|..], phs, subs, num)
      case None => [h[0]] + Replaced(h[1..], phs, subs, num)
  }

  /** Substituting every placeholder by itself leaves the page as it was. */
  lemma {:induction false} IdentitySubstitution(h: seq<char>, phs: seq<seq<char>>, num: nat)
    requires ValidTable(phs, phs, num)
    ensures Replaced(h, phs, phs, num) == h
    decreases |h|
  {
    if h != [] {
      match FirstMatch(h, phs, num, 0)
      case Some(k) =>
        IdentitySubstitution(h[|phs[k]|..], phs, num);
        assert h == h[..|phs[k]|] + h[|phs[k]|..];
      case None =>
        IdentitySubstitution(h[1..], phs, num);
        assert h == [h[0]] + h[1..];
    }
  }

  /** A page in which no placeholder starts anywhere comes back unchanged. */
  lemma {:induction false} NoPlaceholderNoChange(h: seq<char>, phs: seq<seq<char>>, subs: seq<seq<char>>, num: nat)
    requires ValidTable(phs, subs, num)
    requires forall i, k :: 0 <= i < |h| && 0 <= k < num ==> !StartsWith(h[i..], phs[k])
    ensures Replaced(h, phs, subs, num) == h
    decreases |h|
  {
    if h != [] {
      assert h[0..] == h;
      forall i, k | 0 <= i < |h| - 1 && 0 <= k < num ensures !StartsWith(h[1..][i..], phs[k]) {
        assert h[1..][i..] == h[i + 1..];
      }
      NoPlaceholderNoChange(h[1..], phs, subs, num);
      assert h == [h[0]] + h[1..];
    }
  }

  /**
   * The number of occurrences of `p` the counting loop finds with `strstr`:
   * each occurrence found is skipped whole before searching again.
   */
  function Count(h: seq<char>, p: seq<char>): nat
    requires p != []
    decreases |h|
  {
    if h == [] then 0
    else if StartsWith(h, p) then 1 + Count(h[|p|..], p)
    else Count(h[1..], p)
  }

  /** The correction the counting loop adds for placeholders `k`, …, `num - 1`. */
  function CountedGrowth(h: seq<char>, phs: seq<seq<char>>, subs: seq<seq<char>>, num: nat, k: nat): int
    requires ValidTable(phs, subs, num) && k <= num
    decreases num - k
  {
    if k == num then 0
    else Count(h, phs[k]) * (|subs[k]| - |phs[k]|) + CountedGrowth(h, phs, subs, num, k + 1)
  }

  /**
   * The length replace_placeholder as written allocates for (before the
   * terminator): the page's length plus, for each placeholder, its count
   * times the change in length, in 32-bit `size_t` arithmetic.
   */
  function AllocatedLength(h: seq<char>, phs: seq<seq<char>>, subs: seq<seq<char>>, num: nat): nat
    requires ValidTable(phs, subs, num)
  {
    (|h| + CountedGrowth(h, phs, subs, num, 0)) % 0x1_0000_0000
  }

  /** With a single placeholder the counted length is the length of the page built. */
  lemma {:induction false} SinglePlaceholderLength(h: seq<char>, p: seq<char>, s: seq<char>)
    requires p != []
    ensures |Replaced(h, [p], [s], 1)| == |h| + Count(h, p) * (|s| - |p|)
    decreases |h|
  {
    if h != [] {
      if StartsWith(h, p) {
        assert FirstMatch(h, [p], 1, 0) == Some(0);
        SinglePlaceholderLength(h[|p|..], p, s);
        OneMoreTimes(Count(h[|p|..], p), |s| - |p|);
      } else {
        assert FirstMatch(h, [p], 1, 0) == None;
        SinglePlaceholderLength(h[1..], p, s);
      }
    }
  }

  /** One more occurrence adds one more change in length. */
  lemma OneMoreTimes(c: int, d: int)
    ensures (1 + c) * d == c * d + d
  {
  }

  /**
   * The allocation as written is right for one placeholder: it is the
   * length of the page built, whenever that fits in `size_t`.
   */
  lemma SinglePlaceholderAllocation(h: seq<char>, p: seq<char>, s: seq<char>)
    requires p != [] && |Replaced(h, [p], [s], 1)| < 0x1_0000_0000
    ensures AllocatedLength(h, [p], [s], 1) == |Replaced(h, [p], [s], 1)|
  {
    SinglePlaceholderLength(h, p, s);
  }

  /**
   * With placeholders that overlap, the allocation as written is too small:
   * for the page "AB", placeholders "A" and "AB" with substitutes "XXXX" and
   * "", the counting loop finds one of each and leaves room for 3 characters, but
   * the scan replaces only "A" and writes "XXXXB", 5 characters, past the
   * end of the buffer.
   */
  lemma AsWrittenAllocationTooSmall()
    ensures AllocatedLength("AB", ["A", "AB"], ["XXXX", ""], 2) == 3
    ensures Replaced("AB", ["A", "AB"], ["XXXX", ""], 2) == "XXXXB"
  {
    var h, phs, subs := "AB", ["A", "AB"], ["XXXX", ""];
    var b := h[1..];
    assert b == "B" && h[2..] == [] && b[1..] == [];
    assert h[..1] == phs[0] && h[..2] == phs[1];
    assert !StartsWith(b, phs[0]) by { assert b[..1][0] != phs[0][0]; }
    assert !StartsWith(b, phs[1]);
    assert Count(b, phs[0]) == 0 && Count(b, phs[1]) == 0;
    assert Count(h, phs[0]) == 1 && Count(h, phs[1]) == 1;
    assert CountedGrowth(h, phs, subs, 2, 2) == 0;
    assert CountedGrowth(h, phs, subs, 2, 0) == 3 + -2;
    assert FirstMatch(h, phs, 2, 0) == Some(0);
    assert FirstMatch(b, phs, 2, 0) == None;
    assert Replaced(b, phs, subs, 2) == "B";
  }

  /** The first placeholder, in list order, found at position `pos` of `h` (the inner `strncmp` loop). */
  method MatchAt(h: seq<char>, pos: nat, phs: seq<seq<char>>, num: nat) returns (m: Option<nat>)
    requires pos <= |h| && num <= |phs|
    ensures m == FirstMatch(h[pos..], phs, num, 0)
  {
    for i := 0 to num
      invariant FirstMatch(h[pos..], phs, num, 0) == FirstMatch(h[pos..], phs, num, i)
    {
      if |phs[i]| <= |h| - pos && h[pos..pos + |phs[i]|] == phs[i] {
        assert StartsWith(h[pos..], phs[i]);
        return Some(i);
      }
    }
    return None;
  }

  /** One step of the scan at position `pos`: the substitute of the placeholder found there, or the character. */
  lemma ReplacedStep(h: seq<char>, pos: nat, phs: seq<seq<char>>, subs: seq<seq<char>>, num: nat)
    requires ValidTable(phs, subs, num) && pos < |h|
    ensures match FirstMatch(h[pos..], phs, num, 0)
      case Some(k) => pos < pos + |phs[k]| <= |h|
        && Replaced(h[pos..], phs, subs, num) == subs[k] + Replaced(h[pos + |phs[k]|..], phs, subs, num)
      case None => Replaced(h[pos..], phs, subs, num) == [h[pos]] + Replaced(h[pos + 1..], phs, subs, num)
  {
    match FirstMatch(h[pos..], phs, num, 0)
    case Some(k) =>
      assert h[pos..][|phs[k]|..] == h[pos + |phs[k]|..];
    case None =>
      assert h[pos..][1..] == h[pos + 1..];
  }

  /**
   * The length of the page the scan builds, computed by running the same
   * scan: the size replace_placeholder needs to allocate.
   */
  method ReplacedLength(h: seq<char>, phs: seq<seq<char>>, subs: seq<seq<char>>, num: nat) returns (n: nat)
    requires ValidTable(phs, subs, num)
    ensures n == |Replaced(h, phs, subs, num)|
  {
    n := 0;
    var pos: nat := 0;
    while pos < |h|
      invariant pos <= |h| && n + |Replaced(h[pos..], phs, subs, num)| == |Replaced(h, phs, subs, num)|
      decreases |h| - pos
    {
      var m := MatchAt(h, pos, phs, num);
      ReplacedStep(h, pos, phs, subs, num);
      match m
      case Some(k) =>
        n := n + |subs[k]|;
        pos := pos + |phs[k]|;
      case None =>
        n := n + 1;
        pos := pos + 1;
    }
    assert h[pos..] == [];
  }

  /** `memcpy(out + d, sub, strlen(sub))`. */
  method CopyInto(out: array<char>, d: nat, sub: seq<char>)
    requires d + |sub| <= out.Length
    modifies out
    ensures out[..] == old(out[..d]) + sub + old(out[d + |sub|..])
  {
    for t := 0 to |sub|
      invariant out[..] == old(out[..d]) + sub[..t] + old(out[d + t..])
    {
      out[d + t] := sub[t];
      assert sub[..t + 1] == sub[..t] + [sub[t]];
    }
  }

  /**
   * One round of the replacement loop at `h[pos]`: copies the substitute of
   * the first placeholder found there, or the character, to `out[d..]` and
   * returns where the page and the output continue.
   */
  method ReplaceAt(out: array<char>, h: seq<char>, pos: nat, d: nat, phs: seq<seq<char>>, subs: seq<seq<char>>, num: nat)
    returns (pos': nat, d': nat)
    requires ValidTable(phs, subs, num) && pos < |h| && d + |Replaced(h[pos..], phs, subs, num)| <= out.Length
    modifies out
    ensures pos < pos' <= |h| && d <= d' <= out.Length
    ensures Replaced(h[pos..], phs, subs, num) == out[d..d'] + Replaced(h[pos'..], phs, subs, num)
    ensures out[..d] == old(out[..d])
  {
    var m := MatchAt(h, pos, phs, num);
    ReplacedStep(h, pos, phs, subs, num);
    match m
    case Some(k) =>
      CopyInto(out, d, subs[k]);
      assert out[d..d + |subs[k]|] == subs[k];
      pos', d' := pos + |phs[k]|, d + |subs[k]|;
    case None =>
      out[d] := h[pos];
      assert out[d..d + 1] == [h[pos]];
      pos', d' := pos + 1, d + 1;
  }

  /**
   * `replace_placeholder`, with the allocation corrected to the length of
   * the page the scan builds: NULL when any argument is NULL or the
   * allocation fails, otherwise a fresh buffer holding the page with its
   * placeholders replaced, NUL-terminated.
   */
  method ReplacePlaceholder(html: Option<seq<char>>, placeholders: Option<seq<seq<char>>>,
                            substitutes: Option<seq<seq<char>>>, num: nat, allocFails: bool)
    returns (result: Option<array<char>>)
    requires html.Some? && placeholders.Some? && substitutes.Some? ==>
      ValidTable(placeholders.value, substitutes.value, num)
    ensures result.Some? <==> html.Some? && placeholders.Some? && substitutes.Some? && !allocFails
    ensures result.Some? ==> (fresh(result.value)
      && result.value[..] == Replaced(html.value, placeholders.value, substitutes.value, num) + ['\0'])
  {
    if html.None? || placeholders.None? || substitutes.None? {
      return None;
    }
    var h, phs, subs := html.value, placeholders.value, substitutes.value;
    var newLen := ReplacedLength(h, phs, subs, num);
    if allocFails {
      return None;
    }
    var out := new char[newLen + 1];
    ghost var r := Replaced(h, phs, subs, num);
    var pos: nat, d: nat := 0, 0;
    while pos < |h|
      invariant pos <= |h| && d <= |r| == newLen
      invariant out[..d] == r[..d] && r[d..] == Replaced(h[pos..], phs, subs, num)
      decreases |h| - pos
    {
      ghost var before := out[..];
      var pos', d' := ReplaceAt(out, h, pos, d, phs, subs, num);
      PrefixExtends(r, before[..d], out[d..d'], Replaced(h[pos'..], phs, subs, num), d);
      assert out[..d'] == before[..d] + out[d..d'];
      pos, d := pos', d';
    }
    assert h[pos..] == [];
    out[d] := '\0';
    assert out[..] == out[..d] + [out[d]];
    return Some(out);
  }
}
