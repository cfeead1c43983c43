/**
 * The Linux build's renaming helper (LINUX/main/src/utils.c): a device
 * renamed "bms_<n>" takes the number `n` as its ESP_ID. The same file's
 * `convert_uint_to_n_bytes` and `url_decode` are the firmware's, modelled
 * by FirmwareUtils.
 */
module LinuxUtils {
  import opened Common

  /** The length of a C string held in a buffer: the index of its first NUL. */
  function CLength(buf: seq<char>): (n: nat)
    requires '\0' in buf
    ensures n < |buf| && buf[n] == '\0' && forall i :: 0 <= i < n ==> buf[i] != '\0'
  {
    if buf[0] == '\0' then 0 else 1 + CLength(buf[1..])
  }

  /** Whether the name starts with "bms_" (`strncmp(name, "bms_", 4) == 0`). */
  predicate HasPrefix(name: seq<char>)
  {
    |name| >= 4 && name[..4] == "bms_"
  }

  /**
   * The ESP_ID a rename to `name` sets: none without the "bms_" prefix;
   * otherwise the value of the digits that follow it, up to the first
   * non-digit (0 for none), stored in the 8-bit ESP_ID.
   */
  function NewEspId(name: seq<char>): Option<Byte>
  {
    if !HasPrefix(name) then None
    else
      var k := LeadingDigits(name[4..]);
      Some(DigitsValue(name[4..4 + k]) % 256)
  }

  /**
   * Renaming to "bms_" followed by digits and then anything that does not
   * start with a digit sets ESP_ID to the digits' value modulo 256.
   */
  lemma NewEspIdOfDigits(digits: seq<char>, rest: seq<char>)
    requires forall i :: 0 <= i < |digits| ==> IsDigit(digits[i])
    requires rest == [] || !IsDigit(rest[0])
    ensures NewEspId("bms_" + digits + rest) == Some(DigitsValue(digits) % 256)
  {
    var tail := digits + rest;
    var name := "bms_" + tail;
    assert "bms_" + digits + rest == name;
    assert name[..4] == "bms_";
    assert name[4..] == tail;
    LeadingDigitsUnique(tail, |digits|);
    assert name[4..4 + |digits|] == digits;
  }

  /** Renaming to "bms_" followed by the digits of a number below 256 sets ESP_ID to that number. */
  lemma NewEspIdOfDigitsOnly(digits: seq<char>)
    requires forall i :: 0 <= i < |digits| ==> IsDigit(digits[i])
    requires DigitsValue(digits) < 256
    ensures NewEspId("bms_" + digits) == Some(DigitsValue(digits))
  {
    NewEspIdOfDigits(digits, []);
    assert "bms_" + digits + [] == "bms_" + digits;
    ByteFits(DigitsValue(digits));
  }

  /** A slice of a prefix is the same slice of the whole. */
  lemma SliceOfPrefix<T>(a: seq<T>, len: nat, lo: nat, hi: nat)
    requires lo <= hi <= len <= |a|
    ensures a[..len][lo..hi] == a[lo..hi]
  {
  }

  /** A number below 256 is its own residue modulo 256. */
  lemma ByteFits(v: nat)
    requires v < 256
    ensures v % 256 == v
  {
  }

  /**
   * Renaming to "bms_" followed by the notation of `n` and anything that does
   * not start with a digit sets ESP_ID to `n` modulo 256: `n` itself for the
   * identifiers an 8-bit ESP_ID can hold.
   */
  lemma NewEspIdReadsNumber(n: nat, rest: seq<char>)
    requires rest == [] || !IsDigit(rest[0])
    ensures NewEspId("bms_" + DecimalString(n) + rest) == Some(n % 256)
  {
    var digits := DecimalString(n);
    DecimalStringShape(n);
    NewEspIdOfDigits(digits, rest);
  }

  /** The device's identity on the mesh, held in the global ESP_ID. */
  class Device {
    var espId: Byte

    constructor(espId: Byte)
      ensures this.espId == espId
    {
      this.espId := espId;
    }

    /**
     * `change_esp_id`: without the "bms_" prefix nothing changes; otherwise
     * the name is cut with a NUL at the first non-digit after the prefix
     * (if there is one before its end) and ESP_ID becomes the number the
     * remaining digits spell.
     */
    method ChangeEspId(name: array<char>)
      requires '\0' in name[..]
      modifies this, name
      ensures var s := old(name[..])[..CLength(old(name[..]))];
        match NewEspId(s)
        case None => espId == old(espId) && name[..] == old(name[..])
        case Some(id) =>
          var cut := 4 + LeadingDigits(s[4..]);
          && espId == id
          && name[..] == (if cut < |s| then old(name[..])[cut := '\0'] else old(name[..]))
    {
      ghost var s := name[..][..CLength(name[..])];
      var len := 0;
      while name[len] != '\0'
        invariant 0 <= len <= CLength(name[..]) && name[..] == old(name[..])
        invariant forall i :: 0 <= i < len ==> name[i] != '\0'
        decreases CLength(name[..]) - len
      {
        len := len + 1;
      }
      assert len == CLength(name[..]);
      assert s == name[..len];
      if len < 4 || name[..4] != "bms_" {
        return;
      }
      assert s[..4] == name[..4];
      var p := 4;
      while p < len && IsDigit(name[p])
        invariant 4 <= p <= len && name[..] == old(name[..])
        invariant forall i :: 4 <= i < p ==> IsDigit(name[i])
        decreases len - p
      {
        p := p + 1;
      }
      ghost var k := LeadingDigits(s[4..]);
      assert p - 4 == k by {
        var t := s[4..];
        assert forall i :: 0 <= i < p - 4 ==> t[i] == name[4 + i];
        assert p < len ==> t[p - 4] == name[p];
        LeadingDigitsUnique(t, p - 4);
      }
      assert name[4..p] == s[4..4 + k] by {
        SliceOfPrefix(name[..], len, 4, p);
      }
      espId := DigitsValue(name[4..p]) % 256;
      if p < len {
        name[p] := '\0';
      }
    }
  }
}
