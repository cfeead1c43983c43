/**
 * The ESP32 node's WebSocket endpoint (ESP32/main/src/WS.c): the fixed
 * table of connected clients, the handshake that admits a browser or a mesh
 * node with the current single-use token, the fixed table of mesh messages
 * waiting to go out over LoRa, and the dispatch of a browser's request.
 *
 * The HTTP server, the JSON parser and the radio are not modelled: a
 * handshake is given by its URI, a message by the fields the handler reads.
 */
module SlotTables {
  import opened Common
  import FirmwareUtils
  import LinuxUtils

  /** `WS_CONFIG_MAX_CLIENTS`. */
  const MaxClients: nat := 3

  /** `MESH_SIZE`: the number of mesh message slots. */
  const MeshSize: nat := 5

  /** The first index whose element satisfies `p`, if any. */
  function First<T>(s: seq<T>, p: T -> bool): (r: Option<nat>)
    ensures r.Some? ==> r.value < |s| && p(s[r.value]) && forall j :: 0 <= j < r.value ==> !p(s[j])
    ensures r.None? ==> forall j :: 0 <= j < |s| ==> !p(s[j])
  {
    if s == [] then None
    else if p(s[0]) then Some(0)
    else match First(s[1..], p)
      case None => None
      case Some(k) => Some(k + 1)
  }

  // ----------------------------------------------------------------------
  // The client table
  // ----------------------------------------------------------------------

  /** One slot of `client_sockets`; a negative descriptor marks it free. */
  datatype ClientSocket = ClientSocket(descriptor: int, token: seq<char>, browser: bool, espId: Byte)

  /** What `remove_client` leaves in a slot. */
  const Vacant := ClientSocket(-1, "", true, 0)

  /** The token kept in a buffer of `length` characters: at most `length - 1` of them, then NUL. */
  function Truncated(token: seq<char>, length: nat): (r: seq<char>)
    requires length >= 1
    ensures |r| < length && |r| <= |token| && r == token[..|r|]
    ensures |token| < length ==> r == token
  {
    if |token| < length then token else token[..length - 1]
  }

  /** Truncating twice is truncating once. */
  lemma TruncatedIdempotent(token: seq<char>, length: nat)
    requires length >= 1
    ensures Truncated(Truncated(token, length), length) == Truncated(token, length)
  {
  }

  /** Where `add_client` stops: the first slot that holds `fd` or is free. */
  function AddSlot(slots: seq<ClientSocket>, fd: int): Option<nat>
  {
    First(slots, (c: ClientSocket) => c.descriptor == fd || c.descriptor < 0)
  }

  /** The slot a newly added client takes: a browser's mesh identifier is always 0. */
  function NewClient(fd: int, token: seq<char>, browser: bool, espId: Byte, length: nat): ClientSocket
    requires length >= 1
  {
    ClientSocket(fd, Truncated(token, length), browser, if browser then 0 else espId)
  }

  /**
   * The table after `add_client`: unchanged when `fd` is met before any
   * free slot or no slot is free; otherwise the first free slot holds the
   * new client.
   */
  function Added(slots: seq<ClientSocket>, fd: int, token: seq<char>, browser: bool, espId: Byte, length: nat): (r: seq<ClientSocket>)
    requires length >= 1
    ensures |r| == |slots|
  {
    match AddSlot(slots, fd)
    case None => slots
    case Some(i) => if slots[i].descriptor == fd then slots else slots[i := NewClient(fd, token, browser, espId, length)]
  }

  /** The table after `remove_client`: the first slot holding `fd`, if any, is vacated. */
  function Removed(slots: seq<ClientSocket>, fd: int): (r: seq<ClientSocket>)
    ensures |r| == |slots|
  {
    match First(slots, (c: ClientSocket) => c.descriptor == fd)
    case None => slots
    case Some(i) => slots[i := Vacant]
  }

  /** Whether some slot holds the descriptor `fd`. */
  predicate Holds(slots: seq<ClientSocket>, fd: int)
  {
    exists i :: 0 <= i < |slots| && slots[i].descriptor == fd
  }

  /** No descriptor is held by two slots. */
  predicate Distinct(slots: seq<ClientSocket>)
  {
    forall i, j :: 0 <= i < j < |slots| && slots[i].descriptor >= 0 ==> slots[i].descriptor != slots[j].descriptor
  }

  /** Every free slot is exactly what `remove_client` leaves. */
  predicate Tidy(slots: seq<ClientSocket>)
  {
    forall i :: 0 <= i < |slots| && slots[i].descriptor < 0 ==> slots[i] == Vacant
  }

  /**
   * Adding a descriptor the table does not hold: when a slot is free, the
   * first free slot takes the client and nothing else changes, so the table
   * stays free of duplicates and tidy; when none is free the table is left
   * as it was.
   */
  lemma AddFresh(slots: seq<ClientSocket>, fd: int, token: seq<char>, browser: bool, espId: Byte, length: nat)
    requires length >= 1 && fd >= 0 && !Holds(slots, fd)
    ensures var r := Added(slots, fd, token, browser, espId, length);
      && (Distinct(slots) ==> Distinct(r))
      && (Tidy(slots) ==> Tidy(r))
      && match First(slots, (c: ClientSocket) => c.descriptor < 0)
         case None => r == slots
         case Some(i) => r == slots[i := NewClient(fd, token, browser, espId, length)]
  {
    var a := AddSlot(slots, fd);
    var f := First(slots, (c: ClientSocket) => c.descriptor < 0);
    if a.Some? {
      assert slots[a.value].descriptor < 0;
      assert f == a;
    } else {
      assert f.None?;
    }
  }

  /** In a tidy table, removing a descriptor just added and held nowhere else gives the table back. */
  lemma AddThenRemove(slots: seq<ClientSocket>, fd: int, token: seq<char>, browser: bool, espId: Byte, length: nat)
    requires length >= 1 && fd >= 0 && !Holds(slots, fd) && Tidy(slots)
    ensures Removed(Added(slots, fd, token, browser, espId, length), fd) == slots
  {
    AddFresh(slots, fd, token, browser, espId, length);
    var r := Added(slots, fd, token, browser, espId, length);
    match First(slots, (c: ClientSocket) => c.descriptor < 0)
    case None =>
    case Some(i) =>
      var g := First(r, (c: ClientSocket) => c.descriptor == fd);
      assert r[i].descriptor == fd;
      assert g == Some(i);
  }

  /** After a removal from a table without duplicates, the descriptor is held nowhere, and a tidy table stays tidy. */
  lemma RemoveForgets(slots: seq<ClientSocket>, fd: int)
    requires fd >= 0 && Distinct(slots)
    ensures !Holds(Removed(slots, fd), fd) && Distinct(Removed(slots, fd))
    ensures Tidy(slots) ==> Tidy(Removed(slots, fd))
  {
  }

  /**
   * `add_client` looks for `fd` only up to the first free slot: a
   * descriptor held after a free slot is added a second time.
   */
  lemma LateDuplicateAdded()
    ensures var slots := [Vacant, ClientSocket(7, "t", true, 0), Vacant];
      var r := Added(slots, 7, "t", true, 0, 8);
      r[0].descriptor == 7 && r[1].descriptor == 7 && !Distinct(r)
  {
    var slots := [Vacant, ClientSocket(7, "t", true, 0), Vacant];
    assert AddSlot(slots, 7) == Some(0);
  }

  // ----------------------------------------------------------------------
  // The handshake
  // ----------------------------------------------------------------------

  /** Whether `pat` occurs in `s` starting at position `j`. */
  predicate OccursAt(s: seq<char>, pat: seq<char>, j: nat)
  {
    j + |pat| <= |s| && s[j..j + |pat|] == pat
  }

  /** An occurrence after the first character is an occurrence in the rest, one position earlier. */
  lemma OccursInTail(s: seq<char>, pat: seq<char>, j: nat)
    requires 1 <= j && s != []
    ensures OccursAt(s, pat, j) <==> OccursAt(s[1..], pat, j - 1)
  {
    if j + |pat| <= |s| {
      var shifted, direct := s[1..][j - 1..j - 1 + |pat|], s[j..j + |pat|];
      forall i | 0 <= i < |pat|
        ensures shifted[i] == direct[i]
      {
      }
      assert shifted == direct;
    }
  }

  /** Where `strstr` finds `pat` in `s`: the first position it starts at. */
  function Find(s: seq<char>, pat: seq<char>): (r: Option<nat>)
    ensures r.Some? ==> OccursAt(s, pat, r.value) && forall j: nat :: j < r.value ==> !OccursAt(s, pat, j)
    ensures r.None? ==> forall j: nat :: !OccursAt(s, pat, j)
    decreases |s|
  {
    if |s| < |pat| then None
    else if s[..|pat|] == pat then Some(0)
    else
      var r := Find(s[1..], pat);
      assert forall j: nat :: 1 <= j ==> (OccursAt(s, pat, j) <==> OccursAt(s[1..], pat, j - 1)) by {
        forall j: nat | 1 <= j
          ensures OccursAt(s, pat, j) <==> OccursAt(s[1..], pat, j - 1)
        {
          OccursInTail(s, pat, j);
        }
      }
      match r
      case None => None
      case Some(k) => Some(k + 1)
  }

  /** A character `isspace` accepts. */
  predicate IsSpace(c: char)
  {
    c == ' ' || c == '\t' || c == '\n' || c == 11 as char || c == 12 as char || c == '\r'
  }

  /** What is left after leading white space, which `%s` and `%hhu` skip. */
  function SkipSpaces(s: seq<char>): (r: seq<char>)
    ensures |r| <= |s| && r == s[|s| - |r|..]
    ensures r != [] ==> !IsSpace(r[0])
  {
    if s != [] && IsSpace(s[0]) then SkipSpaces(s[1..]) else s
  }

  /** The characters a scan conversion of width `width` takes: those before the first `stop` character, at most `width`. */
  function Scan(s: seq<char>, stop: char -> bool, width: nat): (r: seq<char>)
    ensures |r| <= width && |r| <= |s| && r == s[..|r|]
    ensures forall i :: 0 <= i < |r| ==> !stop(r[i])
    ensures |r| < width && |r| < |s| ==> stop(s[|r|])
  {
    if s == [] || width == 0 || stop(s[0]) then [] else [s[0]] + Scan(s[1..], stop, width - 1)
  }

  /** The width both token conversions give (`%50s`, `%50[^&]`). */
  const TokenWidth: nat := 50

  const BrowserPrefix := "/browser_ws?auth_token="
  const MeshPrefix := "/mesh_ws?auth_token="
  const EspIdKey := "esp_id="

  /** `%hhu`: the digits after any white space, modulo 256; 0 (the value kept) when there are none. */
  function ScanByte(s: seq<char>): Byte
  {
    var t := SkipSpaces(s);
    var k := LeadingDigits(t);
    DigitsValue(t[..k]) % 256
  }

  /** A handshake the server refuses, or one it admits with the client's token, role and mesh identifier. */
  datatype Admission = Refused | Admitted(token: seq<char>, browser: bool, espId: Byte)

  /**
   * The handshake of `client_handler` for a GET of `uri`: a browser session
   * is asked for by "/browser_ws?auth_token=" followed by the token, a mesh
   * session by "/mesh_ws?auth_token=" followed by the token up to '&' and,
   * anywhere in the URI, "esp_id=" and the node's number. A mesh request
   * without "esp_id=" is refused; otherwise the token, cut to the buffer,
   * must be non-empty and equal to the current token.
   */
  function Handshake(uri: seq<char>, current: seq<char>, length: nat): (a: Admission)
    requires length >= 1
    ensures Find(uri, BrowserPrefix).None? && Find(uri, MeshPrefix).None? ==> a == Refused
    ensures a.Admitted? ==>
      && a.token == current != [] && |a.token| < length
      && (a.browser <==> Find(uri, BrowserPrefix).Some?)
      && (!a.browser ==> Find(uri, EspIdKey).Some?)
  {
    var b := Find(uri, BrowserPrefix);
    var m := Find(uri, MeshPrefix);
    if b.None? && m.None? then Refused
    else
      var scanned :=
        if b.Some? then Scan(SkipSpaces(uri[b.value + |BrowserPrefix|..]), IsSpace, TokenWidth)
        else Scan(uri[m.value + |MeshPrefix|..], c => c == '&', TokenWidth);
      var e := Find(uri, EspIdKey);
      if b.None? && e.None? then Refused
      else
        var espId := if b.Some? then 0 else ScanByte(uri[e.value + |EspIdKey|..]);
        var token := Truncated(scanned, length);
        if token != [] && token == current then Admitted(token, b.Some?, espId) else Refused
  }

  /** A handshake is admitted only with the current token, and only while that token is non-empty. */
  lemma AdmitsOnlyCurrentToken(uri: seq<char>, current: seq<char>, length: nat)
    requires length >= 1
    ensures Handshake(uri, current, length).Admitted? ==> Handshake(uri, current, length).token == current != []
    ensures Handshake(uri, [], length) == Refused
  {
  }

  /** A mesh handshake whose URI carries no "esp_id=" is refused, whatever its token. */
  lemma MeshWithoutEspIdRefused(uri: seq<char>, current: seq<char>, length: nat)
    requires length >= 1 && Find(uri, BrowserPrefix).None? && Find(uri, EspIdKey).None?
    ensures Handshake(uri, current, length) == Refused
  {
  }

  /**
   * A browser asking for "/browser_ws?auth_token=" followed by the current
   * token is admitted as a browser, when the token is at most 50 characters
   * of no white space and fits the buffer.
   */
  lemma BrowserAdmitted(token: seq<char>, length: nat)
    requires 0 < |token| <= TokenWidth && |token| < length
    requires forall i :: 0 <= i < |token| ==> !IsSpace(token[i])
    ensures Handshake(BrowserPrefix + token, token, length) == Admitted(token, true, 0)
  {
    var uri := BrowserPrefix + token;
    assert uri[..|BrowserPrefix|] == BrowserPrefix;
    assert Find(uri, BrowserPrefix) == Some(0);
    assert uri[|BrowserPrefix|..] == token;
    assert SkipSpaces(token) == token;
    ScanTakesAll(token, IsSpace, TokenWidth);
  }

  /** A scan takes all of a string that is no wider than the field and holds no stop character. */
  lemma ScanTakesAll(s: seq<char>, stop: char -> bool, width: nat)
    requires |s| <= width && forall i :: 0 <= i < |s| ==> !stop(s[i])
    ensures Scan(s, stop, width) == s
  {
  }

  // ----------------------------------------------------------------------
  // The mesh message slots
  // ----------------------------------------------------------------------

  /** One slot of `all_messages`; identifier 0 marks it empty. */
  datatype LoRaMessage = LoRaMessage(espId: Byte, message: seq<char>)

  /** Where a message for node `espId` goes: the first slot for that node or empty. */
  function MessageSlot(slots: seq<LoRaMessage>, espId: int): (r: Option<nat>)
    ensures r.Some? ==>
      && r.value < |slots| && (slots[r.value].espId == espId || slots[r.value].espId == 0)
      && forall j :: 0 <= j < r.value ==> slots[j].espId != espId && slots[j].espId != 0
    ensures r.None? ==> forall j :: 0 <= j < |slots| ==> slots[j].espId != espId && slots[j].espId != 0
  {
    First(slots, (m: LoRaMessage) => m.espId == espId || m.espId == 0)
  }

  /**
   * The slots after a message from a mesh node is queued: it replaces the
   * message in the first slot that is the node's or empty, which then
   * belongs to the node (its identifier kept modulo 256); with no such
   * slot the message is dropped.
   */
  function Upserted(slots: seq<LoRaMessage>, espId: int, payload: seq<char>): (r: seq<LoRaMessage>)
    ensures |r| == |slots|
  {
    match MessageSlot(slots, espId)
    case None => slots
    case Some(i) => slots[i := LoRaMessage(if slots[i].espId == espId then slots[i].espId else espId % 256, payload)]
  }

  /** Occupied slots come first: no empty slot before an occupied one. */
  predicate Packed(slots: seq<LoRaMessage>)
  {
    forall i, j :: 0 <= i < j < |slots| && slots[j].espId != 0 ==> slots[i].espId != 0
  }

  /** No node has two slots. */
  predicate OneSlotPerNode(slots: seq<LoRaMessage>)
  {
    forall i, j :: 0 <= i < j < |slots| && slots[i].espId != 0 ==> slots[i].espId != slots[j].espId
  }

  /** The message queued for node `espId`, if any. */
  function Queued(slots: seq<LoRaMessage>, espId: Byte): Option<seq<char>>
  {
    match First(slots, (m: LoRaMessage) => m.espId == espId)
    case None => None
    case Some(i) => Some(slots[i].message)
  }

  /**
   * For a node number that fits the 8-bit identifier, queueing keeps the
   * slots packed with one slot per node, and the node's queued message is
   * the new one unless every slot belongs to another node, in which case
   * nothing changes.
   */
  lemma UpsertKeepsOneSlotPerNode(slots: seq<LoRaMessage>, espId: Byte, payload: seq<char>)
    requires 0 < espId && Packed(slots) && OneSlotPerNode(slots)
    ensures var r := Upserted(slots, espId, payload);
      && Packed(r) && OneSlotPerNode(r)
      && (MessageSlot(slots, espId).Some? ==> Queued(r, espId) == Some(payload))
      && (MessageSlot(slots, espId).None? ==> r == slots)
  {
    var r := Upserted(slots, espId, payload);
    match MessageSlot(slots, espId)
    case None =>
    case Some(i) =>
      assert r[i].espId == espId;
      var q := First(r, (m: LoRaMessage) => m.espId == espId);
      assert q == Some(i);
  }

  // ----------------------------------------------------------------------
  // Requests from a browser
  // ----------------------------------------------------------------------

  /** The settings of a change-settings or connect-wifi request. */
  datatype Settings = Settings(newEspId: Option<int>, otc: int, ssid: seq<char>, password: seq<char>)

  /** A request's content: its text, and the summary and data items of an object. */
  datatype Content = Content(text: seq<char>, summary: Option<seq<char>>, data: Option<Settings>)

  /** The items of a browser's message that `perform_request` reads. */
  datatype Request = Request(kind: Option<seq<char>>, content: Option<Content>)

  /** What a request makes the node do besides answering. */
  datatype Effect =
    | Rename(name: seq<char>)           // DeviceName written to the gauge, ESP_ID taken from it
    | WriteOtc(bytes: seq<Byte>)        // the over-temperature threshold written to the gauge
    | JoinWifi(ssid: seq<char>, password: seq<char>)
    | ResetGauge
    | UnsealGauge

  /** The result `perform_request` returns and the effects it has, in order. */
  datatype Performed = Performed(ret: int, effects: seq<Effect>)

  /** `snprintf(new_id, 7, "bms_%02u", n)`: the notation at least two digits wide, the whole cut to six characters. */
  function NewName(n: int): (name: seq<char>)
    ensures |name| <= 6
  {
    var u := n % 0x1_0000_0000;
    var digits := if u < 10 then ['0'] + DecimalString(u) else DecimalString(u);
    var full := "bms_" + digits;
    if |full| <= 6 then full else full[..6]
  }

  /** The notation of a two-digit number is its tens digit then its units digit. */
  lemma TwoDigits(n: nat)
    requires 10 <= n < 100
    ensures DecimalString(n) == [DigitChar(n / 10), DigitChar(n % 10)]
  {
  }

  /** The value of two digits. */
  lemma PairValue(a: char, b: char)
    requires IsDigit(a) && IsDigit(b)
    ensures DigitsValue([a, b]) == 10 * DigitValue(a) + DigitValue(b)
  {
    assert [a, b][..1] == [a];
    assert DigitsValue([a]) == DigitValue(a) by {
      assert [a][..0] == [];
    }
  }

  /** The name given to identifiers 1 to 99: "bms_" and two digits. */
  lemma NewNameOfTwoDigits(n: nat)
    requires 0 < n < 100
    ensures NewName(n) == "bms_" + [DigitChar(n / 10), DigitChar(n % 10)]
  {
    assert n % 0x1_0000_0000 == n;
    if n >= 10 {
      TwoDigits(n);
    } else {
      assert DecimalString(n) == [DigitChar(n % 10)];
    }
  }

  /**
   * For identifiers 1 to 99 the new DeviceName is "bms_" and two digits,
   * and reading the identifier back from that name gives the identifier.
   */
  lemma NewNameReadsBack(n: nat)
    requires 0 < n < 100
    ensures NewName(n) == "bms_" + [DigitChar(n / 10), DigitChar(n % 10)]
    ensures LinuxUtils.NewEspId(NewName(n)) == Some(n)
  {
    NewNameOfTwoDigits(n);
    var digits := [DigitChar(n / 10), DigitChar(n % 10)];
    var name := "bms_" + digits;
    PairDigitsValue(n);
    LinuxUtils.NewEspIdOfDigitsOnly(digits);
  }

  /** Two digits written for `n` read back as `n`. */
  lemma PairDigitsValue(n: nat)
    requires n < 100
    ensures var digits := [DigitChar(n / 10), DigitChar(n % 10)];
      (forall i :: 0 <= i < |digits| ==> IsDigit(digits[i])) && DigitsValue(digits) == n
  {
    var a, b := DigitChar(n / 10), DigitChar(n % 10);
    PairValue(a, b);
  }

  /** Identifiers of three or more digits are cut to their first two: 123 renames the node "bms_12". */
  lemma NewNameCutsLongIdentifiers()
    ensures NewName(123) == "bms_12"
  {
    assert 123 % 0x1_0000_0000 == 123 && 123 / 10 == 12 && 123 % 10 == 3;
    TwoDigits(12);
    assert DigitChar(1) == '1' && DigitChar(2) == '2' && DigitChar(3) == '3';
    assert DecimalString(123) == ['1', '2', '3'];
    assert ("bms_" + ['1', '2', '3'])[..6] == "bms_12";
  }

  /**
   * `perform_request`: without a type or a content item the request fails;
   * a query is answered; a change-settings request renames the node when
   * `new_esp_id` is present, nonzero and not the node's own identifier,
   * then writes the over-temperature threshold when it differs from
   * `storedOtc` (what the gauge holds, 0 when its read fails); a
   * connect-wifi request joins the network when `joinable`; reset-bms and
   * unseal-bms act on the gauge. Both settings requests fail without data.
   * Any other type is not supported.
   */
  function PerformRequest(req: Request, espId: Byte, storedOtc: nat, joinable: bool): (p: Performed)
    ensures p.ret != EspOk ==> p.effects == []
    ensures |p.effects| <= 2
  {
    if req.kind.None? || req.content.None? then Performed(EspFail, [])
    else
      var kind := req.kind.value;
      var content := req.content.value;
      if kind == "query" then Performed(EspOk, [])
      else if kind != "request" then Performed(EspErrNotSupported, [])
      else if content.summary == Some("change-settings") then
        match content.data
        case None => Performed(EspFail, [])
        case Some(data) =>
          var rename :=
            if data.newEspId.Some? && data.newEspId.value != 0 && data.newEspId.value != espId
            then [Rename(NewName(data.newEspId.value))] else [];
          var otc := if data.otc != storedOtc then [WriteOtc(FirmwareUtils.LeastFirst(data.otc % 0x1_0000_0000, 2))] else [];
          Performed(EspOk, rename + otc)
      else if content.summary == Some("connect-wifi") then
        match content.data
        case None => Performed(EspFail, [])
        case Some(data) => Performed(EspOk, if joinable then [JoinWifi(data.ssid, data.password)] else [])
      else if content.summary == Some("reset-bms") then Performed(EspOk, [ResetGauge])
      else if content.summary == Some("unseal-bms") then Performed(EspOk, [UnsealGauge])
      else Performed(EspOk, [])
  }

  /**
   * The request's result: `ESP_FAIL` exactly when the type or content is
   * missing, or a settings request has no data; `ESP_ERR_NOT_SUPPORTED`
   * exactly for a type other than "query" and "request"; `ESP_OK`
   * otherwise. A failed or unsupported request does nothing.
   */
  lemma RequestResult(req: Request, espId: Byte, storedOtc: nat, joinable: bool)
    ensures var p := PerformRequest(req, espId, storedOtc, joinable);
      && (p.ret == EspFail <==>
           req.kind.None? || req.content.None?
           || (req.kind == Some("request") && req.content.value.data.None?
               && req.content.value.summary in {Some("change-settings"), Some("connect-wifi")}))
      && (p.ret == EspErrNotSupported <==>
           req.kind.Some? && req.content.Some? && req.kind.value != "query" && req.kind.value != "request")
      && (p.ret != EspOk ==> p.effects == [])
  {
  }

  /**
   * The node is renamed exactly for a change-settings request with data
   * whose `new_esp_id` is present, nonzero and different from the node's
   * identifier.
   */
  lemma DeviceNameRule(req: Request, espId: Byte, storedOtc: nat, joinable: bool)
    ensures var p := PerformRequest(req, espId, storedOtc, joinable);
      && ((|p.effects| > 0 && p.effects[0].Rename?) <==>
           && req.kind == Some("request") && req.content.Some?
           && req.content.value.summary == Some("change-settings")
           && req.content.value.data.Some?
           && var n := req.content.value.data.value.newEspId;
              n.Some? && n.value != 0 && n.value != espId)
  {
  }

  /**
   * A change-settings request with data writes the over-temperature
   * threshold, as its last effect, exactly when it differs from the one the
   * gauge holds, and the two bytes written read back, least significant
   * first, as the requested threshold modulo 65536.
   */
  lemma ThresholdWritten(req: Request, espId: Byte, storedOtc: nat, joinable: bool)
    requires req.kind == Some("request") && req.content.Some?
    requires req.content.value.summary == Some("change-settings") && req.content.value.data.Some?
    ensures var p := PerformRequest(req, espId, storedOtc, joinable);
      var otc := req.content.value.data.value.otc;
      && p.ret == EspOk
      && (otc != storedOtc <==> |p.effects| > 0 && p.effects[|p.effects| - 1].WriteOtc?)
      && (otc != storedOtc ==> FirmwareUtils.LittleEndianValue(p.effects[|p.effects| - 1].bytes) == otc % 65536)
  {
    var otc := req.content.value.data.value.otc;
    var u := otc % 0x1_0000_0000;
    SettingsEffects(req, espId, storedOtc, joinable);
    if otc != storedOtc {
      LowBytes(u);
      LowHalfOfWord(otc);
    }
  }

  /** Reducing modulo 2^32 first leaves the low sixteen bits alone. */
  lemma LowHalfOfWord(x: int)
    ensures (x % 0x1_0000_0000) % 65536 == x % 65536
  {
    var q := x / 0x1_0000_0000;
    var u := x % 0x1_0000_0000;
    assert x == 0x1_0000_0000 * q + u;
    var k := 65536 * q;
    assert x == 65536 * k + u;
    assert (65536 * k + u) % 65536 == u % 65536;
  }

  /** The effects of a change-settings request with data: an optional rename, then an optional threshold write. */
  lemma SettingsEffects(req: Request, espId: Byte, storedOtc: nat, joinable: bool)
    requires req.kind == Some("request") && req.content.Some?
    requires req.content.value.summary == Some("change-settings") && req.content.value.data.Some?
    ensures var data := req.content.value.data.value;
      var p := PerformRequest(req, espId, storedOtc, joinable);
      && p.ret == EspOk
      && (data.otc == storedOtc ==> forall e :: e in p.effects ==> !e.WriteOtc?)
      && (data.otc != storedOtc ==> p.effects != [] && p.effects[|p.effects| - 1] == WriteOtc(FirmwareUtils.LeastFirst(data.otc % 0x1_0000_0000, 2)))
  {
  }

  /** The two low bytes of a number, least significant first, read back as the number modulo 65536. */
  lemma LowBytes(u: nat)
    ensures FirmwareUtils.LittleEndianValue(FirmwareUtils.LeastFirst(u, 2)) == u % 65536
  {
    var q := u / 256;
    var l := FirmwareUtils.LeastFirst(u, 2);
    assert FirmwareUtils.LeastFirst(q, 1) == [q % 256] + FirmwareUtils.LeastFirst(q / 256, 0) == [q % 256];
    assert l == [u % 256, q % 256];
    assert l[1..] == [q % 256] && l[1..][1..] == [];
    assert FirmwareUtils.LittleEndianValue([q % 256]) == q % 256 by {
      assert [q % 256][1..] == [];
    }
    assert FirmwareUtils.LittleEndianValue(l) == u % 256 + 256 * (q % 256);
    assert u == 65536 * (q / 256) + (256 * (q % 256) + u % 256);
  }

  // ----------------------------------------------------------------------
  // The endpoint
  // ----------------------------------------------------------------------

  /** A text frame from a client: the `esp_id` item of a mesh node's message, the request of a browser's, and the raw text. */
  datatype Message = Message(espId: Option<int>, request: Request, payload: seq<char>)

  /** The node's WebSocket state: its identifier, the client and message tables, and the current token. */
  class WsServer {
    /** `UTILS_AUTH_TOKEN_LENGTH`, from the build configuration. */
    const tokenLength: nat
    const sockets: array<ClientSocket>
    const messages: array<LoRaMessage>
    var currentToken: seq<char>
    var espId: Byte

    /**
     * A server with every client slot free and every message slot empty;
     * where the firmware frees the client slots is not part of this model.
     */
    constructor(tokenLength: nat, espId: Byte)
      requires tokenLength >= 1
      ensures this.tokenLength == tokenLength && this.espId == espId && currentToken == []
      ensures fresh(sockets) && sockets[..] == seq(MaxClients, _ => Vacant)
      ensures fresh(messages) && messages[..] == seq(MeshSize, _ => LoRaMessage(0, []))
    {
      this.tokenLength := tokenLength;
      this.espId := espId;
      currentToken := [];
      sockets := new ClientSocket[MaxClients](_ => Vacant);
      messages := new LoRaMessage[MeshSize](_ => LoRaMessage(0, []));
    }

    /** `add_client`. */
    method AddClient(fd: int, token: seq<char>, browser: bool, espId: Byte)
      requires tokenLength >= 1
      modifies sockets
      ensures sockets[..] == Added(old(sockets[..]), fd, token, browser, espId, tokenLength)
    {
      for i := 0 to sockets.Length
        invariant sockets[..] == old(sockets[..])
        invariant forall j :: 0 <= j < i ==> sockets[j].descriptor != fd && sockets[j].descriptor >= 0
      {
        if sockets[i].descriptor == fd {
          return;
        } else if sockets[i].descriptor < 0 {
          sockets[i] := NewClient(fd, token, browser, espId, tokenLength);
          return;
        }
      }
    }

    /** `remove_client`. */
    method RemoveClient(fd: int)
      modifies sockets
      ensures sockets[..] == Removed(old(sockets[..]), fd)
    {
      for i := 0 to sockets.Length
        invariant sockets[..] == old(sockets[..])
        invariant forall j :: 0 <= j < i ==> sockets[j].descriptor != fd
      {
        if sockets[i].descriptor == fd {
          sockets[i] := Vacant;
          return;
        }
      }
    }

    /**
     * The GET branch of `client_handler`: an admitted handshake adds the
     * client on descriptor `fd`, clears the current token so that it
     * cannot be used again, and succeeds; any other fails and changes
     * nothing.
     */
    method OpenSession(fd: int, uri: seq<char>) returns (ret: int)
      requires tokenLength >= 1
      modifies this, sockets
      ensures espId == old(espId)
      ensures match Handshake(uri, old(currentToken), tokenLength)
        case Refused => ret == EspFail && currentToken == old(currentToken) && sockets[..] == old(sockets[..])
        case Admitted(token, browser, id) =>
          && ret == EspOk && currentToken == []
          && sockets[..] == Added(old(sockets[..]), fd, token, browser, id, tokenLength)
    {
      match Handshake(uri, currentToken, tokenLength)
      case Refused =>
        return EspFail;
      case Admitted(token, browser, id) =>
        AddClient(fd, token, browser, id);
        currentToken := [];
        return EspOk;
    }

    /**
     * The mesh branch of `client_handler`: a message without an `esp_id`
     * item fails; otherwise it is queued in the first slot that is the
     * node's or empty (or dropped when there is none), and the handler
     * succeeds.
     */
    method QueueMeshMessage(id: Option<int>, payload: seq<char>) returns (ret: int)
      modifies messages
      ensures id.None? ==> ret == EspFail && messages[..] == old(messages[..])
      ensures id.Some? ==> ret == EspOk && messages[..] == Upserted(old(messages[..]), id.value, payload)
    {
      if id.None? {
        return EspFail;
      }
      var espId := id.value;
      var i := 0;
      while i < messages.Length
        invariant 0 <= i <= messages.Length
        invariant messages[..] == old(messages[..])
        invariant forall j :: 0 <= j < i ==> messages[j].espId != espId && messages[j].espId != 0
      {
        if messages[i].espId == espId {
          messages[i] := LoRaMessage(messages[i].espId, payload);
          break;
        } else if messages[i].espId == 0 {
          messages[i] := LoRaMessage(espId % 256, payload);
          break;
        }
        i := i + 1;
      }
      return EspOk;
    }

    /**
     * A text frame on descriptor `fd`: the client's role is that of the
     * first slot holding `fd` (a browser when none does). A browser's
     * request is performed — a rename takes the node's identifier from the
     * new name — and the handler succeeds whatever the request's result;
     * a mesh node's message is queued.
     */
    method HandleText(fd: int, msg: Message, storedOtc: nat, joinable: bool) returns (ret: int, effects: seq<Effect>)
      modifies this, messages
      ensures currentToken == old(currentToken)
      ensures var browser := match First(old(sockets[..]), (c: ClientSocket) => c.descriptor == fd)
          case None => true
          case Some(i) => old(sockets[i].browser);
        && (browser ==>
             var p := PerformRequest(msg.request, old(espId), storedOtc, joinable);
             && ret == EspOk && effects == p.effects && messages[..] == old(messages[..])
             && espId == (if |p.effects| > 0 && p.effects[0].Rename? then
                            match LinuxUtils.NewEspId(p.effects[0].name) case None => old(espId) case Some(n) => n
                          else old(espId)))
        && (!browser ==>
             && effects == [] && espId == old(espId)
             && (msg.espId.None? ==> ret == EspFail && messages[..] == old(messages[..]))
             && (msg.espId.Some? ==> ret == EspOk && messages[..] == Upserted(old(messages[..]), msg.espId.value, msg.payload)))
    {
      var browser := true;
      for i := 0 to sockets.Length
        invariant forall j :: 0 <= j < i ==> sockets[j].descriptor != fd
        invariant browser
      {
        if sockets[i].descriptor == fd {
          browser := sockets[i].browser;
          assert First(sockets[..], (c: ClientSocket) => c.descriptor == fd) == Some(i);
          break;
        }
      }
      if browser {
        var p := PerformRequest(msg.request, espId, storedOtc, joinable);
        effects := p.effects;
        if |effects| > 0 && effects[0].Rename? {
          match LinuxUtils.NewEspId(effects[0].name)
          case None =>
          case Some(n) => espId := n;
        }
        return EspOk, effects;
      }
      effects := [];
      ret := QueueMeshMessage(msg.espId, msg.payload);
    }
  }
}
