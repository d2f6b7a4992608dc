/** The upload body: text printed piece by piece into one fixed buffer through a running offset. */
module UploadBody {
  import opened ClientLog
  import opened Sequences

  const BUFFER_SIZE := 4096
  const BATCH := 50
  // The server refuses a longer body.
  const BODY_LIMIT := 8192
  const NUL: char := 0 as char

  /** What the sensor and the clock deliver. */
  predicate InRange(r: ClientRecord) {
    0 <= r.timestamp < 0x8000_0000 && -50.0 <= r.temperature < 150.0 && 0.0 <= r.humidity <= 100.0
  }

  /** A cast to int: toward zero. */
  function Truncate(x: real): int {
    if x >= 0.0 then x.Floor else -((-x).Floor)
  }

  /** Remainder with the sign of the dividend. */
  function Remainder10(n: int): int {
    if n >= 0 then n % 10 else -((-n) % 10)
  }

  function Whole(t: real): int {
    Truncate(t)
  }

  function Tenth(t: real): nat {
    var d := Remainder10(Truncate(t * 10.0));
    if d < 0 then -d else d
  }

  /** The number of tenths the printed "whole.tenth" stands for. */
  function Shown(t: real): int {
    if Whole(t) < 0 then Whole(t) * 10 - Tenth(t) else Whole(t) * 10 + Tenth(t)
  }

  lemma WholeOfTenths(t: real)
    requires t >= 0.0
    ensures (t * 10.0).Floor >= 0 && (t * 10.0).Floor / 10 == t.Floor
  {
    var n := t.Floor;
    assert (10 * n) as real <= t * 10.0 < (10 * n + 10) as real;
  }

  /** Below zero the parts printed are those of the tenths of the absolute value. */
  lemma PartsBelowZero(t: real, n: int)
    requires t < 0.0 && n == ((-t) * 10.0).Floor
    ensures n >= 0 && Truncate(t * 10.0) == -n && Whole(t) == -(n / 10) && Tenth(t) == n % 10
  {
    WholeOfTenths(-t);
    assert -(t * 10.0) == (-t) * 10.0;
  }

  /** The temperature printed is the reading cut to tenths, unless it lies above -1 and at or below -0.1: there the sign goes
      with the whole part, which is 0. */
  lemma ShownIsCut(t: real)
    ensures Shown(t) == Truncate(t * 10.0) <==> !(-1.0 < t <= -0.1)
  {
    if t >= 0.0 {
      WholeOfTenths(t);
    } else {
      var n := ((-t) * 10.0).Floor;
      PartsBelowZero(t, n);
      assert n == 0 <==> -0.1 < t;
      assert n < 10 <==> -1.0 < t;
    }
  }

  function Digit(n: nat): char
    requires n < 10
  {
    '0' + n as char
  }

  function Decimal(n: nat): (s: string) {
    if n < 10 then [Digit(n)] else Decimal(n / 10) + [Digit(n % 10)]
  }

  function Signed(n: int): string {
    if n < 0 then "-" + Decimal(-n) else Decimal(n)
  }

  function Pow10(k: nat): nat {
    if k == 0 then 1 else 10 * Pow10(k - 1)
  }

  lemma {:induction false} DecimalFits(n: nat, k: nat)
    requires k > 0 && n < Pow10(k)
    ensures 0 < |Decimal(n)| <= k
  {
    if n >= 10 {
      assert k > 1;
      DecimalFits(n / 10, k - 1);
    }
  }

  /** Reading digits back, as strtol would. */
  function Number(s: string): int {
    if s == [] then 0 else 10 * Number(s[..|s| - 1]) + (s[|s| - 1] as int - '0' as int)
  }

  lemma {:induction false} DecimalReadsBack(n: nat)
    ensures Number(Decimal(n)) == n
    ensures forall c :: c in Decimal(n) ==> '0' <= c <= '9'
  {
    if n >= 10 {
      DecimalReadsBack(n / 10);
      var s := Decimal(n);
      assert s[..|s| - 1] == Decimal(n / 10);
    }
  }

  /** How the firmware was built and how it is set: whether the air-quality sensor is compiled in, and the basic mode. */
  datatype Mode = Mode(ens160: bool, basic: bool)

  function Common(r: ClientRecord): string {
    "{\"ts\":" + Signed(r.timestamp) + ",\"up\":" + Decimal(r.uptime) +
    ",\"t\":" + Signed(Whole(r.temperature)) + "." + Decimal(Tenth(r.temperature)) + ",\"h\":" + Signed(Truncate(r.humidity))
  }

  function AirQuality(r: ClientRecord): string {
    ",\"c\":" + Decimal(r.eco2) + ",\"v\":" + Decimal(r.tvoc) + ",\"a\":" + Decimal(r.aqi)
  }

  /** One record; nothing at all outside basic mode in a build without the sensor. */
  function Reading(m: Mode, r: ClientRecord): string {
    if m.basic then Common(r) + "}" else if m.ens160 then Common(r) + AirQuality(r) + "}" else ""
  }

  function Header(id: string, name: string): string {
    "{\"id\":\"" + id + "\",\"name\":\"" + name + "\",\"readings\":["
  }

  function Piece(text: string, comma: bool): string {
    (if comma then "," else "") + text
  }

  /** The readings, with a comma between any two. */
  function Readings(m: Mode, rs: seq<ClientRecord>): string {
    if rs == [] then ""
    else Readings(m, rs[..|rs| - 1]) + Piece(Reading(m, rs[|rs| - 1]), |rs| > 1)
  }

  function Body(m: Mode, id: string, name: string, rs: seq<ClientRecord>): string {
    Header(id, name) + Readings(m, rs) + "]}"
  }

  /** The widest a reading can get. */
  function Widest(m: Mode): nat {
    if m.basic then 51 else if m.ens160 then 79 else 0
  }

  lemma CommonFits(r: ClientRecord)
    requires InRange(r)
    ensures |Common(r)| <= 50
  {
    DecimalFits(r.timestamp, 10);
    DecimalFits(r.uptime, 10);
    var w := Whole(r.temperature);
    assert -50 <= w < 150;
    DecimalFits(if w < 0 then -w else w, if w < 0 then 2 else 3);
    DecimalFits(Tenth(r.temperature), 1);
    DecimalFits(Truncate(r.humidity), 3);
  }

  lemma ReadingFits(m: Mode, r: ClientRecord)
    requires InRange(r)
    ensures |Reading(m, r)| <= Widest(m)
  {
    CommonFits(r);
    DecimalFits(r.eco2, 5);
    DecimalFits(r.tvoc, 5);
    DecimalFits(r.aqi, 3);
  }

  /** snprintf into what is left of the buffer. It returns the length of the whole text; what does not fit is cut off. */
  method Snprintf(buf: array<char>, offset: nat, text: string) returns (n: nat)
    requires offset < buf.Length
    modifies buf
    ensures n == |text|
    ensures var kept := if offset + |text| < buf.Length then |text| else buf.Length - offset - 1;
            buf[..offset + kept] == old(buf[..offset]) + text[..kept] && buf[offset + kept] == NUL
  {
    n := |text|;
    var kept := if offset + |text| < buf.Length then |text| else buf.Length - offset - 1;
    for i := 0 to kept
      invariant buf[..offset + i] == old(buf[..offset]) + text[..i]
    {
      buf[offset + i] := text[i];
    }
    buf[offset + kept] := NUL;
  }

  /** Printing where there is room for the whole text. */
  method Put(buf: array<char>, offset: nat, text: string) returns (next: nat)
    requires offset + |text| < buf.Length
    modifies buf
    ensures next == offset + |text|
    ensures buf[..next] == old(buf[..offset]) + text && buf[next] == NUL
  {
    var n := Snprintf(buf, offset, text);
    next := offset + n;
  }

  /** One turn of the loop: a comma if one is due, then the text of the reading. */
  method PutPiece(buf: array<char>, offset: nat, text: string, comma: bool) returns (next: nat)
    requires offset + |text| + 1 < buf.Length
    modifies buf
    ensures next == offset + |text| + (if comma then 1 else 0)
    ensures buf[..next] == old(buf[..offset]) + Piece(text, comma)
  {
    next := offset;
    if comma {
      next := Put(buf, next, ",");
    }
    next := Put(buf, next, text);
  }

  method PutReadings(m: Mode, buf: array<char>, start: nat, rs: seq<ClientRecord>) returns (offset: nat)
    requires |rs| <= BATCH && start + 80 * BATCH < buf.Length
    requires forall r :: r in rs ==> InRange(r)
    modifies buf
    ensures start <= offset <= start + 80 * |rs| && (rs != [] ==> offset < start + 80 * |rs|)
    ensures buf[..offset] == old(buf[..start]) + Readings(m, rs)
  {
    offset := start;
    ghost var head := buf[..start];
    for i := 0 to |rs|
      invariant start <= offset <= start + i * 80 - (if i > 0 then 1 else 0)
      invariant buf[..offset] == head + Readings(m, rs[..i])
    {
      var text := Print(m, rs[i]);
      Join(head, m, rs, i, text);
      offset := PutPiece(buf, offset, text, i > 0);
    }
    assert rs[..|rs|] == rs;
  }

  method Print(m: Mode, r: ClientRecord) returns (text: string)
    requires InRange(r)
    ensures text == Reading(m, r) && |text| <= 79
  {
    ReadingFits(m, r);
    text := Reading(m, r);
  }

  lemma Join(head: string, m: Mode, rs: seq<ClientRecord>, i: nat, text: string)
    requires i < |rs| && text == Reading(m, rs[i])
    ensures head + Readings(m, rs[..i + 1]) == (head + Readings(m, rs[..i])) + Piece(text, i > 0)
  {
    assert rs[..i + 1][..i] == rs[..i];
    Regroup(head, Readings(m, rs[..i]), Piece(text, i > 0));
  }

  /** The body as wifi_sync_upload_unsynced prints it: no call is cut short, every offset stays inside the buffer, and the
      body with its NUL takes at most 4095 bytes, under the server's limit. */
  method BuildBody(m: Mode, buf: array<char>, id: string, name: string, rs: seq<ClientRecord>) returns (offset: nat)
    requires buf.Length == BUFFER_SIZE
    requires |id| <= 31 && |name| <= 31 && |rs| <= BATCH
    requires forall r :: r in rs ==> InRange(r)
    modifies buf
    ensures offset + 1 <= 4095 < BODY_LIMIT
    ensures buf[..offset] == Body(m, id, name, rs) && buf[offset] == NUL
  {
    offset := Put(buf, 0, Header(id, name));
    offset := PutRest(m, buf, offset, Header(id, name), rs);
  }

  /** Everything behind the header. */
  method PutRest(m: Mode, buf: array<char>, start: nat, ghost head: string, rs: seq<ClientRecord>) returns (offset: nat)
    requires start <= 93 && buf.Length == BUFFER_SIZE && |rs| <= BATCH && buf[..start] == head
    requires forall r :: r in rs ==> InRange(r)
    modifies buf
    ensures offset + 1 <= BUFFER_SIZE - 1
    ensures buf[..offset] == head + Readings(m, rs) + "]}" && buf[offset] == NUL
  {
    offset := PutReadings(m, buf, start, rs);
    offset := Put(buf, offset, "]}");
  }

  lemma {:induction false} WidestReadings(m: Mode, rs: seq<ClientRecord>)
    requires rs != [] && forall r :: r in rs ==> |Reading(m, r)| == 79
    ensures |Readings(m, rs)| == 80 * |rs| - 1
  {
    var rest := rs[..|rs| - 1];
    assert Readings(m, rs[..0]) == "";
    if rest != [] {
      WidestReadings(m, rest);
    }
  }

  lemma WidestReading() returns (r: ClientRecord)
    ensures InRange(r) && |Reading(Mode(true, false), r)| == 79
  {
    r := ClientRecord(0x7FFF_FFFF, 0xFFFF_FFFF, -50.0, 100.0, 0xFFFF, 0xFFFF, 0xFF, false);
  }

  /** The bound is met: some batch within every limit takes all 4095 bytes. */
  lemma BoundIsTight() returns (m: Mode, id: string, name: string, rs: seq<ClientRecord>)
    ensures |id| == 31 && |name| == 31 && |rs| == BATCH && forall r :: r in rs ==> InRange(r)
    ensures |Body(m, id, name, rs)| + 1 == 4095
  {
    var r := WidestReading();
    m, id, name, rs := Mode(true, false), seq(31, _ => 'a'), seq(31, _ => 'a'), seq(BATCH, _ => r);
    WidestReadings(m, rs);
  }

  /** The body carries the readings in basic mode, and otherwise in a build with the sensor. */
  predicate Prints(m: Mode) {
    m.basic || m.ens160
  }

  /** Otherwise it sends only the commas between them. */
  lemma {:induction false} CommasBetween(m: Mode, rs: seq<ClientRecord>)
    requires !Prints(m)
    ensures Readings(m, rs) == seq(if rs == [] then 0 else |rs| - 1, _ => ',')
  {
    if rs != [] {
      CommasBetween(m, rs[..|rs| - 1]);
    }
  }

  /** The exact condition: nothing but commas is printed if and only if there is nothing to print or the mode prints none. */
  lemma NothingButCommas(m: Mode, rs: seq<ClientRecord>)
    ensures (forall c :: c in Readings(m, rs) ==> c == ',') <==> rs == [] || !Prints(m)
  {
    if !Prints(m) {
      CommasBetween(m, rs);
    } else if rs != [] {
      OpensWithBrace(m, rs[|rs| - 1]);
      LastIsPrinted(m, rs, '{');
    }
  }

  lemma OpensWithBrace(m: Mode, r: ClientRecord)
    requires Prints(m)
    ensures Reading(m, r) != [] && Reading(m, r)[0] == '{'
  {}

  lemma LastIsPrinted(m: Mode, rs: seq<ClientRecord>, c: char)
    requires rs != [] && c in Reading(m, rs[|rs| - 1])
    ensures c in Readings(m, rs)
  {
    LastPiece(Readings(m, rs[..|rs| - 1]), Reading(m, rs[|rs| - 1]), |rs| > 1, c);
  }

  lemma LastPiece(head: string, text: string, comma: bool, c: char)
    requires c in text
    ensures c in head + Piece(text, comma)
  {
    var k :| 0 <= k < |text| && text[k] == c;
    assert Piece(text, comma)[k + if comma then 1 else 0] == c;
  }

  lemma Digits2(n: nat)
    requires 10 <= n < 100
    ensures Decimal(n) == [Digit(n / 10), Digit(n % 10)]
  {}

  lemma ExampleNumbers()
    ensures Signed(7) == "7" && Decimal(12) == "12" && Signed(-1) == "-1" && Decimal(2) == "2" && Signed(40) == "40"
    ensures Decimal(41) == "41" && Decimal(9) == "9"
    ensures Whole(-1.25) == -1 && Tenth(-1.25) == 2 && Truncate(40.5) == 40
  {
    Digits2(12);
    Digits2(40);
    Digits2(41);
  }

  lemma JoinedFront()
    ensures "{\"ts\":" + "7" + ",\"up\":" + "12" + ",\"t\":" == "{\"ts\":7,\"up\":12,\"t\":"
  {}

  lemma JoinedCommon()
    ensures "{\"ts\":7,\"up\":12,\"t\":" + "-1" + "." + "2" + ",\"h\":" + "40" == "{\"ts\":7,\"up\":12,\"t\":-1.2,\"h\":40"
  {}

  lemma JoinedAir()
    ensures ",\"c\":" + "41" + ",\"v\":" + "9" + ",\"a\":" + "2" == ",\"c\":41,\"v\":9,\"a\":2"
  {}

  lemma JoinedAll()
    ensures "{\"ts\":7,\"up\":12,\"t\":-1.2,\"h\":40" + ",\"c\":41,\"v\":9,\"a\":2" + "}" ==
            "{\"ts\":7,\"up\":12,\"t\":-1.2,\"h\":40,\"c\":41,\"v\":9,\"a\":2}"
  {}

  /** What a reading looks like, the temperature cut toward zero. */
  lemma ExampleReading(r: ClientRecord)
    requires r == ClientRecord(7, 12, -1.25, 40.5, 41, 9, 2, false)
    ensures Reading(Mode(true, false), r) == "{\"ts\":7,\"up\":12,\"t\":-1.2,\"h\":40,\"c\":41,\"v\":9,\"a\":2}"
  {
    ExampleNumbers();
    JoinedFront();
    JoinedCommon();
    JoinedAir();
    JoinedAll();
  }

  /** And two of them in a body. */
  lemma TwoReadings(m: Mode, id: string, name: string, a: ClientRecord, b: ClientRecord)
    ensures Body(m, id, name, [a, b]) ==
            "{\"id\":\"" + id + "\",\"name\":\"" + name + "\",\"readings\":[" + (Reading(m, a) + ("," + Reading(m, b))) + "]}"
  {
    assert [a, b][..1] == [a] && [a][..0] == [];
    assert Readings(m, [a]) == Reading(m, a);
  }
}
