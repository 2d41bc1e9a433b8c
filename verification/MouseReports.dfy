/** SGR mouse reports: what `MouseInput::encode` prints, the host-input codec
    reads back, however the report is cut into feeds. */
module MouseReports {
  import opened Basics
  import opened HostInput
  import opened Stability
  import opened Splitting
  import opened InputUnits

  /** `parse_decimal`: digit by digit, giving up when sixteen bits overflow. */
  method ParseDecimal(s: seq<byte>) returns (r: Option<nat>)
    ensures r == DecimalField(s)
  {
    if s == [] || !AllDigits(s) { return None; }
    var value := 0;
    for i := 0 to |s|
      invariant value == DecimalValue(s[..i]) <= 0xffff
    {
      PrefixValue(s, i + 1);
      assert s[..i + 1][..i] == s[..i];
      if value * 10 > 0xffff { return None; }
      value := value * 10;
      if value + (s[i] - 0x30) as nat > 0xffff { return None; }
      value := value + (s[i] - 0x30) as nat;
    }
    assert s[..|s|] == s;
    return Some(value);
  }

  lemma {:induction false} PrefixValue(s: seq<byte>, n: nat)
    requires AllDigits(s) && n <= |s|
    ensures DecimalValue(s[..n]) <= DecimalValue(s)
    decreases |s| - n
  {
    if n < |s| {
      assert s[..n + 1][..n] == s[..n];
      PrefixValue(s, n + 1);
    } else {
      assert s[..n] == s;
    }
  }

  /** Decimal digits without leading zeros. */
  function Decimal(n: nat): (s: seq<byte>)
    ensures s != [] && AllDigits(s)
  {
    (if n < 10 then [] else Decimal(n / 10)) + [(0x30 + n % 10) as byte]
  }

  lemma {:induction false} DecimalRoundTrip(n: nat)
    ensures DecimalValue(Decimal(n)) == n
  {
    var s := Decimal(n);
    if n < 10 {
      assert s[..|s| - 1] == [];
    } else {
      assert s[..|s| - 1] == Decimal(n / 10);
      DecimalRoundTrip(n / 10);
    }
  }

  lemma DecimalLength(n: nat)
    requires n <= 0xffff
    ensures |Decimal(n)| <= 5
  {
    if n >= 10 {
      assert |Decimal(n)| == |Decimal(n / 10)| + 1;
      if n >= 100 {
        assert |Decimal(n / 10)| == |Decimal(n / 10 / 10)| + 1;
        if n >= 1000 {
          assert |Decimal(n / 10 / 10)| == |Decimal(n / 10 / 10 / 10)| + 1;
          if n >= 10000 {
            assert |Decimal(n / 10 / 10 / 10)| == |Decimal(n / 10 / 10 / 10 / 10)| + 1;
            assert n / 10 / 10 / 10 / 10 < 10;
          }
        }
      }
    }
  }

  function Body(code: nat, column: nat, row: nat): seq<byte> {
    Decimal(code) + [0x3b] + (Decimal(column) + [0x3b] + Decimal(row))
  }

  /** `MouseInput::encode` for the SGR encoding; a zero coordinate has no report. */
  function EncodeSgr(code: nat, column: nat, row: nat, release: bool): Option<seq<byte>> {
    if row == 0 || column == 0 then None
    else Some(MOUSE_START + Body(code, column, row) + [if release then 0x6d else 0x4d])
  }

  lemma {:induction false} FieldsOfDigits(s: seq<byte>)
    requires AllDigits(s)
    ensures Fields(s) == [s]
  {
    if s != [] {
      FieldsOfDigits(s[1..]);
      assert [s[0]] + s[1..] == s;
    }
  }

  lemma {:induction false} FieldsSplit(s: seq<byte>, rest: seq<byte>)
    requires AllDigits(s)
    ensures Fields(s + [0x3b] + rest) == [s] + Fields(rest)
  {
    var all := s + [0x3b] + rest;
    if s == [] {
      assert all[1..] == rest;
    } else {
      assert all[1..] == s[1..] + [0x3b] + rest;
      FieldsSplit(s[1..], rest);
      assert [s[0]] + s[1..] == s;
    }
  }

  lemma ThreeFields(a: seq<byte>, b: seq<byte>, c: seq<byte>)
    requires AllDigits(a) && AllDigits(b) && AllDigits(c)
    ensures Fields(a + [0x3b] + (b + [0x3b] + c)) == [a, b, c]
  {
    FieldsSplit(a, b + [0x3b] + c);
    FieldsSplit(b, c);
    FieldsOfDigits(c);
  }

  lemma FieldRoundTrip(n: nat)
    requires n <= 0xffff
    ensures DecimalField(Decimal(n)) == Some(n)
  {
    DecimalRoundTrip(n);
  }

  lemma ReportBody(body: seq<byte>, end: byte)
    ensures
      var raw := MOUSE_START + body + [end];
      |raw| >= 4 && MOUSE_START <= raw && raw[3..|raw| - 1] == body && raw[|raw| - 1] == end
  {
  }

  lemma ParsesFields(raw: seq<byte>, fields: seq<seq<byte>>, code: nat, column: nat, row: nat)
    requires |raw| >= 4 && MOUSE_START <= raw && Fields(raw[3..|raw| - 1]) == fields && |fields| == 3
    requires DecimalField(fields[0]) == Some(code)
    requires DecimalField(fields[1]) == Some(column) && DecimalField(fields[2]) == Some(row)
    requires column > 0 && row > 0
    ensures ParseSgr(raw) == Some(SgrMouse(code, column, row, raw[|raw| - 1] == 0x6d, raw))
  {
  }

  lemma ParsesDigits(a: seq<byte>, b: seq<byte>, c: seq<byte>, end: byte, code: nat, column: nat, row: nat)
    requires AllDigits(a) && AllDigits(b) && AllDigits(c) && column > 0 && row > 0
    requires DecimalField(a) == Some(code) && DecimalField(b) == Some(column) && DecimalField(c) == Some(row)
    ensures
      var raw := MOUSE_START + (a + [0x3b] + (b + [0x3b] + c)) + [end];
      ParseSgr(raw) == Some(SgrMouse(code, column, row, end == 0x6d, raw))
  {
    var body := a + [0x3b] + (b + [0x3b] + c);
    ReportBody(body, end);
    ThreeFields(a, b, c);
    ParsesFields(MOUSE_START + body + [end], [a, b, c], code, column, row);
  }

  lemma ParsesBack(code: nat, column: nat, row: nat, release: bool)
    requires code <= 0xffff && 0 < column <= 0xffff && 0 < row <= 0xffff
    ensures
      var raw := EncodeSgr(code, column, row, release).value;
      ParseSgr(raw) == Some(SgrMouse(code, column, row, release, raw))
  {
    FieldRoundTrip(code);
    FieldRoundTrip(column);
    FieldRoundTrip(row);
    ParsesDigits(Decimal(code), Decimal(column), Decimal(row), if release then 0x6d else 0x4d, code, column, row);
  }

  function Joined(fields: seq<seq<byte>>): seq<byte>
    requires fields != []
  {
    if |fields| == 1 then fields[0] else fields[0] + [0x3b] + Joined(fields[1..])
  }

  lemma {:induction false} FieldsJoin(s: seq<byte>)
    ensures Joined(Fields(s)) == s
  {
    if s != [] {
      var rest := Fields(s[1..]);
      FieldsJoin(s[1..]);
      assert s == [s[0]] + s[1..];
      if s[0] == 0x3b {
        assert Fields(s)[1..] == rest;
      } else if |rest| > 1 {
        assert Fields(s)[1..] == rest[1..];
        assert [s[0]] + rest[0] + [0x3b] + Joined(rest[1..]) == [s[0]] + (rest[0] + [0x3b] + Joined(rest[1..]));
      }
    }
  }

  /** Three runs of digits between semicolons, none too large, the last two not zero. */
  ghost predicate Spells(raw: seq<byte>, m: SgrMouse) {
    exists a, b, c, end ::
      && AllDigits(a) && AllDigits(b) && AllDigits(c)
      && DecimalField(a) == Some(m.code) && DecimalField(b) == Some(m.column) && DecimalField(c) == Some(m.row)
      && raw == MOUSE_START + (a + [0x3b] + (b + [0x3b] + c)) + [end]
      && m.column > 0 && m.row > 0 && m.release == (end == 0x6d) && m.raw == raw
  }

  lemma SpelledFields(raw: seq<byte>)
    requires ParseSgr(raw).Some?
    ensures Spells(raw, ParseSgr(raw).value)
  {
    var body := raw[3..|raw| - 1];
    var fields := Fields(body);
    FieldsJoin(body);
    assert fields[1..] == [fields[1], fields[2]] && fields[1..][1..] == [fields[2]];
    var a, b, c, end := fields[0], fields[1], fields[2], raw[|raw| - 1];
    assert Joined(fields[1..]) == b + [0x3b] + c;
    assert Joined(fields) == a + [0x3b] + (b + [0x3b] + c);
    assert raw == MOUSE_START + body + [end];
  }

  /** A report is understood exactly when it spells one, and then as that. */
  lemma ParsesExactly(raw: seq<byte>, m: SgrMouse)
    ensures ParseSgr(raw) == Some(m) <==> Spells(raw, m)
  {
    if Spells(raw, m) {
      var a, b, c, end :|
        && AllDigits(a) && AllDigits(b) && AllDigits(c)
        && DecimalField(a) == Some(m.code) && DecimalField(b) == Some(m.column) && DecimalField(c) == Some(m.row)
        && raw == MOUSE_START + (a + [0x3b] + (b + [0x3b] + c)) + [end]
        && m.column > 0 && m.row > 0 && m.release == (end == 0x6d) && m.raw == raw;
      ParsesDigits(a, b, c, end, m.code, m.column, m.row);
    }
    if ParseSgr(raw) == Some(m) { SpelledFields(raw); }
  }

  lemma BodyEndsNothing(code: nat, column: nat, row: nat)
    ensures forall i :: 0 <= i < |Body(code, column, row)| ==> !IsMouseEnd(Body(code, column, row)[i])
  {
  }

  /** From a mouse introducer to the first byte that ends a report, whether or not
      what lies between makes sense. */
  ghost predicate IsReport(raw: seq<byte>) {
    MOUSE_START <= raw && FirstMouseEnd(raw, 0) == |raw| - 1
  }

  lemma IntroducedReport(body: seq<byte>, end: byte)
    requires IsMouseEnd(end)
    requires forall i :: 0 <= i < |body| ==> !IsMouseEnd(body[i])
    ensures IsReport(MOUSE_START + body + [end])
  {
    var raw := MOUSE_START + body + [end];
    assert raw[2] == 0x3c;
    forall i | 0 <= i < |raw| - 1 ensures !IsMouseEnd(raw[i]) {
      assert raw[i] == (MOUSE_START + body)[i];
    }
    assert raw[|raw| - 1] == end;
  }

  lemma ReportShape(code: nat, column: nat, row: nat, release: bool)
    requires code <= 0xffff && 0 < column <= 0xffff && 0 < row <= 0xffff
    ensures
      var raw := EncodeSgr(code, column, row, release).value;
      IsReport(raw) && |raw| < HOST_SEQUENCE_BOUND
  {
    DecimalLength(code);
    DecimalLength(column);
    DecimalLength(row);
    BodyEndsNothing(code, column, row);
    IntroducedReport(Body(code, column, row), if release then 0x6d else 0x4d);
  }

  lemma WholeReport(x: Parsers, raw: seq<byte>)
    requires IsReport(raw)
    ensures Run(x, START, raw) == Done(START, [], [Piece(raw, MouseEvent(raw))])
  {
    assert raw[1] == 0x5b && raw[2] == 0x3c && OscPrefix(raw) == 0;
    assert raw[..|raw|] == raw && raw[|raw|..] == [];
    assert Step(x, START, raw) == Consume(|raw|, [MouseEvent(raw)], START);
    assert Pieces(raw, [MouseEvent(raw)]) == [Piece(raw, MouseEvent(raw))];
  }

  /** A part of a report is no other key and has no end. */
  lemma ReportPart(raw: seq<byte>, k: nat)
    requires MOUSE_START <= raw && FirstMouseEnd(raw, 0) >= |raw| - 1 && |MOUSE_START| <= k < |raw|
    ensures
      var p := raw[..k];
      && MOUSE_START <= p && FirstMouseEnd(p, 0) == k && OscPrefix(p) == 0 && p[1] == 0x5b && p[2] == 0x3c
      && !(PASTE_START <= p) && !(PAGE_UP <= p) && !(PAGE_DOWN <= p)
  {
    var p := raw[..k];
    assert p[..3] == raw[..3] == MOUSE_START;
    assert forall i :: 0 <= i < k ==> p[i] == raw[i];
    assert p[2] == 0x3c;
  }

  lemma PartialReport(x: Parsers, raw: seq<byte>, n: nat)
    requires MOUSE_START <= raw && FirstMouseEnd(raw, 0) >= |raw| - 1
    requires n < |raw| && n < HOST_SEQUENCE_BOUND
    ensures Run(x, START, raw[..n]) == Done(START, raw[..n], [])
  {
    var p := raw[..n];
    if n >= 3 {
      ReportPart(raw, n);
      assert Step(x, START, p) == Wait(START);
    } else if n > 0 {
      assert p == MOUSE_START[..n];
      KnownPrefixWaits(x, START, p);
    }
  }

  lemma ReportIsUnit(x: Parsers, raw: seq<byte>)
    requires IsReport(raw) && |raw| <= HOST_SEQUENCE_BOUND
    ensures IsUnit(Codec(x), raw, [Piece(raw, MouseEvent(raw))])
  {
    WholeReport(x, raw);
    forall n | 0 <= n < |raw| ensures Codec(x)(START, raw[..n]) == Done(START, raw[..n], []) {
      PartialReport(x, raw, n);
    }
  }

  /** SGR round trip: every report the client can send, cut in any way, is read
      back as exactly one mouse event with the same fields and bytes. */
  lemma SgrRoundTrip(x: Parsers, code: nat, column: nat, row: nat, release: bool, chunks: seq<seq<byte>>)
    requires code <= 0xffff && 0 < column <= 0xffff && 0 < row <= 0xffff
    requires EncodeSgr(code, column, row, release) == Some(Flatten(chunks))
    ensures
      var raw := Flatten(chunks);
      && Returned(x, START, [], chunks) == [Mouse(SgrMouse(code, column, row, release, raw))]
      && Feeds(x, START, [], chunks).Done?
      && Feeds(x, START, [], chunks).mode == START && Feeds(x, START, [], chunks).pending == []
  {
    var raw := Flatten(chunks);
    ParsesBack(code, column, row, release);
    ReportShape(code, column, row, release);
    ReportIsUnit(x, raw);
    UnitComesBack(x, [Piece(raw, MouseEvent(raw))], chunks);
    assert Collect([], [Piece(raw, MouseEvent(raw))]) == [MouseEvent(raw)];
  }

  // ----- Reports of any length ----------------------------------------------------

  function Zeros(n: nat): (s: seq<byte>)
    ensures |s| == n && AllDigits(s)
  {
    seq(n, _ => 0x30)
  }

  lemma {:induction false} LeadingZeros(n: nat, s: seq<byte>)
    requires AllDigits(s)
    ensures AllDigits(Zeros(n) + s) && DecimalValue(Zeros(n) + s) == DecimalValue(s)
    decreases |s|, n
  {
    var all := Zeros(n) + s;
    if s != [] {
      assert all[..|all| - 1] == Zeros(n) + s[..|s| - 1];
      LeadingZeros(n, s[..|s| - 1]);
    } else if n > 0 {
      assert all[..n - 1] == Zeros(n - 1) + s;
      LeadingZeros(n - 1, s);
    }
  }

  lemma DigitsEndNothing(a: seq<byte>, b: seq<byte>, c: seq<byte>)
    requires AllDigits(a) && AllDigits(b) && AllDigits(c)
    ensures
      var body := a + [0x3b] + (b + [0x3b] + c);
      forall i :: 0 <= i < |body| ==> !IsMouseEnd(body[i])
  {
  }

  lemma DigitsReport(a: seq<byte>, b: seq<byte>, c: seq<byte>, end: byte)
    requires AllDigits(a) && AllDigits(b) && AllDigits(c) && IsMouseEnd(end)
    ensures
      var raw := MOUSE_START + (a + [0x3b] + (b + [0x3b] + c)) + [end];
      IsReport(raw) && |raw| > |a|
  {
    DigitsEndNothing(a, b, c);
    IntroducedReport(a + [0x3b] + (b + [0x3b] + c), end);
  }

  /** A report may be as long as one likes: leading zeros change nothing. */
  lemma LongReport(n: nat, code: nat, column: nat, row: nat, release: bool) returns (raw: seq<byte>)
    requires code <= 0xffff && 0 < column <= 0xffff && 0 < row <= 0xffff
    ensures IsReport(raw) && |raw| > n && ParseSgr(raw) == Some(SgrMouse(code, column, row, release, raw))
  {
    var a, b, c := Zeros(n) + Decimal(code), Decimal(column), Decimal(row);
    var end: byte := if release then 0x6d else 0x4d;
    LeadingZeros(n, Decimal(code));
    FieldRoundTrip(code);
    FieldRoundTrip(column);
    FieldRoundTrip(row);
    ParsesDigits(a, b, c, end, code, column, row);
    DigitsReport(a, b, c, end);
    raw := MOUSE_START + (a + [0x3b] + (b + [0x3b] + c)) + [end];
  }
}
