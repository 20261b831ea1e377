/**
 * The client's top-level loop: each console line is split on spaces and turned into at most
 * one request packet, a complaint, or the end of the session. The console is a finite
 * sequence of lines, `None` standing for the null `ReadLine` returns at end of input.
 */
module ClientProgram {
  import opened Wrappers
  import opened Packets

  // Splitting on ' ' and joining back

  /** `string.Split(' ')`: the pieces between spaces, empty ones included. */
  function Split(s: string): (parts: seq<string>)
    ensures |parts| >= 1
    decreases |s|
  {
    if s == [] then [""]
    else if s[0] == ' ' then [""] + Split(s[1..])
    else
      var rest := Split(s[1..]);
      [[s[0]] + rest[0]] + rest[1..]
  }

  /** `string.Join(' ', parts)`. */
  function Join(parts: seq<string>): string
    requires |parts| >= 1
  {
    if |parts| == 1 then parts[0] else parts[0] + " " + Join(parts[1..])
  }

  predicate NoSpace(s: string) {
    forall i :: 0 <= i < |s| ==> s[i] != ' '
  }

  function Spaces(s: string): nat {
    if s == [] then 0 else (if s[0] == ' ' then 1 else 0) + Spaces(s[1..])
  }

  /** Splitting loses nothing: the pieces hold no space, there is one more piece than spaces, and joining gives the line back. */
  lemma {:induction false} SplitJoin(s: string)
    ensures Join(Split(s)) == s
    ensures |Split(s)| == Spaces(s) + 1
    ensures forall k :: 0 <= k < |Split(s)| ==> NoSpace(Split(s)[k])
    decreases |s|
  {
    if s != [] {
      SplitJoin(s[1..]);
      var rest := Split(s[1..]);
      if s[0] == ' ' {
        assert Split(s)[1..] == rest;
        assert s == [' '] + s[1..];
      } else {
        var parts := Split(s);
        assert parts[1..] == rest[1..];
        forall k | 0 <= k < |parts| ensures NoSpace(parts[k]) {
          if k == 0 {
            assert NoSpace(rest[0]);
          } else {
            assert parts[k] == rest[k];
          }
        }
        if |rest| == 1 {
          assert s == [s[0]] + rest[0];
        } else {
          assert Join(rest) == rest[0] + " " + Join(rest[1..]);
          assert Join(parts) == [s[0]] + rest[0] + " " + Join(rest[1..]);
          assert s == [s[0]] + s[1..];
        }
      }
    }
  }

  /** A piece with no space followed by a space and more text splits off as the first piece. */
  lemma {:induction false} SplitPiece(a: string, rest: string)
    requires NoSpace(a)
    ensures Split(a + " " + rest) == [a] + Split(rest)
    decreases |a|
  {
    if a == [] {
      assert a + " " + rest == [' '] + rest;
    } else {
      SplitPiece(a[1..], rest);
      var line := a + " " + rest;
      assert line[0] == a[0] && line[0] != ' ';
      assert line[1..] == a[1..] + " " + rest;
      assert Split(line) == [[a[0]] + a[1..]] + Split(rest);
      assert [a[0]] + a[1..] == a;
    }
  }

  /** A piece with no space splits to itself. */
  lemma {:induction false} SplitWhole(a: string)
    requires NoSpace(a)
    ensures Split(a) == [a]
    decreases |a|
  {
    if a != [] {
      SplitWhole(a[1..]);
      assert [a[0]] + a[1..] == a;
    }
  }

  /** Joining pieces without spaces and splitting again gives the pieces back. */
  lemma {:induction false} JoinSplit(parts: seq<string>)
    requires |parts| >= 1 && forall k :: 0 <= k < |parts| ==> NoSpace(parts[k])
    ensures Split(Join(parts)) == parts
    decreases |parts|
  {
    if |parts| == 1 {
      SplitWhole(parts[0]);
    } else {
      JoinSplit(parts[1..]);
      SplitPiece(parts[0], Join(parts[1..]));
    }
  }

  // Integer parsing, in the shape of `NumberStyles.Integer`

  /** The white space `NumberStyles.AllowLeadingWhite` and `AllowTrailingWhite` admit. */
  predicate IsNumberWhite(c: char) {
    '\U{0009}' <= c <= '\U{000D}' || c == ' '
  }

  predicate IsDigit(c: char) {
    '0' <= c <= '9'
  }

  function TrimStart(s: string): (t: string)
    ensures |t| <= |s| && (t != [] ==> !IsNumberWhite(t[0]))
  {
    if s != [] && IsNumberWhite(s[0]) then TrimStart(s[1..]) else s
  }

  function TrimEnd(s: string): (t: string)
    ensures |t| <= |s| && (t != [] ==> !IsNumberWhite(t[|t| - 1]))
  {
    if s != [] && IsNumberWhite(s[|s| - 1]) then TrimEnd(s[..|s| - 1]) else s
  }

  /** The value of a run of decimal digits, most significant first. */
  function DigitsValue(ds: string): nat
    requires forall i :: 0 <= i < |ds| ==> IsDigit(ds[i])
  {
    if ds == [] then 0
    else
      assert IsDigit(ds[|ds| - 1]);
      10 * DigitsValue(ds[..|ds| - 1]) + (ds[|ds| - 1] as int - '0' as int)
  }

  /** Optional white space, an optional sign, at least one digit, optional white space. */
  function ParseInteger(s: string): Option<int> {
    var t := TrimEnd(TrimStart(s));
    var signed := |t| > 0 && (t[0] == '-' || t[0] == '+');
    var digits := if signed then t[1..] else t;
    if digits == [] || exists i :: 0 <= i < |digits| && !IsDigit(digits[i]) then None
    else if signed && t[0] == '-' then Some(0 - DigitsValue(digits) as int)
    else Some(DigitsValue(digits))
  }

  function InRange(v: Option<int>, lo: int, hi: int): Option<int> {
    if v.Some? && lo <= v.value <= hi then v else None
  }

  /** `int.TryParse`. */
  function TryParseInt(s: string): (r: Option<int>)
    ensures r.Some? ==> -0x8000_0000 <= r.value < 0x8000_0000
  {
    InRange(ParseInteger(s), -0x8000_0000, 0x7FFF_FFFF)
  }

  /** `ushort.TryParse`. */
  function TryParseU16(s: string): (r: Option<u16>) {
    var v := InRange(ParseInteger(s), 0, 0xFFFF);
    if v.Some? then Some(v.value as u16) else None
  }

  /** `byte.TryParse`. */
  function TryParseByte(s: string): (r: Option<byte>) {
    var v := InRange(ParseInteger(s), 0, 0xFF);
    if v.Some? then Some(v.value as byte) else None
  }

  function DigitChar(d: nat): char
    requires d < 10
  {
    ('0' as int + d) as char
  }

  /** The decimal text of a number, without sign or leading zeros. */
  function Decimal(n: nat): (s: string)
    ensures |s| >= 1 && forall i :: 0 <= i < |s| ==> IsDigit(s[i])
  {
    if n < 10 then [DigitChar(n)] else Decimal(n / 10) + [DigitChar(n % 10)]
  }

  lemma {:induction false} DecimalValue(n: nat)
    ensures DigitsValue(Decimal(n)) == n
  {
    if n >= 10 {
      DecimalValue(n / 10);
      var s := Decimal(n);
      assert s[..|s| - 1] == Decimal(n / 10);
    }
  }

  /** The parsers read back the decimal text of any number in their range. */
  lemma ParseDecimal(n: nat)
    ensures ParseInteger(Decimal(n)) == Some(n)
    ensures n <= 0xFFFF ==> TryParseU16(Decimal(n)) == Some(n as u16)
    ensures n <= 0xFF ==> TryParseByte(Decimal(n)) == Some(n as byte)
    ensures n < 0x8000_0000 ==> TryParseInt(Decimal(n)) == Some(n)
  {
    var s := Decimal(n);
    assert TrimStart(s) == s;
    assert TrimEnd(s) == s;
    DecimalValue(n);
  }

  // One line of input

  /** The complaints the loop prints. */
  datatype Complaint = InvalidCommand | InvalidArguments | InvalidCount | InvalidLength

  /** What one line leads to. */
  datatype LineAction = Complain(complaint: Complaint) | SendRequest(packet: NetworkPacket) | Exit | NoAction

  /**
   * The body of the loop for one line: a null line or a first piece that is not an `int` is an
   * invalid command; `1 <count> <length>` and `2 <code>` send a request, with no check of the
   * values beyond their types; `3` ends the session; any other number does nothing. The
   * source's test for zero pieces is left out: `SplitJoin` shows there is always one.
   */
  function ParseLine(line: Option<string>, serialize: PayloadRecord -> seq<byte>): LineAction {
    if line.None? then Complain(InvalidCommand)
    else
      var parts := Split(line.value);
      match TryParseInt(parts[0])
      case None => Complain(InvalidCommand)
      case Some(command) =>
        if command == 1 then
          if |parts| != 3 then Complain(InvalidArguments)
          else match TryParseU16(parts[1])
            case None => Complain(InvalidCount)
            case Some(count) =>
              match TryParseByte(parts[2])
              case None => Complain(InvalidLength)
              case Some(length) => SendRequest(CreateGenerateDiscountsRequest(count, length, serialize))
        else if command == 2 then
          if |parts| != 2 then Complain(InvalidArguments)
          else SendRequest(CreateUseDiscountRequest(parts[1], serialize))
        else if command == 3 then Exit
        else NoAction
  }

  /** A request is sent only for command 1 or 2 with the right number of pieces, and it is the one those pieces describe. */
  lemma ParseLineSends(line: Option<string>, serialize: PayloadRecord -> seq<byte>)
    requires ParseLine(line, serialize).SendRequest?
    ensures var parts := Split(line.value); var p := ParseLine(line, serialize).packet;
      || (&& TryParseInt(parts[0]) == Some(1) && |parts| == 3
          && TryParseU16(parts[1]).Some? && TryParseByte(parts[2]).Some?
          && p == CreateGenerateDiscountsRequest(TryParseU16(parts[1]).value, TryParseByte(parts[2]).value, serialize))
      || (TryParseInt(parts[0]) == Some(2) && |parts| == 2 && p == CreateUseDiscountRequest(parts[1], serialize))
  {
  }

  /** Any count and length typed in decimal produce exactly that generate request; no range is enforced. */
  lemma GenerateLine(count: u16, length: byte, serialize: PayloadRecord -> seq<byte>)
    ensures ParseLine(Some("1 " + Decimal(count as nat) + " " + Decimal(length as nat)), serialize)
         == SendRequest(CreateGenerateDiscountsRequest(count, length, serialize))
  {
    var parts := ["1", Decimal(count as nat), Decimal(length as nat)];
    assert Decimal(1) == "1";
    forall k | 0 <= k < 3 ensures NoSpace(parts[k]) {
    }
    JoinSplit(parts);
    assert parts[1..] == [Decimal(count as nat), Decimal(length as nat)] && parts[1..][1..] == [Decimal(length as nat)];
    assert Join(parts[1..]) == Decimal(count as nat) + " " + Decimal(length as nat);
    assert Join(parts) == "1 " + Decimal(count as nat) + " " + Decimal(length as nat);
    ParseDecimal(1);
    ParseDecimal(count as nat);
    ParseDecimal(length as nat);
  }

  /** Any code without spaces produces exactly that use request; the code is not checked. */
  lemma UseLine(code: string, serialize: PayloadRecord -> seq<byte>)
    requires NoSpace(code)
    ensures ParseLine(Some("2 " + code), serialize) == SendRequest(CreateUseDiscountRequest(code, serialize))
  {
    var parts := ["2", code];
    assert Decimal(2) == "2";
    JoinSplit(parts);
    assert Join(parts) == "2 " + code;
    ParseDecimal(2);
  }

  // The session

  datatype Session = Session(sent: seq<NetworkPacket>, complaints: seq<Complaint>, read: nat, exited: bool)

  /** The loop over the lines: stops after the first exit command, otherwise reads every line. */
  function RunSession(lines: seq<Option<string>>, serialize: PayloadRecord -> seq<byte>): Session {
    if lines == [] then Session([], [], 0, false)
    else
      var rest := RunSession(lines[1..], serialize);
      match ParseLine(lines[0], serialize)
      case Exit => Session([], [], 1, true)
      case NoAction => rest.(read := rest.read + 1)
      case Complain(c) => rest.(complaints := [c] + rest.complaints, read := rest.read + 1)
      case SendRequest(p) => rest.(sent := [p] + rest.sent, read := rest.read + 1)
  }

  /**
   * At most one packet per line read, and the session ends at the first exit command: every
   * line before it is read and none after it; without one, every line is read.
   */
  lemma {:induction false} SessionShape(lines: seq<Option<string>>, serialize: PayloadRecord -> seq<byte>)
    ensures var r := RunSession(lines, serialize);
      && |r.sent| + |r.complaints| <= r.read <= |lines|
      && (forall j :: 0 <= j < r.read - 1 ==> ParseLine(lines[j], serialize) != Exit)
      && (r.exited <==> r.read > 0 && ParseLine(lines[r.read - 1], serialize) == Exit)
      && (!r.exited ==> r.read == |lines|)
  {
    if lines != [] {
      SessionShape(lines[1..], serialize);
      var r := RunSession(lines, serialize);
      var rest := RunSession(lines[1..], serialize);
      if ParseLine(lines[0], serialize) != Exit {
        assert r.read == rest.read + 1;
        assert forall j :: 1 <= j < |lines| ==> lines[j] == lines[1..][j - 1];
      }
    }
  }

  lemma SessionStep(lines: seq<Option<string>>, i: nat, serialize: PayloadRecord -> seq<byte>)
    requires i < |lines|
    ensures var r, rest := RunSession(lines[i..], serialize), RunSession(lines[i + 1..], serialize);
      match ParseLine(lines[i], serialize)
      case Exit => r == Session([], [], 1, true)
      case NoAction => r == rest.(read := rest.read + 1)
      case Complain(c) => r == rest.(complaints := [c] + rest.complaints, read := rest.read + 1)
      case SendRequest(p) => r == rest.(sent := [p] + rest.sent, read := rest.read + 1)
  {
    assert lines[i..][1..] == lines[i + 1..];
  }

  /** The top-level `while (running)` loop, then the disconnect that follows an exit command. */
  method Run(lines: seq<Option<string>>, serialize: PayloadRecord -> seq<byte>)
    returns (sent: seq<NetworkPacket>, complaints: seq<Complaint>, read: nat, disconnected: bool)
    ensures RunSession(lines, serialize) == Session(sent, complaints, read, disconnected)
  {
    sent, complaints, read := [], [], 0;
    var running := true;
    while running && read < |lines|
      invariant read <= |lines|
      invariant running ==> var rest := RunSession(lines[read..], serialize);
        RunSession(lines, serialize) == Session(sent + rest.sent, complaints + rest.complaints, read + rest.read, rest.exited)
      invariant !running ==> RunSession(lines, serialize) == Session(sent, complaints, read, true)
      decreases |lines| - read, running
    {
      SessionStep(lines, read, serialize);
      var action := ParseLine(lines[read], serialize);
      read := read + 1;
      match action {
        case Complain(c) => complaints := complaints + [c];
        case SendRequest(p) => sent := sent + [p];
        case Exit => running := false;
        case NoAction =>
      }
    }
    if running {
      assert lines[read..] == [];
    }
    disconnected := !running;
  }
}
