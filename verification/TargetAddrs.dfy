/**
 Target addresses and their text form.  Text is the UTF-8 bytes of a string; parsing and printing of
 socket addresses is the standard library's, and is a parameter here.
 */
module TargetAddrs {
  import opened Bytes

  type Text = seq<byte>

  datatype SocketAddr =
    | V4(ip4: seq<byte>, port4: u16)
    | V6(ip6: seq<byte>, port6: u16, flowinfo: nat, scopeId: nat)

  datatype TargetAddr =
    | SocketTarget(addr: SocketAddr)
    | Domain(domain: Text, port: u16)

  datatype ParsedTarget = Parsed(target: TargetAddr) | InvalidPort | InvalidAddr

  const COLON: byte := 58
  const PLUS: byte := 43
  const ZERO: byte := 48

  /** The address fields have the lengths their types give them. */
  predicate WellFormed(a: SocketAddr) {
    match a
    case V4(ip, _) => |ip| == 4
    case V6(ip, _, _, _) => |ip| == 16
  }

  // ---------------------------------------------------------------------------
  // Decimal numbers
  // ---------------------------------------------------------------------------

  function ShowNat(n: nat): Text {
    if n < 10 then [ZERO + n] else ShowNat(n / 10) + [ZERO + n % 10]
  }

  predicate IsDigit(b: byte) {
    ZERO <= b <= ZERO + 9
  }

  predicate AllDigits(s: Text) {
    forall i | 0 <= i < |s| :: IsDigit(s[i])
  }

  function DigitsValue(s: Text): nat
    requires AllDigits(s)
  {
    if s == [] then 0 else 10 * DigitsValue(s[..|s| - 1]) + (s[|s| - 1] - ZERO)
  }

  /** The standard library's `u16::from_str`: an optional plus sign and at least one digit, in range. */
  function ParseU16(s: Text): Option<u16> {
    var digits := if s != [] && s[0] == PLUS then s[1..] else s;
    if digits != [] && AllDigits(digits) && DigitsValue(digits) < 0x1_0000 then Some(DigitsValue(digits)) else None
  }

  lemma {:induction false} ShowNatDigits(n: nat)
    ensures ShowNat(n) != [] && AllDigits(ShowNat(n)) && DigitsValue(ShowNat(n)) == n
  {
    if n < 10 {
      assert DigitsValue([]) == 0;
      assert [ZERO + n][..0] == [];
    } else {
      ShowNatDigits(n / 10);
      var s := ShowNat(n);
      assert s[..|s| - 1] == ShowNat(n / 10);
    }
  }

  lemma {:induction false} PortRoundTrip(port: u16)
    ensures ParseU16(ShowNat(port)) == Some(port)
  {
    ShowNatDigits(port);
  }

  /** Decimal numerals, digit by digit, most significant first. */
  lemma {:induction false} NumeralBytes(n: nat, s: Text, d: byte)
    requires 48 <= d <= 57
    ensures ShowNat(d - 48) == [d] && (n > 0 ==> ShowNat(10 * n + (d - 48)) == ShowNat(n) + [d])
    ensures AllDigits(s) ==> AllDigits(s + [d]) && DigitsValue(s + [d]) == 10 * DigitsValue(s) + (d - 48)
  {
    assert (s + [d])[..|s|] == s;
  }

  function Zeros(n: nat): Text {
    seq(n, _ => 48)
  }

  lemma {:induction false} LeadingZeros(zeros: nat, n: nat)
    ensures AllDigits(Zeros(zeros) + ShowNat(n)) && DigitsValue(Zeros(zeros) + ShowNat(n)) == n
    decreases n
  {
    var s := Zeros(zeros) + ShowNat(n);
    ShowNatDigits(n);
    if n < 10 {
      assert s[..|s| - 1] == Zeros(zeros);
      ZerosValue(zeros);
    } else {
      LeadingZeros(zeros, n / 10);
      assert s[..|s| - 1] == Zeros(zeros) + ShowNat(n / 10);
    }
  }

  lemma {:induction false} ZerosValue(zeros: nat)
    ensures AllDigits(Zeros(zeros)) && DigitsValue(Zeros(zeros)) == 0
  {
    var s: Text := Zeros(zeros);
    if zeros == 0 {
      assert s == [];
    } else {
      ZerosValue(zeros - 1);
      NumeralBytes(0, s[..zeros - 1], 48);
      assert s[..zeros - 1] == Zeros(zeros - 1) && s == s[..zeros - 1] + [48];
    }
  }

  /** Digits are a numeral behind zeros. */
  lemma {:induction false} DigitsAreNumeral(s: Text) returns (zeros: nat)
    requires s != [] && AllDigits(s)
    ensures s == Zeros(zeros) + ShowNat(DigitsValue(s))
  {
    var init, d := s[..|s| - 1], s[|s| - 1];
    NumeralBytes(DigitsValue(init), init, d);
    assert s == init + [d];
    if init == [] {
      zeros := 0;
    } else {
      zeros := DigitsAreNumeral(init);
      if DigitsValue(init) == 0 {
        assert ShowNat(0) == [48];
        zeros := zeros + 1;
      }
    }
  }

  /** A numeral behind zeros, and perhaps a plus sign. */
  function Numeral(plus: bool, zeros: nat, n: nat): Text {
    (if plus then [43] else []) + (Zeros(zeros) + ShowNat(n))
  }

  /** A port is read exactly from its decimal numeral, behind any number of zeros and perhaps a plus sign. */
  lemma {:induction false} PortText(s: Text, port: u16)
    ensures ParseU16(s) == Some(port) <==>
            exists plus: bool, zeros: nat :: s == Numeral(plus, zeros, port)
  {
    if ParseU16(s) == Some(port) {
      var plus := s != [] && s[0] == PLUS;
      var zeros := DigitsAreNumeral(if plus then s[1..] else s);
      assert !plus ==> [] + s == s;
      assert s == Numeral(plus, zeros, port);
    }
    forall plus: bool, zeros: nat | s == Numeral(plus, zeros, port)
      ensures ParseU16(s) == Some(port)
    {
      LeadingZeros(zeros, port);
      var digits := Zeros(zeros) + ShowNat(port);
      ShowNatDigits(port);
      assert IsDigit(digits[0]);
      assert plus ==> s[1..] == digits;
      assert !plus ==> s == [] + digits == digits;
    }
  }

  // ---------------------------------------------------------------------------
  // Display and FromStr
  // ---------------------------------------------------------------------------

  function Display(a: TargetAddr, showSocket: SocketAddr -> Text): Text {
    match a
    case SocketTarget(addr) => showSocket(addr)
    case Domain(domain, port) => domain + [COLON] + ShowNat(port)
  }

  /** The position of the last colon among the first `n` bytes. */
  function LastColon(s: Text, n: nat): (i: Option<nat>)
    requires n <= |s|
    ensures i.None? ==> forall j | 0 <= j < n :: s[j] != COLON
    ensures i.Some? ==> i.value < n && s[i.value] == COLON && forall j | i.value < j < n :: s[j] != COLON
  {
    if n == 0 then None else if s[n - 1] == COLON then Some(n - 1) else LastColon(s, n - 1)
  }

  function RFindColon(s: Text): (i: Option<nat>)
    ensures i.None? <==> COLON !in s
    ensures i.Some? ==> i.value < |s| && s[i.value] == COLON && COLON !in s[i.value + 1..]
  {
    LastColon(s, |s|)
  }

  function TrimColons(s: Text): Text {
    if s != [] && s[0] == COLON then TrimColons(s[1..]) else s
  }

  function FromStr(s: Text, parseSocket: Text -> Option<SocketAddr>): ParsedTarget {
    match parseSocket(s)
    case Some(addr) => Parsed(SocketTarget(addr))
    case None =>
      match RFindColon(s)
      case None => InvalidAddr
      case Some(i) =>
        match ParseU16(TrimColons(s[i..]))
        case None => InvalidPort
        case Some(port) => Parsed(Domain(s[..i], port))
  }

  lemma {:induction false} TrimOneColon(s: Text)
    requires s != [] && s[0] == COLON && COLON !in s[1..]
    ensures TrimColons(s) == s[1..]
  {
    assert s[1..] == [] || s[1] in s[1..];
  }

  lemma {:induction false} NoColonBehind(s: Text, i: nat)
    requires i < |s| && COLON !in s[i + 1..]
    ensures forall j | i < j < |s| :: s[j] != COLON
  {
    forall j | i < j < |s| ensures s[j] != COLON {
      assert s[j] == s[i + 1..][j - i - 1];
    }
  }

  /** The last colon of a printed domain is the one before the port, whatever the domain contains. */
  lemma {:induction false} PrintedDomainSplits(domain: Text, port: u16)
    ensures var s := domain + [COLON] + ShowNat(port);
            RFindColon(s) == Some(|domain|) && s[..|domain|] == domain && TrimColons(s[|domain|..]) == ShowNat(port)
  {
    var s := domain + [COLON] + ShowNat(port);
    ShowNatDigits(port);
    assert COLON !in ShowNat(port);
    assert s[|domain|] == COLON && s[|domain| + 1..] == ShowNat(port);
    NoColonBehind(s, |domain|);
    NoColonBehind(s, RFindColon(s).value);
    assert s[|domain|..][1..] == ShowNat(port);
    TrimOneColon(s[|domain|..]);
  }

  /** Printing a domain and parsing it gives it back exactly if the text is not that of a socket address. */
  lemma {:induction false} DomainRoundTrip(domain: Text, port: u16, showSocket: SocketAddr -> Text,
                                           parseSocket: Text -> Option<SocketAddr>)
    ensures var s := Display(Domain(domain, port), showSocket);
            FromStr(s, parseSocket) == Parsed(Domain(domain, port)) <==> parseSocket(s) == None
  {
    PrintedDomainSplits(domain, port);
    PortRoundTrip(port);
  }

  /** The domain "1.2.3.4" with port 80 prints as a socket address, and comes back as one. */
  lemma {:induction false} SocketLikeDomainExample(addr: SocketAddr, showSocket: SocketAddr -> Text,
                                                   parseSocket: Text -> Option<SocketAddr>)
    requires parseSocket([49, 46, 50, 46, 51, 46, 52, 58, 56, 48]) == Some(addr)
    ensures FromStr(Display(Domain([49, 46, 50, 46, 51, 46, 52], 80), showSocket), parseSocket)
         == Parsed(SocketTarget(addr))
  {
    assert ShowNat(80) == ShowNat(8) + [48] == [56, 48];
    assert Display(Domain([49, 46, 50, 46, 51, 46, 52], 80), showSocket) == [49, 46, 50, 46, 51, 46, 52, 58, 56, 48];
  }

  /** Text that parses as a domain is printed back unchanged exactly if its port is written canonically;
      the parser also takes a plus sign and leading zeros. */
  lemma {:induction false} ParsedDomainPrints(s: Text, showSocket: SocketAddr -> Text,
                                              parseSocket: Text -> Option<SocketAddr>)
    requires FromStr(s, parseSocket).Parsed? && FromStr(s, parseSocket).target.Domain?
    ensures var target := FromStr(s, parseSocket).target;
            && COLON in s
            && |target.domain| < |s| && s[..|target.domain|] == target.domain && s[|target.domain|] == COLON
            && (Display(target, showSocket) == s <==> s[|target.domain| + 1..] == ShowNat(target.port))
  {
    var target := FromStr(s, parseSocket).target;
    var i := RFindColon(s).value;
    assert s == s[..i] + [COLON] + s[i + 1..];
    var shown := Display(target, showSocket);
    assert shown[i + 1..] == ShowNat(target.port);
  }

  /** Which texts are refused, and with which error. */
  lemma {:induction false} Refused(s: Text, parseSocket: Text -> Option<SocketAddr>)
    requires parseSocket(s) == None
    ensures FromStr(s, parseSocket) == InvalidAddr <==> COLON !in s
    ensures FromStr(s, parseSocket) == InvalidPort <==>
            exists i :: 0 <= i < |s| && s[i] == COLON && COLON !in s[i + 1..] && ParseU16(s[i + 1..]) == None
  {
    hide ParseU16, LastColon, TrimColons;
    if COLON in s {
      var i := RFindColon(s).value;
      assert s[i..][1..] == s[i + 1..];
      TrimOneColon(s[i..]);
      NoColonBehind(s, i);
      forall j | 0 <= j < |s| && s[j] == COLON && COLON !in s[j + 1..] ensures j == i {
        NoColonBehind(s, j);
      }
    }
  }

  /** Behind the last colon, a port is refused exactly if it is empty, or has something other than digits behind a
      plus sign that may be in front, or is larger than 65535. */
  lemma {:induction false} RefusedPorts(host: Text, text: Text, parseSocket: Text -> Option<SocketAddr>)
    requires parseSocket(host + [58] + text) == None && 58 !in text
    ensures var digits := if text != [] && text[0] == 43 then text[1..] else text;
            FromStr(host + [58] + text, parseSocket) == InvalidPort
            <==> || digits == []
                 || (exists i :: 0 <= i < |digits| && !(48 <= digits[i] <= 57))
                 || (AllDigits(digits) && DigitsValue(digits) > 65535)
  {
    hide LastColon, TrimColons, ParseU16, DigitsValue, AllDigits;
    SplitAtColon(host, text);
    PortRefused(text);
  }

  lemma {:induction false} SplitAtColon(host: Text, text: Text)
    requires 58 !in text
    ensures RFindColon(host + [58] + text) == Some(|host|)
    ensures TrimColons((host + [58] + text)[|host|..]) == text
  {
    hide LastColon;
    var s := host + [58] + text;
    assert s[|host|] == COLON && s[|host| + 1..] == text;
    NoColonBehind(s, |host|);
    NoColonBehind(s, RFindColon(s).value);
    assert s[|host|..][1..] == text;
    TrimOneColon(s[|host|..]);
  }

  lemma {:induction false} PortRefused(text: Text)
    ensures var digits := if text != [] && text[0] == 43 then text[1..] else text;
            ParseU16(text) == None
            <==> || digits == []
                 || (exists i :: 0 <= i < |digits| && !(48 <= digits[i] <= 57))
                 || (AllDigits(digits) && DigitsValue(digits) > 65535)
  {
    hide DigitsValue;
  }
}
