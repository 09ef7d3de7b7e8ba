/** Port-mapping strings such as "80:80,443:443": the validator every launch goes through, the
    auto-scaler's rewrite to dynamic host ports, and the load balancer's own hand-written parser. */
module PortMappings {
  import opened Options
  import opened Strings

  const MIN_PORT := 0
  const MAX_PORT := 65535
  const MAX_PORTS_PER_INSTANCE := 10

  datatype PortError = TooManyPorts | InvalidPortFormat

  // ---------------------------------------------------------------- white space and numbers

  /** Unicode White_Space, the class that both `strings.TrimSpace` and `fmt.Sscanf` use. */
  predicate IsSpace(c: char) {
    var u := c as int;
    || 0x09 <= u <= 0x0d || u == 0x20 || u == 0x85 || u == 0xa0 || u == 0x1680
    || 0x2000 <= u <= 0x200a || u == 0x2028 || u == 0x2029 || u == 0x202f || u == 0x205f || u == 0x3000
  }

  /** Length of the leading run of white space. */
  function LeadingSpace(s: string): (n: nat)
    ensures n <= |s|
    ensures forall i | 0 <= i < n :: IsSpace(s[i])
    ensures n < |s| ==> !IsSpace(s[n])
  {
    if s == [] || !IsSpace(s[0]) then 0
    else
      var rest := LeadingSpace(s[1..]);
      assert forall i | 1 <= i < 1 + rest :: s[i] == s[1..][i - 1];
      1 + rest
  }

  function TrimRight(s: string): string {
    if s != [] && IsSpace(s[|s| - 1]) then TrimRight(s[..|s| - 1]) else s
  }

  function TrimSpace(s: string): string { TrimRight(s[LeadingSpace(s)..]) }

  const INT64_LIMIT := 0x8000_0000_0000_0000

  /** `strconv.Atoi`: an optional sign, at least one digit, and a value that fits 64 bits. */
  function Atoi(s: string): Option<int> {
    var signed := s != [] && (s[0] == '+' || s[0] == '-');
    var digits := if signed then s[1..] else s;
    if digits == [] || !AllDigits(digits) then None
    else
      var v := if signed && s[0] == '-' then 0 - DigitsValue(digits) as int else DigitsValue(digits) as int;
      if -INT64_LIMIT <= v < INT64_LIMIT then Some(v) else None
  }

  function ParsePort(s: string): Option<int> {
    var t := TrimSpace(s);
    if t == "" then None else Atoi(t)
  }

  predicate PortInRange(s: string) {
    ParsePort(s).Some? && MIN_PORT <= ParsePort(s).value <= MAX_PORT
  }

  ghost predicate AllSpace(s: string) { forall i | 0 <= i < |s| :: IsSpace(s[i]) }

  lemma {:induction false} LeadingSpaceIs(s: string, n: nat)
    requires n < |s| && (forall i | 0 <= i < n :: IsSpace(s[i])) && !IsSpace(s[n])
    ensures LeadingSpace(s) == n
  {
    if n > 0 { LeadingSpaceIs(s[1..], n - 1); }
  }

  lemma {:induction false} TrimRightIs(s: string, n: nat)
    requires 0 < n <= |s| && !IsSpace(s[n - 1]) && forall i | n <= i < |s| :: IsSpace(s[i])
    ensures TrimRight(s) == s[..n]
    decreases |s|
  {
    if n < |s| {
      TrimRightIs(s[..|s| - 1], n);
      assert s[..|s| - 1][..n] == s[..n];
    } else {
      assert s[..n] == s;
    }
  }

  lemma TrimSpaceIs(before: string, d: string, after: string)
    requires AllSpace(before) && AllSpace(after) && d != "" && !IsSpace(d[0]) && !IsSpace(d[|d| - 1])
    ensures TrimSpace(before + d + after) == d
  {
    hide IsSpace;
    var s := before + d + after;
    assert s[|before|] == d[0];
    LeadingSpaceIs(s, |before|);
    var rest := s[|before|..];
    assert rest == d + after && rest[|d| - 1] == d[|d| - 1];
    TrimRightIs(rest, |d|);
    assert rest[..|d|] == d;
  }

  /** The number that a sign and digits denote. */
  function SignedValue(sign: string, digits: string): int
    requires AllDigits(digits)
  {
    if sign == "-" then 0 - DigitsValue(digits) as int else DigitsValue(digits) as int
  }

  /** White space, an optional sign, digits and white space are read as the number they denote if it fits 64 bits. */
  lemma ParsePortText(before: string, sign: string, digits: string, after: string)
    requires AllSpace(before) && AllSpace(after) && sign in ["", "+", "-"] && digits != "" && AllDigits(digits)
    ensures var v := SignedValue(sign, digits);
            ParsePort(before + (sign + digits) + after)
            == if -0x8000_0000_0000_0000 <= v < 0x8000_0000_0000_0000 then Some(v) else None
  {
    hide DigitsValue, TrimSpace;
    var text := sign + digits;
    assert IsDigit(digits[|digits| - 1]) && IsDigit(digits[0]) && text[|text| - 1] == digits[|digits| - 1];
    TrimSpaceIs(before, text, after);
    if sign == "" { assert text == digits; } else { assert text[1..] == digits; }
  }

  /** And nothing else is. */
  lemma ParsePortShape(s: string) returns (before: string, sign: string, digits: string, after: string)
    requires ParsePort(s).Some?
    ensures AllSpace(before) && AllSpace(after) && sign in ["", "+", "-"] && digits != "" && AllDigits(digits)
    ensures s == before + (sign + digits) + after
  {
    hide Atoi, TrimSpace, AllSpace, AllDigits;
    sign, digits := AtoiShape(TrimSpace(s));
    before, after := TrimSpaceShape(s);
  }

  lemma TrimSpaceShape(s: string) returns (before: string, after: string)
    ensures AllSpace(before) && AllSpace(after) && s == before + TrimSpace(s) + after
  {
    hide IsSpace, TrimRight;
    var rest := s[LeadingSpace(s)..];
    TrimRightOf(rest);
    before, after := s[..LeadingSpace(s)], rest[|TrimRight(rest)|..];
    assert s == before + rest && rest == TrimRight(rest) + after;
  }

  lemma AtoiShape(t: string) returns (sign: string, digits: string)
    requires Atoi(t).Some?
    ensures sign in ["", "+", "-"] && digits != "" && AllDigits(digits) && t == sign + digits
  {
    hide DigitsValue;
    if t[0] == '+' {
      sign, digits := "+", t[1..];
    } else if t[0] == '-' {
      sign, digits := "-", t[1..];
    } else {
      sign, digits := "", t;
    }
  }

  /** The decimal text of a number, with any white space around it, is read back as that number; what does not fit
      64 bits is refused. */
  lemma ParsePortOfDecimal(before: string, n: nat, after: string)
    requires AllSpace(before) && AllSpace(after)
    ensures ParsePort(before + Decimal(n) + after) == if n < INT64_LIMIT then Some(n) else None
  {
    hide ParsePort, DigitsValue;
    DecimalRoundTrip(n);
    assert "" + Decimal(n) == Decimal(n);
    ParsePortText(before, "", Decimal(n), after);
  }

  // ---------------------------------------------------------------- the validator

  /** A mapping is two in-range ports around one colon. */
  predicate ValidMapping(p: string) {
    var parts := Split(p, ':');
    |parts| == 2 && PortInRange(parts[0]) && PortInRange(parts[1])
  }

  /** The mappings a string lists; the empty string lists none. */
  function Mappings(ports: string): seq<string> {
    if ports == "" then [] else Split(ports, ',')
  }

  predicate ValidPorts(ports: string) {
    && |Mappings(ports)| <= MAX_PORTS_PER_INSTANCE
    && forall i | 0 <= i < |Mappings(ports)| :: ValidMapping(Mappings(ports)[i])
  }

  method ParseAndValidatePorts(ports: string) returns (r: Result<seq<string>, PortError>)
    ensures r.Ok? <==> ValidPorts(ports)
    ensures r.Ok? ==> r.value == Mappings(ports)
    ensures r == Err(TooManyPorts) <==> |Mappings(ports)| > 10
  {
    hide ValidMapping;
    if ports == "" { return Ok([]); }
    var portList := Split(ports, ',');
    if |portList| > MAX_PORTS_PER_INSTANCE { return Err(TooManyPorts); }
    for i := 0 to |portList|
      invariant forall j | 0 <= j < i :: ValidMapping(portList[j])
    {
      var ok := CheckMapping(portList[i]);
      if !ok { return Err(InvalidPortFormat); }
    }
    return Ok(portList);
  }

  method CheckMapping(p: string) returns (ok: bool)
    ensures ok <==> ValidMapping(p)
  {
    hide ParsePort;
    var parts := Split(p, ':');
    if |parts| != 2 { return false; }
    var host := ParsePort(parts[0]);
    if host.None? { return false; }
    var container := ParsePort(parts[1]);
    if container.None? { return false; }
    if host.value < MIN_PORT || host.value > MAX_PORT { return false; }
    if container.value < MIN_PORT || container.value > MAX_PORT { return false; }
    return true;
  }

  // ---------------------------------------------------------------- dynamic host ports

  function DynamicMapping(p: string): string {
    var parts := Split(p, ':');
    if |parts| == 2 then "0:" + parts[1] else p
  }

  function DynamicMappings(pieces: seq<string>): (r: seq<string>)
    ensures |r| == |pieces|
    ensures forall i | 0 <= i < |r| :: r[i] == DynamicMapping(pieces[i])
  {
    seq(|pieces|, i requires 0 <= i < |pieces| => DynamicMapping(pieces[i]))
  }

  function DynamicPorts(ports: string): string { Join(DynamicMappings(Mappings(ports)), ',') }

  method ToDynamicPorts(ports: string) returns (r: string)
    ensures r == DynamicPorts(ports)
  {
    if ports == "" { return ""; }
    var parts := Split(ports, ',');
    var newPorts: seq<string> := [];
    for i := 0 to |parts|
      invariant newPorts == DynamicMappings(parts)[..i]
    {
      var components := Split(parts[i], ':');
      if |components| == 2 {
        newPorts := newPorts + ["0:" + components[1]];
      } else {
        newPorts := newPorts + [parts[i]];
      }
    }
    assert newPorts == DynamicMappings(parts);
    r := Join(newPorts, ',');
  }

  /** Rewriting one mapping keeps it comma-free, keeps its container part and sets the host part to "0". */
  lemma DynamicMappingParts(p: string)
    requires ',' !in p
    ensures ',' !in DynamicMapping(p)
    ensures |Split(p, ':')| == 2 ==> Split(DynamicMapping(p), ':') == ["0", Split(p, ':')[1]]
    ensures DynamicMapping(DynamicMapping(p)) == DynamicMapping(p)
  {
    var parts := Split(p, ':');
    if |parts| == 2 {
      SplitThenJoin(p, ':');
      assert p == parts[0] + [':'] + parts[1];
      assert ':' !in parts[1] && ',' !in parts[1];
      assert "0:" + parts[1] == "0" + [':'] + parts[1];
      SplitFirst("0", parts[1], ':');
      SplitWhole(parts[1], ':');
    }
  }

  /** The rewritten string lists exactly the rewritten mappings, in the original order. */
  lemma DynamicPortsMappings(ports: string)
    ensures Mappings(DynamicPorts(ports)) == DynamicMappings(Mappings(ports))
  {
    var pieces := Mappings(ports);
    if ports != "" {
      SplitThenJoin(ports, ',');
      var rewritten := DynamicMappings(pieces);
      assert FreeOf(rewritten, ',') by {
        forall i | 0 <= i < |rewritten| ensures ',' !in rewritten[i] { DynamicMappingParts(pieces[i]); }
      }
      JoinThenSplit(rewritten, ',');
    }
  }

  /** On every string, well formed or not: each piece with exactly one colon has its host part replaced by "0" and keeps
      the rest, every other piece stays, and the order is the same. */
  lemma DynamicPortsExact(ports: string)
    ensures |Mappings(DynamicPorts(ports))| == |Mappings(ports)|
    ensures forall i | 0 <= i < |Mappings(ports)| ::
              var was, now := Mappings(ports)[i], Mappings(DynamicPorts(ports))[i];
              if |Split(was, ':')| == 2 then Split(now, ':') == ["0", Split(was, ':')[1]] else now == was
  {
    hide Split;
    DynamicPortsMappings(ports);
    SplitThenJoin(ports, ',');
    forall i | 0 <= i < |Mappings(ports)| ensures ',' !in Mappings(ports)[i] {}
    forall i | 0 <= i < |Mappings(ports)| && |Split(Mappings(ports)[i], ':')| == 2
      ensures Split(Mappings(DynamicPorts(ports))[i], ':') == ["0", Split(Mappings(ports)[i], ':')[1]]
    {
      DynamicMappingParts(Mappings(ports)[i]);
    }
  }

  /** The rewrite is idempotent on every string, well formed or not. */
  lemma DynamicPortsIdempotent(ports: string)
    ensures DynamicPorts(DynamicPorts(ports)) == DynamicPorts(ports)
  {
    var pieces := Mappings(ports);
    DynamicPortsMappings(ports);
    SplitThenJoin(ports, ',');
    forall i | 0 <= i < |pieces| ensures DynamicMapping(DynamicMapping(pieces[i])) == DynamicMapping(pieces[i]) {
      DynamicMappingParts(pieces[i]);
    }
    assert DynamicMappings(DynamicMappings(pieces)) == DynamicMappings(pieces);
  }

  lemma ZeroIsAPort()
    ensures PortInRange("0") && ParsePort("0") == Some(0)
  {
    hide ParsePort;
    assert Decimal(0) == "0" && "" + "0" + "" == "0";
    ParsePortOfDecimal("", 0, "");
  }

  lemma DynamicMappingStaysValid(p: string)
    requires ',' !in p && ValidMapping(p)
    ensures Split(DynamicMapping(p), ':') == ["0", Split(p, ':')[1]]
    ensures ParsePort(Split(DynamicMapping(p), ':')[0]) == Some(0)
    ensures ValidMapping(DynamicMapping(p))
  {
    DynamicMappingParts(p);
    ZeroIsAPort();
  }

  /** What the validator accepts stays accepted after the rewrite: same number and order of mappings, the
      same container ports, and host port 0 throughout. */
  lemma DynamicPortsStayValid(ports: string)
    requires ValidPorts(ports)
    ensures ValidPorts(DynamicPorts(ports))
    ensures |Mappings(DynamicPorts(ports))| == |Mappings(ports)|
    ensures forall i | 0 <= i < |Mappings(ports)| ::
              && Split(Mappings(DynamicPorts(ports))[i], ':') == ["0", Split(Mappings(ports)[i], ':')[1]]
              && ParsePort(Split(Mappings(DynamicPorts(ports))[i], ':')[0]) == Some(0)
  {
    DynamicPortsMappings(ports);
    var pieces, rewritten := Mappings(ports), Mappings(DynamicPorts(ports));
    forall i | 0 <= i < |pieces|
      ensures
        && Split(rewritten[i], ':') == ["0", Split(pieces[i], ':')[1]]
        && ParsePort(Split(rewritten[i], ':')[0]) == Some(0)
        && ValidMapping(rewritten[i])
    {
      SplitThenJoin(ports, ',');
      DynamicMappingStaysValid(pieces[i]);
    }
  }

  // ---------------------------------------------------------------- the load balancer's splitters

  /** A split that forgets a trailing empty piece. */
  function SplitDropLast(s: string, sep: char): seq<string> {
    var pieces := Split(s, sep);
    if pieces[|pieces| - 1] == "" then pieces[..|pieces| - 1] else pieces
  }

  /** The accumulate-and-flush loop that both `splitCommas` and `splitColons` are. */
  method SplitOn(s: string, sep: char) returns (res: seq<string>)
    ensures res == SplitDropLast(s, sep)
  {
    res := [];
    var current := "";
    for i := 0 to |s|
      invariant sep !in current
      invariant Split(s[..i], sep) == res + [current]
    {
      assert s[..i + 1] == s[..i] + [s[i]];
      if s[i] == sep {
        assert s[..i + 1] == s[..i] + [sep] + "";
        SplitLast(s[..i], "", sep);
        res := res + [current];
        current := "";
      } else {
        SplitAppend(s[..i], s[i], sep);
        current := current + [s[i]];
      }
    }
    assert s[..|s|] == s;
    if current != "" {
      res := res + [current];
    }
  }

  /** Appending a non-separator extends the last piece. */
  lemma SplitAppend(s: string, c: char, sep: char)
    requires c != sep
    ensures var p := Split(s, sep); Split(s + [c], sep) == p[..|p| - 1] + [p[|p| - 1] + [c]]
  {
    var p := Split(s, sep);
    var init, last := p[..|p| - 1], p[|p| - 1];
    SplitThenJoin(s, sep);
    assert p == init + [last];
    JoinAppend(init, last, c, sep);
    assert FreeOf(init + [last + [c]], sep) by {
      forall i | 0 <= i < |p| ensures sep !in (init + [last + [c]])[i] { assert sep !in p[i]; }
    }
    JoinThenSplit(init + [last + [c]], sep);
  }

  lemma {:induction false} JoinAppend(init: seq<string>, last: string, c: char, sep: char)
    ensures Join(init + [last + [c]], sep) == Join(init + [last], sep) + [c]
  {
    if init != [] {
      JoinAppend(init[1..], last, c, sep);
      assert (init + [last + [c]])[1..] == init[1..] + [last + [c]];
      assert (init + [last])[1..] == init[1..] + [last];
    }
  }

  lemma MappingSplits(p: string)
    requires ValidMapping(p)
    ensures SplitDropLast(p, ':') == Split(p, ':') && |Split(p, ':')| == 2
  {
  }

  /** On an accepted string the hand-written splitters return exactly the pieces the validator checked. */
  lemma SplittersAgree(ports: string)
    requires ValidPorts(ports)
    ensures SplitDropLast(ports, ',') == Mappings(ports)
    ensures forall i | 0 <= i < |Mappings(ports)| ::
              SplitDropLast(Mappings(ports)[i], ':') == Split(Mappings(ports)[i], ':')
  {
    if ports != "" {
      var pieces := Split(ports, ',');
      assert ValidMapping(pieces[|pieces| - 1]);
    }
    forall i | 0 <= i < |Mappings(ports)|
      ensures SplitDropLast(Mappings(ports)[i], ':') == Split(Mappings(ports)[i], ':')
    {
      MappingSplits(Mappings(ports)[i]);
    }
  }

  // ---------------------------------------------------------------- scanning, as fmt.Sscanf does

  /** A newline in the leading white space stops `Sscanf` before it has stored anything. */
  predicate NewlineFirst(s: string) { '\n' in s[..LeadingSpace(s)] }

  /** Length of the leading run of characters that are not white space. */
  function TokenLength(s: string): (n: nat)
    ensures n <= |s|
  {
    if s == [] || IsSpace(s[0]) then 0 else 1 + TokenLength(s[1..])
  }

  /** `Sscanf(s, "%s", &v)` into an empty `v`. */
  function ScanWord(s: string): string {
    var rest := s[LeadingSpace(s)..];
    if NewlineFirst(s) then "" else rest[..TokenLength(rest)]
  }

  function DigitRun(s: string): (n: nat)
    ensures n <= |s| && AllDigits(s[..n])
  {
    if s == [] || !IsDigit(s[0]) then 0
    else
      var n := 1 + DigitRun(s[1..]);
      assert forall i | 1 <= i < n :: s[..n][i] == s[1..][..n - 1][i - 1];
      n
  }

  /** `Sscanf(s, "%d", &v)` into a zero `v`: sign and digits, whatever follows them. */
  function ScanInt(s: string): int {
    var rest := s[LeadingSpace(s)..];
    if NewlineFirst(s) then 0
    else
      var sign := if rest != [] && (rest[0] == '+' || rest[0] == '-') then 1 else 0;
      var number := Atoi(rest[..sign + DigitRun(rest[sign..])]);
      if number.Some? then number.value else 0
  }

  method ParsePorts(ports: string) returns (res: map<string, int>)
    ensures res == ScanMappings(SplitDropLast(ports, ','))
  {
    res := map[];
    var pairs := SplitOn(ports, ',');
    for i := 0 to |pairs|
      invariant res == ScanMappings(pairs[..i])
    {
      assert pairs[..i + 1][..i] == pairs[..i];
      var parts := SplitOn(pairs[i], ':');
      if |parts| == 2 {
        res := res[ScanWord(parts[0]) := ScanInt(parts[1])];
      }
    }
    assert pairs[..|pairs|] == pairs;
  }

  /** The map the load balancer reads out of a list of mappings; a later host port wins. */
  function ScanMappings(pairs: seq<string>): map<string, int> {
    if pairs == [] then map[]
    else
      var before := ScanMappings(pairs[..|pairs| - 1]);
      var parts := SplitDropLast(pairs[|pairs| - 1], ':');
      if |parts| == 2 then before[ScanWord(parts[0]) := ScanInt(parts[1])] else before
  }

  // ---------------------------------------------------------------- scanner and validator agree

  lemma {:induction false} TrimRightOf(s: string)
    ensures TrimRight(s) <= s
    ensures forall i | |TrimRight(s)| <= i < |s| :: IsSpace(s[i])
  {
    if s != [] && IsSpace(s[|s| - 1]) {
      TrimRightOf(s[..|s| - 1]);
      assert s[..|s| - 1] <= s;
    }
  }

  lemma {:induction false} TokenIs(s: string, n: nat)
    requires n <= |s|
    requires forall i | 0 <= i < n :: !IsSpace(s[i])
    requires n < |s| ==> IsSpace(s[n])
    ensures TokenLength(s) == n
  {
    if n > 0 {
      TokenIs(s[1..], n - 1);
    }
  }

  lemma {:induction false} DigitRunIs(s: string, n: nat)
    requires n <= |s|
    requires AllDigits(s[..n])
    requires n < |s| ==> !IsDigit(s[n])
    ensures DigitRun(s) == n
  {
    if n > 0 {
      assert s[..n][0] == s[0];
      assert s[1..][..n - 1] == s[..n][1..];
      DigitRunIs(s[1..], n - 1);
    }
  }

  /** The text of an accepted port has no white space in it: the scanner's word is the trimmed text and the
      scanner's number is the validated number, unless a newline comes first. */
  lemma ScanAgrees(s: string)
    requires ParsePort(s).Some?
    ensures ScanWord(s) == if NewlineFirst(s) then "" else TrimSpace(s)
    ensures ScanInt(s) == if NewlineFirst(s) then 0 else ParsePort(s).value
  {
    hide NewlineFirst, IsSpace;
    var rest := s[LeadingSpace(s)..];
    var t := TrimSpace(s);
    TrimRightOf(rest);
    TokenOfNumber(rest, t);
    NumberOfText(rest, t);
  }

  /** Where a trimmed number sits, so that the scanner's token and digit run both end with it. */
  lemma TokenOfNumber(rest: string, t: string)
    requires t <= rest && Atoi(t).Some?
    requires forall i | |t| <= i < |rest| :: IsSpace(rest[i])
    ensures TokenLength(rest) == |t|
  {
    hide DigitsValue;
    var sign := if t[0] == '+' || t[0] == '-' then 1 else 0;
    forall i | 0 <= i < |t| ensures !IsSpace(rest[i]) {
      assert rest[i] == t[i];
      if i >= sign { assert t[i] == t[sign..][i - sign]; }
    }
    TokenIs(rest, |t|);
  }

  lemma NumberOfText(rest: string, t: string)
    requires t <= rest && Atoi(t).Some?
    requires forall i | |t| <= i < |rest| :: IsSpace(rest[i])
    ensures var sign := if rest != [] && (rest[0] == '+' || rest[0] == '-') then 1 else 0;
            rest[..sign + DigitRun(rest[sign..])] == t
  {
    hide DigitsValue;
    var sign := if t[0] == '+' || t[0] == '-' then 1 else 0;
    assert rest[0] == t[0];
    assert rest[sign..][..|t| - sign] == t[sign..];
    if |t| < |rest| { assert rest[sign..][|t| - sign] == rest[|t|]; }
    DigitRunIs(rest[sign..], |t| - sign);
  }

  // ---------------------------------------------------------------- the map the load balancer builds

  datatype Entry = Entry(host: string, port: int)

  /** What the validator read out of a mapping. */
  function Checked(p: string): (e: Entry)
    requires ValidMapping(p)
    ensures e.host != ""
  {
    Entry(TrimSpace(Split(p, ':')[0]), ParsePort(Split(p, ':')[1]).value)
  }

  /** What the load balancer scans out of it. */
  function Scanned(p: string): Entry
    requires ValidMapping(p)
  {
    Entry(ScanWord(Split(p, ':')[0]), ScanInt(Split(p, ':')[1]))
  }

  /** Neither text starts with white space that holds a newline (the container text may, if its port is 0). */
  ghost predicate ScansCleanly(p: string)
    requires ValidMapping(p)
  {
    !NewlineFirst(Split(p, ':')[0]) && (NewlineFirst(Split(p, ':')[1]) ==> Checked(p).port == 0)
  }

  /** Scanned and checked entries differ only by an empty host or, under the same host, by the number. */
  ghost predicate Corrupt(scanned: Entry, checked: Entry) {
    scanned.host == "" || (scanned.host == checked.host && scanned.port != checked.port)
  }

  lemma ScannedEntry(p: string)
    requires ValidMapping(p)
    ensures if ScansCleanly(p) then Scanned(p) == Checked(p) else Corrupt(Scanned(p), Checked(p))
  {
    ScanAgrees(Split(p, ':')[0]);
    ScanAgrees(Split(p, ':')[1]);
  }

  function MapOf(es: seq<Entry>): map<string, int> {
    if es == [] then map[]
    else MapOf(es[..|es| - 1])[es[|es| - 1].host := es[|es| - 1].port]
  }

  lemma MapOfStep(es: seq<Entry>, e: Entry)
    ensures MapOf(es + [e]) == MapOf(es)[e.host := e.port]
  {
    assert (es + [e])[..|es|] == es;
  }

  ghost predicate DistinctHosts(es: seq<Entry>) {
    forall i, j | 0 <= i < j < |es| :: es[i].host != es[j].host
  }

  /** `m` pairs each listed host with its port and holds nothing else. */
  ghost predicate HoldsExactly(m: map<string, int>, es: seq<Entry>) {
    && (forall e | e in es :: e.host in m && m[e.host] == e.port)
    && (forall h | h in m :: exists e :: e in es && h == e.host)
  }

  lemma {:induction false} MapOfKeys(es: seq<Entry>)
    ensures forall h :: h in MapOf(es) <==> exists e :: e in es && e.host == h
  {
    if es != [] {
      var init, last := es[..|es| - 1], es[|es| - 1];
      MapOfKeys(init);
      assert es == init + [last];
      assert last in es;
      forall h ensures h in MapOf(es) <==> exists e :: e in es && e.host == h {
        if e :| e in init && e.host == h { assert e in es; }
      }
    }
  }

  /** The last entry under a host decides the value. */
  lemma {:induction false} MapOfValue(es: seq<Entry>, k: nat)
    requires k < |es|
    requires forall j | k < j < |es| :: es[j].host != es[k].host
    ensures es[k].host in MapOf(es) && MapOf(es)[es[k].host] == es[k].port
  {
    if k < |es| - 1 {
      MapOfValue(es[..|es| - 1], k);
    }
  }

  /** If every scanned entry is either right or corrupt, the map is right exactly when none is corrupt. */
  lemma MapExactIffClean(scanned: seq<Entry>, checked: seq<Entry>)
    requires |scanned| == |checked| && DistinctHosts(checked)
    requires forall i | 0 <= i < |checked| :: checked[i].host != ""
    requires forall i | 0 <= i < |checked| :: scanned[i] == checked[i] || Corrupt(scanned[i], checked[i])
    ensures HoldsExactly(MapOf(scanned), checked) <==> scanned == checked
  {
    MapOfKeys(scanned);
    if scanned == checked {
      forall e | e in checked ensures e.host in MapOf(scanned) && MapOf(scanned)[e.host] == e.port {
        var k :| 0 <= k < |checked| && checked[k] == e;
        MapOfValue(scanned, k);
      }
    } else {
      var k :| 0 <= k < |checked| && scanned[k] != checked[k];
      assert scanned[k] in scanned && checked[k] in checked;
      if scanned[k].host == "" {
        assert "" in MapOf(scanned);
      } else {
        MapOfValue(scanned, k);
      }
    }
  }

  ghost function CheckedAll(pairs: seq<string>): (es: seq<Entry>)
    requires forall i | 0 <= i < |pairs| :: ValidMapping(pairs[i])
    ensures |es| == |pairs| && forall i | 0 <= i < |pairs| :: es[i] == Checked(pairs[i])
  {
    seq(|pairs|, i requires 0 <= i < |pairs| => Checked(pairs[i]))
  }

  ghost function ScannedAll(pairs: seq<string>): (es: seq<Entry>)
    requires forall i | 0 <= i < |pairs| :: ValidMapping(pairs[i])
    ensures |es| == |pairs| && forall i | 0 <= i < |pairs| :: es[i] == Scanned(pairs[i])
  {
    seq(|pairs|, i requires 0 <= i < |pairs| => Scanned(pairs[i]))
  }

  /** A further mapping adds or overwrites one entry; anything without exactly two parts is skipped. */
  lemma ScanMappingsStep(init: seq<string>, last: string)
    ensures var parts := SplitDropLast(last, ':');
            ScanMappings(init + [last]) ==
              if |parts| == 2 then ScanMappings(init)[ScanWord(parts[0]) := ScanInt(parts[1])] else ScanMappings(init)
    ensures ValidMapping(last) ==>
              ScanMappings(init + [last]) == ScanMappings(init)[Scanned(last).host := Scanned(last).port]
  {
    hide ParsePort, ScanWord, ScanInt;
    if ValidMapping(last) { MappingSplits(last); }
    assert (init + [last])[..|init|] == init;
  }

  lemma ScannedAllStep(init: seq<string>, last: string)
    requires (forall i | 0 <= i < |init| :: ValidMapping(init[i])) && ValidMapping(last)
    requires forall i | 0 <= i < |init + [last]| :: ValidMapping((init + [last])[i])
    ensures ScannedAll(init + [last]) == ScannedAll(init) + [Scanned(last)]
  {
    hide ValidMapping, Scanned;
  }

  lemma ScanNothing()
    ensures ScanMappings([]) == MapOf(ScannedAll([]))
  {
    hide ScanWord, ScanInt, ParsePort, Split;
    assert ScannedAll([]) == [];
  }

  lemma {:induction false} ScanMappingsIsMapOf(pairs: seq<string>)
    requires forall i | 0 <= i < |pairs| :: ValidMapping(pairs[i])
    ensures ScanMappings(pairs) == MapOf(ScannedAll(pairs))
  {
    hide *;
    if pairs == [] {
      ScanNothing();
    } else {
      var init, last := pairs[..|pairs| - 1], pairs[|pairs| - 1];
      assert pairs == init + [last];
      ScanMappingsIsMapOf(init);
      ScanMappingsStep(init, last);
      ScannedAllStep(init, last);
      MapOfStep(ScannedAll(init), Scanned(last));
    }
  }

  /** When the host ports of an accepted string are distinct, the load balancer's map pairs exactly those host
      texts with their container ports if and only if every mapping scans cleanly. */
  lemma ParsePortsExact(ports: string)
    requires ValidPorts(ports) && DistinctHosts(CheckedAll(Mappings(ports)))
    ensures HoldsExactly(ScanMappings(SplitDropLast(ports, ',')), CheckedAll(Mappings(ports)))
            <==> forall i | 0 <= i < |Mappings(ports)| :: ScansCleanly(Mappings(ports)[i])
  {
    var pairs := Mappings(ports);
    SplittersAgree(ports);
    ScanMappingsIsMapOf(pairs);
    var scanned, checked := ScannedAll(pairs), CheckedAll(pairs);
    forall i | 0 <= i < |pairs|
      ensures if ScansCleanly(pairs[i]) then scanned[i] == checked[i] else Corrupt(scanned[i], checked[i])
    {
      ScannedEntry(pairs[i]);
    }
    forall i | 0 <= i < |pairs| ensures checked[i].host != "" { assert checked[i] == Checked(pairs[i]); }
    MapExactIffClean(scanned, checked);
    if scanned == checked {
      forall i | 0 <= i < |pairs| ensures ScansCleanly(pairs[i]) {
        assert scanned[i] == checked[i] && checked[i].host != "";
      }
    }
  }

  /** Without that condition the claim is false: the validator accepts "\n80:80", which lists host port 80, and
      the load balancer's map has no entry for it. */
  lemma NewlineBeforeHostPort()
    ensures ValidPorts("\n80:80")
    ensures !HoldsExactly(ScanMappings(SplitDropLast("\n80:80", ',')), CheckedAll(Mappings("\n80:80")))
  {
    hide *;
    EightyMapping();
    assert ',' !in "\n80:80";
    SingleMappingMisread("\n80:80");
  }

  /** Every accepted single mapping whose host text starts that way is misread. */
  lemma SingleMappingMisread(s: string)
    requires s != "" && ',' !in s && ValidMapping(s) && NewlineFirst(Split(s, ':')[0])
    ensures ValidPorts(s) && !HoldsExactly(ScanMappings(SplitDropLast(s, ',')), CheckedAll(Mappings(s)))
  {
    hide ValidMapping, NewlineFirst, HoldsExactly, ScanMappings, SplitDropLast, Split;
    SplitWhole(s, ',');
    assert Mappings(s) == [s];
    ParsePortsExact(s);
    assert !ScansCleanly(Mappings(s)[0]);
  }

  lemma EightyMapping()
    ensures ValidMapping("\n80:80") && NewlineFirst(Split("\n80:80", ':')[0])
  {
    hide PortInRange, NewlineFirst, Split;
    EightyParts();
    EightyIsAPort();
    NewlineIsFirst();
  }

  lemma EightyParts()
    ensures Split("\n80:80", ':') == ["\n80", "80"]
  {
    hide Split;
    assert "\n80:80" == "\n80" + [':'] + "80";
    SplitFirst("\n80", "80", ':');
    SplitWhole("80", ':');
  }

  lemma NewlineIsFirst()
    ensures NewlineFirst("\n80")
  {
    assert "\n80"[..LeadingSpace("\n80")][0] == '\n';
  }

  lemma EightyIsAPort()
    ensures PortInRange("80") && PortInRange("\n80")
  {
    hide ParsePort;
    assert Decimal(8) == "8" && Decimal(80) == "80";
    assert "" + "80" + "" == "80" && "\n" + "80" + "" == "\n80";
    ParsePortOfDecimal("", 80, "");
    ParsePortOfDecimal("\n", 80, "");
  }
}
