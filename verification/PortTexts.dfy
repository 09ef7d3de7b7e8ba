/** Ordinary port-mapping strings: numbers written out in decimal, pair by pair. */
module PortTexts {
  import opened Options
  import opened Strings
  import opened PortMappings

  datatype Pair = Pair(host: nat, container: nat)

  /** "80:8080". */
  function PairText(p: Pair): string { Decimal(p.host) + [':'] + Decimal(p.container) }

  function PairTexts(pairs: seq<Pair>): (r: seq<string>)
    ensures |r| == |pairs| && forall i | 0 <= i < |r| :: r[i] == PairText(pairs[i])
  {
    seq(|pairs|, i requires 0 <= i < |pairs| => PairText(pairs[i]))
  }

  /** "80:8080,443:443". */
  function PortsText(pairs: seq<Pair>): string { Join(PairTexts(pairs), ',') }

  lemma DecimalHasNo(n: nat, c: char)
    requires !IsDigit(c)
    ensures c !in Decimal(n)
  {
    assert AllDigits(Decimal(n));
  }

  lemma PairParts(p: Pair)
    ensures Split(PairText(p), ':') == [Decimal(p.host), Decimal(p.container)] && ',' !in PairText(p)
  {
    DecimalHasNo(p.host, ':');
    DecimalHasNo(p.container, ':');
    DecimalHasNo(p.host, ',');
    DecimalHasNo(p.container, ',');
    hide Decimal;
    SplitFirst(Decimal(p.host), Decimal(p.container), ':');
    SplitWhole(Decimal(p.container), ':');
  }

  lemma PortInRangeIff(n: nat)
    ensures PortInRange(Decimal(n)) <==> n <= 65535
    ensures n <= 65535 ==> ParsePort(Decimal(n)) == Some(n)
  {
    hide ParsePort, Decimal;
    assert "" + Decimal(n) + "" == Decimal(n);
    ParsePortOfDecimal("", n, "");
  }

  lemma PairValidIff(p: Pair)
    ensures ValidMapping(PairText(p)) <==> p.host <= 65535 && p.container <= 65535
  {
    hide PortInRange, PairText;
    PairParts(p);
    PortInRangeIff(p.host);
    PortInRangeIff(p.container);
  }

  lemma PortsTextMappings(pairs: seq<Pair>)
    ensures Mappings(PortsText(pairs)) == PairTexts(pairs)
  {
    hide PairText, Split;
    var texts := PairTexts(pairs);
    forall i | 0 <= i < |texts| ensures ',' !in texts[i] { PairParts(pairs[i]); }
    if pairs != [] {
      JoinThenSplit(texts, ',');
      NotEmpty(pairs);
    }
  }

  lemma NotEmpty(pairs: seq<Pair>)
    requires pairs != []
    ensures PortsText(pairs) != ""
  {
    assert PairTexts(pairs)[0] == PairText(pairs[0]) && |PairText(pairs[0])| > 0;
  }

  /** A written-out list of mappings is accepted exactly when it has at most ten and no port is above 65535. */
  lemma AcceptedIff(pairs: seq<Pair>)
    ensures ValidPorts(PortsText(pairs)) <==>
              |pairs| <= 10 && forall i | 0 <= i < |pairs| :: pairs[i].host <= 65535 && pairs[i].container <= 65535
  {
    hide ValidMapping, PairText, PortsText, Mappings;
    PortsTextMappings(pairs);
    forall i | 0 <= i < |pairs|
      ensures ValidMapping(Mappings(PortsText(pairs))[i]) <==> pairs[i].host <= 65535 && pairs[i].container <= 65535
    {
      PairValidIff(pairs[i]);
    }
  }

  lemma PairChecked(p: Pair)
    requires p.host <= 65535 && p.container <= 65535
    ensures ValidMapping(PairText(p)) && Checked(PairText(p)) == Entry(Decimal(p.host), p.container)
    ensures ScansCleanly(PairText(p))
  {
    PairValidIff(p);
    PairParts(p);
    PortInRangeIff(p.container);
    DecimalTrims(p.host);
    DecimalTrims(p.container);
    hide PairText, ParsePort, ValidMapping, Decimal, TrimSpace, NewlineFirst;
  }

  lemma DecimalTrims(n: nat)
    ensures TrimSpace(Decimal(n)) == Decimal(n) && !NewlineFirst(Decimal(n))
  {
    var d := Decimal(n);
    assert IsDigit(d[0]) && IsDigit(d[|d| - 1]);
    assert "" + d + "" == d;
    TrimSpaceIs("", d, "");
    assert LeadingSpace(d) == 0;
  }

  /** What the load balancer reads out of an accepted list with distinct host ports is just that list. */
  lemma ReadAsWritten(pairs: seq<Pair>)
    requires ValidPorts(PortsText(pairs))
    requires forall i, j | 0 <= i < j < |pairs| :: pairs[i].host != pairs[j].host
    ensures var m := ScanMappings(SplitDropLast(PortsText(pairs), ','));
            && (forall i | 0 <= i < |pairs| ::
                  Decimal(pairs[i].host) in m && m[Decimal(pairs[i].host)] == pairs[i].container)
            && (forall h | h in m :: exists i :: 0 <= i < |pairs| && h == Decimal(pairs[i].host))
  {
    AcceptedIff(pairs);
    PortsTextMappings(pairs);
    hide ValidMapping, PairText, PortsText, Mappings, ScanMappings, SplitDropLast, Checked, ScansCleanly, Decimal;
    var ports := PortsText(pairs);
    var checked := CheckedAll(Mappings(ports));
    forall i | 0 <= i < |pairs|
      ensures checked[i] == Entry(Decimal(pairs[i].host), pairs[i].container) && ScansCleanly(Mappings(ports)[i])
    {
      PairChecked(pairs[i]);
    }
    forall i, j | 0 <= i < j < |pairs| ensures checked[i].host != checked[j].host {
      DecimalRoundTrip(pairs[i].host);
      DecimalRoundTrip(pairs[j].host);
    }
    ParsePortsExact(ports);
    forall i | 0 <= i < |pairs| ensures checked[i] in checked {}
  }
}
