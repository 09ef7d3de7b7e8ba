/** Splitting and joining on a one-character separator, and decimal text.
    The port-mapping, address and WebSocket-frame models all rest on these round trips. */
module Strings {

  /** The pieces of `s` between separators: always at least one piece, as `strings.Split` gives. */
  function Split(s: string, sep: char): (pieces: seq<string>)
    ensures |pieces| >= 1
  {
    if s == [] then [""]
    else
      var rest := Split(s[1..], sep);
      if s[0] == sep then [""] + rest
      else [[s[0]] + rest[0]] + rest[1..]
  }

  /** `strings.Join` with a one-character separator. */
  function Join(pieces: seq<string>, sep: char): string {
    if pieces == [] then ""
    else if |pieces| == 1 then pieces[0]
    else pieces[0] + [sep] + Join(pieces[1..], sep)
  }

  ghost predicate FreeOf(pieces: seq<string>, sep: char) {
    forall i | 0 <= i < |pieces| :: sep !in pieces[i]
  }

  /** No piece contains the separator, and joining restores the string. */
  lemma {:induction false} SplitThenJoin(s: string, sep: char)
    ensures FreeOf(Split(s, sep), sep)
    ensures Join(Split(s, sep), sep) == s
  {
    if s != [] {
      SplitThenJoin(s[1..], sep);
      var rest := Split(s[1..], sep);
      assert s == [s[0]] + s[1..];
      if s[0] == sep {
        assert ([""] + rest)[1..] == rest;
      } else {
        var pieces := [[s[0]] + rest[0]] + rest[1..];
        assert pieces[1..] == rest[1..];
        if |rest| > 1 {
          assert Join(pieces, sep) == [s[0]] + Join(rest, sep);
        }
      }
    }
  }

  /** A join holds no character that neither the pieces nor the separator hold. */
  lemma {:induction false} JoinFreeOf(pieces: seq<string>, sep: char, c: char)
    requires c != sep && FreeOf(pieces, c)
    ensures c !in Join(pieces, sep)
  {
    if |pieces| > 1 {
      var rest := pieces[1..];
      assert FreeOf(rest, c) by {
        forall i | 0 <= i < |rest| ensures c !in rest[i] { assert rest[i] == pieces[i + 1]; }
      }
      JoinFreeOf(rest, sep, c);
    }
  }

  /** A separator-free string is its own only piece. */
  lemma {:induction false} SplitWhole(s: string, sep: char)
    requires sep !in s
    ensures Split(s, sep) == [s]
  {
    if s != [] {
      SplitWhole(s[1..], sep);
      assert [s[0]] + s[1..] == s;
    }
  }

  /** The first piece ends at the first separator. */
  lemma {:induction false} SplitFirst(head: string, tail: string, sep: char)
    requires sep !in head
    ensures Split(head + [sep] + tail, sep) == [head] + Split(tail, sep)
  {
    var s := head + [sep] + tail;
    if head == [] {
      assert s[1..] == tail;
    } else {
      SplitFirst(head[1..], tail, sep);
      assert s[1..] == head[1..] + [sep] + tail;
      assert [head[0]] + head[1..] == head;
    }
  }

  /** Splitting a join of separator-free pieces gives the pieces back. */
  lemma {:induction false} JoinThenSplit(pieces: seq<string>, sep: char)
    requires pieces != [] && FreeOf(pieces, sep)
    ensures Split(Join(pieces, sep), sep) == pieces
  {
    assert sep !in pieces[0];
    if |pieces| == 1 {
      SplitWhole(pieces[0], sep);
    } else {
      var rest := pieces[1..];
      assert FreeOf(rest, sep) by {
        forall i | 0 <= i < |rest| ensures sep !in rest[i] { assert rest[i] == pieces[i + 1]; }
      }
      JoinThenSplit(rest, sep);
      SplitFirst(pieces[0], Join(rest, sep), sep);
    }
  }

  /** A separator-free last piece can be peeled off: how an accumulating splitter sees the string. */
  lemma {:induction false} SplitLast(head: string, last: string, sep: char)
    requires sep !in last
    ensures Split(head + [sep] + last, sep) == Split(head, sep) + [last]
  {
    var s := head + [sep] + last;
    if head == [] {
      assert s[1..] == last;
      SplitWhole(last, sep);
      assert Split(head, sep) == [""];
    } else {
      SplitLast(head[1..], last, sep);
      assert s[1..] == head[1..] + [sep] + last;
    }
  }

  predicate IsDigit(c: char) { '0' <= c <= '9' }

  predicate AllDigits(s: string) { forall i | 0 <= i < |s| :: IsDigit(s[i]) }

  function DigitValue(c: char): nat
    requires IsDigit(c)
  {
    c as int - '0' as int
  }

  /** The number a run of decimal digits denotes. */
  function DigitsValue(s: string): nat
    requires AllDigits(s)
  {
    if s == [] then 0 else DigitsValue(s[..|s| - 1]) * 10 + DigitValue(s[|s| - 1])
  }

  /** Decimal text without leading zeros. */
  function Decimal(n: nat): (s: string)
    ensures s != [] && AllDigits(s)
  {
    if n < 10 then [('0' as int + n) as char]
    else Decimal(n / 10) + [('0' as int + n % 10) as char]
  }

  lemma {:induction false} NoLeadingZero(n: nat)
    ensures n > 0 ==> Decimal(n)[0] != '0'
  {
    if n >= 10 { NoLeadingZero(n / 10); }
  }

  /** Decimal text denotes the number it was made from. */
  lemma {:induction false} DecimalRoundTrip(n: nat)
    ensures DigitsValue(Decimal(n)) == n
  {
    var s := Decimal(n);
    if n < 10 {
      assert s[..|s| - 1] == [];
    } else {
      DecimalRoundTrip(n / 10);
      assert s[..|s| - 1] == Decimal(n / 10);
    }
  }
}
