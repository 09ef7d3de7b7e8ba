/** Big-endian byte strings, and the two carry loops that step through addresses in place. */
module ByteCarry {

  type Byte = b: int | 0 <= b < 256

  function Pow256(n: nat): (p: nat)
    ensures p > 0
  {
    if n == 0 then 1 else Pow256(n - 1) * 256
  }

  /** The number a byte string denotes, most significant byte first. */
  function Value(s: seq<Byte>): nat {
    if s == [] then 0 else Value(s[..|s| - 1]) * 256 + s[|s| - 1]
  }

  /** The `n` low-order bytes of `v`. */
  function ToBytes(v: nat, n: nat): (s: seq<Byte>)
    ensures |s| == n
  {
    if n == 0 then [] else ToBytes(v / 256, n - 1) + [v % 256]
  }

  /** Schoolbook addition of `k` from the last byte on, the carry falling off the front. */
  function Plus(s: seq<Byte>, k: nat): (r: seq<Byte>)
    ensures |r| == |s|
  {
    if s == [] || k == 0 then s
    else
      var sum: nat := s[|s| - 1] + k;
      Plus(s[..|s| - 1], sum / 256) + [sum % 256]
  }

  lemma {:induction false} ValueBound(s: seq<Byte>)
    ensures Value(s) < Pow256(|s|)
  {
    if s != [] {
      ValueBound(s[..|s| - 1]);
    }
  }

  lemma {:induction false} BytesOfValue(s: seq<Byte>)
    ensures ToBytes(Value(s), |s|) == s
  {
    if s != [] {
      BytesOfValue(s[..|s| - 1]);
      assert s == s[..|s| - 1] + [s[|s| - 1]];
    }
  }

  lemma {:induction false} ValueOfBytes(v: nat, n: nat)
    requires v < Pow256(n)
    ensures Value(ToBytes(v, n)) == v
  {
    if n > 0 {
      ValueOfBytes(v / 256, n - 1);
      assert ToBytes(v, n)[..n - 1] == ToBytes(v / 256, n - 1);
    }
  }

  /** Two byte strings of one length with the same value are the same. */
  lemma ValueInjective(s: seq<Byte>, t: seq<Byte>)
    requires |s| == |t| && Value(s) == Value(t)
    ensures s == t
  {
    BytesOfValue(s);
    BytesOfValue(t);
  }

  /** Leading bytes weigh by position. */
  lemma {:induction false} ValueConcat(s: seq<Byte>, t: seq<Byte>)
    ensures Value(s + t) == Value(s) * Pow256(|t|) + Value(t)
  {
    if t == [] {
      assert s + t == s;
    } else {
      var init := t[..|t| - 1];
      ValueConcat(s, init);
      assert (s + t)[..|s + t| - 1] == s + init;
      assert Value(s) * Pow256(|t|) == Value(s) * Pow256(|init|) * 256;
    }
  }

  lemma ModScale(a: nat, b: nat, d: nat)
    requires b < 256 && d > 0
    ensures (a * 256 + b) % (d * 256) == (a % d) * 256 + b
  {
    var q, r := DivMod(a, d);
    assert a * 256 + b == q * (d * 256) + (r * 256 + b);
    DivModUnique(a * 256 + b, d * 256, q, r * 256 + b);
  }

  /** Products of different numbers with `d` are at least `d` apart. */
  lemma {:induction false} MulApart(x: nat, y: nat, d: nat)
    ensures x < y ==> x * d + d <= y * d
  {
    if x < y {
      MulSucc(y - 1, d);
      if x < y - 1 {
        MulApart(x, y - 1, d);
      }
    }
  }

  lemma MulSucc(k: nat, d: nat)
    ensures (k + 1) * d == k * d + d
  {
  }

  lemma MulAssoc(x: nat, y: nat, z: nat)
    ensures x * y * z == x * (y * z)
  {
  }

  lemma DivMod(a: nat, d: nat) returns (q: nat, r: nat)
    requires d > 0
    ensures a == q * d + r && r < d && q == a / d && r == a % d
  {
    q, r := a / d, a % d;
  }

  lemma DivModUnique(a: nat, d: nat, q: nat, r: nat)
    requires d > 0 && r < d && a == q * d + r
    ensures a / d == q && a % d == r
  {
    var q', r' := DivMod(a, d);
    MulApart(q, q', d);
    MulApart(q', q, d);
  }

  /** The carry loop is addition modulo 256 to the number of bytes. */
  lemma {:induction false} PlusValue(s: seq<Byte>, k: nat)
    ensures Value(Plus(s, k)) == (Value(s) + k) % Pow256(|s|)
  {
    if s == [] || k == 0 {
      ValueBound(s);
      DivModUnique(Value(s) + 0, Pow256(|s|), 0, Value(s));
    } else {
      var init, sum: nat := s[..|s| - 1], s[|s| - 1] + k;
      var carry, low := DivMod(sum, 256);
      PlusValue(init, carry);
      assert Plus(s, k) == Plus(init, carry) + [low];
      assert Plus(s, k)[..|s| - 1] == Plus(init, carry);
      ModScale(Value(init) + carry, low, Pow256(|s| - 1));
    }
  }

  /** One byte of either loop, seen on the whole string. */
  lemma CarryStep(s: seq<Byte>, i: nat, k: nat, low: seq<Byte>)
    requires i < |s| && k > 0
    ensures var sum := s[i] as int + k;
            Plus(s[..i + 1], k) + low == Plus(s[..i], sum / 256) + ([sum % 256] + low)
  {
    assert s[..i + 1][..i] == s[..i];
  }

  /** One `ip[i]++; if ip[i] > 0 { break }` pass from the last byte to the first. */
  method Increment(ip: array<Byte>)
    modifies ip
    ensures ip[..] == Plus(old(ip[..]), 1)
  {
    ghost var was, low: seq<Byte> := ip[..], [];
    var i := ip.Length - 1;
    assert was[..i + 1] == was;
    while i >= 0
      invariant -1 <= i < ip.Length
      invariant ip[..] == was[..i + 1] + low
      invariant Plus(was, 1) == Plus(was[..i + 1], 1) + low
    {
      CarryStep(was, i, 1, low);
      assert ip[i] == ip[..][i];
      ip[i] := (ip[i] as int + 1) % 256;
      low := [ip[i]] + low;
      assert ip[..] == was[..i] + low;
      if ip[i] > 0 { return; }
      i := i - 1;
    }
  }

  /** The offset loop: each byte takes what fits, the rest moves one byte up. */
  method AddOffset(ip: array<Byte>, offset0: nat)
    modifies ip
    ensures ip[..] == Plus(old(ip[..]), offset0)
  {
    ghost var was, low: seq<Byte> := ip[..], [];
    var offset: nat := offset0;
    var i := ip.Length - 1;
    assert was[..i + 1] == was;
    while i >= 0 && offset > 0
      invariant -1 <= i < ip.Length
      invariant ip[..] == was[..i + 1] + low
      invariant Plus(was, offset0) == Plus(was[..i + 1], offset) + low
    {
      CarryStep(was, i, offset, low);
      assert ip[i] == ip[..][i];
      var sum := ip[i] as int + offset;
      ip[i] := sum % 256;
      offset := sum / 256;
      low := [ip[i]] + low;
      assert ip[..] == was[..i] + low;
      i := i - 1;
    }
  }
}
