/** Decimal rendering and reading of 64-bit numbers, with the machine arithmetic of the readers. */
module Decimal {
  import opened Wrappers

  const TWO_64: int := 0x1_0000_0000_0000_0000

  type uint64 = x: int | 0 <= x < 0x1_0000_0000_0000_0000

  function DigitChar(d: int): char
    requires 0 <= d < 10
  {
    '0' + d as char
  }

  predicate IsDigit(c: char) {
    '0' <= c <= '9'
  }

  function DigitValue(c: char): int
    requires IsDigit(c)
  {
    c as int - '0' as int
  }

  predicate AllDigits(s: string) {
    forall i :: 0 <= i < |s| ==> IsDigit(s[i])
  }

  /** The digits of a number, none for zero. */
  function Digits(n: nat): string {
    if n == 0 then "" else Digits(n / 10) + [DigitChar(n % 10)]
  }

  /** The number a string of digits denotes. */
  function Value(s: string): nat
    requires AllDigits(s)
  {
    if s == "" then 0 else 10 * Value(s[..|s| - 1]) + DigitValue(s[|s| - 1])
  }

  function Pow10(k: nat): nat {
    if k == 0 then 1 else 10 * Pow10(k - 1)
  }

  lemma {:induction false} DigitsDenote(n: nat)
    ensures AllDigits(Digits(n)) && Value(Digits(n)) == n
    ensures n > 0 ==> Digits(n) != "" && Digits(n)[0] != '0'
  {
    if n > 0 {
      DigitsDenote(n / 10);
      var s := Digits(n);
      assert s[..|s| - 1] == Digits(n / 10);
      assert n < 10 ==> s == [DigitChar(n)];
    }
  }

  /** A number that `places` digits can hold. */
  predicate Fits(n: nat, places: nat) {
    n < Pow10(places)
  }

  lemma TwentyDigits(n: uint64)
    ensures Fits(n, 20)
  {
    assert Pow10(4) == 10000;
    assert Pow10(8) == 10000 * Pow10(4) by { assert Pow10(6) == 100 * Pow10(4); }
    assert Pow10(12) == 10000 * Pow10(8) by { assert Pow10(10) == 100 * Pow10(8); }
    assert Pow10(16) == 10000 * Pow10(12) by { assert Pow10(14) == 100 * Pow10(12); }
    assert Pow10(20) == 10000 * Pow10(16) by { assert Pow10(18) == 100 * Pow10(16); }
  }

  /** One turn of the loop: the last digit moves to the front of the tail, into a free place. */
  lemma {:induction false} DigitTaken(s: nat, tail: string, pos: nat)
    requires 0 < s && Fits(s, pos)
    ensures pos > 0 && Fits(s / 10, pos - 1)
    ensures Digits(s) + tail == Digits(s / 10) + ([DigitChar(s % 10)] + tail)
  {
    if pos > 0 {
      Tenth(s, Pow10(pos - 1));
    }
    Regroup(Digits(s / 10), [DigitChar(s % 10)], tail);
  }

  lemma Tenth(s: nat, p: nat)
    ensures s < 10 * p ==> s / 10 < p
  {
  }

  lemma Regroup(a: string, b: string, c: string)
    ensures a + b + c == a + (b + c)
  {
  }

  /** The digits of a number, written into the end of a buffer with room for them. */
  method FillDigits(serial: nat, buf: array<char>) returns (pos: nat)
    requires Fits(serial, buf.Length)
    modifies buf
    ensures pos <= buf.Length && buf[pos..] == Digits(serial)
  {
    pos := buf.Length;
    var s := serial;
    while s > 0
      invariant pos <= buf.Length && Fits(s, pos)
      invariant Digits(serial) == Digits(s) + buf[pos..]
    {
      ghost var tail := buf[pos..];
      DigitTaken(s, tail, pos);
      pos := pos - 1;
      buf[pos] := DigitChar(s % 10);
      assert buf[pos..] == [buf[pos]] + tail;
      s := s / 10;
    }
  }

  /** `serialString`: fills a 20-byte buffer from the end. The buffer is never underrun. */
  method SerialString(serial: uint64) returns (r: string)
    ensures r == Digits(serial)
  {
    if serial == 0 {
      return "";
    }
    var buf := new char[20];
    TwentyDigits(serial);
    var pos := FillDigits(serial, buf);
    r := buf[pos..];
  }

  /** `parseUint64` as a function: the running value wraps at 2^64, and a decrease is an overflow. */
  function ParseUint64(s: string): Option<uint64> {
    if s == "" then Some(0)
    else
      var before := ParseUint64(s[..|s| - 1]);
      var c := s[|s| - 1];
      if before.None? || !IsDigit(c) then None
      else
        var next := (before.value * 10 + DigitValue(c)) % TWO_64;
        if next < before.value then None else Some(next)
  }

  lemma {:induction false} ParseStops(s: string, k: nat)
    requires k <= |s| && ParseUint64(s[..k]).None?
    ensures ParseUint64(s).None?
    decreases |s|
  {
    if k == |s| {
      assert s[..k] == s;
    } else {
      assert s[..|s| - 1][..k] == s[..k];
      ParseStops(s[..|s| - 1], k);
    }
  }

  method ParseUint64Loop(s: string) returns (r: Option<uint64>)
    ensures r == ParseUint64(s)
  {
    var out: uint64 := 0;
    for i := 0 to |s|
      invariant ParseUint64(s[..i]) == Some(out)
    {
      assert s[..i + 1][..i] == s[..i];
      if !IsDigit(s[i]) {
        ParseStops(s, i + 1);
        return None;
      }
      var next: uint64 := (out * 10 + DigitValue(s[i])) % TWO_64;
      if next < out {
        ParseStops(s, i + 1);
        return None;
      }
      out := next;
    }
    assert s[..|s|] == s;
    r := Some(out);
  }

  /** What the running value is when it is not refused: the number so far, wrapped. */
  function Wrapped(s: string, k: nat): nat
    requires AllDigits(s) && k <= |s|
  {
    Value(s[..k]) % TWO_64
  }

  /** No digit makes the wrapped number smaller. */
  predicate NeverDrops(s: string)
    requires AllDigits(s)
  {
    forall k :: 0 <= k < |s| ==> Wrapped(s, k) <= Wrapped(s, k + 1)
  }

  lemma WrapCarries(v: nat, d: nat)
    ensures (10 * v + d) % TWO_64 == (v % TWO_64 * 10 + d) % TWO_64
  {
    var q := v / TWO_64;
    assert v == q * TWO_64 + v % TWO_64;
    assert 10 * v + d == (v % TWO_64 * 10 + d) + 10 * q * TWO_64;
    WholeWraps(v % TWO_64 * 10 + d, 10 * q);
  }

  lemma {:induction false} WholeWraps(x: nat, k: nat)
    ensures (x + k * TWO_64) % TWO_64 == x % TWO_64
  {
    if k > 0 {
      WholeWraps(x, k - 1);
      assert (x + (k - 1) * TWO_64 + TWO_64) % TWO_64 == (x + (k - 1) * TWO_64) % TWO_64;
    }
  }

  lemma NeverDropsSnoc(t: string, c: char)
    requires AllDigits(t + [c]) && AllDigits(t)
    ensures NeverDrops(t + [c]) <==> NeverDrops(t) && Wrapped(t, |t|) <= Wrapped(t + [c], |t| + 1)
  {
    var s := t + [c];
    forall k | 0 <= k <= |t| ensures Wrapped(s, k) == Wrapped(t, k) {
      assert s[..k] == t[..k];
    }
    if NeverDrops(s) {
      forall k | 0 <= k < |t| ensures Wrapped(t, k) <= Wrapped(t, k + 1) {
        assert Wrapped(s, k) <= Wrapped(s, k + 1);
      }
    }
  }

  /** Exactly what the reader does, on every string: it refuses a character that is no digit and
      a digit at which the wrapped number drops, and otherwise returns the wrapped number. */
  lemma {:induction false} ParseExact(s: string)
    ensures ParseUint64(s) == if AllDigits(s) && NeverDrops(s) then Some(Value(s) % TWO_64) else None
  {
    if s != "" {
      var t, c := s[..|s| - 1], s[|s| - 1];
      assert s == t + [c];
      ParseExact(t);
      assert AllDigits(s) <==> AllDigits(t) && IsDigit(c);
      if AllDigits(s) {
        NeverDropsSnoc(t, c);
        assert t[..|t|] == t && s[..|t| + 1] == s;
        WrapCarries(Value(t), DigitValue(c));
      }
    }
  }

  lemma {:induction false} PrefixGrows(s: string, k: nat)
    requires AllDigits(s) && k <= |s|
    ensures Value(s[..k]) <= Value(s)
    decreases |s|
  {
    if k < |s| {
      PrefixGrows(s[..|s| - 1], k);
      assert s[..|s| - 1][..k] == s[..k];
    } else {
      assert s[..k] == s;
    }
  }

  lemma {:induction false} FittingNeverDrops(s: string)
    requires AllDigits(s) && Value(s) < TWO_64
    ensures NeverDrops(s)
  {
    forall k | 0 <= k < |s| ensures Wrapped(s, k) <= Wrapped(s, k + 1) {
      PrefixGrows(s, k + 1);
      PrefixGrows(s[..k + 1], k);
      assert s[..k + 1][..k] == s[..k];
    }
  }

  /** A number that fits is returned; one that does not is reported as an overflow exactly if some
      digit makes the wrapped number drop, and is otherwise returned as another number. */
  lemma {:induction false} OverflowExact(s: string)
    requires AllDigits(s)
    ensures Value(s) < TWO_64 <==> ParseUint64(s) == Some(Value(s))
    ensures Value(s) >= TWO_64 ==> (ParseUint64(s) == None <==> exists k :: 0 <= k < |s| && Wrapped(s, k + 1) < Wrapped(s, k))
  {
    ParseExact(s);
    if Value(s) < TWO_64 {
      FittingNeverDrops(s);
    }
  }

  /** Every 64-bit serial survives rendering and reading back. */
  lemma {:induction false} SerialRoundTrip(serial: uint64)
    ensures ParseUint64(Digits(serial)) == Some(serial)
  {
    DigitsDenote(serial);
    OverflowExact(Digits(serial));
  }

  lemma {:induction false} ParseSnoc(t: string, v: uint64, c: char)
    requires ParseUint64(t) == Some(v) && IsDigit(c)
    ensures
      var next := (v * 10 + DigitValue(c)) % TWO_64;
      ParseUint64(t + [c]) == if next < v then None else Some(next)
  {
    assert (t + [c])[..|t + [c]| - 1] == t;
  }

  lemma {:induction false} ValueSnoc(t: string, c: char)
    requires AllDigits(t) && IsDigit(c)
    ensures AllDigits(t + [c]) && Value(t + [c]) == 10 * Value(t) + DigitValue(c)
  {
    assert (t + [c])[..|t + [c]| - 1] == t;
  }

  /** One more digit, a zero: accepted exactly when the wrapped product is not below the number. */
  lemma ZeroAppended(n: uint64) returns (s: string)
    ensures AllDigits(s) && Value(s) == 10 * n
    ensures ParseUint64(s) == if 10 * n % TWO_64 < n then None else Some(10 * n % TWO_64)
  {
    s := Digits(n) + ['0'];
    SerialRoundTrip(n);
    DigitsDenote(n);
    ParseSnoc(Digits(n), n, '0');
    ValueSnoc(Digits(n), '0');
  }

  /** Two numbers that do not fit: twenty quintillion is reported, and thirty quintillion, whose
      wrapped value lands above the running one, is accepted as another number. */
  lemma OverflowMissed() returns (twenty: string, thirty: string)
    ensures AllDigits(twenty) && Value(twenty) == 20_000_000_000_000_000_000 && ParseUint64(twenty) == None
    ensures AllDigits(thirty) && Value(thirty) == 30_000_000_000_000_000_000
    ensures ParseUint64(thirty) == Some(11_553_255_926_290_448_384)
  {
    twenty := ZeroAppended(2_000_000_000_000_000_000);
    thirty := ZeroAppended(3_000_000_000_000_000_000);
  }
}
