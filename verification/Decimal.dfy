/**
 Decimal text of integers: the printers of sds.c, the digit counter of
 hiredis.c and the reader of read.c agree with one another.
 */
module Decimal {
  import opened Bytes
  import opened CTypes
  import opened Resp

  const LLSTR_SIZE := 21

  function Digit(d: nat): byte
    requires d < 10
  {
    '0' as int + d
  }

  /** The digits of `v`, most significant first, without leading zeros. */
  function Dec(v: nat): (s: bytes)
    ensures |s| > 0
    ensures forall i :: 0 <= i < |s| ==> '0' as int <= s[i] <= '9' as int
  {
    if v < 10 then [Digit(v)] else Dec(v / 10) + [Digit(v % 10)]
  }

  /** The text of a signed number. */
  function Text(v: int): (s: bytes)
    ensures v >= 0 ==> s == Dec(v)
    ensures v < 0 ==> |s| > 1 && s[0] == 45 && s[1..] == Dec(-v)
  {
    if v < 0 then [MINUS] + Dec(-v) else Dec(v)
  }

  function Pow10(k: nat): nat {
    if k == 0 then 1 else 10 * Pow10(k - 1)
  }

  /** `v` divided by ten, `k` times. */
  function Tens(v: nat, k: nat): nat {
    if k == 0 then v else Tens(v / 10, k - 1)
  }

  /** Digit `k` from the right, and no leading zero. */
  lemma {:induction false} DecDigit(v: nat, k: nat)
    requires k < |Dec(v)|
    ensures Dec(v)[|Dec(v)| - 1 - k] == 48 + Tens(v, k) % 10
    ensures |Dec(v)| > 1 ==> Dec(v)[0] != 48
    decreases v
  {
    if v >= 10 {
      assert Dec(v) == Dec(v / 10) + [Digit(v % 10)];
      DecDigit(v / 10, if k > 0 then k - 1 else 0);
      if v < 100 { assert Dec(v / 10) == [Digit(v / 10)]; }
    }
  }

  /** A number below 10^k has at most k digits. */
  lemma {:induction false} DecLength(v: nat, k: nat)
    requires k > 0 && v < Pow10(k)
    ensures |Dec(v)| <= k
  {
    if v >= 10 {
      DecLength(v / 10, k - 1);
    }
  }

  lemma Dec64(v: nat)
    ensures v < UINT64 ==> |Dec(v)| <= 20
    ensures v <= INT64_MAX + 1 ==> |Dec(v)| <= 19
  {
    assert Pow10(10) == 10000000000;
    assert Pow10(19) == 10000000000000000000;
    assert Pow10(20) == 100000000000000000000;
    if v < UINT64 { DecLength(v, 20); }
    if v <= INT64_MAX + 1 { DecLength(v, 19); }
  }

  /** Reading the digits of `v` in front of `s` leaves `v` in the accumulator. */
  lemma {:induction false} ReadDec(v: nat, s: bytes)
    requires CR in s
    ensures DigitsToCr(Dec(v) + s, 0) == DigitsToCr(s, v)
    decreases v
  {
    hide Dec, DigitsToCr;
    var d := Digit(v % 10);
    DecStep(v);
    DigitStep(d, s, v / 10);
    assert v / 10 * 10 + v % 10 == v;
    if v < 10 {
      assert Dec(v) + s == [d] + s;
    } else {
      assert Dec(v) + s == Dec(v / 10) + ([d] + s);
      ReadDec(v / 10, [d] + s);
    }
  }

  lemma DecStep(v: nat)
    ensures Dec(v) == (if v < 10 then [] else Dec(v / 10)) + [Digit(v % 10)]
  {
  }

  lemma DigitStep(d: byte, s: bytes, acc: int)
    requires IsDigit(d) && CR in s
    ensures DigitsToCr([d] + s, acc) == DigitsToCr(s, acc * 10 + (d - '0' as int))
  {
    assert ([d] + s)[1..] == s;
  }

  /** Reading back the text of a number gives the number, cut to 64 bits. */
  lemma ReadText(v: int, s: bytes)
    requires s != [] && s[0] == CR
    ensures LongLong(Text(v) + s) == AsLongLong(v)
  {
    hide Dec, Text, AsLongLong, DigitsToCr;
    var t, n := Text(v) + s, if v < 0 then -v else v;
    ReadDec(n, s);
    EndOfDigits(s, n);
    if v < 0 {
      assert t[1..] == Dec(n) + s;
    } else {
      assert t[0] == Dec(n)[0];
    }
  }

  lemma EndOfDigits(s: bytes, v: nat)
    requires s != [] && s[0] == 13
    ensures DigitsToCr(s, v) == Digits(v)
  {
  }

  /** The value accumulated over the digits `s`. */
  function Accumulated(s: bytes): int {
    if s == [] then 0 else Accumulated(s[..|s| - 1]) * 10 + (s[|s| - 1] - '0' as int)
  }

  predicate IsDigit(b: byte) { '0' as int <= b <= '9' as int }

  /** The digits at the front of a line. */
  function DigitRun(s: bytes): bytes {
    if s != [] && IsDigit(s[0]) then [s[0]] + DigitRun(s[1..]) else []
  }

  lemma RunStart(s: bytes)
    ensures DigitRun(s) == s[..0] + DigitRun(s) && Accumulated(s[..0]) == 0
  {
  }

  /** Reading one more byte of a line either extends the digits or ends them. */
  lemma RunStep(s: bytes, j: nat)
    requires j < |s|
    ensures IsDigit(s[j]) ==> s[..j] + DigitRun(s[j..]) == s[..j + 1] + DigitRun(s[j + 1..])
    ensures IsDigit(s[j]) ==> Accumulated(s[..j + 1]) == Accumulated(s[..j]) * 10 + (s[j] - '0' as int)
    ensures !IsDigit(s[j]) ==> s[..j] + DigitRun(s[j..]) == s[..j]
  {
    assert s[j..][1..] == s[j + 1..] && s[..j + 1][..j] == s[..j];
  }

  /** While the digits of `v` are read the accumulator never exceeds `v`. */
  lemma {:induction false} NoOverflow(v: nat, k: nat)
    requires k <= |Dec(v)|
    ensures 0 <= Accumulated(Dec(v)[..k]) <= v
    ensures k == |Dec(v)| ==> Accumulated(Dec(v)[..k]) == v
    decreases v
  {
    if v < 10 {
      if k == 1 { assert Dec(v)[..1] == [Digit(v)]; }
    } else if k < |Dec(v)| {
      assert Dec(v)[..k] == Dec(v / 10)[..k];
      NoOverflow(v / 10, k);
    } else {
      NoOverflow(v / 10, k - 1);
      assert Dec(v)[..k] == Dec(v);
      assert Dec(v)[..k - 1] == Dec(v / 10)[..k - 1];
    }
  }

  /** The digits in front of a line end are all the digits of the line. */
  lemma {:induction false} RunOfDec(v: nat, s: bytes)
    requires s == [] || !IsDigit(s[0])
    ensures DigitRun(Dec(v) + s) == Dec(v)
  {
    var ds := Dec(v);
    for i := |ds| downto 0
      invariant DigitRun(ds[i..] + s) == ds[i..]
    {
      assert (ds[i..] + s)[1..] == ds[i + 1..] + s && ds[i..] == [ds[i]] + ds[i + 1..];
    }
    assert ds[0..] == ds;
  }

  /** The digits at the front of `s`, up to CR, accumulated in 64 bits; `wide` if
      the accumulator overflows. */
  method ReadDigits(s: bytes) returns (n: Number, wide: bool)
    requires CR in s
    ensures n == match DigitsToCr(s, 0) case Malformed => Malformed case Digits(v) => Digits(AsLongLong(v))
    ensures wide <==> Accumulated(DigitRun(s)) > INT64_MAX
  {
    hide DigitRun, Accumulated, AsLongLong;
    var v, i := 0, 0;
    ghost var acc := 0;
    wide := false;
    assert s[0..] == s;
    RunStart(s);
    while s[i] != CR
      invariant 0 <= i < |s| && CR in s[i..]
      invariant DigitsToCr(s[i..], acc) == DigitsToCr(s, 0)
      invariant acc == Accumulated(s[..i]) >= 0 && (wide <==> acc > INT64_MAX) && v == AsLongLong(acc)
      invariant DigitRun(s) == s[..i] + DigitRun(s[i..])
      decreases |s| - i
    {
      RunStep(s, i);
      assert s[i..][1..] == s[i + 1..];
      var dec := s[i] - '0' as int;
      if !(0 <= dec < 10) { return Malformed, wide; }
      AsLongLongStep(acc, 10, dec);
      wide := wide || v * 10 + dec > INT64_MAX;
      v := AsLongLong(v * 10 + dec);
      acc := acc * 10 + dec;
      i := i + 1;
    }
    RunStep(s, i);
    return Digits(v), wide;
  }

  /** The number at the front of `s`, which is terminated by CR; `wide` if a
      value on the way does not fit 64 bits. */
  method ReadLongLong(s: bytes) returns (value: int, wide: bool)
    requires CR in s
    ensures value == LongLong(s)
    ensures wide <==> Accumulated(DigitRun(Unsigned(s))) > INT64_MAX
  {
    hide DigitRun, Accumulated, AsLongLong, DigitsToCr;
    var mult, i := 1, 0;
    if s[0] == MINUS {
      mult := -1;
      i := 1;
    } else if s[0] == PLUS {
      i := 1;
    }
    assert s[0..] == s;
    var n;
    n, wide := ReadDigits(s[i..]);
    if n.Malformed? { return -1, wide; }
    ghost var v := DigitsToCr(s[i..], 0).value;
    AsLongLongStep(v, mult, 0);
    assert v * mult + 0 == if mult < 0 then -v else v;
    return AsLongLong(mult * n.value), wide;
  }

  /** A number line without its sign. */
  function Unsigned(s: bytes): bytes
    requires s != []
  {
    if s[0] == MINUS || s[0] == PLUS then s[1..] else s
  }

  lemma DecSmall(v: nat)
    requires v < 10000
    ensures |Dec(v)| == if v < 10 then 1 else if v < 100 then 2 else if v < 1000 then 3 else 4
  {
    if v >= 10 {
      assert |Dec(v)| == 1 + |Dec(v / 10)|;
      DecSmall(v / 10);
    }
  }

  /** Digits to the left of four trailing ones. */
  lemma DecFour(v: nat)
    requires v >= 10000
    ensures |Dec(v)| == 4 + |Dec(v / 10000)|
  {
    assert v / 10 / 10 / 10 / 10 == v / 10000;
    assert |Dec(v)| == 1 + |Dec(v / 10)|;
    assert |Dec(v / 10)| == 1 + |Dec(v / 10 / 10)|;
    assert |Dec(v / 10 / 10)| == 1 + |Dec(v / 10 / 10 / 10)|;
    assert |Dec(v / 10 / 10 / 10)| == 1 + |Dec(v / 10 / 10 / 10 / 10)|;
  }

  /** The number of digits, four at a time. */
  method CountDigits(v: nat) returns (result: nat)
    ensures result == |Dec(v)|
  {
    result := 1;
    var w := v;
    while true
      invariant result - 1 + |Dec(w)| == |Dec(v)|
      decreases w
    {
      if w < 10000 { DecSmall(w); }
      if w < 10 { return result; }
      if w < 100 { return result + 1; }
      if w < 1000 { return result + 2; }
      if w < 10000 { return result + 3; }
      DecFour(w);
      w := w / 10000;
      result := result + 4;
    }
  }

  function Reversed(s: bytes): (r: bytes)
    ensures |r| == |s|
    ensures forall i :: 0 <= i < |s| ==> r[i] == s[|s| - 1 - i]
  {
    if s == [] then [] else Reversed(s[1..]) + [s[0]]
  }

  /** Swap the first `n` bytes end for end. */
  method ReversePrefix(a: array<byte>, n: nat)
    requires 0 < n <= a.Length
    modifies a
    ensures a[..n] == Reversed(old(a[..n]))
    ensures a[n..] == old(a[n..])
  {
    var s, p := 0, n - 1;
    while s < p
      invariant 0 <= s && p == n - 1 - s && s <= p + 1
      invariant forall i :: 0 <= i < s || p < i < n ==> a[i] == old(a[n - 1 - i])
      invariant forall i :: s <= i <= p || n <= i < a.Length ==> a[i] == old(a[i])
    {
      var aux := a[s];
      a[s] := a[p];
      a[p] := aux;
      s := s + 1;
      p := p - 1;
    }
  }

  /** The digits of `v`, least significant first, at the front of the array. */
  method PutDigits(a: array<byte>, v: nat) returns (l: nat)
    requires |Dec(v)| <= a.Length
    modifies a
    ensures l == |Dec(v)| && Reversed(a[..l]) == Dec(v)
  {
    var w := v;
    a[0] := Digit(w % 10);
    w := w / 10;
    l := 1;
    assert Reversed(a[..1]) == [Digit(v % 10)];
    while w != 0
      invariant 0 < l <= a.Length
      invariant Dec(v) == (if w == 0 then [] else Dec(w)) + Reversed(a[..l])
      decreases w
    {
      ghost var low := a[..l];
      a[l] := Digit(w % 10);
      assert a[..l + 1] == low + [Digit(w % 10)];
      assert Reversed(a[..l + 1]) == [Digit(w % 10)] + Reversed(low);
      w := w / 10;
      l := l + 1;
    }
  }

  /** Print an unsigned 64-bit number into a 21-byte area. */
  method Ull2Str(s: array<byte>, v: nat) returns (l: nat)
    requires v < UINT64 && s.Length >= LLSTR_SIZE
    modifies s
    ensures l < s.Length && s[..l] == Dec(v) && s[l] == NUL
  {
    Dec64(v);
    l := PutDigits(s, v);
    s[l] := NUL;
    ReversePrefix(s, l);
    assert s[l] == s[l..][0];
  }

  /** Print a signed 64-bit number into a 21-byte area. The smallest one is its own
      negation, and unsigned it is the right number. */
  method Ll2Str(s: array<byte>, value: int) returns (l: nat)
    requires INT64_MIN <= value <= INT64_MAX && s.Length >= LLSTR_SIZE
    modifies s
    ensures l < s.Length && s[..l] == Text(value) && s[l] == NUL
  {
    var v := if value < 0 then AsLongLong(-value) % UINT64 else value;
    assert v == if value < 0 then -value else value;
    Dec64(v);
    l := PutDigits(s, v);
    ghost var low := s[..l];
    if value < 0 {
      s[l] := MINUS;
      l := l + 1;
      assert s[..l] == low + [MINUS];
      assert Reversed(s[..l]) == [MINUS] + Reversed(low);
    }
    s[l] := NUL;
    ReversePrefix(s, l);
    assert s[l] == s[l..][0];
  }

  /** Printing a 64-bit number and reading it back gives the number; the reader's
      accumulator overflows on the way exactly for the smallest one. */
  method PrintAndRead(v: int) returns (w: int, wide: bool, l: nat)
    requires INT64_MIN <= v <= INT64_MAX
    ensures w == v && (wide <==> v == INT64_MIN) && l == |Text(v)| <= 20
  {
    hide Dec, DigitRun, Accumulated, LongLong;
    var a := new byte[LLSTR_SIZE];
    l := Ll2Str(a, v);
    var line := a[..l] + [CR];
    ReadText(v, [CR]);
    RunOfText(v);
    w, wide := ReadLongLong(line);
  }

  lemma RunOfText(v: int)
    ensures Accumulated(DigitRun(Unsigned(Text(v) + [CR]))) == if v < 0 then -v else v
  {
    hide DigitRun;
    var n := if v < 0 then -v else v;
    var t := Text(v) + [CR];
    assert v < 0 ==> t[1..] == Dec(n) + [CR];
    assert Unsigned(t) == Dec(n) + [CR];
    RunOfDec(n, [CR]);
    NoOverflow(n, |Dec(n)|);
    assert Dec(n)[..|Dec(n)|] == Dec(n);
  }

  /** The digits counted for a length are those printed for it. */
  method PrintAndCount(v: nat) returns (l: nat, n: nat)
    requires v < UINT64
    ensures l == n == |Dec(v)| <= 20
  {
    var a := new byte[LLSTR_SIZE];
    l := Ull2Str(a, v);
    n := CountDigits(v);
    assert |a[..l]| == l;
  }
}
