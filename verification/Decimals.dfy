/** Decimal numbers as strconv prints and parses them. */
module Decimals {
  import opened Bytes

  function Digit(d: nat): (r: Byte)
    requires d < 10
    ensures r as int == '0' as int + d
  {
    ('0' as int + d) as char
  }

  // strconv.FormatUint(n, 10).
  function Decimal(n: nat): (r: ByteString)
    ensures r != [] && forall i :: 0 <= i < |r| ==> '0' <= r[i] <= '9'
  {
    if n < 10 then [Digit(n)] else Decimal(n / 10) + [Digit(n % 10)]
  }

  /** The loop of strconv.ParseUint with its error ignored: it stops with 0 at the first byte that is not a digit and
      with the largest value as soon as that is passed, whichever comes first. */
  function Scan(s: ByteString, acc: nat, max: nat): (r: nat)
    requires acc <= max
    ensures r <= max
  {
    if s == [] then acc
    else if !('0' <= s[0] <= '9') then 0
    else
      var acc' := acc * 10 + (s[0] as int - '0' as int);
      if acc' > max then max else Scan(s[1..], acc', max)
  }

  function MaxUint(bits: nat): nat {
    if bits == 0 then 0 else 2 * MaxUint(bits - 1) + 1
  }

  lemma {:induction false} MaxUintSum(a: nat, b: nat)
    ensures MaxUint(a + b) + 1 == (MaxUint(a) + 1) * (MaxUint(b) + 1)
  {
    if b > 0 {
      MaxUintSum(a, b - 1);
      MaxUintNext(a + b);
      MaxUintNext(b);
      hide MaxUint;
      Doubled(MaxUint(a) + 1, MaxUint(b - 1) + 1);
    }
  }

  lemma MaxUintNext(b: nat)
    requires b > 0
    ensures MaxUint(b) + 1 == 2 * (MaxUint(b - 1) + 1)
  {
  }

  lemma Doubled(x: nat, y: nat)
    ensures x * (2 * y) == 2 * (x * y)
  {
  }

  lemma Widths()
    ensures MaxUint(8) == 0xFF && MaxUint(15) == 0x7FFF && MaxUint(16) == 0xFFFF
    ensures MaxUint(31) == 0x7FFF_FFFF && MaxUint(32) == 0xFFFF_FFFF
  {
    assert MaxUint(8) == 0xFF && MaxUint(7) == 0x7F;
    MaxUintSum(8, 7);
    MaxUintSum(8, 8);
    MaxUintSum(16, 15);
    MaxUintSum(16, 16);
  }

  lemma WideWidths()
    ensures MaxUint(63) == 0x7FFF_FFFF_FFFF_FFFF && MaxUint(64) == 0xFFFF_FFFF_FFFF_FFFF
  {
    hide MaxUint;
    Widths();
    MaxUintSum(32, 31);
    MaxUintSum(32, 32);
  }

  function ParseUint(s: ByteString, bits: nat): (r: nat) {
    Scan(s, 0, MaxUint(bits))
  }

  // strconv.ParseInt with its error ignored: an optional sign, and values out of range are clamped.
  function ParseInt(s: ByteString, bits: nat): (r: int)
    requires bits > 0
  {
    var max := MaxUint(bits - 1);
    var signed := s != [] && (s[0] == '+' || s[0] == '-');
    var un: int := ParseUint(if signed then s[1..] else s, bits);
    if signed && s[0] == '-' then if un > max + 1 then -(max + 1) else -un
    else if un > max then max else un
  }

  lemma {:induction false} ScanDecimal(n: nat, rest: ByteString, max: nat)
    ensures Scan(Decimal(n) + rest, 0, max) == if n <= max then Scan(rest, n, max) else max
    decreases n
  {
    if n < 10 {
      assert (Decimal(n) + rest)[1..] == rest;
    } else {
      var tail := [Digit(n % 10)] + rest;
      ScanDecimal(n / 10, tail, max);
      assert Decimal(n) + rest == Decimal(n / 10) + tail;
      assert tail[1..] == rest;
    }
  }

  // Parsing what was printed gives the number back, up to the largest value of the width.
  lemma ParsePrinted(n: nat, bits: nat)
    ensures ParseUint(Decimal(n), bits) == if n <= MaxUint(bits) then n else MaxUint(bits)
    ensures bits > 0 ==> ParseInt(Decimal(n), bits) == if n <= MaxUint(bits - 1) then n else MaxUint(bits - 1)
  {
    ScanDecimal(n, [], MaxUint(bits));
    assert Decimal(n) + [] == Decimal(n);
  }

  ghost predicate Digits(s: ByteString) {
    forall i :: 0 <= i < |s| ==> '0' <= s[i] <= '9'
  }

  // What a string of digits stands for, in base ten.
  ghost function Positional(s: ByteString): nat
    requires Digits(s)
  {
    if s == [] then 0 else Positional(s[..|s| - 1]) * 10 + (s[|s| - 1] as int - '0' as int)
  }

  lemma {:induction false} PrintsPositional(n: nat)
    ensures Positional(Decimal(n)) == n
  {
    var s := Decimal(n);
    if n < 10 {
      assert s[..0] == [];
      assert Positional(s[..|s| - 1]) == 0;
    } else {
      PrintsPositional(n / 10);
      assert s[..|s| - 1] == Decimal(n / 10);
    }
  }

  lemma {:induction false} ScanPrefix(s: ByteString, i: nat, max: nat)
    requires i <= |s| && Digits(s[..i]) && Positional(s[..i]) <= max
    ensures Scan(s, 0, max) == Scan(s[i..], Positional(s[..i]), max)
    decreases i
  {
    if i == 0 {
      assert s[..0] == [] && s[0..] == s;
    } else {
      assert s[..i][..i - 1] == s[..i - 1] && s[..i][i - 1] == s[i - 1];
      ScanPrefix(s, i - 1, max);
      assert s[i - 1..][1..] == s[i..] && s[i - 1..][0] == s[i - 1];
    }
  }

  /** ParseUint without its loop.  Digits are read in base ten; a byte that is no digit makes zero, unless the digits before
      it already exceed the largest value of the width, which is then the answer. */
  lemma ParseUintIs(s: ByteString, bits: nat)
    ensures Digits(s) && Positional(s) <= MaxUint(bits) ==> ParseUint(s, bits) == Positional(s)
    ensures forall i :: 0 <= i < |s| && Digits(s[..i]) && Positional(s[..i]) <= MaxUint(bits) && !('0' <= s[i] <= '9') ==> ParseUint(s, bits) == 0
    ensures forall i :: 0 < i <= |s| && Digits(s[..i]) && Digits(s[..i - 1]) && Positional(s[..i - 1]) <= MaxUint(bits) < Positional(s[..i])
              ==> ParseUint(s, bits) == MaxUint(bits)
  {
    hide MaxUint, Scan, Positional, Digits;
    var max := MaxUint(bits);
    if Digits(s) && Positional(s) <= max { ScanAll(s, max); }
    forall i | 0 <= i < |s| && Digits(s[..i]) && Positional(s[..i]) <= max && !('0' <= s[i] <= '9') ensures ParseUint(s, bits) == 0 {
      ScanJunk(s, i, max);
    }
    forall i | 0 < i <= |s| && Digits(s[..i]) && Digits(s[..i - 1]) && Positional(s[..i - 1]) <= max < Positional(s[..i])
      ensures ParseUint(s, bits) == max
    {
      ScanTooMuch(s, i, max);
    }
  }

  lemma ScanAll(s: ByteString, max: nat)
    requires Digits(s) && Positional(s) <= max
    ensures Scan(s, 0, max) == Positional(s)
  {
    assert s[..|s|] == s && s[|s|..] == [];
    ScanPrefix(s, |s|, max);
  }

  lemma ScanJunk(s: ByteString, i: nat, max: nat)
    requires i < |s| && Digits(s[..i]) && Positional(s[..i]) <= max && !('0' <= s[i] <= '9')
    ensures Scan(s, 0, max) == 0
  {
    hide Positional;
    ScanPrefix(s, i, max);
    assert s[i..][0] == s[i];
  }

  lemma ScanTooMuch(s: ByteString, i: nat, max: nat)
    requires 0 < i <= |s| && Digits(s[..i]) && Digits(s[..i - 1]) && Positional(s[..i - 1]) <= max < Positional(s[..i])
    ensures Scan(s, 0, max) == max
  {
    assert s[..i][..i - 1] == s[..i - 1] && s[..i][i - 1] == s[i - 1];
    assert s[i - 1..][0] == s[i - 1] && '0' <= s[..i][i - 1] <= '9';
    ScanPrefix(s, i - 1, max);
  }

  // Signs: a minus sign negates and clamps at the least value of the width, a plus sign means nothing.
  lemma ParseSigned(n: nat, bits: nat)
    requires bits > 0
    ensures ParseInt(['-'] + Decimal(n), bits) == if n <= MaxUint(bits - 1) then 0 - n else 0 - MaxUint(bits - 1) - 1
    ensures ParseInt(['+'] + Decimal(n), bits) == ParseInt(Decimal(n), bits)
  {
    ParsePrinted(n, bits);
    assert (['-'] + Decimal(n))[1..] == Decimal(n) && (['+'] + Decimal(n))[1..] == Decimal(n);
    assert '0' <= Decimal(n)[0] <= '9';
    hide ParseUint, Decimal;
  }

  // Different numbers print differently.
  lemma DecimalInjective(m: nat, n: nat)
    requires Decimal(m) == Decimal(n)
    ensures m == n
  {
    var max := m + n;
    ScanDecimal(m, [], max);
    ScanDecimal(n, [], max);
    assert Decimal(m) + [] == Decimal(m) && Decimal(n) + [] == Decimal(n);
  }
}
