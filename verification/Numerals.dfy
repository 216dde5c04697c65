/** itoa and strtoul: printing and parsing unsigned 64-bit numbers. */
module Numerals {
  import opened Arithmetic

  const NUL: char := '\0'

  /** The character itoa writes for a digit. */
  function DigitChar(d: nat): (c: char)
    requires d < 36
    ensures c != NUL
  {
    if d < 10 then '0' + d as char else 'a' + (d - 10) as char
  }

  /** The value strtoul gives a character, -1 for one that is no digit. */
  function DigitValue(c: char): (d: int)
    ensures -1 <= d < 16
  {
    if '0' <= c <= '9' then c as int - '0' as int
    else if 'a' <= c <= 'f' then c as int - 'a' as int + 10
    else if 'A' <= c <= 'F' then c as int - 'A' as int + 10
    else -1
  }

  /** The sixteen digits, in either case, and that nothing else is a digit. */
  lemma DigitTable(d: nat)
    requires d < 16
    ensures DigitChar(d) == "0123456789abcdef"[d]
    ensures DigitValue("0123456789abcdef"[d]) == d && DigitValue("0123456789ABCDEF"[d]) == d
    ensures forall c :: DigitValue(c) == d ==> c == "0123456789abcdef"[d] || c == "0123456789ABCDEF"[d]
  {
    if d < 10 {
      DecimalDigit(d);
    } else {
      LetterDigit(d);
    }
  }

  lemma DecimalDigit(d: nat)
    requires d < 10
    ensures DigitChar(d) == "0123456789abcdef"[d] == "0123456789ABCDEF"[d]
  {
    if d < 5 {
      if d == 0 {} else if d == 1 {} else if d == 2 {} else if d == 3 {} else {}
    } else {
      if d == 5 {} else if d == 6 {} else if d == 7 {} else if d == 8 {} else {}
    }
  }

  lemma LetterDigit(d: nat)
    requires 10 <= d < 16
    ensures DigitChar(d) == "0123456789abcdef"[d] && "0123456789ABCDEF"[d] as int == 'A' as int + (d - 10)
  {
    if d == 10 {} else if d == 11 {} else if d == 12 {} else if d == 13 {} else if d == 14 {} else {}
  }

  // num / base and num % base, by repeated subtraction: proofs about numerals unfold these one step at a time.

  function Quo(n: nat, base: nat): (q: nat)
    requires base >= 2
    ensures n > 0 ==> q < n
  {
    if n < base then 0 else Quo(n - base, base) + 1
  }

  function Rem(n: nat, base: nat): (r: nat)
    requires base >= 2
    ensures r < base
  {
    if n < base then n else Rem(n - base, base)
  }

  lemma {:induction false} QuoRem(n: nat, base: nat)
    requires base >= 2
    ensures n == Rem(n, base) + base * Quo(n, base)
  {
    if n >= base {
      QuoRem(n - base, base);
      Distribute(base, Quo(n - base, base), 1, 1);
    }
  }

  lemma QuoRemAreDivMod(n: nat, base: nat)
    requires base >= 2
    ensures Quo(n, base) == n / base && Rem(n, base) == n % base
  {
    QuoRem(n, base);
    Peel(Rem(n, base), base, Quo(n, base));
  }

  /** The usual positional numeral, most significant digit first. */
  function Numeral(n: nat, base: nat): (s: string)
    requires 2 <= base <= 36
    ensures |s| > 0 && NUL !in s
  {
    (if Quo(n, base) > 0 then Numeral(Quo(n, base), base) else []) + [DigitChar(Rem(n, base))]
  }

  predicate IsDigit(c: char, base: int)
  {
    0 <= DigitValue(c) < base
  }

  predicate AllDigits(s: string, base: int)
  {
    forall c :: c in s ==> IsDigit(c, base)
  }

  /** The number a digit string spells. */
  function Spelled(s: string, base: int): int
  {
    if s == [] then 0 else base * Spelled(s[..|s| - 1], base) + DigitValue(s[|s| - 1])
  }

  // ----- itoa --------------------------------------------------------------------

  function Reversed(s: string): (r: string)
    ensures |r| == |s| && forall i :: 0 <= i < |s| ==> r[i] == s[|s| - 1 - i]
  {
    if s == [] then [] else Reversed(s[1..]) + [s[0]]
  }

  /** The digits in the order the first loop finds them. */
  function Backwards(n: nat, base: nat): (s: string)
    requires 2 <= base <= 36
    ensures |s| > 0
  {
    [DigitChar(Rem(n, base))] + if Quo(n, base) > 0 then Backwards(Quo(n, base), base) else []
  }

  lemma ReverseOnto(d: char, back: string, num: string)
    requires Reversed(back) == num
    ensures Reversed([d] + back) == num + [d]
  {
    assert ([d] + back)[1..] == back;
  }

  lemma {:induction false} BackwardsReversed(n: nat, base: nat)
    requires 2 <= base <= 36
    ensures Reversed(Backwards(n, base)) == Numeral(n, base)
  {
    var q, d := Quo(n, base), DigitChar(Rem(n, base));
    if q > 0 {
      BackwardsReversed(q, base);
      ReverseOnto(d, Backwards(q, base), Numeral(q, base));
    } else {
      ReverseOnto(d, [], []);
    }
  }

  /** The digits of a number that is still to be written: none once it is 0. */
  function Remaining(n: nat, base: nat): string
    requires 2 <= base <= 36
  {
    if n > 0 then Backwards(n, base) else []
  }

  /** Fills the buffer with the digits in reverse, terminates it, and turns the digits round in place. */
  method Itoa(num: nat, base: nat, buf: array<char>)
    requires 2 <= base <= 36 && |Numeral(num, base)| < buf.Length
    modifies buf
    ensures var n := |Numeral(num, base)|;
            buf[..n] == Numeral(num, base) && buf[n] == NUL && buf[n + 1..] == old(buf[n + 1..])
  {
    BackwardsReversed(num, base);
    var ptr := WriteBackwards(num, base, buf);
    buf[ptr] := NUL;
    assert buf[..ptr] == Backwards(num, base);
    ReverseInPlace(buf, ptr);
  }

  /** itoa's first loop. */
  method WriteBackwards(num: nat, base: nat, buf: array<char>) returns (ptr: nat)
    requires 2 <= base <= 36 && |Backwards(num, base)| < buf.Length
    modifies buf
    ensures ptr == |Backwards(num, base)| && buf[..ptr] == Backwards(num, base)
    ensures buf[ptr..] == old(buf[ptr..])
  {
    ghost var all := Backwards(num, base);
    var rest, digit := DivMod(num, base);
    buf[0] := DigitChar(digit);
    ptr := 1;
    while rest > 0
      invariant 1 <= ptr <= |all|
      invariant all[ptr..] == Remaining(rest, base)
      invariant forall k :: 0 <= k < buf.Length ==> buf[k] == if k < ptr then all[k] else old(buf[k])
      decreases rest
    {
      rest, digit := DivMod(rest, base);
      FirstOfRest(all, ptr, DigitChar(digit), Remaining(rest, base));
      buf[ptr] := DigitChar(digit);
      ptr := ptr + 1;
    }
  }

  lemma FirstOfRest(s: string, i: nat, c: char, rest: string)
    requires i <= |s| && s[i..] == [c] + rest
    ensures i < |s| && s[i] == c && s[i + 1..] == rest
  {
    assert s[i..][0] == c && s[i..][1..] == rest;
  }

  method DivMod(n: nat, base: nat) returns (q: nat, r: nat)
    requires base >= 2
    ensures q == Quo(n, base) && r == Rem(n, base)
  {
    QuoRemAreDivMod(n, base);
    q, r := n / base, n % base;
  }

  /** Two pointers swap characters until they meet. */
  method ReverseInPlace(buf: array<char>, len: nat)
    requires 0 < len < buf.Length
    modifies buf
    ensures buf[..len] == Reversed(old(buf[..len]))
    ensures buf[len..] == old(buf[len..])
  {
    var ptr1, ptr2 := 0, len - 1;
    while ptr1 < ptr2
      invariant 0 <= ptr1 <= len && ptr1 + ptr2 == len - 1
      invariant forall k :: 0 <= k < len ==>
                  buf[k] == if k < ptr1 || k > ptr2 then old(buf[len - 1 - k]) else old(buf[k])
      invariant buf[len..] == old(buf[len..])
    {
      var tmp := buf[ptr1];
      buf[ptr1] := buf[ptr2];
      ptr1 := ptr1 + 1;
      buf[ptr2] := tmp;
      ptr2 := ptr2 - 1;
    }
  }

  // ----- size and shape of a numeral -----------------------------------------------

  /** Digit i from the right is the remainder of n / base^i. */
  lemma NumeralDigit(n: nat, base: nat, i: nat)
    requires 2 <= base <= 16 && i < |Numeral(n, base)|
    ensures n / Power(base, i) % base < 16
    ensures Numeral(n, base)[|Numeral(n, base)| - 1 - i] == "0123456789abcdef"[n / Power(base, i) % base]
  {
    FromTheRight(n, base, i);
    NthDigitIs(n, base, i);
    DigitTable(NthDigit(n, base, i));
  }

  function NthDigit(n: nat, base: nat, i: nat): (d: nat)
    requires base >= 2
    ensures d < base
  {
    if i == 0 then Rem(n, base) else NthDigit(Quo(n, base), base, i - 1)
  }

  lemma {:induction false} FromTheRight(n: nat, base: nat, i: nat)
    requires 2 <= base <= 36 && i < |Numeral(n, base)|
    ensures Numeral(n, base)[|Numeral(n, base)| - 1 - i] == DigitChar(NthDigit(n, base, i))
  {
    if i > 0 {
      FromTheRight(Quo(n, base), base, i - 1);
    }
  }

  lemma {:induction false} NthDigitIs(n: nat, base: nat, i: nat)
    requires base >= 2
    ensures NthDigit(n, base, i) == n / Power(base, i) % base
  {
    QuoRemAreDivMod(n, base);
    if i > 0 {
      NthDigitIs(Quo(n, base), base, i - 1);
      DivDiv(n, base, Power(base, i - 1));
    }
  }

  /** A number below base to the k has at most k digits. */
  lemma {:induction false} NumeralLength(n: nat, base: nat, k: nat)
    requires 2 <= base <= 36 && 0 < k && n < Power(base, k)
    ensures |Numeral(n, base)| <= k
  {
    QuoRem(n, base);
    QuotientBelow(base, Quo(n, base), Power(base, k - 1), n);
    if Quo(n, base) > 0 {
      NumeralLength(Quo(n, base), base, k - 1);
    }
  }

  lemma QuotientBelow(base: nat, q: nat, p: nat, n: nat)
    requires base * q <= n < base * p
    ensures q < p
  {
    if q >= p {
      MulMonotone(base, p, q);
    }
  }

  /** Every 64-bit number prints in at most 20 decimal or 16 hexadecimal digits, so it fits the printer's 64 bytes. */
  lemma NumeralFits(n: nat)
    requires n < TWO_64
    ensures |Numeral(n, 10)| <= 20 && |Numeral(n, 16)| <= 16
  {
    assert Power(10, 5) == 100_000;
    PowerPlus(10, 5, 5);
    PowerPlus(10, 10, 10);
    assert Power(16, 4) == 0x1_0000;
    PowerPlus(16, 4, 4);
    PowerPlus(16, 8, 8);
    NumeralLength(n, 10, 20);
    NumeralLength(n, 16, 16);
  }

  lemma DigitCharZero(d: nat)
    requires d < 36
    ensures DigitChar(d) == '0' <==> d == 0
  {
  }

  /** No leading zero, but for zero itself. */
  lemma {:induction false} NoLeadingZero(n: nat, base: nat)
    requires 2 <= base <= 36
    ensures Numeral(n, base)[0] == '0' <==> n == 0
    ensures n == 0 ==> Numeral(n, base) == "0"
  {
    DigitCharZero(Rem(n, base));
    if Quo(n, base) > 0 {
      NoLeadingZero(Quo(n, base), base);
    }
  }

  // ----- strtoul ---------------------------------------------------------------------

  /** A C string: some character is the terminator. */
  predicate Terminated(s: string)
  {
    NUL in s
  }

  predicate HexPrefix(s: string, base: int)
  {
    (base == 0 || base == 16) && |s| > 1 && s[0] == '0' && (s[1] == 'x' || s[1] == 'X')
  }

  function EffectiveBase(s: string, base: int): int
  {
    if HexPrefix(s, base) then 16 else if base == 0 then 10 else base
  }

  /** The longest run of digits after any prefix spells `res` modulo 2^64 and ends at `end`. */
  ghost predicate Parses(s: string, base: int, res: nat, end: nat)
  {
    var start := if HexPrefix(s, base) then 2 else 0;
    var b := EffectiveBase(s, base);
    && start <= end < |s|
    && AllDigits(s[start..end], b)
    && !IsDigit(s[end], b)
    && res == Spelled(s[start..end], b) % TWO_64
  }

  method Strtoul(s: string, base: int) returns (res: nat, end: nat)
    requires Terminated(s)
    ensures Parses(s, base, res, end)
  {
    var nptr, b := 0, base;
    if (base == 0 || base == 16) && s[0] == '0' && (s[1] == 'x' || s[1] == 'X') {
      b := 16;
      nptr := 2;
    } else if base == 0 {
      b := 10;
    }
    res, end := ScanDigits(s, nptr, b);
  }

  /** strtoul's loop. */
  method ScanDigits(s: string, start: nat, b: int) returns (res: nat, nptr: nat)
    requires start <= |s| && NUL in s[start..]
    ensures start <= nptr < |s| && AllDigits(s[start..nptr], b) && !IsDigit(s[nptr], b)
    ensures res == Spelled(s[start..nptr], b) % TWO_64
  {
    ghost var z :| 0 <= z < |s[start..]| && s[start..][z] == NUL;
    res, nptr := 0, start;
    while s[nptr] != NUL
      invariant start <= nptr <= start + z
      invariant AllDigits(s[start..nptr], b)
      invariant res == Spelled(s[start..nptr], b) % TWO_64
      decreases |s| - nptr
    {
      var value := DigitValue(s[nptr]);
      if value == -1 {
        break;
      }
      if value >= b {
        break;
      }
      NextDigit(s, start, nptr, b, res);
      res := Accumulate(res, b, value);
      nptr := nptr + 1;
    }
  }

  /** res * base + value, in 64-bit arithmetic. */
  function Accumulate(res: nat, b: int, value: nat): nat
  {
    (res * b + value) % TWO_64
  }

  /** Reducing modulo 2^64 at every digit is the same as reducing once at the end. */
  lemma OneMoreDigit(s: string, c: char, b: int, res: nat)
    requires AllDigits(s, b) && IsDigit(c, b)
    requires res == Spelled(s, b) % TWO_64
    ensures AllDigits(s + [c], b)
    ensures Accumulate(res, b, DigitValue(c)) == Spelled(s + [c], b) % TWO_64
  {
    assert (s + [c])[..|s|] == s;
    SpelledIsNat(s, b);
    WrapStep(Spelled(s, b), b, DigitValue(c));
  }

  /** The same for the next character of a scan. */
  lemma NextDigit(s: string, start: nat, i: nat, b: int, res: nat)
    requires start <= i < |s| && AllDigits(s[start..i], b) && IsDigit(s[i], b)
    requires res == Spelled(s[start..i], b) % TWO_64
    ensures AllDigits(s[start..i + 1], b)
    ensures Accumulate(res, b, DigitValue(s[i])) == Spelled(s[start..i + 1], b) % TWO_64
  {
    OneMoreDigit(s[start..i], s[i], b, res);
    assert s[start..i + 1] == s[start..i] + [s[i]];
  }

  lemma {:induction false} SpelledIsNat(s: string, b: int)
    requires AllDigits(s, b) && b > 0
    ensures Spelled(s, b) >= 0
  {
    if s != [] {
      SpelledIsNat(s[..|s| - 1], b);
      MulMonotone(b, 0, Spelled(s[..|s| - 1], b));
      assert s[|s| - 1] in s;
    }
  }

  lemma WrapStep(n: nat, b: nat, d: nat)
    ensures (n % TWO_64 * b + d) % TWO_64 == (n * b + d) % TWO_64
  {
    var q, r := n / TWO_64, n % TWO_64;
    Euclid(n, TWO_64);
    var x := r * b + d;
    assert n * b + d == x + TWO_64 * (q * b) by {
      assert (r + TWO_64 * q) * b == r * b + TWO_64 * (q * b);
    }
    Euclid(x, TWO_64);
    Peel(x % TWO_64, TWO_64, x / TWO_64 + q * b);
  }

  // ----- prefix and case ------------------------------------------------------------------

  /** Base 0 is base 16 behind 0x or 0X, and base 10 otherwise; other bases know no prefix. */
  lemma DetectsBase(s: string, res: nat, end: nat)
    ensures |s| > 1 && s[0] == '0' && (s[1] == 'x' || s[1] == 'X') ==> (Parses(s, 0, res, end) <==> Parses(s, 16, res, end))
    ensures !(|s| > 1 && s[0] == '0' && (s[1] == 'x' || s[1] == 'X')) ==> (Parses(s, 0, res, end) <==> Parses(s, 10, res, end))
  {
  }

  /** A prefix is skipped: what follows it is read as hexadecimal digits. */
  lemma SkipsPrefix(x: char, t: string, res: nat, end: nat)
    requires x == 'x' || x == 'X'
    requires t != [] && (|t| > 1 && t[0] == '0' ==> t[1] != 'x' && t[1] != 'X')
    ensures Parses(['0', x] + t, 16, res, end + 2) <==> Parses(t, 16, res, end)
  {
    var s := ['0', x] + t;
    if end < |t| {
      assert s[2..end + 2] == t[0..end] && s[end + 2] == t[end];
    }
  }

  /** The same character, but perhaps a hexadecimal letter, or the x of a prefix, in the other case. */
  predicate SameLetter(c: char, c': char)
  {
    c == c'
    || (('a' <= c <= 'f' || c == 'x') && c as int == c' as int + 32)
    || (('a' <= c' <= 'f' || c' == 'x') && c' as int == c as int + 32)
  }

  predicate SameButCase(s: string, s': string)
  {
    |s| == |s'| && forall i :: 0 <= i < |s| ==> SameLetter(s[i], s'[i])
  }

  /** Upper and lower case read alike. */
  lemma CaseDoesNotMatter(s: string, s': string, base: int, res: nat, end: nat)
    requires SameButCase(s, s') && Parses(s, base, res, end)
    ensures Parses(s', base, res, end)
  {
    var start, b := if HexPrefix(s, base) then 2 else 0, EffectiveBase(s, base);
    if |s| > 1 {
      SameValue(s[0], s'[0], base);
      assert SameLetter(s[1], s'[1]);
    }
    assert HexPrefix(s', base) == HexPrefix(s, base);
    SameValue(s[end], s'[end], b);
    SameSpelling(s[start..end], s'[start..end], b);
  }

  lemma SameValue(c: char, c': char, b: int)
    requires SameLetter(c, c')
    ensures DigitValue(c) == DigitValue(c') && IsDigit(c, b) == IsDigit(c', b)
  {
  }

  lemma {:induction false} SameSpelling(s: string, s': string, b: int)
    requires SameButCase(s, s') && AllDigits(s, b)
    ensures AllDigits(s', b) && Spelled(s', b) == Spelled(s, b)
  {
    if s != [] {
      var n := |s| - 1;
      assert s[n] in s;
      SameSpelling(s[..n], s'[..n], b);
      SameValue(s[n], s'[n], b);
      assert s' == s'[..n] + [s'[n]];
    }
  }

  // ----- the round trip -----------------------------------------------------------------

  lemma DigitRoundTrip(d: nat, base: nat)
    requires d < base <= 16
    ensures DigitValue(DigitChar(d)) == d && IsDigit(DigitChar(d), base)
    ensures '0' <= DigitChar(d) <= '9' || 'a' <= DigitChar(d) <= 'f'
  {
  }

  lemma {:induction false} NumeralSpells(n: nat, base: nat)
    requires 2 <= base <= 16
    ensures AllDigits(Numeral(n, base), base)
    ensures Spelled(Numeral(n, base), base) == n
  {
    var q, d := Quo(n, base), DigitChar(Rem(n, base));
    QuoRem(n, base);
    DigitRoundTrip(Rem(n, base), base);
    if q > 0 {
      NumeralSpells(q, base);
      SpelledAppend(Numeral(q, base), d, base);
      assert Numeral(n, base) == Numeral(q, base) + [d];
    } else {
      SpelledAppend([], d, base);
      assert Numeral(n, base) == [] + [d];
      assert base * Spelled([], base) == 0 && base * q == 0;
    }
  }

  /** Hexadecimal letters are printed in lower case. */
  lemma {:induction false} LowerCase(n: nat, base: nat)
    requires 2 <= base <= 16
    ensures forall c :: c in Numeral(n, base) ==> '0' <= c <= '9' || 'a' <= c <= 'f'
  {
    DigitRoundTrip(Rem(n, base), base);
    if Quo(n, base) > 0 {
      LowerCase(Quo(n, base), base);
    }
  }

  /** The same digits spell no less in hexadecimal than in decimal. */
  lemma {:induction false} SpelledGrows(s: string)
    requires AllDigits(s, 10)
    ensures 0 <= Spelled(s, 10) <= Spelled(s, 16)
  {
    if s != [] {
      SpelledGrows(s[..|s| - 1]);
      assert s[|s| - 1] in s;
    }
  }

  /** A number reads the same in hexadecimal and in decimal exactly when it is a single decimal digit. */
  lemma SameNumeralExactly(n: nat)
    ensures Numeral(n, 16) == Numeral(n, 10) <==> n < 10
  {
    var s := Numeral(n, 16);
    NumeralSpells(n, 16);
    NumeralSpells(n, 10);
    if s == Numeral(n, 10) {
      SpelledGrows(s[..|s| - 1]);
      assert s[|s| - 1] in s;
    }
  }

  /** One more digit multiplies by the base and adds its value. */
  lemma SpelledAppend(s: string, c: char, base: nat)
    requires AllDigits(s, base) && IsDigit(c, base)
    ensures AllDigits(s + [c], base)
    ensures Spelled(s + [c], base) == base * Spelled(s, base) + DigitValue(c)
  {
    assert (s + [c])[..|s|] == s;
  }

  /** What itoa prints, strtoul reads back, whatever follows the terminator; it stops at the terminator. */
  lemma RoundTrip(n: nat, base: nat, s: string, res: nat, end: nat)
    requires n < TWO_64 && 2 <= base <= 16
    requires Numeral(n, base) + [NUL] <= s && Parses(s, base, res, end)
    ensures res == n && end == |Numeral(n, base)|
  {
    NumeralSpells(n, base);
    DigitsReadBack(Numeral(n, base), n, base, s, res, end);
  }

  /** Terminated digits are read to their end. */
  lemma DigitsReadBack(t: string, n: int, base: nat, s: string, res: nat, end: nat)
    requires t != [] && base > 0 && AllDigits(t, base) && 0 <= n == Spelled(t, base) < TWO_64
    requires t + [NUL] <= s && Parses(s, base, res, end)
    ensures res == n && end == |t|
  {
    assert s[|t|] == (t + [NUL])[|t|];
    NoPrefix(s, t, base);
    assert s[0..|t|] == t;
    DigitsEnd(s, 0, t, base, end);
  }

  /** The longest run of digits from the start of a terminated digit string is that string. */
  lemma DigitsEnd(s: string, start: nat, t: string, base: nat, end: nat)
    requires start + |t| < |s| && s[start..start + |t|] == t && s[start + |t|] == NUL && AllDigits(t, base)
    requires start <= end < |s| && AllDigits(s[start..end], base) && !IsDigit(s[end], base)
    ensures end == start + |t| && s[start..end] == t
  {
    AllDigitsAt(s, start, end, base);
    AllDigitsAt(s, start, start + |t|, base);
  }

  lemma AllDigitsAt(s: string, start: nat, end: nat, base: int)
    requires start <= end <= |s|
    ensures AllDigits(s[start..end], base) <==> forall k :: start <= k < end ==> IsDigit(s[k], base)
  {
    if AllDigits(s[start..end], base) {
      forall k | start <= k < end ensures IsDigit(s[k], base) {
        assert s[start..end][k - start] in s[start..end];
      }
    }
  }

  /** A number in hexadecimal is never taken for a prefix. */
  lemma NoPrefix(s: string, t: string, base: nat)
    requires t <= s && |t| < |s| && s[|t|] == NUL && |t| > 0 && AllDigits(t, base)
    ensures !HexPrefix(s, base)
  {
    if |t| > 1 {
      assert s[1] in t;
    }
  }

  /** Hexadecimal digits behind 0x are read to their end in base 16 and with the base detected. */
  lemma PrefixedDigits(t: string, n: int, base: int, s: string, res: nat, end: nat)
    requires AllDigits(t, 16) && 0 <= n == Spelled(t, 16) < TWO_64
    requires (base == 0 || base == 16) && Parses(s, base, res, end)
    requires |s| > 2 + |t| && s[0] == '0' && s[1] == 'x' && s[2..2 + |t|] == t && s[2 + |t|] == NUL
    ensures res == n && end == 2 + |t|
  {
    DigitsEnd(s, 2, t, 16, end);
  }

  /** Printing into the formatter's 64-byte buffer and parsing it again. */
  method PrintThenParse(num: nat, base: nat) returns (res: nat, end: nat)
    requires num < TWO_64 && (base == 10 || base == 16)
    ensures res == num && end == |Numeral(num, base)|
  {
    NumeralFits(num);
    var buf := new char[64](_ => NUL);
    Itoa(num, base, buf);
    ghost var n := |Numeral(num, base)|;
    assert buf[..n + 1] == buf[..n] + [buf[n]];
    var s := buf[..];
    assert s[..n + 1] == Numeral(num, base) + [NUL] && s[n] == NUL;
    res, end := Strtoul(s, base);
    RoundTrip(num, base, s, res, end);
  }
}
