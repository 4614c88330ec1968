/** The text nv_pstate formats with snprintf: the unpadded lowercase hexadecimal pstate ("%x"),
    the decimal card number ("%u") inside the debugfs path, and the truncation snprintf applies
    when its output does not fit the destination buffer. */
module Format {

  const NUL: char := '\0'

  /** Size of `str_pstate` in write_pstate. */
  const STR_PSTATE_SZ: nat := 8
  /** Size of `config_t.path`, and the size snprintf is given when it writes the path. */
  const PATH_SZ: nat := 48
  const PATH_MAX: nat := PATH_SZ - 1

  /** The two halves of the debugfs path template "/sys/kernel/debug/dri/%u/pstate". */
  const DRI_DIR: string := "/sys/kernel/debug/dri/"
  const PSTATE_FILE: string := "/pstate"

  predicate IsBase(base: nat) {
    2 <= base <= 16
  }

  /** The digit character printf uses for `d`: '0'..'9', then lowercase 'a'..'f'. */
  function DigitChar(d: nat): char
    requires d < 16
  {
    if d < 10 then ('0' as int + d) as char else ('a' as int + d - 10) as char
  }

  /** The value of a digit character, or -1 for a character that is not one. */
  function DigitValue(c: char): int {
    if '0' <= c <= '9' then c as int - '0' as int
    else if 'a' <= c <= 'f' then c as int - 'a' as int + 10
    else -1
  }

  predicate IsDigitOf(c: char, base: nat) {
    0 <= DigitValue(c) < base
  }

  predicate AllDigits(s: string, base: nat) {
    forall i | 0 <= i < |s| :: IsDigitOf(s[i], base)
  }

  /** What printf's unsigned conversions produce: at least one digit, and no leading zero
      unless the whole text is "0". */
  predicate Canonical(s: string, base: nat) {
    |s| >= 1 && AllDigits(s, base) && (|s| > 1 ==> s[0] != '0')
  }

  function Pow(b: nat, k: nat): nat {
    if k == 0 then 1 else b * Pow(b, k - 1)
  }

  /** `n` written in `base` without padding, as "%u" (base 10) and "%x" (base 16) print it. */
  function Digits(n: nat, base: nat): (s: string)
    requires IsBase(base)
    ensures Canonical(s, base)
    ensures s == "0" <==> n == 0
    decreases n
  {
    if n < base then [DigitChar(n)] else Digits(n / base, base) + [DigitChar(n % base)]
  }

  /** The reference reading of a digit string in `base`, most significant digit first. */
  function ParseDigits(s: string, base: nat): nat
    requires IsBase(base) && AllDigits(s, base)
  {
    if s == [] then 0 else ParseDigits(s[..|s| - 1], base) * base + DigitValue(s[|s| - 1])
  }

  /** "%x" of a non-negative int. */
  function LowerHex(n: nat): string {
    Digits(n, 16)
  }

  /** "%u" of a non-negative int. */
  function Decimal(n: nat): string {
    Digits(n, 10)
  }

  /** How many characters snprintf(buf, size, ...) stores before its terminating NUL when the
      full output is `outLen` characters long: all of them if they fit, else `size - 1`. */
  function StoredLength(outLen: nat, size: nat): (k: nat)
    requires size >= 1
    ensures k < size && k <= outLen
    ensures k == outLen <==> outLen < size
  {
    if outLen < size then outLen else size - 1
  }

  /** The path main derives from a card number: the template with the card in decimal. */
  function CardPath(card: nat): string {
    DRI_DIR + Decimal(card) + PSTATE_FILE
  }

  /** The bytes write_pstate hands to write(): the "%x%c" output (digits, then the NUL passed
      for %c), followed by the terminator snprintf appends, which `slen++` adds to the count. */
  function PstatePayload(pstate: nat): string {
    LowerHex(pstate) + [NUL, NUL]
  }

  // ---------------------------------------------------------------------------------------
  // Digits and ParseDigits are inverse to each other

  lemma DigitCharValue(d: nat)
    requires d < 16
    ensures DigitValue(DigitChar(d)) == d
  {
  }

  lemma DigitValueChar(c: char, base: nat)
    requires IsBase(base) && IsDigitOf(c, base)
    ensures DigitChar(DigitValue(c)) == c
  {
  }

  /** Euclidean division of `m * base + d` gives back `m` and `d`. */
  lemma DivModOf(m: nat, d: nat, base: nat)
    requires base >= 1 && d < base
    ensures (m * base + d) / base == m && (m * base + d) % base == d
  {
    var n := m * base + d;
    var q, r := n / base, n % base;
    assert q * base + r == m * base + d;
    if q < m {
      assert (m - q) * base >= base by { MulAtLeast(m - q, base); }
    } else if q > m {
      assert (q - m) * base >= base by { MulAtLeast(q - m, base); }
    }
  }

  lemma DivModSplit(n: nat, base: nat)
    requires base >= 1
    ensures (n / base) * base + n % base == n
  {
  }

  lemma DivShrinks(n: nat, base: nat)
    requires base >= 2 && n >= 1
    ensures n / base < n
  {
    DivLessIff(n, base, n);
    MulAtLeast(n, base);
  }

  lemma MulAtLeast(k: nat, b: nat)
    requires k >= 1
    ensures k * b >= b
  {
  }

  /** Formatting then parsing gives the number back. */
  lemma {:induction false} DigitsRoundTrip(n: nat, base: nat)
    requires IsBase(base)
    ensures ParseDigits(Digits(n, base), base) == n
    decreases n
  {
    if n < base {
      var s := Digits(n, base);
      assert s[..0] == [];
      DigitCharValue(n);
      assert ParseDigits(s, base) == ParseDigits([], base) * base + DigitValue(s[0]);
    } else {
      DivShrinks(n, base);
      DigitsRoundTrip(n / base, base);
      DigitsRoundTripStep(n, base);
    }
  }

  lemma DigitsRoundTripStep(n: nat, base: nat)
    requires IsBase(base) && n >= base
    requires ParseDigits(Digits(n / base, base), base) == n / base
    ensures ParseDigits(Digits(n, base), base) == n
  {
    var s := Digits(n, base);
    var q, r := n / base, n % base;
    var init := Digits(q, base);
    assert s == init + [DigitChar(r)];
    assert s[..|s| - 1] == init;
    DigitCharValue(r);
    calc {
      ParseDigits(s, base);
      ParseDigits(init, base) * base + DigitValue(DigitChar(r));
      q * base + r;
      { DivModSplit(n, base); }
      n;
    }
  }

  /** Parsing then formatting gives a canonical digit string back: with DigitsRoundTrip,
      Digits is a bijection between the naturals and the canonical strings. */
  lemma {:induction false} CanonicalRoundTrip(s: string, base: nat)
    requires IsBase(base) && Canonical(s, base)
    ensures Digits(ParseDigits(s, base), base) == s
    decreases |s|
  {
    var n := ParseDigits(s, base);
    var init, last := s[..|s| - 1], s[|s| - 1];
    DigitValueChar(last, base);
    var d: nat := DigitValue(last);
    if |s| == 1 {
      assert init == [];
      assert n == d;
      assert Digits(n, base) == [DigitChar(d)];
    } else {
      assert init[0] == s[0];
      CanonicalRoundTrip(init, base);
      var m := ParseDigits(init, base);
      assert init != "0" by { assert init[0] != '0'; }
      assert m != 0;
      assert n == m * base + d;
      DivModOf(m, d, base);
      assert n >= base by { MulAtLeast(m, base); }
      assert Digits(n, base) == Digits(m, base) + [DigitChar(d)];
    }
  }

  lemma DivLessIff(n: nat, b: nat, m: nat)
    requires b >= 1
    ensures n / b < m <==> n < m * b
  {
    var q, r := n / b, n % b;
    assert n == q * b + r;
    if q < m {
      assert (m - q) * b >= b by { MulAtLeast(m - q, b); }
    } else {
      assert (q - m) * b >= 0;
    }
  }

  lemma {:induction false} PowAtLeastBase(b: nat, k: nat)
    requires b >= 1 && k >= 1
    ensures Pow(b, k) >= b
  {
    if k > 1 {
      PowAtLeastBase(b, k - 1);
      MulAtLeast(Pow(b, k - 1), b);
    }
  }

  /** A number needs at most `k` digits exactly when it is below base^k. */
  lemma {:induction false} DigitsLength(n: nat, base: nat, k: nat)
    requires IsBase(base) && k >= 1
    ensures |Digits(n, base)| <= k <==> n < Pow(base, k)
    decreases k
  {
    if n < base {
      PowAtLeastBase(base, k);
    } else if k == 1 {
      assert Pow(base, 1) == base;
    } else {
      DigitsLength(n / base, base, k - 1);
      DivLessIff(n, base, Pow(base, k - 1));
    }
  }

  // ---------------------------------------------------------------------------------------
  // The two buffers write_pstate and main fill

  /** A valid pstate prints as one or two lowercase hex digits without a leading zero, which
      read back in base 16 give the pstate; the payload is two bytes longer and fits, with its
      own terminator, in the 8-byte `str_pstate`. */
  lemma PstateHexFits(pstate: nat)
    requires pstate <= 255
    ensures Canonical(LowerHex(pstate), 16)
    ensures 1 <= |LowerHex(pstate)| <= 2
    ensures |LowerHex(pstate)| == 1 <==> pstate < 16
    ensures ParseDigits(LowerHex(pstate), 16) == pstate
    ensures |PstatePayload(pstate)| == |LowerHex(pstate)| + 2 <= 4 < STR_PSTATE_SZ
  {
    DigitsLength(pstate, 16, 1);
    DigitsLength(pstate, 16, 2);
    DigitsRoundTrip(pstate, 16);
  }

  /** Every pstate below 16^6 prints in at most six digits, so the "%x%c" output (digits + 1)
      is stored whole in `str_pstate` and the `slen + 1` bytes handed to write() lie inside it. */
  lemma PstateHexInBuffer(pstate: nat)
    requires pstate < 0x100_0000
    ensures |LowerHex(pstate)| + 2 <= STR_PSTATE_SZ
  {
    assert Pow(16, 6) == 0x100_0000;
    DigitsLength(pstate, 16, 6);
  }

  /** For every card number the source accepts, the path is at most 32 characters, so
      snprintf(path, PATH_MAX, ...) stores it untruncated, and the card can be read back from
      the directory component. */
  lemma CardPathFits(card: nat)
    requires card <= 255
    ensures |CardPath(card)| <= 32 < PATH_MAX
    ensures StoredLength(|CardPath(card)|, PATH_MAX) == |CardPath(card)|
    ensures CardPath(card)[..|DRI_DIR|] == DRI_DIR
    ensures CardPath(card)[|CardPath(card)| - |PSTATE_FILE|..] == PSTATE_FILE
    ensures ParseDigits(CardPath(card)[|DRI_DIR|..|CardPath(card)| - |PSTATE_FILE|], 10) == card
  {
    assert Pow(10, 3) == 1000;
    DigitsLength(card, 10, 3);
    var p := CardPath(card);
    assert p[|DRI_DIR|..|p| - |PSTATE_FILE|] == Decimal(card);
    DigitsRoundTrip(card, 10);
  }
}
