/** Numeric character references and UTF-8 encoding (XMLUtil::GetCharacterRef, XMLUtil::ConvertUTF32ToUTF8).

    `unsigned` is 32 bits wide and `unsigned long` 64 bits (LP64); both wrap. */
module CharacterReferences {
  import opened Optional
  import opened Division
  import opened XmlChars

  const UINT_RANGE := 0x1_0000_0000
  const ULONG_RANGE := 0x1_0000_0000_0000_0000

  // ---------------------------------------------------------------------------------------------
  // UTF-8
  // ---------------------------------------------------------------------------------------------

  /** The byte layouts of section 3 of RFC 3629; nothing is produced from 0x200000 upwards. */
  function Utf8(ucs: nat): (bytes: string)
    ensures |bytes| <= 4
  {
    if ucs < 0x80 then [ucs as char]
    else if ucs < 0x800 then [(0xC0 + ucs / 0x40) as char, (0x80 + ucs % 0x40) as char]
    else if ucs < 0x10000 then
      [(0xE0 + ucs / 0x1000) as char, (0x80 + ucs / 0x40 % 0x40) as char, (0x80 + ucs % 0x40) as char]
    else if ucs < 0x200000 then
      [(0xF0 + ucs / 0x40000) as char, (0x80 + ucs / 0x1000 % 0x40) as char,
       (0x80 + ucs / 0x40 % 0x40) as char, (0x80 + ucs % 0x40) as char]
    else ""
  }

  predicate IsContinuation(c: char) {
    0x80 <= c as int < 0xC0
  }

  /** A decoder written from the layouts alone: the lead byte gives the length, each continuation byte six bits. */
  function Utf8Value(bytes: string): Option<nat> {
    if |bytes| == 1 && bytes[0] as int < 0x80 then Some(bytes[0] as int)
    else if |bytes| == 2 && 0xC0 <= bytes[0] as int < 0xE0 && IsContinuation(bytes[1]) then
      Some((bytes[0] as int - 0xC0) * 0x40 + (bytes[1] as int - 0x80))
    else if |bytes| == 3 && 0xE0 <= bytes[0] as int < 0xF0 && IsContinuation(bytes[1]) && IsContinuation(bytes[2]) then
      Some((bytes[0] as int - 0xE0) * 0x1000 + (bytes[1] as int - 0x80) * 0x40 + (bytes[2] as int - 0x80))
    else if |bytes| == 4 && 0xF0 <= bytes[0] as int < 0xF8
            && IsContinuation(bytes[1]) && IsContinuation(bytes[2]) && IsContinuation(bytes[3]) then
      Some((bytes[0] as int - 0xF0) * 0x40000 + (bytes[1] as int - 0x80) * 0x1000
           + (bytes[2] as int - 0x80) * 0x40 + (bytes[3] as int - 0x80))
    else None
  }

  /** The shortest layout for a value: the only one RFC 3629 allows. */
  function ShortestLength(ucs: nat): nat {
    if ucs < 0x80 then 1 else if ucs < 0x800 then 2 else if ucs < 0x10000 then 3 else 4
  }

  /** Encoding is the exact inverse of decoding shortest-form sequences, on the whole encodable range. */
  lemma Utf8RoundTrip(ucs: nat, bytes: string)
    ensures ucs < 0x200000 ==>
              (bytes == Utf8(ucs) <==> Utf8Value(bytes) == Some(ucs) && |bytes| == ShortestLength(ucs))
    ensures ucs >= 0x200000 ==> Utf8(ucs) == "" && Utf8Value(bytes) != Some(ucs)
  {
    if ucs < 0x200000 {
      Utf8Decodes(ucs);
      if Utf8Value(bytes) == Some(ucs) && |bytes| == ShortestLength(ucs) {
        Utf8Unique(ucs, bytes);
      }
    }
  }

  lemma Utf8Decodes(ucs: nat)
    requires ucs < 0x200000
    ensures Utf8Value(Utf8(ucs)) == Some(ucs) && |Utf8(ucs)| == ShortestLength(ucs)
  {
    assert ucs / 0x1000 == ucs / 0x40 / 0x40;
    assert ucs / 0x40000 == ucs / 0x40 / 0x40 / 0x40;
  }

  lemma Utf8Unique(ucs: nat, bytes: string)
    requires ucs < 0x200000
    requires Utf8Value(bytes) == Some(ucs) && |bytes| == ShortestLength(ucs)
    ensures bytes == Utf8(ucs)
  {
    match |bytes|
    case 1 =>
    case 2 => SixBits(bytes[0] as int - 0xC0, bytes[1] as int - 0x80);
    case 3 => Utf8Unique3(ucs, bytes);
    case 4 => Utf8Unique4(ucs, bytes);
  }

  lemma Utf8Unique3(ucs: nat, bytes: string)
    requires 0x800 <= ucs < 0x10000 && |bytes| == 3 && Utf8Value(bytes) == Some(ucs)
    ensures bytes == Utf8(ucs)
  {
    var a, b, c := bytes[0] as int - 0xE0, bytes[1] as int - 0x80, bytes[2] as int - 0x80;
    SixBits(a * 0x40 + b, c);
    SixBits(a, b);
    assert ucs / 0x1000 == ucs / 0x40 / 0x40;
  }

  lemma Utf8Unique4(ucs: nat, bytes: string)
    requires 0x10000 <= ucs < 0x200000 && |bytes| == 4 && Utf8Value(bytes) == Some(ucs)
    ensures bytes == Utf8(ucs)
  {
    var a, b, c, d := bytes[0] as int - 0xF0, bytes[1] as int - 0x80, bytes[2] as int - 0x80, bytes[3] as int - 0x80;
    SixBits(a * 0x1000 + b * 0x40 + c, d);
    SixBits(a * 0x40 + b, c);
    SixBits(a, b);
    assert ucs / 0x1000 == ucs / 0x40 / 0x40;
    assert ucs / 0x40000 == ucs / 0x40 / 0x40 / 0x40;
  }

  lemma SixBits(high: nat, low: nat)
    requires low < 0x40
    ensures (high * 0x40 + low) / 0x40 == high && (high * 0x40 + low) % 0x40 == low
  {
  }

  // The bit operations of unsigned words.

  function Or(x: nat, y: nat): nat
    decreases x + y
  {
    if x == 0 then y else (if x % 2 == 1 || y % 2 == 1 then 1 else 0) + 2 * Or(x / 2, y / 2)
  }

  function And(x: nat, y: nat): nat {
    if x == 0 then 0 else (if x % 2 == 1 && y % 2 == 1 then 1 else 0) + 2 * And(x / 2, y / 2)
  }

  function ShiftRight(x: nat, n: nat): nat {
    if n == 0 then x else ShiftRight(x / 2, n - 1)
  }

  /** Where the mark has a 0 and the mask a 1, the bit of the word stays. */
  lemma KeepBit(x: nat, mark: nat, mask: nat)
    ensures And(Or(x, 2 * mark), 2 * mask + 1) == x % 2 + 2 * And(Or(x / 2, mark), mask)
  {
    var y := Or(x, 2 * mark);
    assert y == x % 2 + 2 * Or(x / 2, mark);
    if y == 0 {
      assert Or(x / 2, mark) == 0;
      assert And(0, mask) == 0;
    }
  }

  /** `(x | 0x80) & 0xBF` is the low six bits under the mark. */
  lemma ContinuationBits(x: nat)
    ensures And(Or(x, 0x80), 0xBF) == 0x80 + x % 0x40
  {
    KeepBit(x, 0x40, 0x5F);
    KeepBit(x / 2, 0x20, 0x2F);
    KeepBit(x / 2 / 2, 0x10, 0x17);
    KeepBit(x / 2 / 2 / 2, 8, 0xB);
    KeepBit(x / 2 / 2 / 2 / 2, 4, 5);
    KeepBit(x / 2 / 2 / 2 / 2 / 2, 2, 2);
    TwoHighBits(x / 2 / 2 / 2 / 2 / 2 / 2);
    LowBits(x);
  }

  /** Of the two bits left, the mark sets the upper and the mask clears the lower. */
  lemma TwoHighBits(z: nat)
    ensures And(Or(z, 2), 2) == 2
  {
    UpperBit(z);
    hide Or;
    MaskUpper(Or(z, 2));
  }

  lemma UpperBit(z: nat)
    ensures Or(z, 2) / 2 % 2 == 1
  {
    assert Or(z, 2) == z % 2 + 2 * Or(z / 2, 1);
    assert Or(z / 2, 1) % 2 == 1;
  }

  lemma MaskUpper(y: nat)
    requires y / 2 % 2 == 1
    ensures And(y, 2) == 2
  {
    assert And(y, 2) == 2 * And(y / 2, 1);
    assert And(y / 2, 1) == 1 + 2 * And(y / 2 / 2, 0);
    AndNothing(y / 2 / 2);
  }

  lemma {:induction false} AndNothing(x: nat)
    ensures And(x, 0) == 0
  {
    if x > 0 {
      AndNothing(x / 2);
    }
  }

  lemma LowBits(x: nat)
    ensures x % 0x40 == x % 2 + 2 * (x / 2 % 2 + 2 * (x / 2 / 2 % 2 + 2 * (x / 2 / 2 / 2 % 2
                        + 2 * (x / 2 / 2 / 2 / 2 % 2 + 2 * (x / 2 / 2 / 2 / 2 / 2 % 2)))))
  {
    Halve(x, 0x20);
    Halve(x / 2, 0x10);
    Halve(x / 2 / 2, 8);
    Halve(x / 2 / 2 / 2, 4);
    Halve(x / 2 / 2 / 2 / 2, 2);
  }

  /** The lowest bit taken off a remainder. */
  lemma Halve(x: nat, n: nat)
    requires n > 0
    ensures x % (2 * n) == x % 2 + 2 * (x / 2 % n)
  {
    var q, r := x / 2 / n, x / 2 % n;
    assert x / 2 == q * n + r;
    assert x == q * (2 * n) + (x % 2 + 2 * r) by {
      assert 2 * (q * n) == q * (2 * n);
    }
    Quotient(q, x % 2 + 2 * r, 2 * n);
  }

  /** `>>= 6` is division by 0x40. */
  lemma SixBitsRight(x: nat)
    ensures ShiftRight(x, 6) == x / 0x40
  {
    assert ShiftRight(x, 6) == ShiftRight(x / 2, 5) == ShiftRight(x / 2 / 2, 4) == ShiftRight(x / 2 / 2 / 2, 3);
    assert ShiftRight(x / 2 / 2 / 2, 3) == ShiftRight(x / 2 / 2 / 2 / 2, 2) == ShiftRight(x / 2 / 2 / 2 / 2 / 2, 1);
  }

  /** A word below `2^k` and a mark of whole multiples of it do not overlap. */
  lemma {:induction false} OrDisjoint(x: nat, k: nat, mark: nat)
    requires x < Pow(2, k)
    ensures Or(x, mark * Pow(2, k)) == x + mark * Pow(2, k)
    decreases k
  {
    if k > 0 && x > 0 {
      var p := Pow(2, k - 1);
      assert mark * Pow(2, k) == 2 * (mark * p);
      OrDisjoint(x / 2, k - 1, mark);
    }
  }

  lemma SmallPowers()
    ensures Pow(2, 3) == 8 && Pow(2, 4) == 0x10 && Pow(2, 5) == 0x20 && Pow(2, 7) == 0x80
  {
    assert Pow(2, 1) == 2;
    assert Pow(2, 3) == 2 * Pow(2, 2);
    assert Pow(2, 5) == 2 * Pow(2, 4);
    assert Pow(2, 7) == 2 * Pow(2, 6);
  }

  /** What is left of the value never overlaps the mark of the lead byte. */
  lemma LeadBits(x: nat)
    ensures x < 0x80 ==> Or(x, 0) == x
    ensures x < 0x20 ==> Or(x, 0xC0) == 0xC0 + x
    ensures x < 0x10 ==> Or(x, 0xE0) == 0xE0 + x
    ensures x < 0x08 ==> Or(x, 0xF0) == 0xF0 + x
  {
    hide Or, Pow;
    SmallPowers();
    if x < 0x80 { OrDisjoint(x, 7, 0); }
    if x < 0x20 { OrDisjoint(x, 5, 6); }
    if x < 0x10 { OrDisjoint(x, 4, 14); }
    if x < 0x08 { OrDisjoint(x, 3, 30); }
  }

  lemma SixBitsAgain(x: nat)
    ensures x / 0x1000 == x / 0x40 / 0x40 && x / 0x40000 == x / 0x40 / 0x40 / 0x40
  {
  }

  /** Fills `output` from the last byte to the first, falling through the cases of the switch. */
  method ConvertUTF32ToUTF8(input: nat, output: array<char>) returns (length: nat)
    requires output.Length >= 4
    modifies output
    ensures length == |Utf8(input)|
    ensures output[..length] == Utf8(input)
    ensures output[length..] == old(output[length..])
  {
    hide Or, And, ShiftRight;
    if input < 0x80 {
      length := 1;
    } else if input < 0x800 {
      length := 2;
    } else if input < 0x10000 {
      length := 3;
    } else if input < 0x200000 {
      length := 4;
    } else {
      length := 0;
      return;
    }
    var ucs := input;
    var pos := length;
    if length == 4 {
      pos := pos - 1;
      ucs := PutContinuation(ucs, output, pos);
    }
    if length >= 3 {
      pos := pos - 1;
      ucs := PutContinuation(ucs, output, pos);
    }
    if length >= 2 {
      pos := pos - 1;
      ucs := PutContinuation(ucs, output, pos);
    }
    SixBitsAgain(input);
    var firstByteMark := [0x00, 0x00, 0xC0, 0xE0, 0xF0];
    pos := pos - 1;
    LeadBits(ucs);
    output[pos] := Or(ucs, firstByteMark[length]) as char;
  }

  /** One case of the switch: the low six bits under the mark, and the rest for the byte in front. */
  method PutContinuation(ucs: nat, output: array<char>, pos: nat) returns (rest: nat)
    requires pos < output.Length
    modifies output
    ensures output[pos] == (0x80 + ucs % 0x40) as char && rest == ucs / 0x40
    ensures forall i :: 0 <= i < output.Length && i != pos ==> output[i] == old(output[i])
  {
    ContinuationBits(ucs);
    SixBitsRight(ucs);
    output[pos] := And(Or(ucs, 0x80), 0xBF) as char;
    rest := ShiftRight(ucs, 6);
  }

  // ---------------------------------------------------------------------------------------------
  // Digits
  // ---------------------------------------------------------------------------------------------

  function DigitValue(c: char, base: nat): (d: Option<nat>)
    ensures base in {10, 16} && d.Some? ==> d.value < base
  {
    if '0' <= c <= '9' then Some(c as int - '0' as int)
    else if base == 16 && 'a' <= c <= 'f' then Some(c as int - 'a' as int + 10)
    else if base == 16 && 'A' <= c <= 'F' then Some(c as int - 'A' as int + 10)
    else None
  }

  predicate AllDigits(d: string, base: nat) {
    forall i :: 0 <= i < |d| ==> DigitValue(d[i], base).Some?
  }

  function Pow(base: nat, n: nat): nat {
    if n == 0 then 1 else base * Pow(base, n - 1)
  }

  /** The number a digit string denotes, read left to right. */
  function Positional(d: string, base: nat): nat
    requires AllDigits(d, base)
  {
    if d == "" then 0
    else Positional(d[..|d| - 1], base) * base + DigitValue(d[|d| - 1], base).value
  }

  /** The loop of GetCharacterRef: walk left from `q` to the nearest `stop`, adding scaled digits.
      `lo` is a position where the stop byte is known to be. */
  function Accumulate(s: string, lo: nat, q: nat, stop: char, base: nat, mult: nat, ucs: nat): Option<nat>
    requires lo <= q < |s| && s[lo] == stop
    decreases q
  {
    if s[q] == stop then Some(ucs)
    else
      match DigitValue(s[q], base)
      case None => None
      case Some(d) =>
        Accumulate(s, lo, q - 1, stop, base, mult * base % UINT_RANGE,
                   (ucs + mult * d % UINT_RANGE) % ULONG_RANGE)
  }

  lemma {:induction false} PositionalPrepend(d: string, base: nat)
    requires |d| > 0 && AllDigits(d, base)
    ensures Positional(d, base) ==
            DigitValue(d[0], base).value * Pow(base, |d| - 1) + Positional(d[1..], base)
  {
    if |d| == 1 {
      assert d[..0] == "" && d[1..] == "";
      assert Positional(d[..0], base) == 0 && Pow(base, 0) == 1;
    } else {
      var front := d[..|d| - 1];
      PositionalPrepend(front, base);
      assert d[1..][..|d| - 2] == front[1..];
      Horner(DigitValue(d[0], base).value, Pow(base, |d| - 2), Positional(front[1..], base), base);
    }
  }

  lemma Horner(x: nat, y: nat, z: nat, base: nat)
    ensures (x * y + z) * base == x * (base * y) + z * base
  {
    assert (x * y + z) * base == x * y * base + z * base;
    assert x * y * base == x * (base * y);
  }

  lemma ModMultiply(a: nat, b: nat)
    ensures (a % UINT_RANGE) * b % UINT_RANGE == a * b % UINT_RANGE
  {
    var k, r := a / UINT_RANGE, a % UINT_RANGE;
    assert a * b == r * b + UINT_RANGE * (k * b);
    ModShift(r * b, k * b);
  }

  lemma ModShift(a: nat, k: nat)
    ensures (a + UINT_RANGE * k) % UINT_RANGE == a % UINT_RANGE
  {
    var q, r := a / UINT_RANGE, a % UINT_RANGE;
    Quotient(q + k, r, UINT_RANGE);
  }

  /** Adding under the wide modulus keeps congruence under the narrow one. */
  lemma ModStep(ucs: nat, pos: nat, scaled: nat, term: nat)
    requires ucs % UINT_RANGE == pos % UINT_RANGE
    requires scaled == term % UINT_RANGE
    ensures (ucs + scaled) % ULONG_RANGE % UINT_RANGE == (pos + term) % UINT_RANGE
  {
    var sum, low := ucs + scaled, ucs % UINT_RANGE + scaled;
    ModShift(sum % ULONG_RANGE, UINT_RANGE * (sum / ULONG_RANGE));
    ModShift(low, ucs / UINT_RANGE);
    ModShift(low, pos / UINT_RANGE + term / UINT_RANGE);
    assert sum == sum % ULONG_RANGE + UINT_RANGE * (UINT_RANGE * (sum / ULONG_RANGE));
  }

  lemma {:induction false} PowPositive(base: nat, n: nat)
    requires base > 0
    ensures Pow(base, n) > 0
  {
    if n > 0 {
      PowPositive(base, n - 1);
    }
  }

  /** Invariant of the walk: what the accumulator holds after n digits that denote `pos` were read. */
  ghost predicate Tracks(pos: nat, n: nat, base: nat, ucs: nat) {
    && ucs % UINT_RANGE == pos % UINT_RANGE
    && (pos < UINT_RANGE ==> ucs == pos)
    && (base == 16 ==> ucs < UINT_RANGE && (n <= 8 ==> ucs < Pow(16, n)))
  }

  lemma {:induction false} HexPow(n: nat)
    ensures n >= 8 ==> Pow(16, n) % UINT_RANGE == 0
    ensures n <= 8 ==> Pow(16, n) <= UINT_RANGE
    ensures n < 8 ==> Pow(16, n) * 16 <= UINT_RANGE
  {
    if n > 8 {
      HexPow(n - 1);
      var k := Pow(16, n - 1) / UINT_RANGE;
      assert Pow(16, n) == UINT_RANGE * (16 * k);
      ModShift(0, 16 * k);
    } else {
      assert Pow(16, 0) == 1;
      assert Pow(16, 1) == 16;
      assert Pow(16, 2) == 0x100;
      assert Pow(16, 3) == 0x1000;
      assert Pow(16, 4) == 0x1_0000;
      assert Pow(16, 5) == 0x10_0000;
      assert Pow(16, 6) == 0x100_0000;
      assert Pow(16, 7) == 0x1000_0000;
      assert Pow(16, 8) == 0x1_0000_0000;
    }
  }

  lemma TracksTell(pos: nat, n: nat, base: nat, ucs: nat)
    requires Tracks(pos, n, base, ucs)
    ensures ucs % UINT_RANGE == pos % UINT_RANGE && (pos < UINT_RANGE ==> ucs == pos)
    ensures base == 16 ==> ucs == pos % UINT_RANGE && ucs < UINT_RANGE && (n <= 8 ==> ucs < Pow(16, n))
  {
  }

  lemma TracksNothing(base: nat)
    ensures Pow(base, 0) == 1 && Positional("", base) == 0 && Tracks(0, 0, base, 0)
  {
  }

  lemma WalkStep(pos: nat, n: nat, d: nat, base: nat, mult: nat, ucs: nat)
    requires base in {10, 16} && d < base && mult == Pow(base, n) % UINT_RANGE
    requires Tracks(pos, n, base, ucs)
    ensures Tracks(d * Pow(base, n) + pos, n + 1, base, (ucs + mult * d % UINT_RANGE) % ULONG_RANGE)
  {
    hide Pow, Tracks;
    TracksTell(pos, n, base, ucs);
    DigitScaled(Pow(base, n), mult, d);
    if base == 16 {
      HexWalkBound(n, d, mult, ucs);
    }
    TracksSum(pos, n, base, ucs, mult * d % UINT_RANGE, d * Pow(base, n));
  }

  lemma TracksSum(pos: nat, n: nat, base: nat, ucs: nat, scaled: nat, term: nat)
    requires Tracks(pos, n, base, ucs) && scaled == term % UINT_RANGE
    requires base == 16 ==> ucs + scaled < UINT_RANGE && (n < 8 ==> ucs + scaled < Pow(16, n + 1))
    ensures Tracks(term + pos, n + 1, base, (ucs + scaled) % ULONG_RANGE)
  {
    WalkStepValue(pos, ucs, scaled, term);
  }

  lemma DigitScaled(pow: nat, mult: nat, d: nat)
    requires mult == pow % UINT_RANGE
    ensures mult * d % UINT_RANGE == d * pow % UINT_RANGE
  {
    ModMultiply(pow, d);
    assert pow * d == d * pow;
  }

  lemma WalkMultiplier(n: nat, base: nat, mult: nat)
    requires mult == Pow(base, n) % UINT_RANGE
    ensures mult * base % UINT_RANGE == Pow(base, n + 1) % UINT_RANGE
  {
    DigitScaled(Pow(base, n), mult, base);
  }

  lemma WalkStepValue(pos: nat, ucs: nat, scaled: nat, term: nat)
    requires ucs % UINT_RANGE == pos % UINT_RANGE && scaled == term % UINT_RANGE
    requires pos < UINT_RANGE ==> ucs == pos
    ensures (ucs + scaled) % ULONG_RANGE % UINT_RANGE == (pos + term) % UINT_RANGE
    ensures pos + term < UINT_RANGE ==> (ucs + scaled) % ULONG_RANGE == pos + term
  {
    ModStep(ucs, pos, scaled, term);
  }

  lemma HexWalkBound(n: nat, d: nat, mult: nat, ucs: nat)
    requires d < 16 && mult == Pow(16, n) % UINT_RANGE
    requires ucs < UINT_RANGE && (n <= 8 ==> ucs < Pow(16, n))
    ensures ucs + mult * d % UINT_RANGE < UINT_RANGE
    ensures n < 8 ==> ucs + mult * d % UINT_RANGE < Pow(16, n + 1)
  {
    HexPow(n);
    var pow := Pow(16, n);
    assert Pow(16, n + 1) == 16 * pow;
    hide Pow;
    if n < 8 {
      Monotone(d, 15, pow);
      SmallProduct(pow, d);
    }
  }

  lemma SmallProduct(pow: nat, d: nat)
    requires d <= 15 && 16 * pow <= UINT_RANGE
    ensures pow < UINT_RANGE && (pow % UINT_RANGE) * d % UINT_RANGE == d * pow
  {
    Monotone(d, 15, pow);
    Below(pow);
    Below(d * pow);
  }

  lemma Below(x: nat)
    ensures x < UINT_RANGE ==> x % UINT_RANGE == x
  {
  }

  /** What the right-to-left loop computes on a run of digits that ends at a stop byte: congruent to the
      number the digits denote, equal to it when it fits 32 bits, and for hexadecimal always its low 32 bits. */
  lemma {:induction false} AccumulateIsPositional(s: string, lo: nat, k: nat, end: nat, stop: char, base: nat)
    requires base in {10, 16} && DigitValue(stop, base).None?
    requires lo <= k < end <= |s| && s[lo] == stop && s[k] == stop
    requires AllDigits(s[k + 1..end], base)
    ensures var v := Accumulate(s, lo, end - 1, stop, base, 1, 0);
            && v.Some?
            && v.value % UINT_RANGE == Positional(s[k + 1..end], base) % UINT_RANGE
            && (Positional(s[k + 1..end], base) < UINT_RANGE ==> v.value == Positional(s[k + 1..end], base))
            && (base == 16 ==> v.value == Positional(s[k + 1..end], base) % UINT_RANGE)
  {
    hide Accumulate, Positional, Pow, Tracks, DigitValue;
    assert s[end..end] == "";
    TracksNothing(base);
    var v := Accumulate(s, lo, end - 1, stop, base, 1, 0);
    WalkFrom(s, lo, k, end - 1, end, stop, base, 1, 0);
    TracksTell(Positional(s[k + 1..end], base), end - k - 1, base, v.value);
  }

  lemma StopIsNoDigit(stop: char, c: char, base: nat)
    requires DigitValue(stop, base).None? && DigitValue(c, base).Some?
    ensures c != stop
  {
  }

  lemma {:induction false} WalkFrom(s: string, lo: nat, k: nat, q: nat, end: nat, stop: char, base: nat, mult: nat,
                                    ucs: nat)
    requires base in {10, 16} && DigitValue(stop, base).None?
    requires lo <= k <= q < end <= |s| && s[lo] == stop && s[k] == stop
    requires AllDigits(s[k + 1..end], base) && AllDigits(s[q + 1..end], base)
    requires mult == Pow(base, end - q - 1) % UINT_RANGE
    requires Tracks(Positional(s[q + 1..end], base), end - q - 1, base, ucs)
    ensures Accumulate(s, lo, q, stop, base, mult, ucs).Some?
    ensures Tracks(Positional(s[k + 1..end], base), end - k - 1, base,
                   Accumulate(s, lo, q, stop, base, mult, ucs).value)
    decreases q
  {
    hide Tracks, DigitValue, Positional, Pow;
    if q > k {
      var done := s[q..end];
      assert s[q] == s[k + 1..end][q - k - 1];
      assert done[1..] == s[q + 1..end];
      StopIsNoDigit(stop, s[q], base);
      PositionalPrepend(done, base);
      WalkMultiplier(end - q - 1, base, mult);
      WalkStep(Positional(s[q + 1..end], base), end - q - 1, DigitValue(s[q], base).value, base, mult, ucs);
      WalkFrom(s, lo, k, q - 1, end, stop, base, mult * base % UINT_RANGE,
               (ucs + mult * DigitValue(s[q], base).value % UINT_RANGE) % ULONG_RANGE);
    }
  }

  // ---------------------------------------------------------------------------------------------
  // GetCharacterRef
  // ---------------------------------------------------------------------------------------------

  /** Result of reading a reference at `p`: a null pointer, `p + 1` with nothing produced, or bytes and a new cursor. */
  datatype Reference = Rejected | Dropped | Decoded(code: nat, used: nat)

  /** strchr: the first `c` at or after `i`, unless the string ends before. */
  function FindChar(s: string, c: char, i: nat): (r: Option<nat>)
    requires c != NUL
    ensures r.Some? ==> i <= r.value < |s| && s[r.value] == c && c !in s[i..r.value]
    decreases |s| - i
  {
    if i >= |s| || s[i] == NUL then None
    else if s[i] == c then Some(i)
    else FindChar(s, c, i + 1)
  }

  /** What GetCharacterRef makes of the text `s` that starts at the ampersand. */
  function CharacterRef(s: string): Reference
  {
    if At(s, 1) == '#' && At(s, 2) != NUL then
      if s[2] == 'x' then
        if At(s, 3) == NUL then Rejected
        else
          match FindChar(s, ';', 3)
          case None => Rejected
          case Some(semi) =>
            match Accumulate(s, 2, semi - 1, 'x', 16, 1, 0)
            case None => Rejected
            case Some(ucs) => Decoded(ucs, semi + 1)
      else
        match FindChar(s, ';', 2)
        case None => Rejected
        case Some(semi) =>
          match Accumulate(s, 1, semi - 1, '#', 10, 1, 0)
          case None => Rejected
          case Some(ucs) => Decoded(ucs, semi + 1)
    else Dropped
  }

  /** A value read from n digits needs no more bytes than the reference that spells it. */
  lemma EncodedFits(s: string)
    requires CharacterRef(s).Decoded?
    ensures |Utf8(CharacterRef(s).code)| <= CharacterRef(s).used <= |s|
    ensures CharacterRef(s).used >= 3
  {
  }

  /** The main case: `&#xH...H;` and `&#D...D;` with up to eight hexadecimal or nine decimal digits decode
      to the number written, and the whole reference is consumed. */
  lemma WellFormedReference(digits: string, hex: bool, rest: string)
    requires digits != "" && AllDigits(digits, if hex then 16 else 10)
    requires |digits| <= if hex then 8 else 9
    ensures var ref := (if hex then "&#x" else "&#") + digits + ";";
            CharacterRef(ref + rest) == Decoded(Positional(digits, if hex then 16 else 10), |ref|)
  {
    hide Accumulate, Positional;
    var lead, base := if hex then "&#x" else "&#", if hex then 16 else 10;
    var ref := lead + digits + ";";
    var s, semi := ref + rest, |lead| + |digits|;
    Spelled(lead, digits, rest, base);
    FirstAt(s, ';', |lead|, semi);
    SmallNumber(digits, base);
    assert s[1] == '#' && s[2] != NUL;
    AccumulateIsPositional(s, |lead| - 1, |lead| - 1, semi, s[|lead| - 1], base);
    assert s[|lead| - 1 + 1..semi] == digits;
  }

  lemma Spelled(lead: string, digits: string, rest: string, base: nat)
    requires AllDigits(digits, base)
    ensures var s, semi := lead + digits + ";" + rest, |lead| + |digits|;
            && s[semi] == ';' && s[|lead|..semi] == digits
            && (forall i :: 0 <= i < |lead| ==> s[i] == lead[i])
            && forall i :: |lead| <= i < semi ==> s[i] != ';' && s[i] != NUL && s[i] != 'x'
  {
    var s, semi := lead + digits + ";" + rest, |lead| + |digits|;
    forall i | |lead| <= i < semi
      ensures s[i] != ';' && s[i] != NUL && s[i] != 'x'
    {
      assert s[i] == digits[i - |lead|];
    }
  }

  lemma {:induction false} FirstAt(s: string, c: char, i: nat, k: nat)
    requires i <= k < |s| && s[k] == c && c != NUL
    requires forall j :: i <= j < k ==> s[j] != c && s[j] != NUL
    ensures FindChar(s, c, i) == Some(k)
    decreases k - i
  {
    if i < k {
      FirstAt(s, c, i + 1, k);
    }
  }

  lemma {:induction false} SmallNumber(digits: string, base: nat)
    requires base in {10, 16} && AllDigits(digits, base)
    requires |digits| <= if base == 16 then 8 else 9
    ensures Positional(digits, base) < UINT_RANGE
  {
    PositionalBelowPow(digits, base);
    if base == 16 {
      HexPow(|digits|);
    } else {
      PowMonotone(10, |digits|, 9);
      assert Pow(10, 3) == 1000;
      assert Pow(10, 6) == 1000 * Pow(10, 3);
      assert Pow(10, 9) == 1000 * Pow(10, 6);
    }
  }

  lemma {:induction false} PowMonotone(base: nat, m: nat, n: nat)
    requires base > 0 && m <= n
    ensures Pow(base, m) <= Pow(base, n)
  {
    if m < n {
      PowMonotone(base, m, n - 1);
      Monotone(1, base, Pow(base, n - 1));
    }
  }

  lemma {:induction false} PositionalBelowPow(digits: string, base: nat)
    requires base in {10, 16} && AllDigits(digits, base)
    ensures Positional(digits, base) < Pow(base, |digits|)
  {
    if digits != "" {
      var front := digits[..|digits| - 1];
      PositionalBelowPow(front, base);
      assert (Positional(front, base) + 1) * base <= Pow(base, |front|) * base;
    }
  }

  /** GetCharacterRef on a buffer: the text runs from `p` up to the NUL at `end`. */
  method GetCharacterRef(buf: array<char>, p: nat, end: nat, value: array<char>)
      returns (next: Option<nat>, length: nat)
    requires p < end < buf.Length && buf[end] == NUL
    requires value.Length >= 4 && value != buf
    modifies value
    ensures match CharacterRef(buf[p..end])
            case Rejected => next == None
            case Dropped => next == Some(p + 1) && length == 0
            case Decoded(code, used) =>
              next == Some(p + used) && length == |Utf8(code)| && value[..length] == Utf8(code)
  {
    hide Utf8, Accumulate, FindChar;
    ghost var s := buf[p..end];
    length := 0;
    assert At(s, 1) == buf[p + 1];
    assert buf[p + 1] == '#' ==> At(s, 2) == buf[p + 2];
    assert buf[p + 1] == '#' && buf[p + 2] == 'x' ==> At(s, 3) == buf[p + 3];
    if buf[p + 1] == '#' && buf[p + 2] != NUL {
      var hex := buf[p + 2] == 'x';
      var q := if hex then p + 3 else p + 2;
      if buf[q] == NUL {
        return None, 0;
      }
      var semi := Strchr(buf, q, p, end);
      if semi.None? {
        return None, 0;
      }
      var delta := semi.value - p;
      var ucs;
      if hex {
        ucs := ReadHexadecimal(buf, p, semi.value - 1, s);
      } else {
        ucs := ReadDecimal(buf, p, semi.value - 1, s);
      }
      if ucs.None? {
        return None, 0;
      }
      length := ConvertUTF32ToUTF8(ucs.value, value);
      return Some(p + delta + 1), length;
    }
    return Some(p + 1), 0;
  }

  /** The hexadecimal loop, from the byte before the semicolon down to the nearest `x`. */
  method ReadHexadecimal(buf: array<char>, p: nat, last: nat, ghost s: string) returns (r: Option<nat>)
    requires p + 2 <= last < p + |s| <= buf.Length && s == buf[p..p + |s|] && s[2] == 'x'
    ensures r == Accumulate(s, 2, last - p, 'x', 16, 1, 0)
  {
    var ucs: nat, mult: nat := 0, 1;
    var q := last;
    while buf[q] != 'x'
      invariant p + 2 <= q <= last
      invariant Accumulate(s, 2, q - p, 'x', 16, mult, ucs) == Accumulate(s, 2, last - p, 'x', 16, 1, 0)
      decreases q
    {
      var digit := 0;
      if '0' <= buf[q] <= '9' {
        digit := buf[q] as int - '0' as int;
      } else if 'a' <= buf[q] <= 'f' {
        digit := buf[q] as int - 'a' as int + 10;
      } else if 'A' <= buf[q] <= 'F' {
        digit := buf[q] as int - 'A' as int + 10;
      } else {
        return None;
      }
      var digitScaled := mult * digit % UINT_RANGE;
      ucs := (ucs + digitScaled) % ULONG_RANGE;
      mult := mult * 16 % UINT_RANGE;
      q := q - 1;
    }
    r := Some(ucs);
  }

  /** The decimal loop, down to the nearest `#`. */
  method ReadDecimal(buf: array<char>, p: nat, last: nat, ghost s: string) returns (r: Option<nat>)
    requires p + 1 <= last < p + |s| <= buf.Length && s == buf[p..p + |s|] && s[1] == '#'
    ensures r == Accumulate(s, 1, last - p, '#', 10, 1, 0)
  {
    var ucs: nat, mult: nat := 0, 1;
    var q := last;
    while buf[q] != '#'
      invariant p + 1 <= q <= last
      invariant Accumulate(s, 1, q - p, '#', 10, mult, ucs) == Accumulate(s, 1, last - p, '#', 10, 1, 0)
      decreases q
    {
      if '0' <= buf[q] <= '9' {
        var digit := buf[q] as int - '0' as int;
        var digitScaled := mult * digit % UINT_RANGE;
        ucs := (ucs + digitScaled) % ULONG_RANGE;
      } else {
        return None;
      }
      mult := mult * 10 % UINT_RANGE;
      q := q - 1;
    }
    r := Some(ucs);
  }

  method Strchr(buf: array<char>, q: nat, ghost p: nat, end: nat) returns (r: Option<nat>)
    requires p <= q <= end < buf.Length && buf[end] == NUL
    ensures var f := FindChar(buf[p..end], ';', q - p);
            if f.None? then r == None else r == Some(p + f.value)
  {
    ghost var s := buf[p..end];
    var i := q;
    while buf[i] != NUL && buf[i] != ';'
      invariant q <= i <= end
      decreases end - i
      invariant FindChar(s, ';', q - p) == FindChar(s, ';', i - p)
    {
      i := i + 1;
    }
    r := if buf[i] == ';' then Some(i) else None;
  }
}
