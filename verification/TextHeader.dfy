/** The text header "S<file size>#<slice count>": printing, and parsing from one bounded read. */
module TextHeader {
  import opened Bytes

  const LETTER_S: Byte := 83
  const HASH: Byte := 35
  const ZERO: Byte := 48
  const PLUS: Byte := 43
  const MINUS: Byte := 45

  /** The receiver reads at most this many bytes of the text header. */
  const TEXT_MAX: nat := 17

  function Decimal(n: nat): (s: seq<Byte>)
    ensures s != [] && forall i :: 0 <= i < |s| ==> IsDigit(s[i])
  {
    (if n < 10 then [] else Decimal(n / 10)) + [ZERO + (n % 10) as Byte]
  }

  function Print(size: nat, num: nat): seq<Byte> {
    [LETTER_S] + Decimal(size) + [HASH] + Decimal(num)
  }

  predicate IsDigit(b: Byte) { ZERO <= b < ZERO + 10 }

  /** Space, tab, newline, vertical tab, form feed and carriage return. */
  predicate IsSpace(b: Byte) { b == 32 || 9 <= b <= 13 }

  function SkipSpaces(s: seq<Byte>): seq<Byte> {
    if s != [] && IsSpace(s[0]) then SkipSpaces(s[1..]) else s
  }

  function LeadingDigits(s: seq<Byte>): seq<Byte> {
    if s != [] && IsDigit(s[0]) then [s[0]] + LeadingDigits(s[1..]) else []
  }

  function Digit(b: Byte): nat {
    if IsDigit(b) then (b - ZERO) as nat else 0
  }

  function Value(digits: seq<Byte>): nat {
    if digits == [] then 0 else Value(digits[..|digits| - 1]) * 10 + Digit(digits[|digits| - 1])
  }

  datatype Number = Number(value: nat) | NoNumber

  /** `std::stoul`: spaces, an optional sign, digits; it throws without digits or out of range. */
  function Stoul(s: seq<Byte>): Number {
    var t := SkipSpaces(s);
    var negative := t != [] && t[0] == MINUS;
    var digits := LeadingDigits(if t != [] && (t[0] == MINUS || t[0] == PLUS) then t[1..] else t);
    if digits == [] || Value(digits) >= TWO64 then NoNumber
    else if negative then Number((TWO64 - Value(digits)) % TWO64)
    else Number(Value(digits))
  }

  /** The position of the first '#', or the length when there is none. */
  function FindHash(s: seq<Byte>): (p: nat)
    ensures p <= |s| && (p < |s| ==> s[p] == HASH)
    ensures forall i :: 0 <= i < p ==> s[i] != HASH
  {
    if s == [] || s[0] == HASH then 0 else 1 + FindHash(s[1..])
  }

  datatype Parsed = Parsed(size: nat, num: nat) | Malformed | Thrown

  /** The receiver's reading of its first burst; the slice count is kept in 32 bits. */
  function Parse(b: seq<Byte>): Parsed {
    if b == [] || b[0] != LETTER_S then Malformed
    else
      var pos := FindHash(b);
      if pos == |b| then Malformed
      else
        Combine(Stoul(b[1..pos]), Stoul(b[pos + 1..]))
  }

  function Combine(size: Number, num: Number): Parsed {
    if size.Number? && num.Number? then Parsed(size.value, num.value % TWO32) else Thrown
  }

  // ---- what the numbers look like ----

  function Pow10(k: nat): (p: nat)
    ensures p > 0
  {
    if k == 0 then 1 else 10 * Pow10(k - 1)
  }

  lemma DivTwice(n: nat, p: nat)
    requires p > 0
    ensures n / 10 / p == n / (10 * p)
  {
    var q, r := n / 10 / p, n / 10 % p;
    assert n / 10 == q * p + r;
    assert n == q * (10 * p) + (10 * r + n % 10);
    assert 10 * r + n % 10 < 10 * p;
    Quotient(n, 10 * p, q, 10 * r + n % 10);
  }

  /** The digit of weight 10^k, in ASCII. */
  lemma {:induction false} DecimalDigit(n: nat, k: nat)
    requires k < |Decimal(n)|
    ensures Decimal(n)[|Decimal(n)| - 1 - k] as int == 48 + n / Pow10(k) % 10
  {
    if k > 0 {
      DecimalDigit(n / 10, k - 1);
      DivTwice(n, Pow10(k - 1));
    }
  }

  /** A number has at most `k` digits exactly when it is smaller than 10^k. */
  lemma {:induction false} DecimalLength(n: nat, k: nat)
    requires k > 0
    ensures |Decimal(n)| <= k <==> n < Pow10(k)
  {
    if n >= 10 && k > 1 {
      DecimalLength(n / 10, k - 1);
    }
  }

  /** The text of a header, as ASCII codes. */
  lemma PrintExample()
    ensures Print(3000, 3) == [83, 51, 48, 48, 48, 35, 51]
  {
    assert Decimal(3) == [51];
    assert Decimal(30) == [51, 48];
    assert Decimal(300) == [51, 48, 48];
    assert Decimal(3000) == [51, 48, 48, 48];
  }

  lemma {:induction false} SpacesSkipped(spaces: seq<Byte>, t: seq<Byte>)
    requires forall i :: 0 <= i < |spaces| ==> 9 <= spaces[i] <= 13 || spaces[i] == 32
    requires t != [] ==> !(9 <= t[0] <= 13 || t[0] == 32)
    ensures SkipSpaces(spaces + t) == t
  {
    if spaces == [] {
      assert spaces + t == t;
    } else {
      assert (spaces + t)[1..] == spaces[1..] + t;
      SpacesSkipped(spaces[1..], t);
    }
  }

  lemma {:induction false} DigitsLead(digits: seq<Byte>, tail: seq<Byte>)
    requires forall i :: 0 <= i < |digits| ==> 48 <= digits[i] <= 57
    requires tail != [] ==> !(48 <= tail[0] <= 57)
    ensures LeadingDigits(digits + tail) == digits
  {
    if digits == [] {
      assert digits + tail == tail;
    } else {
      assert (digits + tail)[1..] == digits[1..] + tail;
      DigitsLead(digits[1..], tail);
    }
  }

  /**
   * The conversion of spaces, a sign, digits and anything else: the digits count up to the first byte that is
   * none; a minus sign negates modulo 2^64; a number of 2^64 or more, or no digit at all, throws.
   */
  lemma StoulReads(spaces: seq<Byte>, sign: seq<Byte>, digits: seq<Byte>, tail: seq<Byte>)
    requires forall i :: 0 <= i < |spaces| ==> 9 <= spaces[i] <= 13 || spaces[i] == 32
    requires sign == [] || sign == [43] || sign == [45]
    requires forall i :: 0 <= i < |digits| ==> 48 <= digits[i] <= 57
    requires tail != [] ==> !(48 <= tail[0] <= 57)
    requires sign == [] && digits == [] && tail != [] ==>
               !(9 <= tail[0] <= 13 || tail[0] == 32 || tail[0] == 43 || tail[0] == 45)
    ensures Stoul(spaces + (sign + (digits + tail))) ==
            if digits == [] || Value(digits) >= 0x1_0000_0000_0000_0000 then NoNumber
            else if sign == [45] && Value(digits) > 0 then Number(0x1_0000_0000_0000_0000 - Value(digits))
            else Number(Value(digits))
  {
    DigitsLead(digits, tail);
    StoulBehind(spaces, sign, digits + tail, digits);
  }

  lemma StoulBehind(spaces: seq<Byte>, sign: seq<Byte>, rest: seq<Byte>, digits: seq<Byte>)
    requires forall i :: 0 <= i < |spaces| ==> 9 <= spaces[i] <= 13 || spaces[i] == 32
    requires sign == [] || sign == [43] || sign == [45]
    requires sign == [] && rest != [] ==> !(9 <= rest[0] <= 13 || rest[0] == 32 || rest[0] == 43 || rest[0] == 45)
    requires LeadingDigits(rest) == digits
    ensures Stoul(spaces + (sign + rest)) ==
            if digits == [] || Value(digits) >= 0x1_0000_0000_0000_0000 then NoNumber
            else if sign == [45] && Value(digits) > 0 then Number(0x1_0000_0000_0000_0000 - Value(digits))
            else Number(Value(digits))
  {
    BehindSpaces(sign, rest);
    SpacesSkipped(spaces, sign + rest);
    StoulIs(spaces + (sign + rest), sign + rest, sign == [45], digits);
    if Value(digits) < TWO64 {
      Negated(Value(digits));
    }
  }

  lemma StoulIs(s: seq<Byte>, t: seq<Byte>, negative: bool, digits: seq<Byte>)
    requires SkipSpaces(s) == t && (negative <==> t != [] && t[0] == MINUS)
    requires LeadingDigits(if t != [] && (t[0] == MINUS || t[0] == PLUS) then t[1..] else t) == digits
    ensures Stoul(s) == if digits == [] || Value(digits) >= TWO64 then NoNumber
                        else if negative then Number((TWO64 - Value(digits)) % TWO64)
                        else Number(Value(digits))
  {
  }

  lemma Negated(v: nat)
    requires v < TWO64
    ensures (TWO64 - v) % TWO64 == if v > 0 then TWO64 - v else 0
  {
  }

  /** What stands behind the spaces: the sign, if any, and the rest. */
  lemma BehindSpaces(sign: seq<Byte>, rest: seq<Byte>)
    requires sign == [] || sign == [43] || sign == [45]
    requires sign == [] && rest != [] ==> !(9 <= rest[0] <= 13 || rest[0] == 32 || rest[0] == 43 || rest[0] == 45)
    ensures var t := sign + rest;
            && (t != [] ==> !(9 <= t[0] <= 13 || t[0] == 32))
            && (t != [] && t[0] == MINUS <==> sign == [45])
            && rest == if t != [] && (t[0] == MINUS || t[0] == PLUS) then t[1..] else t
  {
    assert sign == [] ==> sign + rest == rest;
    assert sign != [] ==> (sign + rest)[1..] == rest;
  }

  // ---- round trip ----

  lemma {:induction false} DecimalValue(n: nat)
    ensures Value(Decimal(n)) == n
  {
    var d := Decimal(n);
    if n < 10 {
      assert d[..|d| - 1] == [];
    } else {
      DecimalValue(n / 10);
      assert d[..|d| - 1] == Decimal(n / 10);
    }
  }

  /** Cutting digits off the end of a printed number makes it smaller. */
  lemma {:induction false} ProperPrefixIsSmaller(n: nat, k: nat)
    requires k < |Decimal(n)| && n > 0
    ensures Value(Decimal(n)[..k]) < n
  {
    var d := Decimal(n);
    if n < 10 {
      assert d[..k] == [];
    } else {
      var shorter := Decimal(n / 10);
      assert d[..k] == shorter[..k];
      if k < |shorter| {
        ProperPrefixIsSmaller(n / 10, k);
      } else {
        assert shorter[..k] == shorter;
        DecimalValue(n / 10);
      }
    }
  }

  lemma {:induction false} AllDigitsLead(s: seq<Byte>)
    requires forall i :: 0 <= i < |s| ==> IsDigit(s[i])
    ensures LeadingDigits(s) == s
  {
    if s != [] {
      AllDigitsLead(s[1..]);
      assert s == [s[0]] + s[1..];
    }
  }

  function NumberOf(s: seq<Byte>): Number {
    if s == [] then NoNumber else Number(Value(s))
  }

  lemma StoulOfDigits(s: seq<Byte>)
    requires forall i :: 0 <= i < |s| ==> IsDigit(s[i])
    requires Value(s) < TWO64
    ensures Stoul(s) == NumberOf(s)
  {
    assert SkipSpaces(s) == s;
    AllDigitsLead(s);
  }

  lemma HashAfterDigits(d: seq<Byte>, tail: seq<Byte>)
    requires forall i :: 0 <= i < |d| ==> IsDigit(d[i])
    ensures FindHash([LETTER_S] + d + [HASH] + tail) == 1 + |d|
  {
    var s := [LETTER_S] + d + [HASH] + tail;
    assert s[1 + |d|] == HASH;
    assert forall i :: 0 < i < 1 + |d| ==> s[i] == d[i - 1];
  }

  /** Parsing looks at the digits before the '#' and the digits after it. */
  lemma ParseParts(d: seq<Byte>, t: seq<Byte>)
    requires forall i :: 0 <= i < |d| ==> IsDigit(d[i])
    ensures Parse([LETTER_S] + d + [HASH] + t) == Combine(Stoul(d), Stoul(t))
  {
    var s := [LETTER_S] + d + [HASH] + t;
    HashAfterDigits(d, t);
    assert s[1..1 + |d|] == d;
    assert s[2 + |d|..] == t;
  }

  /** The number behind the '#' is kept in 32 bits. */
  lemma ParseKeeps32Bits(d: seq<Byte>, t: seq<Byte>)
    requires d != [] && t != [] && Value(d) < TWO64 && Value(t) < TWO64
    requires forall i :: 0 <= i < |d| ==> IsDigit(d[i])
    requires forall i :: 0 <= i < |t| ==> IsDigit(t[i])
    ensures Parse([83] + d + [35] + t) == Parsed(Value(d), Value(t) % 0x1_0000_0000)
  {
    ParseDigits(d, t);
  }

  lemma CutValue(num: nat, k: nat)
    requires 0 < num && k <= |Decimal(num)|
    ensures if k < |Decimal(num)| then Value(Decimal(num)[..k]) < num else Value(Decimal(num)[..k]) == num
  {
    if k < |Decimal(num)| {
      ProperPrefixIsSmaller(num, k);
    } else {
      assert Decimal(num)[..k] == Decimal(num);
      DecimalValue(num);
    }
  }

  lemma ParseDigits(d: seq<Byte>, t: seq<Byte>)
    requires forall i :: 0 <= i < |d| ==> IsDigit(d[i])
    requires forall i :: 0 <= i < |t| ==> IsDigit(t[i])
    requires Value(d) < TWO64 && Value(t) < TWO64
    ensures Parse([LETTER_S] + d + [HASH] + t) == Combine(NumberOf(d), NumberOf(t))
  {
    StoulOfDigits(d);
    StoulOfDigits(t);
    ParseParts(d, t);
  }

  lemma NoHashInPrefix(d: seq<Byte>, t: seq<Byte>, k: nat)
    requires forall i :: 0 <= i < |d| ==> IsDigit(d[i])
    requires k <= 1 + |d|
    ensures Parse(([LETTER_S] + d + [HASH] + t)[..k]) == Malformed
  {
    var got := ([LETTER_S] + d + [HASH] + t)[..k];
    assert forall i :: 0 < i < |got| ==> got[i] == d[i - 1];
    assert FindHash(got) == |got|;
  }

  lemma PrefixWithHash(d: seq<Byte>, t: seq<Byte>, k: nat)
    requires 2 + |d| <= k <= 2 + |d| + |t|
    ensures ([LETTER_S] + d + [HASH] + t)[..k] == [LETTER_S] + d + [HASH] + t[..k - 2 - |d|]
  {
  }

  lemma CombineIff(d: seq<Byte>, t: seq<Byte>, size: nat, num: nat)
    requires d != [] && Value(d) == size && Value(t) <= num < TWO16
    ensures Combine(NumberOf(d), NumberOf(t)) == Parsed(size, num) <==> t != [] && Value(t) == num
  {
  }

  /** A read that returns the first `k` bytes of the header recovers the pair only if it returns all. */
  lemma PrefixParsesIff(size: nat, num: nat, k: nat)
    requires size < TWO64 && 0 < num < TWO16 && k <= |Print(size, num)|
    ensures Parse(Print(size, num)[..k]) == Parsed(size, num) <==> k == |Print(size, num)|
  {
    var d, t := Decimal(size), Decimal(num);
    if k <= 1 + |d| {
      NoHashInPrefix(d, t, k);
    } else {
      var m := k - 2 - |d|;
      PrefixWithHash(d, t, k);
      DecimalValue(size);
      CutValue(num, m);
      CombineIff(d, t[..m], size, num);
      ParseDigits(d, t[..m]);
    }
  }

  /** What the receiver's one read returns of a text header that has arrived. */
  function Received(text: seq<Byte>): seq<Byte> {
    text[..Min(TEXT_MAX, |text|)]
  }

  /**
   * The receiver recovers the size and the count from its one read of at most 17 bytes exactly when
   * the two numbers have at most 15 digits together.
   */
  lemma TextRoundTripIff(size: nat, num: nat)
    requires size < TWO64 && 0 < num < TWO16
    ensures Parse(Received(Print(size, num))) == Parsed(size, num)
       <==> |Decimal(size)| + |Decimal(num)| <= 15
  {
    PrefixParsesIff(size, num, Min(TEXT_MAX, |Print(size, num)|));
  }
}
