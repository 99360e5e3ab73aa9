/**
 * Information object addresses (conpot/protocols/IEC104/DeviceDataController.py): the number on the wire and
 * the string "0..65535_0..255" of the configuration, converted through hexadecimal digits.
 */
module Iec104Address {
  import opened Sequences
  import opened Wrappers

  const HEX := "0123456789abcdef"
  const DEC := "0123456789"

  datatype AddressError = ValueError

  lemma {:induction false} DivSmaller(n: nat, b: nat)
    requires b >= 2
    ensures 0 <= n / b && (n > 0 ==> n / b < n)
  {
  }

  /** Digits of `n` in base |digits|, zero-padded to `width`: the formats `{:0Wx}` and, with width 1, `str`. */
  function Digits(digits: string, n: nat, width: nat): (s: string)
    requires |digits| >= 2
    ensures |s| >= 1 && |s| >= width
    decreases n + width
  {
    var b := |digits|;
    if n < b && width <= 1 then [digits[n]]
    else
      DivSmaller(n, b);
      Digits(digits, n / b, if width > 0 then width - 1 else 0) + [digits[n % b]]
  }

  function DigitValue(digits: string, c: char): Option<nat> {
    if digits == "" then None
    else if digits[|digits| - 1] == c then Some(|digits| - 1)
    else DigitValue(digits[..|digits| - 1], c)
  }

  /** `int(s, b)` for digit strings. */
  function Parse(digits: string, s: string): Option<nat> {
    if s == "" then None
    else
      var last := DigitValue(digits, s[|s| - 1]);
      if last.None? then None
      else if |s| == 1 then last
      else
        var front := Parse(digits, s[..|s| - 1]);
        if front.None? then None else Some(front.value * |digits| + last.value)
  }

  ghost predicate Alphabet(digits: string) {
    |digits| >= 2 && forall i, j | 0 <= i < j < |digits| :: digits[i] != digits[j]
  }

  lemma {:induction false} DigitOf(digits: string, i: nat)
    requires i < |digits| && forall i, j | 0 <= i < j < |digits| :: digits[i] != digits[j]
    ensures DigitValue(digits, digits[i]) == Some(i)
  {
    if i < |digits| - 1 {
      DigitOf(digits[..|digits| - 1], i);
    }
  }

  lemma {:induction false} Euclid(n: nat, b: nat)
    requires b >= 2
    ensures n / b * b + n % b == n && n % b < b
  {
  }

  lemma {:induction false} ParseLast(digits: string, front: string, i: nat, v: nat)
    requires Alphabet(digits) && i < |digits| && front != "" && Parse(digits, front) == Some(v)
    ensures Parse(digits, front + [digits[i]]) == Some(v * |digits| + i)
  {
    var s := front + [digits[i]];
    assert s[..|s| - 1] == front && s[|s| - 1] == digits[i];
    DigitOf(digits, i);
  }

  lemma {:induction false} DigitsStep(digits: string, n: nat, width: nat) returns (q: nat, r: nat, w: nat)
    requires |digits| >= 2 && !(n < |digits| && width <= 1)
    ensures r < |digits| && n == q * |digits| + r && q + w < n + width
    ensures Digits(digits, n, width) == Digits(digits, q, w) + [digits[r]]
  {
    var b := |digits|;
    DivSmaller(n, b);
    Euclid(n, b);
    q, r, w := n / b, n % b, if width > 0 then width - 1 else 0;
  }

  lemma {:induction false} ParseDigits(digits: string, n: nat, width: nat)
    requires Alphabet(digits)
    ensures Parse(digits, Digits(digits, n, width)) == Some(n)
    decreases n + width
  {
    if n < |digits| && width <= 1 {
      DigitOf(digits, n);
    } else {
      var q, r, w := DigitsStep(digits, n, width);
      ParseDigits(digits, q, w);
      ParseLast(digits, Digits(digits, q, w), r, q);
    }
  }

  // ---------- The two conversions ----------

  function Hex(n: nat, width: nat): string {
    Digits(HEX, n, width)
  }

  function Dec(n: nat): string {
    Digits(DEC, n, 1)
  }

  /** `int(s, 16)` of a string of digits made by `Hex`. */
  function HexValue(s: string): nat {
    Parse(HEX, s).GetOr(0)
  }

  /** `hex_in_addr`: the octets of a 24-bit address, lowest first, the low two read as one number. */
  function HexInAddr(n: nat): string {
    var hexa := "0x" + Hex(n, 6);
    var a1, a2, a3 := hexa[2..4], hexa[4..6], hexa[6..8];
    Dec(HexValue(a3 + a2)) + "_" + Dec(HexValue(a1))
  }

  function Find(s: string, c: char): (i: nat)
    ensures i <= |s| && (i < |s| ==> s[i] == c) && forall k | 0 <= k < i :: s[k] != c
  {
    if s == "" || s[0] == c then 0 else Find(s[1..], c) + 1
  }

  /** The two decimal numbers around the one underscore, if that is what the string is. */
  function Numbers(address: string): Option<(nat, nat)> {
    var i := Find(address, '_');
    if i == |address| || '_' in address[i + 1..] then None
    else
      var n1, n2 := Parse(DEC, address[..i]), Parse(DEC, address[i + 1..]);
      if n1.None? || n2.None? then None else Some((n1.value, n2.value))
  }

  /** `addr_in_hex`; anything else is refused. */
  function AddrInHex(address: string): Result<nat, AddressError> {
    var numbers := Numbers(address);
    if numbers.None? then Err(ValueError)
    else
      var temp := Hex(numbers.value.0, 4);
      var hex1 := temp[2..4] + temp[0..2];
      Ok(HexValue(Hex(numbers.value.1, 2) + hex1))
  }

  /** What the constructor of the register table asserts of an address. */
  predicate Allowed(address: string) {
    var numbers := Numbers(address);
    numbers.Some? && numbers.value.0 < 0x1_0000 && numbers.value.1 < 256
  }

  // ---------- Octets ----------

  /** The two hexadecimal digits of an octet. */
  function Two(b: nat): string
    requires b < 256
  {
    [HEX[b / 16], HEX[b % 16]]
  }

  lemma {:induction false} TwoIsHex(b: nat)
    requires b < 256
    ensures Two(b) == Hex(b, 2)
  {
    assert Digits(HEX, b / 16, 1) == [HEX[b / 16]];
  }

  /** The last octet of a number, as its last two digits. */
  lemma {:induction false} HexSplits(n: nat, width: nat, upper: nat, low: nat)
    requires width >= 3 && low < 256 && n == upper * 256 + low
    ensures Hex(n, width) == Hex(upper, width - 2) + Two(low)
  {
    var half := n / 16;
    assert half / 16 == upper && half % 16 == low / 16 && n % 16 == low % 16;
    assert Hex(n, width) == Hex(half, width - 1) + [HEX[n % 16]];
    assert Hex(half, width - 1) == Hex(upper, width - 2) + [HEX[half % 16]];
  }

  lemma {:induction false} HexAlphabet()
    ensures Alphabet(HEX) && Alphabet(DEC)
  {
  }

  lemma {:induction false} HexValueOf(n: nat, width: nat)
    ensures HexValue(Hex(n, width)) == n
  {
    HexAlphabet();
    ParseDigits(HEX, n, width);
  }

  lemma {:induction false} Word(n: nat, hi: nat, lo: nat)
    requires hi < 256 && lo < 256 && n == hi * 256 + lo
    ensures Two(hi) + Two(lo) == Hex(n, 4)
  {
    HexSplits(n, 4, hi, lo);
    TwoIsHex(hi);
  }

  /** `n` has the octets `top`, `hi`, `lo`. */
  predicate HasOctets(n: nat, top: nat, hi: nat, lo: nat) {
    top < 256 && hi < 256 && lo < 256 && n == (top * 256 + hi) * 256 + lo
  }

  lemma {:induction false} Triple(n: nat, top: nat, hi: nat, lo: nat)
    requires HasOctets(n, top, hi, lo)
    ensures Two(top) + Two(hi) + Two(lo) == Hex(n, 6)
  {
    var w := top * 256 + hi;
    HexSplits(n, 6, w, lo);
    Word(w, top, hi);
  }

  lemma {:induction false} NoUnderscore(n: nat, width: nat)
    ensures '_' !in Digits(DEC, n, width)
    decreases n + width
  {
    if !(n < 10 && width <= 1) {
      NoUnderscore(n / 10, if width > 0 then width - 1 else 0);
    }
  }

  /** The configuration's own spelling of an address. */
  function Canonical(a: nat, b: nat): string {
    Dec(a) + "_" + Dec(b)
  }

  lemma {:induction false} HexSlices(n: nat, top: nat, hi: nat, lo: nat)
    requires HasOctets(n, top, hi, lo)
    ensures var hexa := "0x" + Hex(n, 6); hexa[2..4] == Two(top) && hexa[4..6] == Two(hi) && hexa[6..8] == Two(lo)
  {
    Triple(n, top, hi, lo);
  }

  /** What `hex_in_addr` makes of the three octets of an address. */
  lemma {:induction false} HexInAddrIs(n: nat, top: nat, hi: nat, lo: nat, a: nat)
    requires HasOctets(n, top, hi, lo) && a == lo * 256 + hi
    ensures HexInAddr(n) == Canonical(a, top)
  {
    HexSlices(n, top, hi, lo);
    Word(a, lo, hi);
    HexValueOf(a, 4);
    TwoIsHex(top);
    HexValueOf(top, 2);
  }

  /** The digit strings that `addr_in_hex` joins. */
  lemma {:induction false} SwappedHex(n: nat, top: nat, hi: nat, lo: nat, a: nat)
    requires HasOctets(n, top, hi, lo) && a == lo * 256 + hi
    ensures var temp := Hex(a, 4);
            |temp| == 4 && Hex(top, 2) + (temp[2..4] + temp[0..2]) == Hex(n, 6)
  {
    Word(a, lo, hi);
    TwoIsHex(top);
    Triple(n, top, hi, lo);
    assert (Two(lo) + Two(hi))[2..4] + (Two(lo) + Two(hi))[0..2] == Two(hi) + Two(lo);
    Assoc(Two(top), Two(hi), Two(lo));
  }

  lemma {:induction false} ParseDec(n: nat)
    ensures Parse(DEC, Dec(n)) == Some(n)
  {
    HexAlphabet();
    ParseDigits(DEC, n, 1);
  }

  lemma {:induction false} SplitCanonical(a: nat, b: nat)
    requires '_' !in Dec(a)
    ensures var s := Canonical(a, b);
            Find(s, '_') == |Dec(a)| && s[..|Dec(a)|] == Dec(a) && s[|Dec(a)| + 1..] == Dec(b)
  {
    var s := Canonical(a, b);
    assert s[|Dec(a)|] == '_';
    assert forall k | 0 <= k < |Dec(a)| :: s[k] == Dec(a)[k];
  }

  lemma {:induction false} NumbersOfCanonical(a: nat, b: nat)
    ensures Numbers(Canonical(a, b)) == Some((a, b))
  {
    NoUnderscore(a, 1);
    NoUnderscore(b, 1);
    SplitCanonical(a, b);
    ParseDec(a);
    ParseDec(b);
  }

  /** What `addr_in_hex` makes of a canonical address. */
  lemma {:induction false} AddrInHexIs(n: nat, top: nat, hi: nat, lo: nat, a: nat)
    requires HasOctets(n, top, hi, lo) && a == lo * 256 + hi
    ensures AddrInHex(Canonical(a, top)) == Ok(n)
  {
    NumbersOfCanonical(a, top);
    SwappedHex(n, top, hi, lo, a);
    HexValueOf(n, 6);
  }

  /** Numbers survive the round trip through strings. */
  lemma {:induction false} NumberRoundTrip(n: nat)
    requires n < 0x100_0000
    ensures AddrInHex(HexInAddr(n)) == Ok(n)
  {
    var top, hi, lo := n / 65536, n / 256 % 256, n % 256;
    assert HasOctets(n, top, hi, lo);
    var a := lo * 256 + hi;
    HexInAddrIs(n, top, hi, lo, a);
    AddrInHexIs(n, top, hi, lo, a);
  }

  /** Canonical strings survive the round trip through numbers, which stay below 2^24. */
  lemma {:induction false} StringRoundTrip(a: nat, b: nat)
    requires a < 0x1_0000 && b < 256
    ensures AddrInHex(Canonical(a, b)).Ok? && AddrInHex(Canonical(a, b)).value < 0x100_0000
    ensures HexInAddr(AddrInHex(Canonical(a, b)).value) == Canonical(a, b)
  {
    var hi, lo := a % 256, a / 256;
    var n := (b * 256 + hi) * 256 + lo;
    assert HasOctets(n, b, hi, lo);
    AddrInHexIs(n, b, hi, lo, a);
    HexInAddrIs(n, b, hi, lo, a);
  }

  /** Whatever the spelling, leading zeros for instance, the address on the wire is turned into the canonical one. */
  lemma {:induction false} SpellingIsCanonical(address: string)
    requires Allowed(address)
    ensures var n := Numbers(address).value;
      && AddrInHex(address).Ok? && AddrInHex(address) == AddrInHex(Canonical(n.0, n.1))
      && AddrInHex(address).value < 0x100_0000 && HexInAddr(AddrInHex(address).value) == Canonical(n.0, n.1)
  {
    var n := Numbers(address).value;
    NumbersOfCanonical(n.0, n.1);
    StringRoundTrip(n.0, n.1);
  }

  predicate IsDecimal(s: string) {
    s != "" && forall k | 0 <= k < |s| :: '0' <= s[k] <= '9'
  }

  lemma {:induction false} DigitIffMember(digits: string, c: char)
    ensures DigitValue(digits, c).Some? <==> c in digits
    decreases |digits|
  {
    if digits != "" {
      var front := digits[..|digits| - 1];
      DigitIffMember(front, c);
      assert digits == front + [digits[|digits| - 1]];
    }
  }

  lemma {:induction false} DecimalDigit(c: char)
    ensures DigitValue(DEC, c).Some? <==> '0' <= c <= '9'
  {
    DigitIffMember(DEC, c);
    if '0' <= c <= '9' {
      assert DEC[c as int - '0' as int] == c;
    }
  }

  lemma {:induction false} ParsesIffDecimal(s: string)
    ensures Parse(DEC, s).Some? <==> IsDecimal(s)
  {
    if s != "" {
      DecimalDigit(s[|s| - 1]);
      ParsesIffDecimal(s[..|s| - 1]);
      assert s == s[..|s| - 1] + [s[|s| - 1]];
    }
  }

  /** `addr_in_hex` accepts two digit strings around one underscore and refuses everything else. */
  lemma {:induction false} AcceptedIffTwoNumbers(address: string)
    ensures AddrInHex(address).Ok? <==>
      exists i: nat :: i < |address| && address[i] == '_' && IsDecimal(address[..i]) && IsDecimal(address[i + 1..])
  {
    var found := Find(address, '_');
    if found < |address| {
      ParsesIffDecimal(address[..found]);
      ParsesIffDecimal(address[found + 1..]);
    }
    forall i: nat | i < |address| && address[i] == '_' && IsDecimal(address[..i]) && IsDecimal(address[i + 1..])
      ensures found == i && Numbers(address).Some?
    {
      assert forall k | 0 <= k < i :: address[k] == address[..i][k];
      assert '_' !in address[i + 1..];
    }
  }

  /** Two allowed addresses are the same on the wire if and only if they spell the same numbers. */
  lemma {:induction false} SameAddressIffSameNumbers(x: string, y: string)
    requires Allowed(x) && Allowed(y)
    ensures AddrInHex(x) == AddrInHex(y) <==> Numbers(x) == Numbers(y)
  {
    SpellingIsCanonical(x);
    SpellingIsCanonical(y);
    var n, m := Numbers(x).value, Numbers(y).value;
    NumbersOfCanonical(n.0, n.1);
    NumbersOfCanonical(m.0, m.1);
  }

  lemma {:induction false} ParseZeroPrefix(s: string)
    requires s != ""
    ensures Parse(DEC, "0" + s) == Parse(DEC, s)
    decreases |s|
  {
    var padded := "0" + s;
    HexAlphabet();
    DigitOf(DEC, 0);
    assert padded[|padded| - 1] == s[|s| - 1] && padded[..|padded| - 1] == "0" + s[..|s| - 1];
    if |s| == 1 {
      assert "0" + s[..0] == "0" && Parse(DEC, "0") == Some(0);
    } else {
      ParseZeroPrefix(s[..|s| - 1]);
    }
  }

  lemma {:induction false} FindAfterZero(s: string)
    ensures Find("0" + s, '_') == Find(s, '_') + 1
  {
    assert ("0" + s)[1..] == s;
  }

  /** A zero in front of an address changes its spelling and nothing else. */
  lemma {:induction false} LeadingZeroIsIgnored(address: string)
    requires Allowed(address)
    ensures Allowed("0" + address) && Numbers("0" + address) == Numbers(address)
  {
    var padded, i := "0" + address, Find(address, '_');
    FindAfterZero(address);
    ParseZeroPrefix(address[..i]);
    assert padded[..i + 1] == "0" + address[..i] && padded[i + 2..] == address[i + 1..];
  }

  /** So every canonical address has a second spelling, which does not come back from the wire. */
  lemma {:induction false} SecondSpelling(a: nat, b: nat)
    requires a < 0x1_0000 && b < 256
    ensures var padded := "0" + Canonical(a, b);
      && Allowed(padded) && AddrInHex(padded) == AddrInHex(Canonical(a, b)) && AddrInHex(padded).Ok?
      && HexInAddr(AddrInHex(padded).value) == Canonical(a, b) != padded
  {
    NumbersOfCanonical(a, b);
    LeadingZeroIsIgnored(Canonical(a, b));
    SpellingIsCanonical("0" + Canonical(a, b));
  }
}
