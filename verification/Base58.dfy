/** The base58 codecs of the two certifiers, and the proof that each is a bijection. */
module Base58 {
  import opened Prelude

  /** `NotBase58` is the strict codec's own refusal, `ValueError` what `str.index` raises in the lenient one. */
  datatype DecodeError = NotBase58(c: char) | ValueError

  // ---------------------------------------------------------------------------
  // Positional numerals
  // ---------------------------------------------------------------------------

  type Digits = seq<nat>

  predicate Below(ds: Digits, base: nat) {
    forall i :: 0 <= i < |ds| ==> ds[i] < base
  }

  /** The value of a big-endian numeral. */
  function ToNat(base: nat, ds: Digits): nat {
    if ds == [] then 0 else ToNat(base, ds[..|ds| - 1]) * base + ds[|ds| - 1]
  }

  /** The big-endian numeral of `n` without leading zeros; zero has no digits. */
  function FromNat(base: nat, n: nat): (ds: Digits)
    requires base >= 2
    ensures Below(ds, base)
    ensures ds != [] ==> ds[0] != 0
    decreases n
  {
    if n == 0 then [] else
      DivideShrinks(n, base);
      FromNat(base, n / base) + [n % base]
  }

  /** A little-endian number is the big-endian numeral of its bytes in reverse. */
  lemma {:induction false} LittleEndianReversed(b: Bytes)
    ensures LittleEndian(b) == ToNat(256, seq(|b|, i requires 0 <= i < |b| => b[|b| - 1 - i]))
  {
    var ds := seq(|b|, i requires 0 <= i < |b| => b[|b| - 1 - i] as nat);
    if b != [] {
      var rest := b[1..];
      LittleEndianReversed(rest);
      assert ds[..|b| - 1] == seq(|rest|, i requires 0 <= i < |rest| => rest[|rest| - 1 - i]);
    }
  }

  lemma ProductAtLeast(a: int, b: int, c: int)
    requires a >= b && c >= 0
    ensures a * c >= b * c
  {
  }

  lemma DivideShrinks(n: nat, base: nat)
    requires base >= 2 && n > 0
    ensures n / base < n && n == (n / base) * base + n % base
    ensures n < base ==> n / base == 0
  {
    var q := n / base;
    if q > 0 {
      ProductAtLeast(base, 2, q);
      ProductAtLeast(q, 1, base);
    }
  }

  lemma DivideUndoes(q: nat, base: nat, r: nat)
    requires r < base
    ensures (q * base + r) / base == q && (q * base + r) % base == r
  {
    var n := q * base + r;
    QuotientUnique(n / base, n % base, q, r, base);
  }

  lemma QuotientUnique(q: int, r: nat, q': int, r': nat, base: nat)
    requires r < base && r' < base && q * base + r == q' * base + r'
    ensures q == q' && r == r'
  {
    var d := q - q';
    assert d * base == q * base - q' * base;
    if d > 0 {
      ProductAtLeast(d, 1, base);
    }
    assert (-d) * base == -(d * base);
    if d < 0 {
      ProductAtLeast(-d, 1, base);
    }
  }

  lemma {:induction false} FromNatInverts(base: nat, n: nat)
    requires base >= 2
    ensures ToNat(base, FromNat(base, n)) == n
    decreases n
  {
    if n > 0 {
      DivideShrinks(n, base);
      FromNatInverts(base, n / base);
      var front := FromNat(base, n / base);
      assert (front + [n % base])[..|front|] == front;
    }
  }

  function LeadingZeros(ds: Digits): (k: nat)
    ensures k <= |ds|
    ensures k < |ds| ==> ds[k] != 0
    ensures forall i :: 0 <= i < k ==> ds[i] == 0
  {
    if ds == [] || ds[0] != 0 then 0 else 1 + LeadingZeros(ds[1..])
  }

  function Zeros(k: nat): (ds: Digits)
    ensures |ds| == k && forall i :: 0 <= i < k ==> ds[i] == 0
  {
    seq(k, _ => 0)
  }

  lemma ZerosAreWorthNothing(base: nat, k: nat)
    ensures ToNat(base, Zeros(k)) == 0
  {
    if k > 0 {
      assert Zeros(k)[..k - 1] == Zeros(k - 1);
      ZerosAreWorthNothing(base, k - 1);
    }
  }

  /** A numeral is its leading zeros followed by the canonical numeral of its value. */
  lemma {:induction false} NumeralSplits(base: nat, ds: Digits)
    requires base >= 2 && Below(ds, base)
    ensures ds == Zeros(LeadingZeros(ds)) + FromNat(base, ToNat(base, ds))
    decreases |ds|
  {
    hide LeadingZeros, FromNat;
    if LeadingZeros(ds) == |ds| {
      AllZeros(base, ds);
    } else {
      var front, last := ds[..|ds| - 1], ds[|ds| - 1];
      assert ds == front + [last];
      LeadingZerosOfFront(front, last);
      NumeralSplits(base, front);
      hide ToNat, Zeros;
      FrontIsZero(base, front, last);
      LastDigitSplits(base, ToNat(base, front), last);
      Reassociate(Zeros(LeadingZeros(front)), FromNat(base, ToNat(base, front)), [last]);
    }
  }

  lemma AllZeros(base: nat, ds: Digits)
    requires base >= 2 && LeadingZeros(ds) == |ds|
    ensures ds == Zeros(|ds|) + FromNat(base, ToNat(base, ds))
  {
    assert ds == Zeros(|ds|);
    ZerosAreWorthNothing(base, |ds|);
  }

  /** If all that precedes the last digit is worth nothing, the last digit is where the leading zeros end. */
  lemma {:induction false} FrontIsZero(base: nat, front: Digits, last: nat)
    requires base >= 2 && LeadingZeros(front + [last]) == LeadingZeros(front) <= |front|
    requires front == Zeros(LeadingZeros(front)) + FromNat(base, ToNat(base, front))
    ensures ToNat(base, front) == 0 ==> last != 0
  {
    var ds := front + [last];
    assert LeadingZeros(ds) < |ds| ==> ds[LeadingZeros(ds)] != 0;
    hide ToNat, LeadingZeros;
    if ToNat(base, front) == 0 {
      assert |FromNat(base, 0)| == 0;
      assert |front| == LeadingZeros(front);
    }
  }

  lemma {:induction false} LastDigitSplits(base: nat, q: nat, last: nat)
    requires base >= 2 && last < base && (q == 0 ==> last != 0)
    ensures FromNat(base, q * base + last) == FromNat(base, q) + [last]
  {
    DivideUndoes(q, base, last);
    if q > 0 {
      ProductAtLeast(q, 1, base);
    }
  }

  lemma {:induction false} LeadingZerosOfFront(front: Digits, last: nat)
    requires LeadingZeros(front + [last]) < |front| + 1
    ensures LeadingZeros(front + [last]) == LeadingZeros(front)
    decreases |front|
  {
    var ds := front + [last];
    if front == [] {
      assert LeadingZeros(ds) == 0;
    } else {
      assert ds[0] == front[0] && ds[1..] == front[1..] + [last];
      if front[0] == 0 {
        LeadingZerosOfFront(front[1..], last);
      }
    }
  }

  lemma LeadingZerosOfPadded(k: nat, ds: Digits)
    requires ds != [] ==> ds[0] != 0
    ensures LeadingZeros(Zeros(k) + ds) == k
  {
    if k == 0 {
      assert Zeros(0) + ds == ds;
    } else {
      assert (Zeros(k) + ds)[1..] == Zeros(k - 1) + ds;
      LeadingZerosOfPadded(k - 1, ds);
    }
  }

  lemma PaddingKeepsValue(base: nat, k: nat, ds: Digits)
    ensures ToNat(base, Zeros(k) + ds) == ToNat(base, ds)
    decreases |ds|
  {
    if ds == [] {
      assert Zeros(k) + ds == Zeros(k);
      ZerosAreWorthNothing(base, k);
    } else {
      var padded := Zeros(k) + ds;
      assert padded[..|padded| - 1] == Zeros(k) + ds[..|ds| - 1];
      PaddingKeepsValue(base, k, ds[..|ds| - 1]);
    }
  }

  /** Rewriting a numeral in another base and back, leading zeros carried across, changes nothing. */
  function Recode(from: nat, to: nat, ds: Digits): (out: Digits)
    requires to >= 2
    ensures Below(out, to)
  {
    Zeros(LeadingZeros(ds)) + FromNat(to, ToNat(from, ds))
  }

  lemma RecodeInverts(from: nat, to: nat, ds: Digits)
    requires from >= 2 && to >= 2 && Below(ds, from)
    ensures Recode(to, from, Recode(from, to, ds)) == ds
  {
    var k, n := LeadingZeros(ds), ToNat(from, ds);
    LeadingZerosOfPadded(k, FromNat(to, n));
    PaddingKeepsValue(to, k, FromNat(to, n));
    FromNatInverts(to, n);
    NumeralSplits(from, ds);
  }

  // ---------------------------------------------------------------------------
  // Characters and bytes
  // ---------------------------------------------------------------------------

  /**
   * The 58 characters in order are the digits 1 to 9, then A to Z without I and O, then a to z without l,
   * so positions are an offset within each run of consecutive codes.
   */
  predicate InAlphabet(c: char) {
    '1' <= c <= '9' || 'A' <= c <= 'H' || 'J' <= c <= 'N' || 'P' <= c <= 'Z' || 'a' <= c <= 'k' || 'm' <= c <= 'z'
  }

  /** The position of a character in the alphabet. */
  function ValueOf(c: char): (d: nat)
    requires InAlphabet(c)
    ensures d < 58 && CharOf(d) == c
  {
    var code := c as int;
    if c <= '9' then code - 49
    else if c <= 'H' then code - 56
    else if c <= 'N' then code - 57
    else if c <= 'Z' then code - 58
    else if c <= 'k' then code - 64
    else code - 65
  }

  function CharOf(d: nat): (c: char)
    requires d < 58
    ensures InAlphabet(c)
  {
    if d < 9 then (d + 49) as char
    else if d < 17 then (d + 56) as char
    else if d < 22 then (d + 57) as char
    else if d < 33 then (d + 58) as char
    else if d < 44 then (d + 64) as char
    else (d + 65) as char
  }

  lemma ValueOfCharOf(d: nat)
    requires d < 58
    ensures ValueOf(CharOf(d)) == d
  {
  }

  predicate Valid(s: string) {
    forall i :: 0 <= i < |s| ==> InAlphabet(s[i])
  }

  function DigitsOf(s: string): (ds: Digits)
    requires Valid(s)
    ensures |ds| == |s| && Below(ds, 58)
    ensures forall i :: 0 <= i < |s| ==> ds[i] == ValueOf(s[i])
  {
    seq(|s|, i requires 0 <= i < |s| => ValueOf(s[i]))
  }

  function CharsOf(ds: Digits): (s: string)
    requires Below(ds, 58)
    ensures Valid(s) && |s| == |ds|
    ensures forall i :: 0 <= i < |ds| ==> s[i] == CharOf(ds[i])
  {
    seq(|ds|, i requires 0 <= i < |ds| => CharOf(ds[i]))
  }

  lemma DigitsInvertChars(ds: Digits)
    requires Below(ds, 58)
    ensures DigitsOf(CharsOf(ds)) == ds
  {
    forall i | 0 <= i < |ds| {
      ValueOfCharOf(ds[i]);
    }
  }

  lemma CharsInvertDigits(s: string)
    requires Valid(s)
    ensures CharsOf(DigitsOf(s)) == s
  {
  }

  function AsDigits(b: Bytes): (ds: Digits)
    ensures |ds| == |b| && Below(ds, 256) && forall i :: 0 <= i < |b| ==> ds[i] == b[i]
  {
    seq(|b|, i requires 0 <= i < |b| => b[i])
  }

  function AsBytes(ds: Digits): (b: Bytes)
    requires Below(ds, 256)
    ensures |b| == |ds| && forall i :: 0 <= i < |ds| ==> b[i] == ds[i]
  {
    seq(|ds|, i requires 0 <= i < |ds| => ds[i])
  }

  /** The bytes a base58 string names. */
  function Decoded(s: string): Bytes
    requires Valid(s)
  {
    AsBytes(Recode(58, 256, DigitsOf(s)))
  }

  function Encode(b: Bytes): (s: string)
    ensures Valid(s)
  {
    CharsOf(Recode(256, 58, AsDigits(b)))
  }

  lemma DecodeInvertsEncode(b: Bytes)
    ensures Decoded(Encode(b)) == b
  {
    var ds := AsDigits(b);
    DigitsInvertChars(Recode(256, 58, ds));
    RecodeInverts(256, 58, ds);
    assert AsBytes(ds) == b;
  }

  lemma EncodeInvertsDecode(s: string)
    requires Valid(s)
    ensures Encode(Decoded(s)) == s
  {
    var ds := DigitsOf(s);
    assert AsDigits(AsBytes(Recode(58, 256, ds))) == Recode(58, 256, ds);
    RecodeInverts(58, 256, ds);
    CharsInvertDigits(s);
  }

  /** Different strings over the alphabet name different bytes, so pinning a string pins the key. */
  lemma DecodedInjective(s: string, t: string)
    requires Valid(s) && Valid(t) && Decoded(s) == Decoded(t)
    ensures s == t
  {
    EncodeInvertsDecode(s);
    EncodeInvertsDecode(t);
  }

  // ---------------------------------------------------------------------------
  // The two decoders and the encoder, as the two modules run them
  // ---------------------------------------------------------------------------

  function FirstBad(s: string): (i: nat)
    requires !Valid(s)
    ensures i < |s| && !InAlphabet(s[i]) && Valid(s[..i])
  {
    if !InAlphabet(s[0]) then 0 else
      var i := 1 + FirstBad(s[1..]);
      assert forall j :: 1 <= j < i ==> s[j] == s[1..][..i - 1][j - 1];
      i
  }

  lemma {:induction false} FirstBadUnique(s: string, i: nat)
    requires i < |s| && !InAlphabet(s[i]) && Valid(s[..i])
    ensures !Valid(s) && FirstBad(s) == i
    decreases i
  {
    if i > 0 {
      var tail := s[1..];
      assert InAlphabet(s[..i][0]);
      assert tail[..i - 1] == s[..i][1..];
      assert tail[i - 1] == s[i];
      FirstBadUnique(tail, i - 1);
    }
  }

  /** What the strict `b58decode` returns or raises. */
  function Decode(s: string): Result<Bytes, DecodeError> {
    if Valid(s) then Ok(Decoded(s)) else Err(NotBase58(s[FirstBad(s)]))
  }

  function BitLength(n: nat): nat {
    if n == 0 then 0 else 1 + BitLength(n / 2)
  }

  /** `int.to_bytes(length, "big")` for a value that fits. */
  function ToBytesBig(n: nat, length: nat): (b: Bytes)
    ensures |b| == length
  {
    if length == 0 then [] else ToBytesBig(n / 256, length - 1) + [n % 256]
  }

  lemma BitLengthByByte(n: nat)
    requires n > 0
    ensures (BitLength(n) + 7) / 8 == 1 + (BitLength(n / 256) + 7) / 8
  {
    BitLengthByNibble(n);
    BitLengthByNibble(n / 16);
    assert n / 16 / 16 == n / 256;
  }

  lemma BitLengthByNibble(n: nat)
    ensures if n < 16 then BitLength(n) <= 4 else BitLength(n) == 4 + BitLength(n / 16)
    ensures n > 0 ==> BitLength(n) >= 1
  {
    var h := n / 2 / 2;
    assert h / 2 / 2 == n / 16;
    if n >= 4 {
      assert BitLength(n) == 2 + BitLength(h);
    }
    if h >= 4 {
      assert BitLength(h) == 2 + BitLength(h / 2 / 2);
    }
  }

  /** Sizing the buffer by bit length yields the canonical base-256 numeral: no leading zero byte, nothing cut. */
  lemma {:induction false} ToBytesIsCanonical(n: nat)
    ensures ToBytesBig(n, (BitLength(n) + 7) / 8) == AsBytes(FromNat(256, n))
    decreases n
  {
    if n > 0 {
      BitLengthByByte(n);
      ToBytesIsCanonical(n / 256);
    }
  }

  function CountOnes(s: string): nat {
    if s != "" && s[0] == '1' then 1 + CountOnes(s[1..]) else 0
  }

  lemma CountOnesIsLeadingZeros(s: string)
    requires Valid(s)
    ensures CountOnes(s) == LeadingZeros(DigitsOf(s))
  {
    if s != "" {
      assert ValueOf(s[0]) == 0 <==> s[0] == '1';
      if s[0] == '1' {
        assert DigitsOf(s)[1..] == DigitsOf(s[1..]);
        CountOnesIsLeadingZeros(s[1..]);
      }
    }
  }

  lemma DecodedByParts(s: string, num: nat)
    requires Valid(s) && num == ToNat(58, DigitsOf(s))
    ensures Decoded(s) == AsBytes(Zeros(CountOnes(s))) + ToBytesBig(num, (BitLength(num) + 7) / 8)
  {
    CountOnesIsLeadingZeros(s);
    ToBytesIsCanonical(num);
  }

  lemma NoDigits()
    ensures Valid("") && ToNat(58, DigitsOf("")) == 0
  {
  }

  method DecodeStrict(s: string) returns (r: Result<Bytes, DecodeError>)
    ensures r == Decode(s)
  {
    hide ToNat, DigitsOf, Decoded, ToBytesBig, BitLength, CountOnes, FirstBad;
    NoDigits();
    var num := 0;
    assert s[..0] == "";
    for i := 0 to |s|
      invariant Valid(s[..i]) && num == ToNat(58, DigitsOf(s[..i]))
    {
      if !InAlphabet(s[i]) {
        FirstBadUnique(s, i);
        return Err(NotBase58(s[i]));
      }
      AppendDigit(s[..i], s[i]);
      assert s[..i + 1] == s[..i] + [s[i]];
      num := num * 58 + ValueOf(s[i]);
    }
    assert s[..|s|] == s;
    DecodedByParts(s, num);
    r := Ok(AsBytes(Zeros(CountOnes(s))) + ToBytesBig(num, (BitLength(num) + 7) / 8));
  }

  lemma AppendDigit(s: string, c: char)
    requires Valid(s) && InAlphabet(c)
    ensures Valid(s + [c])
    ensures ToNat(58, DigitsOf(s + [c])) == ToNat(58, DigitsOf(s)) * 58 + ValueOf(c)
  {
    assert DigitsOf(s + [c])[..|s|] == DigitsOf(s);
  }

  /** The lenient certifier's decoder: a stray character surfaces as `ValueError`, and zero is special-cased. */
  method DecodeLenient(s: string) returns (r: Result<Bytes, DecodeError>)
    ensures r == if Valid(s) then Decode(s) else Err(ValueError)
  {
    hide ToNat, DigitsOf, Decoded, BitLength, CountOnes, FirstBad;
    NoDigits();
    var num := 0;
    assert s[..0] == "";
    for i := 0 to |s|
      invariant Valid(s[..i]) && num == ToNat(58, DigitsOf(s[..i]))
    {
      if !InAlphabet(s[i]) {
        return Err(ValueError);
      }
      AppendDigit(s[..i], s[i]);
      assert s[..i + 1] == s[..i] + [s[i]];
      num := num * 58 + ValueOf(s[i]);
    }
    assert s[..|s|] == s;
    var body := if num != 0 then ToBytesBig(num, (BitLength(num) + 7) / 8) else [];
    DecodedByParts(s, num);
    ZeroTakesNoBytes();
    r := Ok(AsBytes(Zeros(CountOnes(s))) + body);
  }

  lemma ZeroTakesNoBytes()
    ensures ToBytesBig(0, (BitLength(0) + 7) / 8) == []
  {
  }

  /** Both modules encode with the same loop. */
  method EncodeByDivision(b: Bytes) returns (s: string)
    ensures s == Encode(b)
  {
    hide ToNat, FromNat, DigitsOf, Encode, LeadingZeros;
    var value := ToNat(256, AsDigits(b));
    var num := value;
    var out := "";
    NothingEncoded(value);
    while num > 0
      invariant Valid(out) && FromNat(58, value) == FromNat(58, num) + DigitsOf(out)
    {
      DivideShrinks(num, 58);
      var rem := num % 58;
      EncodeStep(num, out);
      num := num / 58;
      out := [CharOf(rem)] + out;
    }
    EncodedByParts(b, out);
    var pad := seq(LeadingZeros(AsDigits(b)), _ => '1');
    s := pad + out;
  }

  lemma NothingEncoded(value: nat)
    ensures Valid("") && FromNat(58, value) == FromNat(58, value) + DigitsOf("")
  {
  }

  lemma EncodeStep(num: nat, out: string)
    requires num > 0 && Valid(out)
    ensures Valid([CharOf(num % 58)] + out)
    ensures FromNat(58, num) + DigitsOf(out) == FromNat(58, num / 58) + DigitsOf([CharOf(num % 58)] + out)
  {
    LastDigit(num);
    hide FromNat, DigitsOf;
    PrependDigit(num % 58, out);
    Reassociate(FromNat(58, num / 58), [num % 58], DigitsOf(out));
  }

  lemma {:induction false} LastDigit(num: nat)
    requires num > 0
    ensures FromNat(58, num) == FromNat(58, num / 58) + [num % 58]
  {
  }

  lemma EncodedByParts(b: Bytes, out: string)
    requires Valid(out) && FromNat(58, ToNat(256, AsDigits(b))) == FromNat(58, 0) + DigitsOf(out)
    ensures seq(LeadingZeros(AsDigits(b)), _ => '1') + out == Encode(b)
  {
    var k, n := LeadingZeros(AsDigits(b)), ToNat(256, AsDigits(b));
    assert FromNat(58, 0) + DigitsOf(out) == DigitsOf(out);
    hide FromNat, ToNat, LeadingZeros, DigitsOf, CharsOf, Zeros, AsDigits;
    assert Encode(b) == CharsOf(Zeros(k) + DigitsOf(out));
    CharsOfPadded(k, out);
  }

  lemma CharsOfPadded(k: nat, out: string)
    requires Valid(out)
    ensures CharsOf(Zeros(k) + DigitsOf(out)) == seq(k, _ => '1') + out
  {
    var ds := Zeros(k) + DigitsOf(out);
    forall i | 0 <= i < |ds|
      ensures CharOf(ds[i]) == (seq(k, _ => '1') + out)[i]
    {
    }
  }

  lemma PrependDigit(d: nat, s: string)
    requires d < 58 && Valid(s)
    ensures DigitsOf([CharOf(d)] + s) == [d] + DigitsOf(s)
  {
    ValueOfCharOf(d);
  }

  // ---------------------------------------------------------------------------
  // Keys
  // ---------------------------------------------------------------------------

  datatype KeyError = BadCharacter(c: char) | WrongLength(got: nat)

  /** `b58key`: a base58 string that must name 32 bytes. */
  function DecodeKey(s: string): Result<Key, KeyError> {
    match Decode(s)
    case Err(e) => Err(BadCharacter(if e.NotBase58? then e.c else ' '))
    case Ok(b) => if |b| != 32 then Err(WrongLength(|b|)) else Ok(b)
  }

  /** The string spells a 32-byte key. */
  predicate NamesKey(s: string) {
    Valid(s) && |Decoded(s)| == 32
  }

  lemma DecodeKeyExact(s: string)
    ensures DecodeKey(s).Ok? <==> NamesKey(s)
    ensures NamesKey(s) ==> DecodeKey(s) == Ok(Decoded(s)) && s != ""
  {
    assert Decoded("") == [] by {
      assert Recode(58, 256, []) == [];
      assert DigitsOf("") == [];
    }
    hide Decoded;
  }

  const NONZERO := "123456789"
  const UPPER := "ABCDEFGHJKLMNPQRSTUVWXYZ"
  const LOWER := "abcdefghijkmnopqrstuvwxyz"

  /** The digits are the characters of the alphabet "1..9A..Za..z" without I, O and l, in its order. */
  lemma AlphabetInOrder(d: nat)
    requires d < 58
    ensures |NONZERO| == 9 && |UPPER| == 24 && |LOWER| == 25
    ensures CharOf(d) == (NONZERO + UPPER + LOWER)[d]
  {
    assert (NONZERO + UPPER + LOWER)[d] ==
      if d < 9 then NONZERO[d] else if d < 33 then UPPER[d - 9] else LOWER[d - 33];
    if d < 9 {
      DigitsInOrder(d);
    } else if d < 33 {
      UpperInOrder(d - 9);
    } else {
      LowerInOrder(d - 33);
    }
  }

  lemma DigitsInOrder(k: nat)
    requires k < 9
    ensures |NONZERO| == 9 && NONZERO[k] == CharOf(k)
  {
  }

  lemma UpperInOrder(k: nat)
    requires k < 24
    ensures |UPPER| == 24 && UPPER[k] == CharOf(k + 9)
  {
  }

  lemma LowerInOrder(k: nat)
    requires k < 25
    ensures |LOWER| == 25 && LOWER[k] == CharOf(k + 33)
  {
  }
}
