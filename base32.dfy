/**
 * The Base32 class: +encode: turns a decimal string of at most ten digits into
 * Douglas Crockford's Base32, and +decode: turns such a string back into the
 * decimal form of the number it denotes.
 *
 * A Base32 string is a number in base 32 written most significant symbol
 * first; the value of each symbol is its position in Alphabet. Decoding is
 * lenient the way Crockford's scheme asks: letters are read case-insensitively,
 * hyphens are ignored, and O, I and L are read as 0, 1 and 1.
 */
module Base32 {
  import opened Positional
  import Decimal

  datatype Option<T> = None | Some(value: T)

  /** Why a string cannot be decoded. */
  datatype DecodeError =
    | EmptyInput              // nothing is left once hyphens are removed
    | InvalidSymbol(symbol: char)  // a character (after normalisation) outside Alphabet

  datatype Result<T> = Success(value: T) | Failure(error: DecodeError)

  /** Crockford's 32 symbols in order of value; I, L, O and U are left out. */
  const Alphabet: string := "0123456789ABCDEFGHJKMNPQRSTVWXYZ"

  /** +encode: accepts at most this many decimal digits. */
  const MaxDecimalDigits: nat := 10

  /** 10^10 <= 32^7, so an encoding never needs more than this many symbols. */
  const MaxSymbols: nat := 7

  // ---------------------------------------------------------------------------
  // The alphabet

  /** The position of the first c in s, if c occurs in s at all. */
  function IndexOf(s: string, c: char): (r: Option<nat>)
    ensures r.Some? ==> r.value < |s| && s[r.value] == c && c !in s[..r.value]
    ensures r.None? <==> c !in s
  {
    if s == [] then None
    else if s[0] == c then Some(0)
    else match IndexOf(s[1..], c)
      case None => None
      case Some(k) => assert s[1..][..k] == s[1..k + 1]; Some(k + 1)
  }

  /** The symbols stand in strictly increasing character order, so no symbol occurs twice. */
  lemma AlphabetIncreasing()
    ensures |Alphabet| == 32
    ensures forall i, j :: 0 <= i < j < |Alphabet| ==> Alphabet[i] < Alphabet[j]
  {
    assert forall i :: 0 <= i < 31 ==> Alphabet[i] < Alphabet[i + 1];
    forall i, j | 0 <= i < j < |Alphabet|
      ensures Alphabet[i] < Alphabet[j]
    {
      AlphabetIncreasingFrom(i, j);
    }
  }

  lemma {:induction false} AlphabetIncreasingFrom(i: nat, j: nat)
    requires i < j < |Alphabet|
    requires forall k :: 0 <= k < |Alphabet| - 1 ==> Alphabet[k] < Alphabet[k + 1]
    ensures Alphabet[i] < Alphabet[j]
    decreases j - i
  {
    if i + 1 < j {
      AlphabetIncreasingFrom(i + 1, j);
    }
  }

  /** The 5-bit value of a symbol, by the ranges of Crockford's table: the digits
      are 0-9, A-H are 10-17, J K are 18 19, M N are 20 21, P-T are 22-26 and
      V-Z are 27-31. Any other character has no value. */
  function SymbolValue(c: char): (r: Option<nat>)
    ensures r.Some? ==> r.value < 32 && Alphabet[r.value] == c
  {
    if '0' <= c <= '9' then Some(c as nat - '0' as nat)
    else if 'A' <= c <= 'H' then Some(c as nat - 'A' as nat + 10)
    else if 'J' <= c <= 'K' then Some(c as nat - 'J' as nat + 18)
    else if 'M' <= c <= 'N' then Some(c as nat - 'M' as nat + 20)
    else if 'P' <= c <= 'T' then Some(c as nat - 'P' as nat + 22)
    else if 'V' <= c <= 'Z' then Some(c as nat - 'V' as nat + 27)
    else None
  }

  /** The characters the decoder accepts. */
  predicate IsSymbol(c: char) {
    SymbolValue(c).Some?
  }

  /** Every symbol of the table has a value: its position. */
  lemma SymbolValueOfDigit(d: nat)
    requires d < 32
    ensures SymbolValue(Alphabet[d]) == Some(d)
  {
    if d < 16 {
      SymbolValueOfLowDigit(d);
    } else {
      SymbolValueOfHighDigit(d);
    }
  }

  lemma SymbolValueOfLowDigit(d: nat)
    requires d < 16
    ensures SymbolValue(Alphabet[d]) == Some(d)
  {
  }

  lemma SymbolValueOfHighDigit(d: nat)
    requires 16 <= d < 32
    ensures SymbolValue(Alphabet[d]) == Some(d)
  {
  }

  lemma AlphabetValues()
    ensures forall d :: 0 <= d < 32 ==> SymbolValue(Alphabet[d]) == Some(d)
  {
    forall d | 0 <= d < 32 {
      SymbolValueOfDigit(d);
    }
  }

  /** The accepted characters are exactly the symbols of the table, and their
      value is their position in it, as IndexOf finds it. */
  lemma SymbolsAreAlphabet(c: char)
    ensures IsSymbol(c) <==> c in Alphabet
    ensures SymbolValue(c) == IndexOf(Alphabet, c)
  {
    if c in Alphabet {
      var k :| 0 <= k < |Alphabet| && Alphabet[k] == c;
      SymbolValueOfDigit(k);
    }
    var r := IndexOf(Alphabet, c);
    if r.Some? {
      AlphabetIncreasing();
      SymbolValueOfDigit(r.value);
    }
  }

  /** No symbol is a lower-case letter, a hyphen, or one of I, L, O and U. */
  lemma SymbolsAreCrockfords(c: char)
    requires IsSymbol(c)
    ensures !('a' <= c <= 'z') && c != '-'
    ensures c != 'I' && c != 'L' && c != 'O' && c != 'U'
  {
  }

  /** Every character of t is a symbol of the alphabet. */
  predicate IsBase32(t: string) {
    forall i :: 0 <= i < |t| ==> IsSymbol(t[i])
  }

  /** The form +encode: returns: at least one symbol, and no leading 0 except in "0". */
  predicate IsCanonicalBase32(t: string) {
    |t| > 0 && IsBase32(t) && (t[0] == '0' ==> |t| == 1)
  }

  /** The values of the symbols of t. */
  function SymbolValues(t: string): (ds: seq<nat>)
    requires IsBase32(t)
    ensures |ds| == |t| && AreDigits(ds, 32)
    ensures forall i :: 0 <= i < |t| ==> Alphabet[ds[i]] == t[i]
  {
    seq(|t|, i requires 0 <= i < |t| => SymbolValue(t[i]).value)
  }

  /** The number a string of symbols denotes, most significant symbol first. */
  function Base32Value(t: string): nat
    requires IsBase32(t)
  {
    FromDigits(SymbolValues(t), 32)
  }

  /** The symbols that spell the values ds. */
  function Spell(ds: seq<nat>): (t: string)
    requires AreDigits(ds, 32)
    ensures |t| == |ds| && IsBase32(t)
  {
    AlphabetValues();
    seq(|ds|, i requires 0 <= i < |ds| => Alphabet[ds[i]])
  }

  /** Spelling values and reading them back gives the values again. */
  lemma SpellThenRead(ds: seq<nat>)
    requires AreDigits(ds, 32)
    ensures SymbolValues(Spell(ds)) == ds
    ensures IsCanonical(ds, 32) ==> IsCanonicalBase32(Spell(ds))
  {
    var t := Spell(ds);
    forall i | 0 <= i < |ds|
      ensures SymbolValues(t)[i] == ds[i]
    {
      SymbolValueOfDigit(ds[i]);
    }
    if |ds| > 0 && ds[0] != 0 {
      AlphabetIncreasing();
      assert t[0] == Alphabet[ds[0]] != Alphabet[0];
    }
  }

  /** Reading symbols and spelling their values gives the symbols again. */
  lemma ReadThenSpell(t: string)
    requires IsBase32(t)
    ensures Spell(SymbolValues(t)) == t
    ensures IsCanonicalBase32(t) ==> IsCanonical(SymbolValues(t), 32)
  {
  }

  // ---------------------------------------------------------------------------
  // Encoding

  /** What +encode: accepts: a decimal number of one to ten digits. */
  predicate IsEncodable(s: string) {
    0 < |s| <= MaxDecimalDigits && Decimal.IsDecimal(s)
  }

  /** Ten decimal digits stay below 32^7. */
  lemma EncodableBound(s: string)
    requires IsEncodable(s)
    ensures Decimal.Value(s) < Pow(32, MaxSymbols)
  {
    Decimal.ValueBound(s);
    PowMonotonic(10, |s|, MaxDecimalDigits);
    assert Pow(10, 10) == 10000000000;
    assert Pow(32, 7) == 34359738368;
  }

  /** +encode: the base-32 digits of the number, most significant first,
      each written as its symbol. */
  function Encode(s: string): (r: string)
    requires IsEncodable(s)
    ensures 0 < |r| <= MaxSymbols
    ensures IsCanonicalBase32(r)
    ensures Base32Value(r) == Decimal.Value(s)
  {
    var n := Decimal.Value(s);
    var ds := ToDigits(n, 32);
    EncodableBound(s);
    ToDigitsLength(n, 32, MaxSymbols);
    FromToDigits(n, 32);
    SpellThenRead(ds);
    Spell(ds)
  }

  /** +encode: never produces a lower-case letter or one of I, L, O and U. */
  lemma EncodeUsesCrockfordSymbols(s: string)
    requires IsEncodable(s)
    ensures forall i :: 0 <= i < |Encode(s)| ==>
      !('a' <= Encode(s)[i] <= 'z') &&
      Encode(s)[i] != 'I' && Encode(s)[i] != 'L' && Encode(s)[i] != 'O' && Encode(s)[i] != 'U'
  {
    var r := Encode(s);
    forall i | 0 <= i < |r|
      ensures !('a' <= r[i] <= 'z') && r[i] != 'I' && r[i] != 'L' && r[i] != 'O' && r[i] != 'U'
    {
      SymbolsAreCrockfords(r[i]);
    }
  }

  // ---------------------------------------------------------------------------
  // Normalisation before decoding

  /** Upper-cases an ASCII letter; every other character is left as it is. */
  function UpperChar(c: char): char {
    if 'a' <= c <= 'z' then (c as int - 'a' as int + 'A' as int) as char else c
  }

  /** Step 1: upper-case every letter. */
  function ToUpper(s: string): (r: string)
    ensures |r| == |s|
    ensures forall i :: 0 <= i < |s| ==> r[i] == UpperChar(s[i])
  {
    if s == [] then [] else [UpperChar(s[0])] + ToUpper(s[1..])
  }

  /** Step 2: drop the hyphens, keeping every other character in order. */
  function RemoveHyphens(s: string): (r: string)
    ensures '-' !in r
    ensures forall c :: c != '-' ==> multiset(r)[c] == multiset(s)[c]
  {
    if s == [] then []
    else
      assert s == [s[0]] + s[1..];
      if s[0] == '-' then RemoveHyphens(s[1..]) else [s[0]] + RemoveHyphens(s[1..])
  }

  /** Crockford's reading of the letters that look like digits: O is 0, I and L are 1. */
  function SubstituteChar(c: char): char {
    if c == 'O' then '0' else if c == 'I' || c == 'L' then '1' else c
  }

  /** Step 3: replace every look-alike letter by the digit it stands for. */
  function Substitute(s: string): (r: string)
    ensures |r| == |s|
    ensures forall i :: 0 <= i < |s| ==> r[i] == SubstituteChar(s[i])
  {
    if s == [] then [] else [SubstituteChar(s[0])] + Substitute(s[1..])
  }

  /** The string +decode: reads symbol by symbol. */
  function Normalize(s: string): string {
    Substitute(RemoveHyphens(ToUpper(s)))
  }

  lemma {:induction false} RemoveHyphensAppend(a: string, b: string)
    ensures RemoveHyphens(a + b) == RemoveHyphens(a) + RemoveHyphens(b)
    decreases |a|
  {
    if a == [] {
      assert a + b == b;
    } else {
      assert (a + b)[1..] == a[1..] + b;
      RemoveHyphensAppend(a[1..], b);
    }
  }

  /** Normalisation works character by character. */
  lemma NormalizeAppend(a: string, b: string)
    ensures Normalize(a + b) == Normalize(a) + Normalize(b)
  {
    ToUpperAppend(a, b);
    RemoveHyphensAppend(ToUpper(a), ToUpper(b));
    SubstituteAppend(RemoveHyphens(ToUpper(a)), RemoveHyphens(ToUpper(b)));
  }

  lemma ToUpperAppend(a: string, b: string)
    ensures ToUpper(a + b) == ToUpper(a) + ToUpper(b)
  {
    var l, r := ToUpper(a + b), ToUpper(a) + ToUpper(b);
    assert |l| == |r|;
    forall i | 0 <= i < |l|
      ensures l[i] == r[i]
    {
      if i < |a| {
        assert (a + b)[i] == a[i];
      } else {
        assert (a + b)[i] == b[i - |a|];
      }
    }
  }

  lemma SubstituteAppend(a: string, b: string)
    ensures Substitute(a + b) == Substitute(a) + Substitute(b)
  {
    var l, r := Substitute(a + b), Substitute(a) + Substitute(b);
    assert |l| == |r|;
    forall i | 0 <= i < |l|
      ensures l[i] == r[i]
    {
      if i < |a| {
        assert (a + b)[i] == a[i];
      } else {
        assert (a + b)[i] == b[i - |a|];
      }
    }
  }

  lemma {:induction false} RemoveHyphensNone(s: string)
    requires '-' !in s
    ensures RemoveHyphens(s) == s
    decreases |s|
  {
    if s != [] {
      assert s[1..] == s[|s| - |s[1..]|..];
      assert '-' !in s[1..];
      RemoveHyphensNone(s[1..]);
      assert s == [s[0]] + s[1..];
    }
  }

  /** A string of symbols is already in normal form. */
  lemma NormalizeSymbols(t: string)
    requires IsBase32(t)
    ensures Normalize(t) == t
  {
    assert ToUpper(t) == t;
    assert '-' !in t;
    RemoveHyphensNone(t);
    assert Substitute(t) == t;
  }

  // ---------------------------------------------------------------------------
  // Decoding

  /** The decoding loop: for each character left to right,
      acc := acc * 32 + its value; the first character outside Alphabet stops it. */
  function Accumulate(acc: nat, t: string): (r: Result<nat>)
    ensures r.Success? <==> IsBase32(t)
    ensures r.Failure? ==> r.error.InvalidSymbol? && r.error.symbol in t && !IsSymbol(r.error.symbol)
    decreases |t|
  {
    if t == [] then Success(acc)
    else match SymbolValue(t[0])
      case None => Failure(InvalidSymbol(t[0]))
      case Some(v) => IsBase32Tail(t); Accumulate(acc * 32 + v, t[1..])
  }

  lemma IsBase32Tail(t: string)
    requires t != []
    ensures IsBase32(t) <==> IsSymbol(t[0]) && IsBase32(t[1..])
  {
    assert forall i :: 1 <= i < |t| ==> t[i] == t[1..][i - 1];
  }

  /** The loop folds the symbol values into the accumulator. */
  lemma {:induction false} AccumulateFolds(acc: nat, t: string)
    requires IsBase32(t)
    ensures Accumulate(acc, t) == Success(FoldDigits(acc, SymbolValues(t), 32))
    decreases |t|
  {
    if t != [] {
      var v := SymbolValue(t[0]).value;
      IsBase32Tail(t);
      assert Accumulate(acc, t) == Accumulate(acc * 32 + v, t[1..]);
      var ds := SymbolValues(t);
      assert ds[0] == v && ds[1..] == SymbolValues(t[1..]);
      assert FoldDigits(acc, ds, 32) == FoldDigits(acc * 32 + v, ds[1..], 32);
      AccumulateFolds(acc * 32 + v, t[1..]);
    }
  }

  /** Started from 0, the loop computes the value of the whole string. */
  lemma AccumulateReads(t: string)
    requires IsBase32(t)
    ensures Accumulate(0, t) == Success(Base32Value(t))
  {
    AccumulateFolds(0, t);
    FoldDigitsContinues([], SymbolValues(t), 32);
    assert [] + SymbolValues(t) == SymbolValues(t);
  }

  /** +decode: normalise, fold the symbols into a number, print it in decimal. */
  function Decode(s: string): (r: Result<string>)
    ensures r == Failure(EmptyInput) <==> Normalize(s) == []
    ensures r.Success? <==> Normalize(s) != [] && IsBase32(Normalize(s))
    ensures r.Failure? && r.error.InvalidSymbol? ==>
      r.error.symbol in Normalize(s) && !IsSymbol(r.error.symbol)
    ensures r.Success? ==>
      Decimal.IsCanonicalDecimal(r.value) && Decimal.Value(r.value) == Base32Value(Normalize(s))
  {
    var t := Normalize(s);
    if t == [] then Failure(EmptyInput)
    else match Accumulate(0, t)
      case Failure(e) => Failure(e)
      case Success(n) => AccumulateReads(t); Success(Decimal.Print(n))
  }

  // ---------------------------------------------------------------------------
  // Round trips

  /** +decode: gives back the decimal value that +encode: was given, in canonical
      form; a decimal string without leading zeros comes back unchanged. */
  lemma EncodeThenDecode(s: string)
    requires IsEncodable(s)
    ensures Decode(Encode(s)) == Success(Decimal.Print(Decimal.Value(s)))
    ensures Decimal.IsCanonicalDecimal(s) ==> Decode(Encode(s)) == Success(s)
  {
    var r := Encode(s);
    NormalizeSymbols(r);
    var v := Decode(r).value;
    Decimal.PrintValue(v);
    if Decimal.IsCanonicalDecimal(s) {
      Decimal.PrintValue(s);
    }
  }

  /** Every canonical Base32 string decodes, and one whose value fits in ten
      decimal digits is given back by +encode:. */
  lemma DecodeThenEncode(t: string)
    requires IsCanonicalBase32(t)
    ensures Decode(t).Success?
    ensures |Decode(t).value| <= MaxDecimalDigits ==> Encode(Decode(t).value) == t
  {
    NormalizeSymbols(t);
    var v := Decode(t).value;
    if |v| <= MaxDecimalDigits {
      ReadThenSpell(t);
      ToFromDigits(SymbolValues(t), 32);
    }
  }

  // ---------------------------------------------------------------------------
  // Leniency of decoding

  /** Letters are read without regard to case. */
  lemma DecodeIgnoresCase(s: string, s': string)
    requires |s| == |s'|
    requires forall i :: 0 <= i < |s| ==> UpperChar(s[i]) == UpperChar(s'[i])
    ensures Decode(s) == Decode(s')
  {
    assert ToUpper(s) == ToUpper(s');
  }

  /** A hyphen anywhere is ignored. */
  lemma DecodeIgnoresHyphen(a: string, b: string)
    ensures Decode(a + "-" + b) == Decode(a + b)
  {
    assert Normalize("-") == Normalize([]);
    NormalizeSplice(a, "-", [], b);
    assert a + [] + b == a + b;
  }

  /** O and o are read as 0; I, i, L and l are read as 1. */
  lemma DecodeReadsLookAlikes(a: string, c: char, b: string)
    requires c in "OoIiLl"
    ensures Decode(a + [c] + b) == Decode(a + [if c == 'O' || c == 'o' then '0' else '1'] + b)
  {
    var d := if c == 'O' || c == 'o' then '0' else '1';
    assert Normalize([c]) == Normalize([d]) by {
      assert ToUpper([c]) == [UpperChar(c)];
      assert ToUpper([d]) == [d];
      assert RemoveHyphens([UpperChar(c)]) == [UpperChar(c)];
      assert RemoveHyphens([d]) == [d];
    }
    NormalizeSplice(a, [c], [d], b);
  }

  /** Replacing a piece by one with the same normal form keeps the normal form. */
  lemma NormalizeSplice(a: string, x: string, y: string, b: string)
    requires Normalize(x) == Normalize(y)
    ensures Normalize(a + x + b) == Normalize(a + y + b)
  {
    NormalizeAppend(a + x, b);
    NormalizeAppend(a, x);
    NormalizeAppend(a + y, b);
    NormalizeAppend(a, y);
  }

  // ---------------------------------------------------------------------------
  // Worked examples

  /** A number has exactly one canonical Base32 spelling. */
  lemma CanonicalBase32Unique(t: string, t': string)
    requires IsCanonicalBase32(t) && IsCanonicalBase32(t')
    requires Base32Value(t) == Base32Value(t')
    ensures t == t'
  {
    ReadThenSpell(t);
    ReadThenSpell(t');
    ToFromDigits(SymbolValues(t), 32);
    ToFromDigits(SymbolValues(t'), 32);
  }

  /** A canonical Base32 string and a canonical decimal string of at most ten
      digits that denote the same number are each other's encoding and decoding. */
  lemma CodecPair(t: string, s: string)
    requires IsCanonicalBase32(t) && Decimal.IsCanonicalDecimal(s) && |s| <= MaxDecimalDigits
    requires Base32Value(t) == Decimal.Value(s)
    ensures Encode(s) == t && Decode(t) == Success(s)
  {
    CanonicalBase32Unique(Encode(s), t);
    EncodeThenDecode(s);
  }

  /** Zero is the single symbol 0 both ways. */
  lemma ZeroExample()
    ensures Encode("0") == "0" && Decode("0") == Success("0")
  {
    assert SymbolValue('0') == Some(0);
    assert SymbolValues("0") == [0];
    assert Decimal.DigitValues("0") == [0];
    CodecPair("0", "0");
  }

  /** "9999999999" is the canonical decimal form of 9999999999. */
  lemma LargestTenDigitDecimal(s: string)
    requires s == "9999999999"
    ensures Decimal.IsCanonicalDecimal(s) && Decimal.Value(s) == 9999999999
  {
    assert Decimal.Print(9999999999) == s;
  }

  lemma LargestTenDigitDigits()
    ensures ToDigits(9999999999, 32) == [9, 10, 0, 23, 24, 31, 31]
  {
  }

  /** "9A0QRZZ" is the canonical Base32 spelling of 9999999999. */
  lemma LargestTenDigitBase32(t: string)
    requires t == "9A0QRZZ"
    ensures IsCanonicalBase32(t) && Base32Value(t) == 9999999999
  {
    var ds: seq<nat> := [9, 10, 0, 23, 24, 31, 31];
    LargestTenDigitDigits();
    assert Spell(ds) == t;
    SpellThenRead(ds);
    FromToDigits(9999999999, 32);
  }

  /** The largest ten-digit number needs all seven symbols. */
  lemma LargestTenDigitExample(s: string, t: string)
    requires s == "9999999999" && t == "9A0QRZZ"
    ensures Encode(s) == t && Decode(t) == Success(s)
  {
    LargestTenDigitDecimal(s);
    LargestTenDigitBase32(t);
    CodecPair(t, s);
  }

  /** A string of hyphens alone has nothing to decode. */
  lemma EmptyInputExample()
    ensures Decode("-") == Failure(EmptyInput)
  {
    assert Normalize("-") == [];
  }
}
