# Crockford Base32 codec for decimal numbers

This project models the Objective-C library declared in `Base32/Base32.h`. It
converts a non-negative decimal number, held as a string of at most ten
digits, into Douglas Crockford's Base32 and back. It also proves properties of
that model.

The symbols are the 32 characters `0123456789ABCDEFGHJKMNPQRSTVWXYZ`; the
letters I, L, O and U are left out. A symbol's position in that list is its
5-bit value. The header declares the same two operations twice:

- as class methods of `Base32`: `+encode:` and `+decode:` (module `Base32`,
  file `base32.dfy`);
- as methods of the `NSString (Base32Crockford)` category, applied to the
  receiver: `-base32EncodedString` and `-decodeBase32String` (module
  `Base32Crockford`, file `base32_crockford.dfy`).

The operations keep no state, so every one of them is a pure function. Two
supporting modules hold the arithmetic:

- `Positional` (`positional.dfy`) covers numbers written as digit sequences in
  any base, most significant digit first. `ToDigits` splits off `n % base` and
  recurses on `n / base`. `FromDigits` reads digits back. `FoldDigits` is the
  left fold `acc * base + d` that the decoder runs.
- `Decimal` (`decimal.dfy`) covers decimal strings: their value and the
  canonical way to print a number.

Encoding parses the decimal string and writes the number's base-32 digits as
symbols. Decoding first normalises the input in three steps: it upper-cases
letters, drops hyphens, and reads O as 0 and I and L as 1. It then folds the
symbols left to right into a number and prints that number in decimal. A
character that is not a symbol after normalisation makes decoding fail with
`InvalidSymbol(c)`. An input with nothing left after normalisation fails with
`EmptyInput`.

The implementation file `Base32/Base32.m` is not part of this model. The
behaviour is the one the header's doc comments promise, together with the
Crockford scheme the header cites (Base32/Base32.h:42, :52, :69, :81).

## Model

| member | source | states |
|---|---|---|
| Positional.ToDigits | Base32/Base32.h:60-71 | the base-b digits of n form a canonical spelling: at least one digit, each below b, and a leading 0 only when n is 0 |
| Positional.FromToDigits | Base32/Base32.h:67 | reading back the digits of n gives n |
| Positional.ToFromDigits | Base32/Base32.h:74-79 | a canonical spelling is exactly the digit sequence of the number it denotes, so each number has one canonical spelling |
| Positional.FromDigitsBound | Base32/Base32.h:63-65 | k digits denote a number below b^k |
| Positional.ToDigitsLength | Base32/Base32.h:63-65 | a number below b^k has at most k digits |
| Positional.FoldDigitsContinues | Base32/Base32.h:83 | folding digits left to right with acc * b + d, starting from the value of a prefix, gives the value of prefix and digits together |
| Positional.PowMonotonic | Base32/Base32.h:63-65 | b^j <= b^k when j <= k |
| Decimal.Print | Base32/Base32.h:79 | the decimal string of n is canonical (digits only, no leading zero except "0") and denotes n |
| Decimal.PrintValue | Base32/Base32.h:74-79 | a canonical decimal string is the printed form of its own value |
| Decimal.ValueBound | Base32/Base32.h:63-65 | a string of k decimal digits denotes a number below 10^k |
| Base32.IndexOf | Base32/Base32.h:81 | the result is the position of the first occurrence of c, with c absent before it; there is no result exactly when c does not occur |
| Base32.AlphabetIncreasing | Base32/Base32.h:69 | the table has 32 symbols in strictly increasing order, so no symbol occurs twice |
| Base32.SymbolValue | Base32/Base32.h:81 | a character that has a value v is the symbol at position v of the table, and v is below 32 |
| Base32.SymbolValueOfDigit | Base32/Base32.h:69 | the symbol at position d reads back as the value d, for every d below 32 |
| Base32.SymbolsAreAlphabet | Base32/Base32.h:81 | the decoder accepts exactly the characters in the table, and a character's value is its position as IndexOf finds it |
| Base32.SymbolsAreCrockfords | Base32/Base32.h:35-42 | no symbol is a lower-case letter, a hyphen, or one of I, L, O and U |
| Base32.SpellThenRead | Base32/Base32.h:67 | writing values as symbols and reading them back gives the values; a canonical spelling gives a canonical Base32 string |
| Base32.ReadThenSpell | Base32/Base32.h:79 | reading symbols and writing their values gives the symbols; a canonical Base32 string has a canonical value sequence |
| Base32.EncodableBound | Base32/Base32.h:63-65 | a number of at most ten decimal digits is below 32^7 |
| Base32.Encode | Base32/Base32.h:60-71 | for a decimal string of one to ten digits, the result has one to seven symbols, is canonical Base32, and denotes, read in base 32, the value of the input |
| Base32.EncodeUsesCrockfordSymbols | Base32/Base32.h:35-42 | the encoding never contains a lower-case letter or any of I, L, O and U |
| Base32.ToUpper | Base32/Base32.h:81 | same length as the input, with every ASCII letter upper-cased and every other character kept |
| Base32.RemoveHyphens | Base32/Base32.h:81 | the result holds no hyphen and keeps every other character the same number of times |
| Base32.Substitute | Base32/Base32.h:81 | same length as the input, with O replaced by 0, I and L replaced by 1, and every other character kept |
| Base32.RemoveHyphensAppend | Base32/Base32.h:81 | removing hyphens works piece by piece over a concatenation, so order is kept |
| Base32.NormalizeAppend | Base32/Base32.h:81 | normalisation works piece by piece over a concatenation |
| Base32.NormalizeSymbols | Base32/Base32.h:81 | a string made only of symbols is its own normal form |
| Base32.Accumulate | Base32/Base32.h:83 | the decoding fold succeeds exactly when every character is a symbol; on failure it names a character of the input that is not a symbol |
| Base32.AccumulateFolds | Base32/Base32.h:83 | on a string of symbols, the decoding fold computes the left fold acc * 32 + value |
| Base32.AccumulateReads | Base32/Base32.h:83 | started from 0, the decoding fold yields the base-32 value of the string |
| Base32.Decode | Base32/Base32.h:73-83 | fails with EmptyInput exactly when normalisation leaves nothing; succeeds exactly when the normal form is non-empty and all symbols; an InvalidSymbol error names a character of the normal form that is not a symbol; a success is a canonical decimal string that denotes the base-32 value of the normal form |
| Base32.EncodeThenDecode | Base32/Base32.h:74-79 | decoding an encoding gives back the canonical decimal form of the encoded number, and gives back the input itself when it has no leading zeros |
| Base32.DecodeThenEncode | Base32/Base32.h:73-83 | every canonical Base32 string decodes, and encoding the result (when it has at most ten digits) gives back the string |
| Base32.CanonicalBase32Unique | Base32/Base32.h:67 | two canonical Base32 strings that denote the same number are equal |
| Base32.CodecPair | Base32/Base32.h:60-83 | a canonical Base32 string and a canonical decimal string of at most ten digits that denote the same number are each other's encoding and decoding |
| Base32.DecodeIgnoresCase | Base32/Base32.h:81 | two strings that differ only in the case of their letters decode alike |
| Base32.DecodeIgnoresHyphen | Base32/Base32.h:81 | inserting a hyphen anywhere does not change the decoding |
| Base32.DecodeReadsLookAlikes | Base32/Base32.h:81 | O and o decode as 0, and I, i, L and l decode as 1, wherever they occur |
| Base32.NormalizeSplice | Base32/Base32.h:81 | replacing a piece of a string by one with the same normal form keeps the normal form of the whole string |
| Base32.ZeroExample | Base32/Base32.h:60-83 | "0" encodes as "0" and decodes as "0" |
| Base32.LargestTenDigitExample | Base32/Base32.h:63-65 | "9999999999", the largest ten-digit input, encodes as the seven symbols "9A0QRZZ", which decode back to it |
| Base32.EmptyInputExample | Base32/Base32.h:73-83 | a string of only a hyphen fails to decode with EmptyInput |
| Base32Crockford.Base32EncodedString | Base32/Base32.h:31-44 | the category method is +encode: applied to the receiver, so it is canonical Base32 with the receiver's value |
| Base32Crockford.DecodeBase32String | Base32/Base32.h:46-54 | the category method is +decode: applied to the receiver; a success is the canonical decimal form of the receiver's base-32 value |
| Base32Crockford.CategoryRoundTrip | Base32/Base32.h:46-54 | decoding the category encoding of a canonical decimal receiver gives back the receiver |

## Left out

- Base32.Encode: a string with more than ten digits, an empty string, or one with non-digit characters is excluded by a precondition. The header requires callers to pass a decimal number of at most ten digits (Base32/Base32.h:37-38, :63-65), so what the implementation returns otherwise, including 64-bit overflow, is not modelled.
- Base32.Decode: the decoded number is unbounded. The implementation's integer width, and any wrap-around on inputs longer than twelve symbols, is not modelled, because the header states no limit for decoding.
- Base32.Decode: an input that is empty after normalisation fails with `EmptyInput`. A bare fold would return "0" instead, and the header does not say which the implementation does.
- Base32.Decode: an `InvalidSymbol` error names the character after normalisation. For example, `u` is reported as `U`.
- Base32.ToUpper: only the ASCII letters a-z are upper-cased. Foundation's Unicode case mapping is not modelled.
- Crockford's optional check symbols (`*~$=U`) are not modelled, because the header declares none.
- The Objective-C runtime is not modelled: category injection, `NSObject`, a nil receiver or argument, and `NSString` memory management. The category methods are the class methods applied to the receiver.
- `Base32/Base32.m`, the implementation, is not part of this model.
