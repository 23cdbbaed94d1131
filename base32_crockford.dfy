/**
 * The NSString (Base32Crockford) category: the two codec operations offered on
 * the receiver string. Each is the class method of module Base32 applied to the
 * receiver, so it inherits that method's promises.
 */
module Base32Crockford {
  import Base32
  import Decimal

  /** -base32EncodedString: the receiver, a decimal number of at most ten digits, in Base32. */
  function Base32EncodedString(self: string): (r: string)
    requires Base32.IsEncodable(self)
    ensures r == Base32.Encode(self)
    ensures Base32.IsCanonicalBase32(r) && Base32.Base32Value(r) == Decimal.Value(self)
  {
    Base32.Encode(self)
  }

  /** -decodeBase32String: the decimal value of the receiver, read as Base32. */
  function DecodeBase32String(self: string): (r: Base32.Result<string>)
    ensures r == Base32.Decode(self)
    ensures r.Success? ==>
      Decimal.IsCanonicalDecimal(r.value) &&
      Decimal.Value(r.value) == Base32.Base32Value(Base32.Normalize(self))
  {
    Base32.Decode(self)
  }

  /** The two category methods undo each other the way the class methods do. */
  lemma CategoryRoundTrip(self: string)
    requires Base32.IsEncodable(self) && Decimal.IsCanonicalDecimal(self)
    ensures DecodeBase32String(Base32EncodedString(self)) == Base32.Success(self)
  {
    Base32.EncodeThenDecode(self);
  }
}
