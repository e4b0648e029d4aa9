/** `price_from_str`: keep only ASCII digits and '.', then hand the rest to the decimal parser. */
module Price {
  import opened Wrappers
  import opened Externals
  import opened Seqs

  /** `c.is_digit(10) || c == '.'` */
  predicate IsPriceChar(c: char) {
    '0' <= c <= '9' || c == '.'
  }

  /** The cleaned string that is handed to the decimal parser. */
  function Sanitize(s: string): (r: string)
    ensures |r| <= |s|
    ensures forall i :: 0 <= i < |r| ==> IsPriceChar(r[i])
  {
    Filter(IsPriceChar, s)
  }

  /** `price_from_str`; the `rust_decimal::Error` payload is not used by any caller. */
  function PriceFromStr(p: Parsers, s: string): (r: Option<Decimal>)
    ensures (forall i :: 0 <= i < |s| ==> IsPriceChar(s[i])) ==> r == p.parseDecimal(s)
  {
    SanitizeCleanInput(s);
    p.parseDecimal(Sanitize(s))
  }

  /** The cleaned string is exactly the price characters of the input, in their original order:
      cleaning a concatenation is concatenating the cleaned parts, and a single character is kept
      exactly when it is a digit or '.'. */
  lemma SanitizeKeepsOrder(a: string, b: string, c: char)
    ensures Sanitize(a + b) == Sanitize(a) + Sanitize(b)
    ensures Sanitize([c]) == if IsPriceChar(c) then [c] else []
  {
    FilterConcat(IsPriceChar, a, b);
    assert [c][1..] == [];
  }

  /** Every character handed to the parser is a digit or '.', and every such input character
      is handed on: `Filter`'s own contract, instantiated with the price characters. */
  lemma SanitizeContents(s: string)
    ensures forall i :: 0 <= i < |Sanitize(s)| ==> IsPriceChar(Sanitize(s)[i]) && Sanitize(s)[i] in s
    ensures forall i :: 0 <= i < |s| && IsPriceChar(s[i]) ==> s[i] in Sanitize(s)
    ensures |Sanitize(s)| <= |s|
  {
  }

  /** A string made only of digits and '.' is handed on as it is, and only such a string is. */
  lemma SanitizeCleanInput(s: string)
    ensures Sanitize(s) == s <==> forall i :: 0 <= i < |s| ==> IsPriceChar(s[i])
  {
    FilterIdentity(IsPriceChar, s);
  }

  /** Cleaning is idempotent, so a price that was already cleaned parses the same way again. */
  lemma PriceFromStrIdempotent(p: Parsers, s: string)
    ensures PriceFromStr(p, Sanitize(s)) == PriceFromStr(p, s)
  {
    FilterIdempotent(IsPriceChar, s);
  }

  /** Characters other than digits and '.' (currency signs, thousands separators, spaces) do not
      affect the parsed price. */
  lemma PriceFromStrIgnoresNoise(p: Parsers, a: string, b: string, c: char)
    requires !IsPriceChar(c)
    ensures PriceFromStr(p, a + [c] + b) == PriceFromStr(p, a + b)
  {
    SanitizeKeepsOrder(a + [c], b, c);
    SanitizeKeepsOrder(a, [c], c);
    SanitizeKeepsOrder(a, b, c);
    assert Sanitize(a) + [] == Sanitize(a);
  }
}
