/** The nucleotide alphabet of the `dna` crate, its two parsers and the 2-bit code table
    that the packed container stores. */
module Nucleotide {

  /** A nucleotide: Adenine, Cytosine, Guanine or Thymine. */
  datatype Nuc = A | C | G | T

  /** The outcome of a fallible operation. */
  datatype Result<T, E> = Ok(value: T) | Err(error: E)

  /** A parse failure, carrying the input unit (a character or a string) that was refused. */
  datatype ParseNucError<T> = ParseNucError(unit: T)

  /** ASCII upper-casing: 'a'..'z' become 'A'..'Z'; every other character is left as it is. */
  function ToAsciiUpper(c: char): char
  {
    if 'a' <= c <= 'z' then (c as int - 32) as char else c
  }

  /** ASCII upper-casing of every character of a string: the result has no ASCII lower-case
      letter left, and each character names a nucleotide exactly when the original did. */
  function UpperStr(s: string): (u: string)
    ensures |u| == |s|
    ensures forall k :: 0 <= k < |u| ==> !('a' <= u[k] <= 'z')
    ensures forall k :: 0 <= k < |s| ==> (IsNucLetter(u[k]) <==> IsNucLetter(s[k]))
  {
    seq(|s|, k requires 0 <= k < |s| => ToAsciiUpper(s[k]))
  }

  /** The eight characters that name a nucleotide, in either case. */
  predicate IsNucLetter(c: char)
  {
    c == 'A' || c == 'a' || c == 'C' || c == 'c' || c == 'G' || c == 'g' || c == 'T' || c == 't'
  }

  /** The upper-case letter that names a nucleotide. */
  function Letter(n: Nuc): char
  {
    match n
    case A => 'A'
    case C => 'C'
    case G => 'G'
    case T => 'T'
  }

  /** Parses one character, ignoring ASCII case. The error carries the character as given,
      not its upper-cased form. */
  function TryFromChar(c: char): (r: Result<Nuc, ParseNucError<char>>)
    ensures r.Ok? <==> IsNucLetter(c)
    ensures r.Ok? ==> Letter(r.value) == ToAsciiUpper(c)
    ensures r.Err? ==> r.error == ParseNucError(c)
  {
    match ToAsciiUpper(c)
    case 'A' => Ok(A)
    case 'C' => Ok(C)
    case 'G' => Ok(G)
    case 'T' => Ok(T)
    case _ => Err(ParseNucError(c))
  }

  /** Parses a string that must spell exactly one nucleotide, ignoring ASCII case. The error
      carries the upper-cased input. */
  function FromStr(s: string): (r: Result<Nuc, ParseNucError<string>>)
    ensures r.Ok? <==> |s| == 1 && IsNucLetter(s[0])
    ensures r.Ok? ==> TryFromChar(s[0]) == Ok(r.value)
    ensures r.Err? ==> r.error == ParseNucError(UpperStr(s))
  {
    var upper := UpperStr(s);
    if upper == "A" then Ok(A)
    else if upper == "C" then Ok(C)
    else if upper == "G" then Ok(G)
    else if upper == "T" then Ok(T)
    else Err(ParseNucError(upper))
  }

  /** The 2-bit code of a nucleotide: A=0, C=1, G=2, T=3. */
  function Code(n: Nuc): (b: bv8)
    ensures b < 4
  {
    match n
    case A => 0
    case C => 1
    case G => 2
    case T => 3
  }

  /** Decodes a 2-bit code; the nucleotide returned is the only one with that code, so
      `Code` is a bijection from `Nuc` onto {0, 1, 2, 3} and this is its inverse. */
  function FromCode(b: bv8): (n: Nuc)
    requires b < 4
    ensures Code(n) == b
    ensures forall m :: Code(m) == b <==> m == n
  {
    if b == 0 then A
    else if b == 1 then C
    else if b == 2 then G
    else T
  }

  /** The unit tests of the crate: each upper-case character and each lower-case one-letter
      string parses to its nucleotide. */
  lemma SourceTests()
    ensures TryFromChar('A') == Ok(A) && TryFromChar('C') == Ok(C)
    ensures TryFromChar('G') == Ok(G) && TryFromChar('T') == Ok(T)
    ensures FromStr("a") == Ok(A) && FromStr("c") == Ok(C)
    ensures FromStr("g") == Ok(G) && FromStr("t") == Ok(T)
  {
  }
}
