/** Values as an author writes them, byte by byte: the five entities of section 4.6 of XML 1.0, character references
    (section 4.1) and line ends (section 2.11), with what they stand for. */
module WrittenValues {
  import opened XmlChars
  import opened CharacterReferences

  datatype Piece = Plain(c: char) | Break(spelling: string) | Named(name: string) | Numbered(digits: string, hex: bool)

  /** What a piece looks like. */
  function Spelling(p: Piece): (r: string)
    ensures ProperPiece(true, p) || ProperPiece(false, p) ==> r != ""
  {
    match p
    case Plain(c) => [c]
    case Break(s) => s
    case Named(name) => "&" + name + ";"
    case Numbered(digits, hex) => (if hex then "&#x" else "&#") + digits + ";"
  }

  /** What a piece stands for. */
  function Meaning(p: Piece): string {
    match p
    case Plain(c) => [c]
    case Break(_) => "\n"
    case Named(name) =>
      if name == "amp" then "&" else if name == "lt" then "<" else if name == "gt" then ">"
      else if name == "quot" then "\"" else "'"
    case Numbered(digits, hex) => Utf8(Number(digits, hex))
  }

  function Written(ps: seq<Piece>): string {
    if ps == [] then "" else Spelling(ps[0]) + Written(ps[1..])
  }

  function Meant(ps: seq<Piece>): string {
    if ps == [] then "" else Meaning(ps[0]) + Meant(ps[1..])
  }

  function Digit(c: char): nat {
    match c
    case '0' => 0 case '1' => 1 case '2' => 2 case '3' => 3 case '4' => 4
    case '5' => 5 case '6' => 6 case '7' => 7 case '8' => 8 case '9' => 9
    case 'a' => 10 case 'b' => 11 case 'c' => 12 case 'd' => 13 case 'e' => 14 case 'f' => 15
    case 'A' => 10 case 'B' => 11 case 'C' => 12 case 'D' => 13 case 'E' => 14 case 'F' => 15
    case _ => 0
  }

  function Number(digits: string, hex: bool): nat {
    if digits == "" then 0
    else Number(digits[..|digits| - 1], hex) * (if hex then 16 else 10) + Digit(digits[|digits| - 1])
  }

  predicate IsDecimal(c: char) {
    c in "0123456789"
  }

  predicate IsHexadecimal(c: char) {
    IsDecimal(c) || c in "abcdefABCDEF"
  }

  predicate ProperDigits(digits: string, hex: bool) {
    && 1 <= |digits| <= (if hex then 8 else 9)
    && forall i :: 0 <= i < |digits| ==> if hex then IsHexadecimal(digits[i]) else IsDecimal(digits[i])
  }

  /** A piece for a value in which entities are processed, or are not. */
  predicate ProperPiece(entities: bool, p: Piece) {
    match p
    case Plain(c) => c != '\0' && c != '\r' && c != '\n' && (entities ==> c != '&')
    case Break(s) => s in ["\n", "\r", "\r\n", "\n\r"]
    case Named(name) => entities && name in ["amp", "lt", "gt", "quot", "apos"]
    case Numbered(digits, hex) => entities && ProperDigits(digits, hex)
  }

  /** No line end of one byte is in front of the other half of a longer one. */
  predicate Apart(p: Piece, q: Piece) {
    p.Break? && q.Break? && |p.spelling| == 1 && q.spelling != "" ==> q.spelling[0] == p.spelling[0]
  }

  predicate Proper(entities: bool, ps: seq<Piece>) {
    && (forall i :: 0 <= i < |ps| ==> ProperPiece(entities, ps[i]))
    && (forall i :: 0 < i < |ps| ==> Apart(ps[i - 1], ps[i]))
  }

  /** How a byte is printed: in attribute values (`restricted` off) quotes are escaped as well. */
  function Escaped(restricted: bool, c: char): string {
    match c
    case '&' => "&amp;"
    case '<' => "&lt;"
    case '>' => "&gt;"
    case '\"' => if restricted then "\"" else "&quot;"
    case '\'' => if restricted then "'" else "&apos;"
    case _ => [c]
  }

  function AllEscaped(restricted: bool, s: string): string {
    if s == "" then "" else Escaped(restricted, s[0]) + AllEscaped(restricted, s[1..])
  }

  // ---------------------------------------------------------------------------------------------
  // Digits
  // ---------------------------------------------------------------------------------------------

  lemma Decimal(c: char)
    ensures IsDecimal(c) <==> '0' <= c <= '9'
  {
    if '0' <= c <= '9' {
      assert "0123456789"[c as int - '0' as int] == c;
    }
  }

  lemma Hexadecimal(c: char)
    ensures IsHexadecimal(c) <==> '0' <= c <= '9' || 'a' <= c <= 'f' || 'A' <= c <= 'F'
  {
    hide IsDecimal;
    Decimal(c);
  }

  lemma DigitIs(c: char, hex: bool)
    ensures (if hex then IsHexadecimal(c) else IsDecimal(c)) <==> DigitValue(c, if hex then 16 else 10).Some?
    ensures (if hex then IsHexadecimal(c) else IsDecimal(c)) ==> DigitValue(c, if hex then 16 else 10).value == Digit(c)
  {
    hide IsDecimal, IsHexadecimal;
    Decimal(c);
    Hexadecimal(c);
  }

  lemma {:induction false} NumberIs(digits: string, hex: bool)
    requires forall i :: 0 <= i < |digits| ==> if hex then IsHexadecimal(digits[i]) else IsDecimal(digits[i])
    ensures AllDigits(digits, if hex then 16 else 10)
    ensures Positional(digits, if hex then 16 else 10) == Number(digits, hex)
  {
    hide DigitValue, Digit;
    forall i | 0 <= i < |digits|
      ensures DigitValue(digits[i], if hex then 16 else 10).Some?
    {
      DigitIs(digits[i], hex);
    }
    if digits != "" {
      NumberIs(digits[..|digits| - 1], hex);
      DigitIs(digits[|digits| - 1], hex);
    }
  }
}
