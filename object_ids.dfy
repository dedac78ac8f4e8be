/** BSON ObjectId identifiers as they appear in requests: a string of 24 hexadecimal
    digits. `new ObjectId(s)` reads the digits case-insensitively and prints them in
    lower case, so two spellings that differ only in case name the same record. */
module ObjectIds {
  import Text

  type Id = string

  const IdLength: nat := 24

  predicate IsHexDigit(c: char) {
    '0' <= c <= '9' || 'a' <= c <= 'f' || 'A' <= c <= 'F'
  }

  predicate IsLowerHexDigit(c: char) {
    '0' <= c <= '9' || 'a' <= c <= 'f'
  }

  /** `ObjectId.isValid` on a string. */
  predicate IsValid(s: string) {
    |s| == IdLength && forall i :: 0 <= i < |s| ==> IsHexDigit(s[i])
  }

  /** The form `ObjectId.toString()` prints. */
  predicate IsCanonical(s: string) {
    |s| == IdLength && forall i :: 0 <= i < |s| ==> IsLowerHexDigit(s[i])
  }

  /** A hexadecimal digit in the case `toString` prints it: ASCII case folding. */
  function LowerHex(c: char): (r: char)
    requires IsHexDigit(c)
    ensures IsLowerHexDigit(r)
    ensures Text.EqualIgnoringCase([r], [c])
    ensures IsLowerHexDigit(c) ==> r == c
  {
    Text.LowerAscii(c)
  }

  /** `new ObjectId(s).toString()`: the identifier a valid string denotes. */
  function Parse(s: string): (id: Id)
    requires IsValid(s)
    ensures IsCanonical(id) && IsValid(id)
  {
    seq(IdLength, i requires 0 <= i < IdLength => LowerHex(s[i]))
  }

  /** A canonical identifier parses to itself, so parsing is idempotent. */
  lemma ParseCanonical(s: string)
    requires IsCanonical(s)
    ensures IsValid(s) && Parse(s) == s
  {
    assert IsValid(s);
    assert forall i :: 0 <= i < IdLength ==> Parse(s)[i] == s[i];
  }

  /** Two valid strings denote the same record exactly when they agree digit by digit
      up to the case of the letters A-F. */
  lemma ParseSameRecord(a: string, b: string)
    requires IsValid(a) && IsValid(b)
    ensures Parse(a) == Parse(b) <==> forall i :: 0 <= i < IdLength ==> LowerHex(a[i]) == LowerHex(b[i])
  {
    if forall i :: 0 <= i < IdLength ==> LowerHex(a[i]) == LowerHex(b[i]) {
      assert forall i :: 0 <= i < IdLength ==> Parse(a)[i] == Parse(b)[i];
    }
    if Parse(a) == Parse(b) {
      forall i | 0 <= i < IdLength ensures LowerHex(a[i]) == LowerHex(b[i]) {
        assert Parse(a)[i] == Parse(b)[i];
      }
    }
  }
}
