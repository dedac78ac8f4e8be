/** Character and substring notions shared by the identifier parser, the title
    search and the duplicate-key message: ASCII case folding and "a part occurs in
    a text at a position", exactly or ignoring case. */
module Text {

  /** ASCII case folding: upper-case Latin letters become lower case, every other
      character is kept. */
  function LowerAscii(c: char): char {
    if 'A' <= c <= 'Z' then (c as int - 'A' as int + 'a' as int) as char else c
  }

  predicate EqualIgnoringCase(a: string, b: string) {
    |a| == |b| && forall i :: 0 <= i < |a| ==> LowerAscii(a[i]) == LowerAscii(b[i])
  }

  /** `part` occurs verbatim at position `i` of `text`. */
  predicate OccursAt(text: string, part: string, i: int) {
    0 <= i <= |text| - |part| && text[i..i + |part|] == part
  }

  /** `part` occurs at position `i` of `text`, ignoring ASCII case. */
  predicate OccursIgnoringCaseAt(text: string, part: string, i: int) {
    0 <= i <= |text| - |part| && EqualIgnoringCase(text[i..i + |part|], part)
  }
}
