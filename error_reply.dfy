/** How the client decides that a bridge reply is an error: it upper-cases the
    whole reply text and looks for the substring "ERROR" anywhere in it. */
module ErrorReply {

  /** `char.ToUpper` on the ASCII letters; every other character is kept. */
  function UpperChar(c: char): char
  {
    if 'a' <= c <= 'z' then (c as int - 32) as char else c
  }

  function ToUpper(s: string): string
  {
    seq(|s|, i requires 0 <= i < |s| => UpperChar(s[i]))
  }

  const Marker: string := "ERROR"

  predicate OccursAt(s: string, pat: string, i: int)
  {
    0 <= i && i + |pat| <= |s| && s[i..i + |pat|] == pat
  }

  /** `String.Contains`: an ordinal substring test. */
  predicate Contains(s: string, pat: string)
  {
    exists i :: 0 <= i <= |s| - |pat| && OccursAt(s, pat, i)
  }

  /** `text.ToUpper().Contains("ERROR")`. */
  predicate IsErrorReply(text: string)
    ensures IsErrorReply(text) ==> |text| >= |Marker|
  {
    Contains(ToUpper(text), Marker)
  }

  /** Five characters of the reply starting at `i` spell "error" in some casing. */
  predicate MarkerAt(text: string, i: int)
  {
    0 <= i && i + |Marker| <= |text| && ToUpper(text[i..i + |Marker|]) == Marker
  }

  lemma ToUpperSlice(s: string, i: int, j: int)
    requires 0 <= i <= j <= |s|
    ensures ToUpper(s)[i..j] == ToUpper(s[i..j])
  {
  }

  lemma ToUpperAppend(a: string, b: string)
    ensures ToUpper(a + b) == ToUpper(a) + ToUpper(b)
  {
  }

  /** The classification is the same as "some five consecutive characters
      spell error, ignoring case". */
  lemma ErrorReplyIffMarker(text: string)
    ensures IsErrorReply(text) <==> exists i :: MarkerAt(text, i)
  {
    if IsErrorReply(text) {
      var i :| 0 <= i <= |text| - |Marker| && OccursAt(ToUpper(text), Marker, i);
      ToUpperSlice(text, i, i + |Marker|);
      assert MarkerAt(text, i);
    }
    if i :| MarkerAt(text, i) {
      ToUpperSlice(text, i, i + |Marker|);
      assert OccursAt(ToUpper(text), Marker, i);
    }
  }

  lemma UpperCharIdempotent(c: char)
    ensures UpperChar(UpperChar(c)) == UpperChar(c)
  {
  }

  /** Upper-casing a reply before classifying it changes nothing: the test is
      case-insensitive. */
  lemma ClassificationIgnoresCase(text: string)
    ensures IsErrorReply(ToUpper(text)) == IsErrorReply(text)
  {
    assert ToUpper(ToUpper(text)) == ToUpper(text) by {
      forall k | 0 <= k < |text| ensures ToUpper(ToUpper(text))[k] == ToUpper(text)[k] {
        UpperCharIdempotent(text[k]);
      }
    }
  }

  /** A part of a reply that reads as an error makes the whole reply an error,
      whatever surrounds it: a light whose name contains "error" in any casing
      ("Terror lamp") turns a whole lights catalog into an error reply. */
  lemma ErrorInPartMakesErrorReply(before: string, part: string, after: string)
    requires IsErrorReply(part)
    ensures IsErrorReply(before + part + after)
  {
    ErrorReplyIffMarker(part);
    var i :| MarkerAt(part, i);
    var text := before + part + after;
    var j := |before| + i;
    assert text[j..j + |Marker|] == part[i..i + |Marker|];
    assert MarkerAt(text, j);
    ErrorReplyIffMarker(text);
  }

  /** A reply that contains no letter O in either case cannot be an error. */
  lemma NoLetterONoError(text: string)
    requires 'o' !in text && 'O' !in text
    ensures !IsErrorReply(text)
  {
    forall i | 0 <= i <= |text| - |Marker| ensures !OccursAt(ToUpper(text), Marker, i) {
      assert text[i + 3] in text;
      assert ToUpper(text)[i + 3] != Marker[3];
    }
  }

  /** The lowercase key of a bridge error array is enough. */
  lemma LowercaseErrorIsError(before: string, after: string)
    ensures IsErrorReply(before + "error" + after)
  {
    assert MarkerAt("error", 0);
    ErrorReplyIffMarker("error");
    ErrorInPartMakesErrorReply(before, "error", after);
  }
}
