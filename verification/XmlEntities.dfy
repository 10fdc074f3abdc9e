/** The character data of XML 1.0 that the reader and the writer agree on: the five
    predefined entities, of section 4.6, and the digits of character references, of
    section 4.1. */
module XmlEntities {
  import opened CStrings
  import opened XmlText
  import opened XmlEscaping

  /** Each is read as its character. */
  lemma PredefinedRead(s: string, p: nat, enc: Encoding)
    ensures Has(s, p, "&amp;") ==> p < |s| && Char(s, p, enc) == Chunk("&", At(p + 5))
    ensures Has(s, p, "&lt;") ==> p < |s| && Char(s, p, enc) == Chunk("<", At(p + 4))
    ensures Has(s, p, "&gt;") ==> p < |s| && Char(s, p, enc) == Chunk(">", At(p + 4))
    ensures Has(s, p, "&quot;") ==> p < |s| && Char(s, p, enc) == Chunk("\"", At(p + 6))
    ensures Has(s, p, "&apos;") ==> p < |s| && Char(s, p, enc) == Chunk("'", At(p + 6))
  {
    hide Has, Char, Entity;
    for i := 0 to |ENTITIES|
      invariant forall k :: 0 <= k < i ==> Read(s, p, ENTITIES[k].0, ENTITIES[k].1, enc)
    {
      if Has(s, p, ENTITIES[i].0) {
        Fits(s, p, ENTITIES[i].0);
        EntityAt(s, p, i, enc);
      }
    }
    assert Read(s, p, ENTITIES[0].0, ENTITIES[0].1, enc) && Read(s, p, ENTITIES[1].0, ENTITIES[1].1, enc);
    assert Read(s, p, ENTITIES[2].0, ENTITIES[2].1, enc) && Read(s, p, ENTITIES[3].0, ENTITIES[3].1, enc);
    assert Read(s, p, ENTITIES[4].0, ENTITIES[4].1, enc);
  }

  predicate Read(s: string, p: nat, name: string, c: char, enc: Encoding) {
    Has(s, p, name) ==> p < |s| && Char(s, p, enc) == Chunk([c], At(p + |name|))
  }

  lemma Fits(s: string, p: nat, t: string)
    requires Has(s, p, t)
    ensures p + |t| <= |s|
  {}

  /** An ampersand that begins neither of them, nor a numeric reference, is passed over
      and leaves nothing in the text. */
  lemma StrayAmpersand(s: string, p: nat, enc: Encoding)
    requires p < |s| && s[p] == '&' && !(p + 2 < |s| && s[p + 1] == '#')
    requires !Has(s, p, "&amp;") && !Has(s, p, "&lt;") && !Has(s, p, "&gt;")
    requires !Has(s, p, "&quot;") && !Has(s, p, "&apos;")
    ensures Char(s, p, enc) == Chunk("", At(p + 1))
  {
    hide Has;
  }

  /** In UTF-8 a character that the text breaks off is filled up with NULs, and reading
      goes on behind the terminator. */
  lemma BrokenOff(s: string, p: nat)
    requires p < |s| < p + ByteLen(s[p])
    ensures var c := Char(s, p, Utf8);
            && c.next == At(p + ByteLen(s[p])) && |c.text| == ByteLen(s[p])
            && forall k :: 0 <= k < |c.text| ==> c.text[k] == if p + k < |s| then s[p + k] else '\0'
  {
    hide Entity;
  }

  /** And each character is written as its entity, a control character by its number in
      two hexadecimal digits, and every other one as it is. */
  lemma CharacterWritten(c: char)
    ensures Put([c]) ==
      if c == '&' then "&amp;"
      else if c == '<' then "&lt;"
      else if c == '>' then "&gt;"
      else if c == '"' then "&quot;"
      else if c == '\'' then "&apos;"
      else if c as int < 32 then
        "&#x" + ["0123456789ABCDEF"[c as int / 16]] + ["0123456789ABCDEF"[c as int % 16]] + ";"
      else [c]
  {
    assert PutFrom([c], 1) == "";
    assert EscapeChar(c) + "" == EscapeChar(c);
    if c as int < 32 {
      WrittenDigit(c as int / 16);
      WrittenDigit(c as int % 16);
    }
  }

  lemma WrittenDigit(d: nat)
    requires d < 16
    ensures HexDigit(d) == "0123456789ABCDEF"[d]
  {}

  /** Text is written character by character where it holds no "&#x". */
  lemma {:induction false} WrittenJoined(v: string, i: nat)
    requires i < |v| && NoHexRef(v, i)
    ensures PutFrom(v, i) == Put([v[i]]) + PutFrom(v, i + 1)
  {
    assert PutFrom([v[i]], 1) == "";
    assert EscapeChar(v[i]) + "" == EscapeChar(v[i]);
  }

  /** The digits of a reference. */
  lemma DigitsAre(c: char)
    ensures DigitOf(c, 16).Some? <==> c in "0123456789" || c in "abcdef" || c in "ABCDEF"
    ensures DigitOf(c, 10).Some? <==> c in "0123456789"
  {
    InRange(c);
  }

  lemma InRange(c: char)
    ensures c in "0123456789" <==> '0' <= c <= '9'
    ensures c in "abcdef" <==> 'a' <= c <= 'f'
    ensures c in "ABCDEF" <==> 'A' <= c <= 'F'
  {}

  /** And their values. */
  lemma DigitValue(d: nat)
    requires d < 16
    ensures d < 10 ==> DigitOf("0123456789"[d], 10) == Some(d) && DigitOf("0123456789"[d], 16) == Some(d)
    ensures d >= 10 ==> DigitOf("abcdef"[d - 10], 16) == Some(d) && DigitOf("ABCDEF"[d - 10], 16) == Some(d)
  {}
}
