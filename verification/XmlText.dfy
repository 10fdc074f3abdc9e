/** Character level of TinyXML: white space, entities, escaping and text. */
module XmlText {
  import opened CStrings

  datatype Encoding = Utf8 | Legacy

  /** A `const char*` the parser hands on: null, one that points past the
      terminator (reading it is undefined), or a position in the string. */
  datatype Ptr = Null | Wild | At(pos: nat)

  // ---------- white space ----------

  /** One of the three byte sequences skipped as white space in UTF-8 mode. */
  predicate IsBom(s: string, p: nat) {
    && p + 3 <= |s| && s[p] as int == 0xEF
    && (|| (s[p + 1] as int == 0xBB && s[p + 2] as int == 0xBF)
        || (s[p + 1] as int == 0xBF && s[p + 2] as int == 0xBE)
        || (s[p + 1] as int == 0xBF && s[p + 2] as int == 0xBF))
  }

  function Skip(s: string, p: nat, enc: Encoding): (q: nat)
    requires p <= |s|
    ensures p <= q <= |s|
    decreases |s| - p
  {
    if p < |s| && IsWhite(s[p]) then Skip(s, p + 1, enc)
    else if enc.Utf8? && IsBom(s, p) then Skip(s, p + 3, enc)
    else p
  }

  method SkipWhiteSpace(s: CString, p: nat, enc: Encoding) returns (q: Ptr)
    requires p <= |s|
    ensures q == if p == |s| then Null else At(Skip(s, p, enc))
  {
    if CharAt(s, p) == '\0' { return Null; }
    var i := p;
    if enc.Utf8? {
      while CharAt(s, i) != '\0'
        invariant p <= i <= |s| && Skip(s, i, enc) == Skip(s, p, enc)
        decreases |s| - i
      {
        if IsBom(s, i) {
          i := i + 3;
        } else if IsWhite(CharAt(s, i)) {
          i := i + 1;
        } else {
          break;
        }
      }
    } else {
      while IsWhite(CharAt(s, i))
        invariant p <= i <= |s| && Skip(s, i, enc) == Skip(s, p, enc)
        decreases |s| - i
      {
        i := i + 1;
      }
    }
    q := At(i);
  }

  // ---------- writing: PutString ----------

  function HexDigit(d: nat): char
    requires d < 16
  {
    if d < 10 then ('0' as int + d) as char else ('A' as int + d - 10) as char
  }

  function EscapeChar(c: char): string {
    if c == '&' then "&amp;"
    else if c == '<' then "&lt;"
    else if c == '>' then "&gt;"
    else if c == '"' then "&quot;"
    else if c == '\'' then "&apos;"
    else if c as int < 32 then "&#x" + [HexDigit(c as int / 16), HexDigit(c as int % 16), ';']
    else [c]
  }

  /** `v` starts with something that PutString takes for a hexadecimal
      character reference and copies without escaping. */
  predicate HexRefAt(v: string, i: nat) {
    i + 3 <= |v| && v[i] == '&' && v[i + 1] == '#' && v[i + 2] == 'x'
  }

  predicate HasHexRef(v: string) {
    exists i :: 0 <= i < |v| && HexRefAt(v, i)
  }

  /** Where the copying loop started at `i` stops: at the first ';' after `i`,
      or at the last character when there is none before it. */
  function PassEnd(v: string, i: nat): (j: nat)
    requires i + 1 < |v|
    ensures i < j < |v|
    decreases |v| - i
  {
    if v[i + 1] == ';' || i + 2 >= |v| then i + 1 else PassEnd(v, i + 1)
  }

  /** The copying loop started at `start` has reached `i` and goes on. */
  ghost predicate PassedTo(v: string, start: nat, i: nat)
    requires start + 1 < |v| && start <= i < |v|
  {
    if i < |v| - 1 then PassEnd(v, i) == PassEnd(v, start) else PassEnd(v, start) == i
  }

  function PutFrom(v: string, i: nat): string
    requires i <= |v|
    decreases |v| - i
  {
    if i == |v| then ""
    else if HexRefAt(v, i) then v[i..PassEnd(v, i)] + PutFrom(v, PassEnd(v, i))
    else EscapeChar(v[i]) + PutFrom(v, i + 1)
  }

  /** What PutString appends for the text `v`. */
  function Put(v: string): string {
    PutFrom(v, 0)
  }

  /** The loop that copies a hexadecimal reference. */
  method PassThrough(v: string, start: nat, before: string) returns (out: string, i: nat)
    requires HexRefAt(v, start)
    ensures i == PassEnd(v, start) && out == before + v[start..i]
  {
    out, i := before, start;
    while i < |v| - 1
      invariant start <= i < |v| && out == before + v[start..i]
      invariant PassedTo(v, start, i)
    {
      out := out + [v[i]];
      assert v[start..i + 1] == v[start..i] + [v[i]];
      i := i + 1;
      if v[i] == ';' { break; }
    }
  }

  method PutString(v: string, before: string) returns (out: string)
    ensures out == before + Put(v)
  {
    out := before;
    var i := 0;
    ghost var done := "";
    while i < |v|
      invariant 0 <= i <= |v| && out == before + done && done + PutFrom(v, i) == Put(v)
    {
      var c := v[i];
      ghost var piece;
      if c == '&' && i < |v| - 2 && v[i + 1] == '#' && v[i + 2] == 'x' {
        piece := v[i..PassEnd(v, i)];
        out, i := PassThrough(v, i, out);
      } else {
        piece := EscapeChar(c);
        if c == '&' {
          out := out + "&amp;";
        } else if c == '<' {
          out := out + "&lt;";
        } else if c == '>' {
          out := out + "&gt;";
        } else if c == '"' {
          out := out + "&quot;";
        } else if c == '\'' {
          out := out + "&apos;";
        } else if c as int < 32 {
          out := out + ("&#x" + [HexDigit(c as int / 16), HexDigit(c as int % 16), ';']);
        } else {
          out := out + [c];
        }
        i := i + 1;
      }
      Assoc(done, piece, PutFrom(v, i));
      Assoc(before, done, piece);
      done := done + piece;
    }
    assert done + "" == done;
  }

  // ---------- reading: entities and characters ----------

  const M32: nat := 0x1_0000_0000
  const M64: nat := 0x1_0000_0000_0000_0000

  /** `strchr(s + p, c)`, or `|s|` when there is none. */
  function IndexFrom(s: string, p: nat, c: char): (q: nat)
    requires p <= |s|
    ensures p <= q <= |s| && (q < |s| ==> s[q] == c)
    ensures forall k :: p <= k < q ==> s[k] != c
    decreases |s| - p
  {
    if p == |s| || s[p] == c then p else IndexFrom(s, p + 1, c)
  }

  function DigitOf(c: char, base: nat): Option<nat> {
    if '0' <= c <= '9' then Some(c as int - '0' as int)
    else if base == 16 && 'a' <= c <= 'f' then Some(c as int - 'a' as int + 10)
    else if base == 16 && 'A' <= c <= 'F' then Some(c as int - 'A' as int + 10)
    else None
  }

  /** The digit loop: it runs from the character before ';' to the left until
      it meets the character at `lo` again, with a 32-bit multiplier and a
      64-bit sum. */
  function RefLoop(s: string, lo: nat, q: nat, base: nat, mult: nat, sum: nat): Option<nat>
    requires lo <= q < |s|
    decreases q
  {
    if s[q] == s[lo] then Some(sum)
    else
      match DigitOf(s[q], base)
      case None => None
      case Some(d) =>
        RefLoop(s, lo, q - 1, base, mult * base % M32, (sum + mult * d % M32) % M64)
  }

  /** The bytes of ConvertUTF32ToUTF8; nothing for a value it cannot write. */
  function Utf8Of(n: nat): string {
    if n < 0x80 then [n as char]
    else if n < 0x800 then [(0xC0 + n / 0x40) as char, Continuation(n)]
    else if n < 0x1_0000 then
      [(0xE0 + n / 0x1000) as char, Continuation(n / 0x40), Continuation(n)]
    else if n < 0x20_0000 then
      [(0xF0 + n / 0x4_0000) as char, Continuation(n / 0x1000), Continuation(n / 0x40), Continuation(n)]
    else ""
  }

  function Continuation(n: nat): char {
    (0x80 + n % 0x40) as char
  }

  /** `utf8ByteTable`: the length of the sequence a byte leads. */
  function ByteLen(c: char): (n: nat)
    ensures 1 <= n <= 4
  {
    if 0xC2 <= c as int <= 0xDF then 2
    else if 0xE0 <= c as int <= 0xEF then 3
    else if 0xF0 <= c as int <= 0xF4 then 4
    else 1
  }

  /** Text taken from the input and where reading goes on. */
  datatype Chunk = Chunk(text: string, next: Ptr)

  function NumericRef(s: string, p: nat, enc: Encoding): Chunk
    requires p + 2 < |s| && s[p + 1] == '#'
  {
    var hex := s[p + 2] == 'x';
    var lo := if hex then p + 2 else p + 1;
    if lo + 1 >= |s| then Chunk("", Null)
    else
      var semi := IndexFrom(s, lo + 1, ';');
      if semi == |s| then Chunk("", Null)
      else
        match RefLoop(s, lo, semi - 1, if hex then 16 else 10, 1, 0)
        case None => Chunk("", Null)
        case Some(ucs) =>
          Chunk(if enc.Utf8? then Utf8Of(ucs) else [(ucs % 256) as char], At(semi + 1))
  }

  const ENTITIES: seq<(string, char)> :=
    [("&amp;", '&'), ("&lt;", '<'), ("&gt;", '>'), ("&quot;", '"'), ("&apos;", '\'')]

  /** What GetEntity makes of the '&' at `p`. An ampersand that starts no
      entity is passed over and contributes nothing. */
  function Entity(s: string, p: nat, enc: Encoding): Chunk
    requires p < |s|
  {
    if p + 2 < |s| && s[p + 1] == '#' then NumericRef(s, p, enc)
    else if Has(s, p, "&amp;") then Chunk("&", At(p + 5))
    else if Has(s, p, "&lt;") then Chunk("<", At(p + 4))
    else if Has(s, p, "&gt;") then Chunk(">", At(p + 4))
    else if Has(s, p, "&quot;") then Chunk("\"", At(p + 6))
    else if Has(s, p, "&apos;") then Chunk("'", At(p + 6))
    else Chunk("", At(p + 1))
  }

  function Zeros(n: nat): string {
    seq(n, _ => '\0')
  }

  /** One character: an entity, a byte, or a multi-byte sequence, which is
      padded with NULs and read past when the string ends inside it. */
  function Char(s: string, p: nat, enc: Encoding): (c: Chunk)
    requires p < |s|
    ensures c.next.At? ==> p < c.next.pos
  {
    var n := if enc.Utf8? then ByteLen(s[p]) else 1;
    if n == 1 then
      if s[p] == '&' then Entity(s, p, enc) else Chunk([s[p]], At(p + 1))
    else if p + n <= |s| then Chunk(s[p..p + n], At(p + n))
    else Chunk(s[p..] + Zeros(p + n - |s|), At(p + n))
  }

  /** The loop of ReadText that keeps white space: it stops in front of `tag`
      or at the terminator. */
  function ReadKeep(s: string, p: nat, tag: string, enc: Encoding): (c: Chunk)
    requires p <= |s|
    ensures c.next.At? ==> p <= c.next.pos <= |s|
    ensures c.next.At? && p < |s| && !Has(s, p, tag) ==> p < c.next.pos
    decreases |s| - p
  {
    if p == |s| || Has(s, p, tag) then Chunk("", At(p))
    else
      var c := Char(s, p, enc);
      match c.next
      case At(q) =>
        if q > |s| then Chunk(c.text, Wild)
        else
          var rest := ReadKeep(s, q, tag, enc);
          Chunk(c.text + rest.text, rest.next)
      case _ => c
  }

  /** The loop of ReadText that condenses white space; `gap` says that white
      space was passed since the last character. */
  function ReadCondensed(s: string, p: nat, tag: string, enc: Encoding, gap: bool): (c: Chunk)
    requires p <= |s|
    ensures c.next.At? ==> p <= c.next.pos <= |s|
    ensures c.next.At? && p < |s| && !Has(s, p, tag) ==> p < c.next.pos
    decreases |s| - p
  {
    if p == |s| || Has(s, p, tag) then Chunk("", At(p))
    else if IsWhite(s[p]) then ReadCondensed(s, p + 1, tag, enc, true)
    else
      var c := Char(s, p, enc);
      var text := (if gap then " " else "") + c.text;
      match c.next
      case At(q) =>
        if q > |s| then Chunk(text, Wild)
        else
          var rest := ReadCondensed(s, q, tag, enc, false);
          Chunk(text + rest.text, rest.next)
      case _ => Chunk(text, c.next)
  }

  /** ReadText: the text up to `tag`, and the position `strlen(tag)` after the
      place where the loop stopped, even if it was the terminator. */
  function Text(s: string, p: nat, trim: bool, tag: string, enc: Encoding): (c: Chunk)
    requires p <= |s|
    ensures c.next.At? ==> p + |tag| <= c.next.pos <= |s| + |tag|
  {
    if trim && p == |s| then Chunk("", Null)
    else
      var c := if trim then ReadCondensed(s, Skip(s, p, enc), tag, enc, false)
               else ReadKeep(s, p, tag, enc);
      match c.next
      case At(q) => Chunk(c.text, At(q + |tag|))
      case _ => c
  }

  // ---------- the reading loops ----------

  method StrChr(s: CString, p: nat, c: char) returns (q: nat)
    requires p <= |s|
    ensures q == IndexFrom(s, p, c)
  {
    q := p;
    while q < |s| && s[q] != c
      invariant p <= q <= |s| && IndexFrom(s, q, c) == IndexFrom(s, p, c)
    {
      q := q + 1;
    }
  }

  method ReadDigits(s: CString, lo: nat, semi: nat, base: nat) returns (r: Option<nat>)
    requires lo < semi < |s|
    ensures r == RefLoop(s, lo, semi - 1, base, 1, 0)
  {
    var ucs: nat, mult: nat, q: nat := 0, 1, semi - 1;
    while s[q] != s[lo]
      invariant lo <= q < semi
      invariant RefLoop(s, lo, q, base, mult, ucs) == RefLoop(s, lo, semi - 1, base, 1, 0)
      decreases q
    {
      var d := DigitOf(s[q], base);
      if d.None? { return None; }
      ucs := (ucs + mult * d.value % M32) % M64;
      mult := mult * base % M32;
      q := q - 1;
    }
    r := Some(ucs);
  }

  /** The entity strings differ within the shorter of any two. */
  lemma OnlyEntity(s: string, p: nat, i: nat)
    requires i < |ENTITIES| && Has(s, p, ENTITIES[i].0)
    ensures forall k :: 0 <= k < |ENTITIES| && k != i ==> !Has(s, p, ENTITIES[k].0)
  {
    forall k | 0 <= k < |ENTITIES| && k != i ensures !Has(s, p, ENTITIES[k].0) {
      var a, b := ENTITIES[i].0, ENTITIES[k].0;
      if a[1] != b[1] {
        HasOther(s, p, a, b, 1);
      } else {
        HasOther(s, p, a, b, 2);
      }
    }
  }

  lemma EntityAt(s: string, p: nat, i: nat, enc: Encoding)
    requires i < |ENTITIES| && Has(s, p, ENTITIES[i].0)
    ensures Entity(s, p, enc) == Chunk([ENTITIES[i].1], At(p + |ENTITIES[i].0|))
    ensures Char(s, p, enc) == Entity(s, p, enc)
  {
    OnlyEntity(s, p, i);
    HasChar(s, p, ENTITIES[i].0, 0);
    HasChar(s, p, ENTITIES[i].0, 1);
    assert forall k :: 0 <= k < i ==> !Has(s, p, ENTITIES[k].0);
    match i
    case 0 =>
    case 1 => assert !Has(s, p, ENTITIES[0].0);
    case 2 => assert !Has(s, p, ENTITIES[0].0) && !Has(s, p, ENTITIES[1].0);
    case 3 => assert !Has(s, p, ENTITIES[0].0) && !Has(s, p, ENTITIES[1].0) && !Has(s, p, ENTITIES[2].0);
    case _ => assert !Has(s, p, ENTITIES[0].0) && !Has(s, p, ENTITIES[1].0) && !Has(s, p, ENTITIES[2].0)
                  && !Has(s, p, ENTITIES[3].0);
  }

  const FIRST_BYTE_MARK: seq<nat> := [0x00, 0x00, 0xC0, 0xE0, 0xF0]

  /** The sequence is filled from its last byte to its first; each step takes
      the six low bits and drops them from the value. */
  method ConvertUTF32ToUTF8(input: nat) returns (out: string)
    ensures out == Utf8Of(input)
  {
    var length := if input < 0x80 then 1 else if input < 0x800 then 2
                  else if input < 0x1_0000 then 3 else if input < 0x20_0000 then 4 else 0;
    out := "";
    if length == 0 { return; }
    var n := input;
    if length >= 4 {
      out := [Continuation(n)] + out;
      n := n / 0x40;
    }
    if length >= 3 {
      out := [Continuation(n)] + out;
      n := n / 0x40;
    }
    if length >= 2 {
      out := [Continuation(n)] + out;
      n := n / 0x40;
    }
    out := [(FIRST_BYTE_MARK[length] + n) as char] + out;
  }

  method GetEntity(s: CString, p: nat, enc: Encoding) returns (c: Chunk)
    requires p < |s|
    ensures c == Entity(s, p, enc)
  {
    hide Has, RefLoop, Utf8Of, IndexFrom;
    if CharAt(s, p + 1) == '#' && CharAt(s, p + 2) != '\0' {
      var hex := s[p + 2] == 'x';
      var lo := if hex then p + 2 else p + 1;
      if CharAt(s, lo + 1) == '\0' { return Chunk("", Null); }
      var semi := StrChr(s, lo + 1, ';');
      if semi == |s| { return Chunk("", Null); }
      var ucs := ReadDigits(s, lo, semi, if hex then 16 else 10);
      if ucs.None? { return Chunk("", Null); }
      if enc.Utf8? {
        var bytes := ConvertUTF32ToUTF8(ucs.value);
        return Chunk(bytes, At(semi + 1));
      }
      return Chunk([(ucs.value % 256) as char], At(semi + 1));
    }
    var i := 0;
    while i < |ENTITIES|
      invariant 0 <= i <= |ENTITIES|
      invariant forall k :: 0 <= k < i ==> !Has(s, p, ENTITIES[k].0)
    {
      var found := StartsWith(s, p, ENTITIES[i].0, false);
      if found {
        EntityAt(s, p, i, enc);
        return Chunk([ENTITIES[i].1], At(p + |ENTITIES[i].0|));
      }
      i := i + 1;
    }
    assert !Has(s, p, ENTITIES[0].0) && !Has(s, p, ENTITIES[1].0) && !Has(s, p, ENTITIES[2].0)
        && !Has(s, p, ENTITIES[3].0) && !Has(s, p, ENTITIES[4].0);
    c := Chunk("", At(p + 1));
  }

  method GetChar(s: CString, p: nat, enc: Encoding) returns (c: Chunk)
    requires p < |s|
    ensures c == Char(s, p, enc)
  {
    var length := if enc.Utf8? then ByteLen(s[p]) else 1;
    if length == 1 {
      if s[p] == '&' {
        c := GetEntity(s, p, enc);
      } else {
        c := Chunk([s[p]], At(p + 1));
      }
      return;
    }
    var text, i := "", 0;
    while i < length && CharAt(s, p + i) != '\0'
      invariant 0 <= i <= length && p + i <= |s| && text == s[p..p + i]
    {
      text := text + [s[p + i]];
      i := i + 1;
    }
    assert i == length ==> text + Zeros(0) == text;
    c := Chunk(text + Zeros(length - i), At(p + length));
  }

  method KeepLoop(s: CString, p: nat, tag: CString, enc: Encoding) returns (c: Chunk)
    requires p <= |s|
    ensures c == ReadKeep(s, p, tag, enc)
  {
    var text, i := "", p;
    var found := StartsWith(s, p, tag, false);
    while i < |s| && !found
      invariant p <= i <= |s| && found == (i < |s| && Has(s, i, tag))
      invariant Resume(text, ReadKeep(s, i, tag, enc)) == ReadKeep(s, p, tag, enc)
      decreases |s| - i
    {
      var ch := GetChar(s, i, enc);
      ghost var rest := if ch.next.At? && ch.next.pos <= |s| then ReadKeep(s, ch.next.pos, tag, enc).text else "";
      Assoc(text, ch.text, rest);
      text := text + ch.text;
      if !ch.next.At? { return Chunk(text, ch.next); }
      if ch.next.pos > |s| { return Chunk(text, Wild); }
      i := ch.next.pos;
      found := StartsWith(s, i, tag, false);
    }
    c := Chunk(text, At(i));
  }

  /** One round of the condensing loop, behind the text collected so far. */
  lemma CondenseStep(s: string, p: nat, tag: string, enc: Encoding, gap: bool, text: string)
    requires p < |s| && !Has(s, p, tag) && !IsWhite(s[p])
    ensures var c := Char(s, p, enc);
            var grown := text + (if gap then " " else "") + c.text;
            Resume(text, ReadCondensed(s, p, tag, enc, gap))
            == if !c.next.At? then Chunk(grown, c.next)
               else if c.next.pos > |s| then Chunk(grown, Wild)
               else Resume(grown, ReadCondensed(s, c.next.pos, tag, enc, false))
  {
    var c := Char(s, p, enc);
    var space := if gap then " " else "";
    Assoc(text, space, c.text);
    if c.next.At? && c.next.pos <= |s| {
      Assoc(text, space + c.text, ReadCondensed(s, c.next.pos, tag, enc, false).text);
    }
  }

  method CondenseLoop(s: CString, p: nat, tag: CString, enc: Encoding) returns (c: Chunk)
    requires p <= |s|
    ensures c == ReadCondensed(s, p, tag, enc, false)
  {
    var text, i, gap := "", p, false;
    var found := StartsWith(s, p, tag, false);
    while i < |s| && !found
      invariant p <= i <= |s| && found == (i < |s| && Has(s, i, tag))
      invariant Resume(text, ReadCondensed(s, i, tag, enc, gap)) == ReadCondensed(s, p, tag, enc, false)
      decreases |s| - i
    {
      if IsWhite(s[i]) {
        gap := true;
        i := i + 1;
      } else {
        CondenseStep(s, i, tag, enc, gap, text);
        text := text + (if gap then " " else "");
        gap := false;
        var ch := GetChar(s, i, enc);
        text := text + ch.text;
        if !ch.next.At? { return Chunk(text, ch.next); }
        if ch.next.pos > |s| { return Chunk(text, Wild); }
        i := ch.next.pos;
      }
      found := StartsWith(s, i, tag, false);
    }
    c := Chunk(text, At(i));
  }

  method ReadText(s: CString, p: nat, trim: bool, tag: CString, enc: Encoding) returns (c: Chunk)
    requires p <= |s|
    ensures c == Text(s, p, trim, tag, enc)
  {
    hide Has, ReadKeep, ReadCondensed, Skip;
    if !trim {
      c := KeepLoop(s, p, tag, enc);
    } else {
      var start := SkipWhiteSpace(s, p, enc);
      if !start.At? { return Chunk("", start); }
      c := CondenseLoop(s, start.pos, tag, enc);
    }
    if c.next.At? {
      c := Chunk(c.text, At(c.next.pos + |tag|));
    }
  }

  /** The rest of a loop's result behind the text it has collected so far. */
  ghost function Resume(text: string, rest: Chunk): Chunk {
    Chunk(text + rest.text, rest.next)
  }
}
