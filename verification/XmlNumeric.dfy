/** Numeric character references: the digit loop of GetEntity computes a
    positional value, and what ConvertUTF32ToUTF8 writes decodes to it. */
module XmlNumeric {
  import opened CStrings
  import opened XmlText
  import opened XmlEscaping

  predicate AllDigits(t: string, base: nat) {
    forall k :: 0 <= k < |t| ==> DigitOf(t[k], base).Some?
  }

  /** Positional value, most significant digit first. */
  function Value(t: string, base: nat): nat
    requires AllDigits(t, base)
  {
    if t == "" then 0
    else Value(t[..|t| - 1], base) * base + DigitOf(t[|t| - 1], base).value
  }

  lemma WrapMul(a: nat, b: nat)
    ensures (a % M32 * b) % M32 == (a * b) % M32
  {
    var q, r := a / M32, a % M32;
    var k := q * b;
    assert a * b == r * b + k * M32 by {
      assert a == q * M32 + r;
      assert (q * M32 + r) * b == q * M32 * b + r * b;
      assert q * M32 * b == q * b * M32;
    }
    assert (r * b + k * M32) % M32 == (r * b) % M32;
  }

  /** One turn of the digit loop, modulo 2^32 and as a bound. */
  lemma DigitTurn(mult: nat, base: nat, v: nat, d: nat, sum: nat)
    ensures var mult', sum' := mult * base % M32, (sum + mult * d % M32) % M64;
            && (sum' + mult' * v) % M32 == (sum + mult * (v * base + d)) % M32
            && sum' + mult' * v <= sum + mult * (v * base + d)
  {
    var mult', sum' := mult * base % M32, (sum + mult * d % M32) % M64;
    var wide := mult * base;
    WrapMul(wide, v);
    MulMono(mult', wide, v);
    Regroup(mult, base, v, d);
    Wraps(sum, mult * d, mult' * v, wide * v);
  }

  lemma Regroup(mult: nat, base: nat, v: nat, d: nat)
    ensures mult * (v * base + d) == mult * base * v + mult * d
  {
    assert mult * (v * base) == mult * base * v;
  }

  lemma MulMono(a: nat, b: nat, c: nat)
    requires a <= b
    ensures a * c <= b * c
  {}

  /** Equal remainders: the difference is a multiple. */
  lemma SameMod(a: nat, b: nat, k: int)
    requires a == b + k * M32
    ensures a % M32 == b % M32
  {}

  lemma Wraps(sum: nat, digit: nat, scaled: nat, exact: nat)
    requires scaled % M32 == exact % M32 && scaled <= exact
    ensures var sum' := (sum + digit % M32) % M64;
            && (sum' + scaled) % M32 == (sum + (exact + digit)) % M32
            && sum' + scaled <= sum + (exact + digit)
  {
    var low := digit % M32;
    var sum' := (sum + low) % M64;
    var k1, k2, k3 := digit / M32, (sum + low) / M64, exact / M32 - scaled / M32;
    assert digit == low + k1 * M32;
    assert sum + low == sum' + k2 * M64;
    assert exact == scaled + k3 * M32;
    SameMod(sum + (exact + digit), sum' + scaled, k1 + k2 * M32 + k3);
  }

  lemma MoreDigits(front: string, t: string, base: nat)
    requires |t| == |front| + 1 && t[..|front|] == front && AllDigits(front, base)
    requires DigitOf(t[|front|], base).Some?
    ensures AllDigits(t, base)
  {
    forall k | 0 <= k < |t| ensures DigitOf(t[k], base).Some? {
      if k < |front| { assert t[k] == front[k]; }
    }
  }

  lemma FewerDigits(front: string, t: string, base: nat)
    requires |t| == |front| + 1 && t[..|front|] == front && !AllDigits(front, base)
    ensures !AllDigits(t, base)
  {
    var k :| 0 <= k < |front| && DigitOf(front[k], base).None?;
    assert t[k] == front[k];
  }

  /** The digit loop over the characters behind `lo`, none of which is the
      character it stops at: it succeeds exactly on digits, with their
      positional value modulo 2^32. */
  lemma {:induction false} LoopValue(s: string, lo: nat, q: nat, base: nat, mult: nat, sum: nat)
    requires lo <= q < |s| && (base == 10 || base == 16)
    requires forall k :: lo < k <= q ==> s[k] != s[lo]
    ensures var t, r := s[lo + 1..q + 1], RefLoop(s, lo, q, base, mult, sum);
            && (r.Some? <==> AllDigits(t, base))
            && (r.Some? ==> && r.value % M32 == (sum + mult * Value(t, base)) % M32
                            && r.value <= sum + mult * Value(t, base))
    decreases q
  {
    hide DigitOf;
    var t := s[lo + 1..q + 1];
    if lo < q {
      assert t[|t| - 1] == s[q] && t[..|t| - 1] == s[lo + 1..q];
      var d := DigitOf(s[q], base);
      if d.Some? {
        var mult', sum' := mult * base % M32, (sum + mult * d.value % M32) % M64;
        LoopValue(s, lo, q - 1, base, mult', sum');
        if AllDigits(s[lo + 1..q], base) {
          MoreDigits(s[lo + 1..q], t, base);
          DigitTurn(mult, base, Value(s[lo + 1..q], base), d.value, sum);
        } else {
          FewerDigits(s[lo + 1..q], t, base);
        }
      } else {
        assert DigitOf(t[|t| - 1], base).None?;
      }
    }
  }

  /** What follows the last `c`, or everything. */
  function AfterLast(t: string, c: char): string {
    if t == "" || t[|t| - 1] == c then ""
    else AfterLast(t[..|t| - 1], c) + [t[|t| - 1]]
  }

  lemma {:induction false} AfterLastIs(t: string, c: char) returns (m: nat)
    ensures m <= |t| && AfterLast(t, c) == t[m..] && c !in t[m..] && (m > 0 ==> t[m - 1] == c)
  {
    if t == "" || t[|t| - 1] == c {
      m := |t|;
    } else {
      m := AfterLastIs(t[..|t| - 1], c);
      assert t[m..] == t[..|t| - 1][m..] + [t[|t| - 1]];
    }
  }

  /** The loop stops at the last stop character, not at the first. */
  lemma {:induction false} LoopStops(s: string, lo: nat, m: nat, q: nat, base: nat, mult: nat, sum: nat)
    requires lo <= m <= q < |s| && s[m] == s[lo]
    ensures RefLoop(s, lo, q, base, mult, sum) == RefLoop(s, m, q, base, mult, sum)
    decreases q
  {
    if s[q] != s[lo] {
      var d := DigitOf(s[q], base);
      if d.Some? {
        LoopStops(s, lo, m, q - 1, base, mult * base % M32, (sum + mult * d.value % M32) % M64);
      }
    }
  }

  function RefStart(hex: bool): string {
    if hex then "&#x" else "&#"
  }

  /** A reference is accepted exactly when everything behind the last 'x' (or
      '#') is digits, and any such value below 2^32 is the positional one. */
  lemma NumericRefValue(s: string, p: nat, hex: bool, body: string, enc: Encoding)
    requires Has(s, p, RefStart(hex) + body + ";") && ';' !in body
    requires !hex ==> body == "" || body[0] != 'x'
    ensures p + 2 < |s| && s[p + 1] == '#'
    ensures var base, digits := if hex then 16 else 10, AfterLast(body, if hex then 'x' else '#');
            var r := NumericRef(s, p, enc);
            && (r.next == At(p + |RefStart(hex) + body + ";"|) <==> AllDigits(digits, base))
            && (!AllDigits(digits, base) ==> r == Chunk("", Null))
            && (AllDigits(digits, base) && Value(digits, base) < M32 ==>
                  r.text == if enc.Utf8? then Utf8Of(Value(digits, base)) else [(Value(digits, base) % 256) as char])
  {
    hide RefLoop, Has, Utf8Of, Value, AfterLast, AllDigits, RefStart;
    var b := p + |RefStart(hex)|;
    RefParts(s, p, hex, body);
    LoopOfBody(s, b - 1, b + |body|, body, if hex then 16 else 10);
  }

  lemma LoopOfBody(s: string, lo: nat, semi: nat, body: string, base: nat)
    requires lo < semi < |s| && s[lo + 1..semi] == body && (base == 10 || base == 16)
    ensures var digits, r := AfterLast(body, s[lo]), RefLoop(s, lo, semi - 1, base, 1, 0);
            && (r.Some? <==> AllDigits(digits, base))
            && (r.Some? && Value(digits, base) < M32 ==> r.value == Value(digits, base))
  {
    hide RefLoop, AfterLast, AllDigits, Value;
    var from := LastStop(s, lo, semi, body);
    LoopStops(s, lo, from, semi - 1, base, 1, 0);
    LoopValue(s, from, semi - 1, base, 1, 0);
  }

  lemma LastStop(s: string, lo: nat, semi: nat, body: string) returns (from: nat)
    requires lo < semi < |s| && s[lo + 1..semi] == body
    ensures lo <= from < semi && s[from] == s[lo] && s[from + 1..semi] == AfterLast(body, s[lo])
    ensures forall k :: from < k < semi ==> s[k] != s[lo]
  {
    var m := AfterLastIs(body, s[lo]);
    from := lo + m;
    var digits := body[m..];
    assert s[from + 1..semi] == s[lo + 1..semi][m..] == digits;
    forall k | from < k < semi ensures s[k] != s[lo] {
      assert s[k] == digits[k - from - 1];
    }
    if m > 0 { assert s[from] == body[m - 1]; }
  }

  lemma HasSlice(s: string, b: nat, body: string, p: nat, pre: string, post: string)
    requires Has(s, p, pre + body + post) && b == p + |pre|
    ensures b + |body| + |post| <= |s| && s[b..b + |body|] == body
  {
    HasSplit(s, p, pre + body, post);
    HasSplit(s, p, pre, body);
  }

  lemma RefParts(s: string, p: nat, hex: bool, body: string)
    requires Has(s, p, RefStart(hex) + body + ";") && ';' !in body
    requires !hex ==> body == "" || body[0] != 'x'
    ensures var b, n := p + |RefStart(hex)|, |RefStart(hex) + body + ";"|;
            && b + |body| < |s| && s[b..b + |body|] == body && s[p + 1] == '#'
            && b == (if hex then p + 3 else p + 2) && p + n == b + |body| + 1
            && (hex <==> s[p + 2] == 'x') && s[b - 1] == (if hex then 'x' else '#')
            && IndexFrom(s, b, ';') == b + |body|
  {
    hide Has, IndexFrom;
    RefHead(s, p, hex, body);
    var b := p + |RefStart(hex)|;
    NotInSlice(s, b, body, ';');
    FirstAt(s, b, b + |body|, ';');
  }

  lemma NotInSlice(s: string, b: nat, body: string, c: char)
    requires b + |body| <= |s| && s[b..b + |body|] == body && c !in body
    ensures forall k :: b <= k < b + |body| ==> s[k] != c
  {
    forall k | b <= k < b + |body| ensures s[k] != c {
      assert s[k] == body[k - b];
    }
  }

  lemma RefHead(s: string, p: nat, hex: bool, body: string)
    requires Has(s, p, RefStart(hex) + body + ";")
    requires !hex ==> body == "" || body[0] != 'x'
    ensures var b := p + |RefStart(hex)|;
            && b + |body| < |s| && s[b..b + |body|] == body && s[p + 1] == '#' && s[b + |body|] == ';'
            && (hex <==> s[p + 2] == 'x') && s[b - 1] == (if hex then 'x' else '#')
  {
    var b := p + |RefStart(hex)|;
    HasSlice(s, b, body, p, RefStart(hex), ";");
    HasSplit(s, p, RefStart(hex) + body, ";");
    HasSplit(s, p, RefStart(hex), body);
    HasChar(s, p, RefStart(hex), 1);
    HasChar(s, b + |body|, ";", 0);
    if hex {
      HasChar(s, p, RefStart(hex), 2);
    } else if body != "" {
      HasChar(s, b, body, 0);
    }
  }

  // ---------- UTF-8 ----------

  function Tail(c: char): Option<nat> {
    if 0x80 <= c as int <= 0xBF then Some((c as int - 0x80) as nat) else None
  }

  /** The character number of a sequence by the bit patterns of RFC 3629,
      section 3: the free bits of the lead byte, then six per further byte. */
  function Decode(t: string): Option<nat> {
    if |t| == 0 then None
    else
      var lead := t[0] as int;
      if lead < 0x80 then (if |t| == 1 then Some(lead) else None)
      else if 0xC0 <= lead < 0xE0 then DecodeTail(t, 1, 1, lead - 0xC0)
      else if 0xE0 <= lead < 0xF0 then DecodeTail(t, 1, 2, lead - 0xE0)
      else if 0xF0 <= lead < 0xF8 then DecodeTail(t, 1, 3, lead - 0xF0)
      else None
  }

  function DecodeTail(t: string, i: nat, more: nat, n: nat): Option<nat>
    requires i <= |t|
    decreases more
  {
    if more == 0 then (if i == |t| then Some(n) else None)
    else if i == |t| || Tail(t[i]).None? then None
    else DecodeTail(t, i + 1, more - 1, n * 64 + Tail(t[i]).value)
  }

  /** Every value that fits is written so that it decodes to itself; the lead
      byte announces the length written, as the reader's table has it, exactly
      below 0x140000, which covers every Unicode character. */
  lemma Utf8RoundTrip(n: nat)
    requires n < 0x20_0000
    ensures Utf8Of(n) != "" && Decode(Utf8Of(n)) == Some(n)
    ensures ByteLen(Utf8Of(n)[0]) == |Utf8Of(n)| <==> n < 0x14_0000
    ensures n < 0x14_0000 ==> WellFormed(Utf8Of(n), 0)
  {
    if n >= 0x1_0000 {
      Utf8Four(n);
    } else if n >= 0x800 {
      Utf8Three(n);
    } else if n >= 0x80 {
      Utf8Two(n);
    }
  }

  lemma Utf8Two(n: nat)
    requires 0x80 <= n < 0x800
    ensures var t := Utf8Of(n); |t| == 2 == ByteLen(t[0]) && WellFormed(t, 0) && Decode(t) == Some(n)
  {
    var t := Utf8Of(n);
    assert DecodeTail(t, 1, 1, n / 64) == DecodeTail(t, 2, 0, n);
  }

  lemma Utf8Three(n: nat)
    requires 0x800 <= n < 0x1_0000
    ensures var t := Utf8Of(n); |t| == 3 == ByteLen(t[0]) && WellFormed(t, 0) && Decode(t) == Some(n)
  {
    var t := Utf8Of(n);
    var high, mid, low := n / 0x1000, n / 64 % 64, n % 64;
    assert high * 64 + mid == n / 64 && n / 64 * 64 + low == n;
    assert Tail(t[1]) == Some(mid) && Tail(t[2]) == Some(low);
    assert DecodeTail(t, 1, 2, high) == DecodeTail(t, 2, 1, n / 64);
  }

  /** The length table takes a byte for the first of several if and only if some value
      below 0x140000 is written with it in front. */
  lemma LeadBytes(c: char)
    ensures ByteLen(c) > 1 <==> exists n: nat :: 0x80 <= n < 0x14_0000 && Utf8Of(n)[0] == c
  {
    var b := c as int;
    if 0xC2 <= b <= 0xDF {
      assert Utf8Of((b - 0xC0) * 0x40)[0] == c;
    } else if 0xE0 <= b <= 0xEF {
      var n := if b == 0xE0 then 0x800 else (b - 0xE0) * 0x1000;
      assert Utf8Of(n)[0] == c;
    } else if 0xF0 <= b <= 0xF4 {
      var n := if b == 0xF0 then 0x1_0000 else (b - 0xF0) * 0x4_0000;
      assert Utf8Of(n)[0] == c;
    }
  }

  lemma Utf8Four(n: nat)
    requires 0x1_0000 <= n < 0x20_0000
    ensures var t := Utf8Of(n); |t| == 4 && Decode(t) == Some(n)
    ensures var t := Utf8Of(n); ByteLen(t[0]) == 4 <==> n < 0x14_0000
    ensures var t := Utf8Of(n); n < 0x14_0000 ==> WellFormed(t, 0)
  {
    hide Decode, WellFormed, Utf8Of;
    FourDecoded(n);
    FourLead(n);
  }

  lemma FourLead(n: nat)
    requires 0x1_0000 <= n < 0x20_0000
    ensures var t := Utf8Of(n);
            |t| == 4 && (ByteLen(t[0]) == 4 <==> n < 0x14_0000) && (n < 0x14_0000 ==> WellFormed(t, 0))
  {
    assert Utf8Of(n)[0] as int == 0xF0 + n / 0x4_0000;
  }

  lemma FourDecoded(n: nat)
    requires 0x1_0000 <= n < 0x20_0000
    ensures var t := Utf8Of(n); |t| == 4 && Decode(t) == Some(n)
  {
    hide WellFormed, ByteLen;
    var t := Utf8Of(n);
    var top, high, mid, low := n / 0x4_0000, n / 0x1000 % 64, n / 64 % 64, n % 64;
    assert top * 64 + high == n / 0x1000 && n / 0x1000 * 64 + mid == n / 64 && n / 64 * 64 + low == n;
    assert Tail(t[1]) == Some(high) && Tail(t[2]) == Some(mid) && Tail(t[3]) == Some(low);
    assert t[0] as int == 0xF0 + top;
    assert DecodeTail(t, 1, 3, top) == DecodeTail(t, 2, 2, n / 0x1000);
    assert DecodeTail(t, 2, 2, n / 0x1000) == DecodeTail(t, 3, 1, n / 64);
  }
}
