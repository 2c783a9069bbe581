/** The tools' JSON string escaping, against a reader of JSON strings (section 7 of RFC 8259). */
module JsonEscape {
  import opened Bytes

  const QUOTE: byte := 0x22
  const BACKSLASH: byte := 0x5C

  function HexDigit(n: nat): byte
    requires n < 16
  {
    if n < 10 then 0x30 + n else 0x61 + (n - 10)
  }

  /** What one byte is written as. */
  function EscapeByte(b: byte): seq<byte> {
    if b == BACKSLASH then [BACKSLASH, BACKSLASH]
    else if b == QUOTE then [BACKSLASH, QUOTE]
    else if b == 0x0A then [BACKSLASH, 0x6E]
    else if b == 0x0D then [BACKSLASH, 0x72]
    else if b == 0x09 then [BACKSLASH, 0x74]
    else if b < 0x20 then [BACKSLASH, 0x75, 0x30, 0x30, HexDigit(b / 16), HexDigit(b % 16)]
    else [b]
  }

  function Escape(text: seq<byte>): seq<byte> {
    if text == [] then [] else EscapeByte(text[0]) + Escape(text[1..])
  }

  /** The loop of `json_escape`. */
  method JsonEscapeText(text: seq<byte>) returns (out: seq<byte>)
    ensures out == Escape(text)
  {
    hide EscapeByte;
    out := [];
    for i := 0 to |text|
      invariant out + Escape(text[i..]) == Escape(text)
    {
      assert text[i..][1..] == text[i + 1..];
      assert out + (EscapeByte(text[i]) + Escape(text[i + 1..])) == out + EscapeByte(text[i]) + Escape(text[i + 1..]);
      out := out + EscapeByte(text[i]);
    }
    assert text[|text|..] == [] && out + [] == out;
  }

  // ---------------------------------------------------------------- Reading a JSON string

  function HexValue(c: byte): Option<nat> {
    if 0x30 <= c <= 0x39 then Some(c - 0x30)
    else if 0x61 <= c <= 0x66 then Some(c - 0x61 + 10)
    else if 0x41 <= c <= 0x46 then Some(c - 0x41 + 10)
    else None
  }

  /** UTF-8 of a code point of the basic plane; surrogates stand for nothing on their own. */
  function Utf8(code: nat): Option<seq<byte>> {
    if code < 0x80 then Some([code])
    else if code < 0x800 then Some([0xC0 + code / 64, 0x80 + code % 64])
    else if 0xD800 <= code < 0xE000 || code >= 0x1_0000 then None
    else Some([0xE0 + code / 4096, 0x80 + code / 64 % 64, 0x80 + code % 64])
  }

  function Simple(c: byte): Option<byte> {
    if c == QUOTE || c == BACKSLASH || c == 0x2F then Some(c)
    else if c == 0x62 then Some(0x08)
    else if c == 0x66 then Some(0x0C)
    else if c == 0x6E then Some(0x0A)
    else if c == 0x72 then Some(0x0D)
    else if c == 0x74 then Some(0x09)
    else None
  }

  /** The bytes that the first character or escape of `s` stands for, and how long it is. */
  function ReadOne(s: seq<byte>): (r: Option<(seq<byte>, nat)>)
    requires s != []
    ensures r.Some? ==> 0 < r.value.1 <= |s|
  {
    if s[0] != BACKSLASH then
      if s[0] < 0x20 || s[0] == QUOTE then None else Some(([s[0]], 1))
    else if |s| < 2 then None
    else if s[1] == 0x75 then
      if |s| < 6 then None
      else
        var (a, b, c, d) := (HexValue(s[2]), HexValue(s[3]), HexValue(s[4]), HexValue(s[5]));
        if a.None? || b.None? || c.None? || d.None? then None
        else
          var bytes := Utf8(((a.value * 16 + b.value) * 16 + c.value) * 16 + d.value);
          if bytes.None? then None else Some((bytes.value, 6))
    else
      var c := Simple(s[1]);
      if c.None? then None else Some(([c.value], 2))
  }

  function Unescape(s: seq<byte>): Option<seq<byte>>
    decreases |s|
  {
    if s == [] then Some([])
    else match ReadOne(s)
      case None => None
      case Some((bytes, n)) =>
        var rest := Unescape(s[n..]);
        if rest.None? then None else Some(bytes + rest.value)
  }

  /** Where a reader that starts behind an opening quote finds the closing one. */
  function ClosingQuote(s: seq<byte>): Option<nat>
    decreases |s|
  {
    if s == [] then None
    else if s[0] == QUOTE then Some(0)
    else
      var n := if s[0] == BACKSLASH then 2 else 1;
      if |s| < n then None
      else
        var rest := ClosingQuote(s[n..]);
        if rest.None? then None else Some(n + rest.value)
  }

  // ---------------------------------------------------------------- Escaping is undone by reading

  lemma ReadEscaped(b: byte, rest: seq<byte>)
    ensures ReadOne(EscapeByte(b) + rest) == Some(([b], |EscapeByte(b)|))
  {
    var s := EscapeByte(b) + rest;
    if b < 0x20 && b != 0x0A && b != 0x0D && b != 0x09 {
      assert HexValue(HexDigit(b / 16)) == Some(b / 16) && HexValue(HexDigit(b % 16)) == Some(b % 16);
      assert HexValue(0x30) == Some(0);
      assert s[4] == HexDigit(b / 16) && s[5] == HexDigit(b % 16);
      assert ((0 * 16 + 0) * 16 + b / 16) * 16 + b % 16 == b;
    }
  }

  lemma {:induction false} EscapeRoundTrip(text: seq<byte>)
    ensures Unescape(Escape(text)) == Some(text)
  {
    hide EscapeByte, ReadOne;
    if text != [] {
      var (e, rest) := (EscapeByte(text[0]), Escape(text[1..]));
      ReadEscaped(text[0], rest);
      EscapeRoundTrip(text[1..]);
      assert (e + rest)[|e|..] == rest;
      assert text == [text[0]] + text[1..];
      EscapeNonempty(text[0]);
    }
  }

  lemma EscapeNonempty(b: byte)
    ensures EscapeByte(b) != []
    ensures forall i | 0 <= i < |EscapeByte(b)| :: EscapeByte(b)[i] >= 0x20
  {
  }

  /** What the search finds in `s` when it resumes `n` bytes later. */
  function Later(n: nat, found: Option<nat>): Option<nat> {
    if found.None? then None else Some(n + found.value)
  }

  lemma SkipOne(s: seq<byte>, rest: seq<byte>)
    requires s != [] && s[1..] == rest && s[0] != QUOTE && s[0] != BACKSLASH
    ensures ClosingQuote(s) == Later(1, ClosingQuote(rest))
  {
  }

  lemma SkipTwo(s: seq<byte>, rest: seq<byte>)
    requires |s| >= 2 && s[2..] == rest && s[0] == BACKSLASH
    ensures ClosingQuote(s) == Later(2, ClosingQuote(rest))
  {
  }

  lemma {:induction false} SkipPlain(plain: seq<byte>, rest: seq<byte>)
    requires forall i | 0 <= i < |plain| :: plain[i] != QUOTE && plain[i] != BACKSLASH
    ensures ClosingQuote(plain + rest) == Later(|plain|, ClosingQuote(rest))
  {
    hide ClosingQuote;
    if plain == [] {
      assert plain + rest == rest;
    } else {
      SkipPlain(plain[1..], rest);
      assert (plain + rest)[1..] == plain[1..] + rest;
      SkipOne(plain + rest, plain[1..] + rest);
    }
  }

  lemma SkipEscaped(b: byte, rest: seq<byte>)
    ensures ClosingQuote(EscapeByte(b) + rest) == Later(|EscapeByte(b)|, ClosingQuote(rest))
  {
    hide ClosingQuote;
    var e := EscapeByte(b);
    if |e| == 1 {
      SkipPlain(e, rest);
    } else {
      assert (e + rest)[2..] == e[2..] + rest;
      SkipTwo(e + rest, e[2..] + rest);
      SkipPlain(e[2..], rest);
    }
  }

  /** The quote written after the escaped text is the one a reader takes as the end of the field. */
  lemma {:induction false} QuoteIsIntended(text: seq<byte>, after: seq<byte>)
    ensures ClosingQuote(Escape(text) + [QUOTE] + after) == Some(|Escape(text)|)
  {
    hide EscapeByte;
    if text == [] {
      assert Escape(text) + [QUOTE] + after == [QUOTE] + after;
    } else {
      var (e, rest) := (EscapeByte(text[0]), Escape(text[1..]) + [QUOTE] + after);
      assert Escape(text) + [QUOTE] + after == e + rest;
      QuoteIsIntended(text[1..], after);
      SkipEscaped(text[0], rest);
    }
  }

  /** The text that stands for a byte. */
  function Written(b: byte): string {
    if b == 0x22 then "\\\""
    else if b == 0x5C then "\\\\"
    else if b == 0x0A then "\\n"
    else if b == 0x0D then "\\r"
    else if b == 0x09 then "\\t"
    else if b >= 0x20 then [b as char]
    else "\\u00" + [if b < 0x10 then '0' else '1', "0123456789abcdef"[b % 16]]
  }

  lemma WrittenIs(b: byte)
    ensures |EscapeByte(b)| == |Written(b)|
    ensures forall i | 0 <= i < |Written(b)| :: EscapeByte(b)[i] == Written(b)[i] as int
  {
  }

  /** What a byte is written as, wherever it stands. */
  lemma {:induction false} EscapedAnywhere(before: seq<byte>, b: byte, after: seq<byte>)
    ensures var (n, w) := (|Escape(before)|, Written(b));
            && |Escape(before + [b] + after)| == n + |w| + |Escape(after)|
            && Escape(before + [b] + after)[..n] == Escape(before)
            && (forall i | 0 <= i < |w| :: Escape(before + [b] + after)[n + i] == w[i] as int)
            && Escape(before + [b] + after)[n + |w|..] == Escape(after)
  {
    hide EscapeByte, Written;
    WrittenIs(b);
    EscapeConcat(before, b, after);
  }

  lemma {:induction false} EscapeConcat(before: seq<byte>, b: byte, after: seq<byte>)
    ensures Escape(before + [b] + after) == Escape(before) + EscapeByte(b) + Escape(after)
  {
    hide EscapeByte;
    var all := before + [b] + after;
    if before == [] {
      assert all == [b] + after && all[1..] == after;
    } else {
      assert all[1..] == before[1..] + [b] + after;
      EscapeConcat(before[1..], b, after);
    }
  }

  /** No control byte is left in the output. */
  lemma {:induction false} NoControlBytes(text: seq<byte>, i: nat)
    requires i < |Escape(text)|
    ensures Escape(text)[i] >= 0x20
  {
    hide EscapeByte;
    EscapeNonempty(text[0]);
    var e := EscapeByte(text[0]);
    if i >= |e| {
      NoControlBytes(text[1..], i - |e|);
    }
  }
}
