/** The per-token escaping `urlencode` applies to every key and value: Python's
    `quote_plus` with no extra safe characters. A character is kept when it is an
    ASCII letter, digit or one of `_.-~`; a space becomes `+`; every other
    character is written as its UTF-8 bytes, each as `%XY` with upper-case hex.
    `UnquotePlus` is an independent reading in the other direction, and
    `UnquoteQuotePlus` proves the escaping loses nothing. */
module Quote {
  import opened Util

  /** Characters `quote` never escapes. */
  predicate AlwaysSafe(c: char) {
    || 'A' <= c <= 'Z'
    || 'a' <= c <= 'z'
    || '0' <= c <= '9'
    || c == '_' || c == '.' || c == '-' || c == '~'
  }

  /** The characters an escaped token can contain; `&` and `=` are not among them. */
  predicate Escaped(c: char) {
    AlwaysSafe(c) || c == '+' || c == '%'
  }

  /** A code point that is a Unicode scalar value, i.e. a Dafny `char`. */
  predicate IsScalar(cp: int) {
    0 <= cp < 0xD800 || 0xE000 <= cp < 0x11_0000
  }

  /** The UTF-8 encoding of one character (what `str.encode("utf-8")` yields for it). */
  function Utf8(c: char): (bs: seq<byte>)
    ensures 1 <= |bs| <= 4
    ensures |bs| == 1 <==> c as int < 0x80
  {
    var cp := c as int;
    if cp < 0x80 then [cp]
    else if cp < 0x800 then [0xC0 + cp / 64, 0x80 + cp % 64]
    else if cp < 0x1_0000 then [0xE0 + cp / 64 / 64, 0x80 + cp / 64 % 64, 0x80 + cp % 64]
    else [0xF0 + cp / 64 / 64 / 64, 0x80 + cp / 64 / 64 % 64, 0x80 + cp / 64 % 64, 0x80 + cp % 64]
  }

  /** The length of a UTF-8 sequence announced by its first byte; 0 for a byte that cannot start one. */
  function Utf8Width(lead: byte): (n: nat)
    ensures n <= 4
  {
    if lead < 0x80 then 1
    else if 0xC0 <= lead < 0xE0 then 2
    else if 0xE0 <= lead < 0xF0 then 3
    else if 0xF0 <= lead < 0xF8 then 4
    else 0
  }

  predicate IsContinuation(b: byte) {
    0x80 <= b < 0xC0
  }

  /** Decodes one complete UTF-8 sequence into its character. */
  function Utf8Decode(bs: seq<byte>): (r: Option<char>)
    ensures r.Some? ==> |bs| >= 1 && |bs| == Utf8Width(bs[0])
  {
    if |bs| == 0 || |bs| != Utf8Width(bs[0]) then None
    else if exists i :: 1 <= i < |bs| && !IsContinuation(bs[i]) then None
    else
      var b := seq(|bs|, i requires 0 <= i < |bs| => bs[i] as int);
      var cp :=
        if |b| == 1 then b[0]
        else if |b| == 2 then (b[0] - 0xC0) * 64 + (b[1] - 0x80)
        else if |b| == 3 then ((b[0] - 0xE0) * 64 + (b[1] - 0x80)) * 64 + (b[2] - 0x80)
        else (((b[0] - 0xF0) * 64 + (b[1] - 0x80)) * 64 + (b[2] - 0x80)) * 64 + (b[3] - 0x80);
      if IsScalar(cp) then Some(cp as char) else None
  }

  lemma Utf8RoundTrip(c: char)
    ensures Utf8Width(Utf8(c)[0]) == |Utf8(c)|
    ensures Utf8Decode(Utf8(c)) == Some(c)
  {
    var cp := c as int;
    var a := cp / 64;
    var b := a / 64;
    assert cp == a * 64 + cp % 64;
    assert a == b * 64 + a % 64;
    assert b == b / 64 * 64 + b % 64;
  }

  /** Each byte as `%XY`, upper-case hex. */
  function Escape(bs: seq<byte>): (t: string)
    ensures |t| == 3 * |bs|
    ensures forall i :: 0 <= i < |t| ==> Escaped(t[i])
  {
    if bs == [] then []
    else ['%', HexDigit(bs[0] / 16, true), HexDigit(bs[0] % 16, true)] + Escape(bs[1..])
  }

  /** How `quote_plus` writes one character. */
  function QuoteChar(c: char): (t: string)
    ensures |t| >= 1
    ensures forall i :: 0 <= i < |t| ==> Escaped(t[i])
    ensures t == [c] <==> AlwaysSafe(c)
    ensures c == ' ' ==> t == "+"
    ensures c != ' ' && !AlwaysSafe(c) ==>
              |t| == 3 * |Utf8(c)| && ReadEscapes(t, |Utf8(c)|) == Some(Utf8(c))
  {
    if c == ' ' then "+"
    else if AlwaysSafe(c) then [c]
    else
      var bs := Utf8(c);
      ReadEscapesOfEscape(bs, [], |bs|);
      assert Escape(bs) + [] == Escape(bs) && bs[..|bs|] == bs;
      Escape(bs)
  }

  /** `quote_plus(s)`: the token as it appears in a form-encoded query. */
  function QuotePlus(s: string): (t: string)
    ensures |t| >= |s|
    ensures forall i :: 0 <= i < |t| ==> Escaped(t[i])
    ensures '&' !in t && '=' !in t && '?' !in t
    ensures (forall i :: 0 <= i < |s| ==> AlwaysSafe(s[i])) ==> t == s
  {
    if s == [] then []
    else
      var t := QuoteChar(s[0]) + QuotePlus(s[1..]);
      assert forall i :: 0 <= i < |t| ==> Escaped(t[i]);
      t
  }

  /** Reads `n` consecutive `%XY` escapes from the front of `t`. */
  function ReadEscapes(t: string, n: nat): (r: Option<seq<byte>>)
    ensures r.Some? ==> |r.value| == n && 3 * n <= |t|
  {
    if n == 0 then Some([])
    else if |t| < 3 || t[0] != '%' then None
    else match (HexValue(t[1]), HexValue(t[2]))
      case (Some(hi), Some(lo)) =>
        (match ReadEscapes(t[3..], n - 1)
         case Some(rest) => Some([hi * 16 + lo] + rest)
         case None => None)
      case _ => None
  }

  function Cons(c: char, r: Option<string>): Option<string> {
    match r
    case Some(s) => Some([c] + s)
    case None => None
  }

  /** The reading of an escaped token: `+` is a space, `%XY...` one UTF-8 encoded
      character, anything else stands for itself. */
  function UnquotePlus(t: string): Option<string>
    decreases |t|
  {
    if t == [] then Some([])
    else if t[0] == '+' then Cons(' ', UnquotePlus(t[1..]))
    else if t[0] != '%' then Cons(t[0], UnquotePlus(t[1..]))
    else match ReadEscapes(t, 1)
      case None => None
      case Some(lead) =>
        var n := Utf8Width(lead[0]);
        if n == 0 then None
        else match ReadEscapes(t, n)
          case None => None
          case Some(bs) =>
            (match Utf8Decode(bs)
             case None => None
             case Some(c) => Cons(c, UnquotePlus(t[3 * n..])))
  }

  lemma {:induction false} ReadEscapesOfEscape(bs: seq<byte>, rest: string, n: nat)
    requires n <= |bs|
    ensures ReadEscapes(Escape(bs) + rest, n) == Some(bs[..n])
    decreases n
  {
    if n > 0 {
      var t := Escape(bs) + rest;
      HexValueOfDigit(bs[0] / 16, true);
      HexValueOfDigit(bs[0] % 16, true);
      assert t[3..] == Escape(bs[1..]) + rest;
      ReadEscapesOfEscape(bs[1..], rest, n - 1);
      assert bs[..n] == [bs[0]] + bs[1..][..n - 1];
    }
  }

  lemma UnquoteQuoteChar(c: char, rest: string)
    ensures UnquotePlus(QuoteChar(c) + rest) == Cons(c, UnquotePlus(rest))
  {
    var t := QuoteChar(c) + rest;
    if c == ' ' {
      assert t[1..] == rest;
    } else if AlwaysSafe(c) {
      assert t[1..] == rest;
    } else {
      var bs := Utf8(c);
      Utf8RoundTrip(c);
      ReadEscapesOfEscape(bs, rest, 1);
      ReadEscapesOfEscape(bs, rest, |bs|);
      assert bs[..1] == [bs[0]];
      assert bs[..|bs|] == bs;
      assert t[3 * |bs|..] == rest;
    }
  }

  /** Escaping then reading back gives the original token: `quote_plus` is injective,
      so distinct keys or values never collide in the signed query. */
  lemma {:induction false} UnquoteQuotePlus(s: string)
    ensures UnquotePlus(QuotePlus(s)) == Some(s)
  {
    if s != [] {
      UnquoteQuotePlus(s[1..]);
      UnquoteQuoteChar(s[0], QuotePlus(s[1..]));
      assert [s[0]] + s[1..] == s;
    }
  }
}
