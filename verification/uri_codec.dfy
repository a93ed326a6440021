/** `encodeURIComponent` and `decodeURIComponent` of ECMA-262 (sections
    19.2.6.4 and 19.2.6.5, with the Encode and Decode abstract operations
    they share), over strings of Unicode scalar values.

    Encoding is described by pieces: each input character becomes either
    itself (`Lit`) or the `%XX` escapes of its UTF-8 bytes (`Pct`). Working
    on pieces rather than on rendered text lets later modules reason about
    substring replacements that only ever touch whole escapes. */
module UriCodec {
  import opened Wrappers
  import opened Strings

  type Byte = b: int | 0 <= b < 256

  datatype UriError = UriError(found: string)

  /** The characters `encodeURIComponent` leaves unescaped: letters,
      decimal digits and the marks `- _ . ! ~ * ' ( )`. */
  predicate Unreserved(c: char) {
    || ('A' <= c <= 'Z')
    || ('a' <= c <= 'z')
    || ('0' <= c <= '9')
    || c in "-_.!~*'()"
  }

  /** The UTF-8 encoding of one code point. */
  function Utf8(c: char): (bs: seq<Byte>)
    ensures 1 <= |bs| <= 4
    ensures |bs| == 1 <==> (c as int) < 0x80
  {
    var cp := c as int;
    if cp < 0x80 then [cp]
    else if cp < 0x800 then [0xC0 + cp / 64, 0x80 + cp % 64]
    else if cp < 0x10000 then [0xE0 + cp / 4096, 0x80 + cp / 64 % 64, 0x80 + cp % 64]
    else [0xF0 + cp / 262144, 0x80 + cp / 4096 % 64, 0x80 + cp / 64 % 64, 0x80 + cp % 64]
  }

  /** The number of bytes a UTF-8 sequence starting with `lead` has, or 0
      when `lead` cannot start one (a continuation byte, or five or more
      leading one bits). */
  function Utf8Length(lead: Byte): nat {
    if lead < 0x80 then 1
    else if lead < 0xC0 then 0
    else if lead < 0xE0 then 2
    else if lead < 0xF0 then 3
    else if lead < 0xF8 then 4
    else 0
  }

  predicate IsContinuation(b: Byte) {
    0x80 <= b < 0xC0
  }

  /** The code point `bs` encodes, failing unless it is the shortest
      encoding of a Unicode scalar value. */
  function Utf8Decode(bs: seq<Byte>): (r: Result<char, UriError>)
    requires 1 <= |bs| <= 4 && Utf8Length(bs[0]) == |bs|
  {
    var b: seq<int> := bs;
    if |bs| == 1 then Success(bs[0] as char)
    else if exists i :: 1 <= i < |bs| && !IsContinuation(bs[i]) then Failure(UriError([]))
    else if |bs| == 2 then
      var cp := (b[0] - 0xC0) * 64 + (b[1] - 0x80);
      if cp < 0x80 then Failure(UriError([])) else Success(cp as char)
    else if |bs| == 3 then
      var cp := (b[0] - 0xE0) * 4096 + (b[1] - 0x80) * 64 + (b[2] - 0x80);
      if cp < 0x800 || (0xD800 <= cp < 0xE000) then Failure(UriError([])) else Success(cp as char)
    else
      var cp := (b[0] - 0xF0) * 262144 + (b[1] - 0x80) * 4096 + (b[2] - 0x80) * 64 + (b[3] - 0x80);
      if cp < 0x10000 || cp >= 0x110000 then Failure(UriError([])) else Success(cp as char)
  }

  lemma Utf8RoundTrip(c: char)
    ensures Utf8Length(Utf8(c)[0]) == |Utf8(c)|
    ensures Utf8Decode(Utf8(c)) == Success(c)
  {
    var cp := c as int;
    if cp < 0x80 {
    } else if cp < 0x800 {
      Utf8RoundTrip2(c);
    } else if cp < 0x10000 {
      Utf8RoundTrip3(c);
    } else {
      Utf8RoundTrip4(c);
    }
  }

  lemma Utf8RoundTrip2(c: char)
    requires 0x80 <= c as int < 0x800
    ensures Utf8Length(Utf8(c)[0]) == |Utf8(c)|
    ensures Utf8Decode(Utf8(c)) == Success(c)
  {
    var cp := c as int;
    assert (cp / 64) * 64 + cp % 64 == cp;
  }

  lemma Utf8RoundTrip3(c: char)
    requires 0x800 <= c as int < 0x10000
    ensures Utf8Length(Utf8(c)[0]) == |Utf8(c)|
    ensures Utf8Decode(Utf8(c)) == Success(c)
  {
    var cp := c as int;
    assert (cp / 4096) * 4096 + (cp / 64 % 64) * 64 + cp % 64 == cp;
  }

  lemma Utf8RoundTrip4(c: char)
    requires 0x10000 <= c as int
    ensures Utf8Length(Utf8(c)[0]) == |Utf8(c)|
    ensures Utf8Decode(Utf8(c)) == Success(c)
  {
    var cp := c as int;
    assert (cp / 262144) * 262144 + (cp / 4096 % 64) * 4096 + (cp / 64 % 64) * 64 + cp % 64 == cp;
  }

  // ---------------------------------------------------------------------
  // Hexadecimal digits

  /** Escapes are written with upper-case hexadecimal digits. */
  function HexDigit(d: int): (h: char)
    requires 0 <= d < 16
    ensures h != '%'
  {
    if d < 10 then ('0' as int + d) as char else ('A' as int + d - 10) as char
  }

  predicate IsUpperHex(c: char) {
    ('0' <= c <= '9') || ('A' <= c <= 'F')
  }

  /** The value of a hexadecimal digit of either case. */
  function HexValue(c: char): Option<int> {
    if '0' <= c <= '9' then Some(c as int - '0' as int)
    else if 'A' <= c <= 'F' then Some(c as int - 'A' as int + 10)
    else if 'a' <= c <= 'f' then Some(c as int - 'a' as int + 10)
    else None
  }

  lemma HexDigitValue(d: int)
    requires 0 <= d < 16
    ensures IsUpperHex(HexDigit(d))
    ensures HexValue(HexDigit(d)) == Some(d)
  {
  }

  // ---------------------------------------------------------------------
  // Pieces of an encoding

  datatype Piece = Lit(c: char) | Pct(b: Byte)

  function Hex(b: Byte): string {
    [HexDigit(b / 16), HexDigit(b % 16)]
  }

  function RenderPiece(p: Piece): string {
    match p
    case Lit(c) => [c]
    case Pct(b) => ['%'] + Hex(b)
  }

  function Render(ps: seq<Piece>): string
    decreases |ps|
  {
    if ps == [] then [] else RenderPiece(ps[0]) + Render(ps[1..])
  }

  lemma {:induction false} RenderConcat(a: seq<Piece>, b: seq<Piece>)
    ensures Render(a + b) == Render(a) + Render(b)
    decreases |a|
  {
    if a == [] {
      assert a + b == b;
    } else {
      assert (a + b)[0] == a[0];
      assert (a + b)[1..] == a[1..] + b;
      RenderConcat(a[1..], b);
    }
  }

  /** One piece per byte, each escaped. */
  function Pcts(bs: seq<Byte>): (ps: seq<Piece>)
    ensures |ps| == |bs|
    ensures forall i :: 0 <= i < |bs| ==> ps[i] == Pct(bs[i])
  {
    seq(|bs|, i requires 0 <= i < |bs| => Pct(bs[i]))
  }

  /** What `encodeURIComponent` does to one character. */
  function Escape(c: char): seq<Piece> {
    if Unreserved(c) then [Lit(c)] else Pcts(Utf8(c))
  }

  /** The pieces of a whole string, character by character. */
  function Tokens(s: string, f: char -> seq<Piece>): seq<Piece>
    decreases |s|
  {
    if s == [] then [] else f(s[0]) + Tokens(s[1..], f)
  }

  function MapPieces(ps: seq<Piece>, g: Piece -> Piece): (qs: seq<Piece>)
    ensures |qs| == |ps|
    ensures forall i :: 0 <= i < |ps| ==> qs[i] == g(ps[i])
  {
    seq(|ps|, i requires 0 <= i < |ps| => g(ps[i]))
  }

  /** Mapping pieces one by one commutes with building them character by
      character. */
  lemma {:induction false} TokensMap(s: string, f: char -> seq<Piece>, g: Piece -> Piece, f': char -> seq<Piece>)
    requires forall c :: MapPieces(f(c), g) == f'(c)
    ensures MapPieces(Tokens(s, f), g) == Tokens(s, f')
    decreases |s|
  {
    if s != [] {
      TokensMap(s[1..], f, g, f');
      assert MapPieces(f(s[0]), g) == f'(s[0]);
      var t := Tokens(s, f);
      assert t == f(s[0]) + Tokens(s[1..], f);
      assert MapPieces(t, g) == MapPieces(f(s[0]), g) + MapPieces(Tokens(s[1..], f), g);
    }
  }

  /** `encodeURIComponent`: its output uses only unreserved characters
      and `%`. */
  function EncodeURIComponent(s: string): (r: string)
    ensures forall i :: 0 <= i < |r| ==> Unreserved(r[i]) || r[i] == '%'
  {
    var r := Render(Tokens(s, Escape));
    EscapedChars(s, r);
    r
  }

  lemma EscapedChars(s: string, r: string)
    requires r == Render(Tokens(s, Escape))
    ensures forall i :: 0 <= i < |r| ==> Unreserved(r[i]) || r[i] == '%'
  {
    var ps := Tokens(s, Escape);
    forall i | 0 <= i < |r| ensures Unreserved(r[i]) || r[i] == '%' {
      var ch := r[i];
      if !Unreserved(ch) && ch != '%' {
        RenderHas(ps, ch);
        TokensHas(s, Escape, Lit(ch));
        assert false;
      }
    }
  }

  // ---------------------------------------------------------------------
  // Decoding

  /** The byte written as `%XX` at the start of `s`. */
  function PctByte(s: string): Result<Byte, UriError> {
    if |s| < 3 || s[0] != '%' then Failure(UriError(s))
    else
      match (HexValue(s[1]), HexValue(s[2]))
      case (Some(hi), Some(lo)) => Success(hi * 16 + lo)
      case _ => Failure(UriError(s))
  }

  /** `n` consecutive `%XX` escapes at the start of `s`. */
  function PctBytes(s: string, n: nat): (r: Result<seq<Byte>, UriError>)
    ensures r.Success? ==> |r.value| == n && 3 * n <= |s|
    decreases n
  {
    if n == 0 then Success([])
    else
      var b :- PctByte(s);
      var rest :- PctBytes(s[3..], n - 1);
      Success([b] + rest)
  }

  /** Decodes the character at the start of `s`: a literal character, or a
      complete UTF-8 sequence of escapes. Returns the character and the
      number of input characters it used. */
  function DecodeUnit(s: string): (r: Result<(char, nat), UriError>)
    requires |s| > 0
    ensures r.Success? ==> 0 < r.value.1 <= |s|
  {
    if s[0] != '%' then Success((s[0], 1))
    else
      var lead :- PctByte(s);
      var n := Utf8Length(lead);
      if n == 0 then Failure(UriError(s))
      else
        var bs :- PctBytes(s, n);
        if bs[0] != lead then Failure(UriError(s))
        else
          var c :- Utf8Decode(bs);
          Success((c, 3 * n))
  }

  /** `decodeURIComponent`: never longer than its input, and the
      identity on text without `%`. */
  function DecodeURIComponent(s: string): (r: Result<string, UriError>)
    ensures r.Success? ==> |r.value| <= |s|
    ensures '%' !in s ==> r == Success(s)
    decreases |s|
  {
    if s == [] then Success([])
    else
      assert s == [s[0]] + s[1..];
      assert '%' !in s ==> s[0] != '%' && '%' !in s[1..];
      var u :- DecodeUnit(s);
      var rest :- DecodeURIComponent(s[u.1..]);
      Success([u.0] + rest)
  }

  lemma {:induction false} PctBytesOfPcts(bs: seq<Byte>, rest: string)
    ensures PctBytes(Render(Pcts(bs)) + rest, |bs|) == Success(bs)
    decreases |bs|
  {
    if bs != [] {
      var s := Render(Pcts(bs)) + rest;
      var b := bs[0];
      assert Pcts(bs) == [Pct(b)] + Pcts(bs[1..]);
      assert Render(Pcts(bs)) == RenderPiece(Pct(b)) + Render(Pcts(bs[1..]));
      HexDigitValue(b / 16);
      HexDigitValue(b % 16);
      assert s[..3] == ['%', HexDigit(b / 16), HexDigit(b % 16)];
      assert PctByte(s) == Success(b);
      assert s[3..] == Render(Pcts(bs[1..])) + rest;
      PctBytesOfPcts(bs[1..], rest);
      assert [b] + bs[1..] == bs;
    }
  }

  /** Decoding undoes the escape of any one character. */
  lemma DecodeEscape(c: char, rest: string)
    ensures |Render(Escape(c))| > 0
    ensures DecodeUnit(Render(Escape(c)) + rest) == Success((c, |Render(Escape(c))|))
  {
    if Unreserved(c) {
      assert Render(Escape(c)) == [c];
    } else {
      var bs := Utf8(c);
      var s := Render(Pcts(bs)) + rest;
      PctBytesOfPcts(bs, rest);
      PctBytesOfPcts(bs[..1], Render(Pcts(bs[1..])) + rest);
      assert Pcts(bs) == Pcts(bs[..1]) + Pcts(bs[1..]);
      RenderConcat(Pcts(bs[..1]), Pcts(bs[1..]));
      assert PctByte(s) == Success(bs[0]);
      Utf8RoundTrip(c);
      assert |Render(Pcts(bs))| == 3 * |bs| by {
        RenderPctsLength(bs);
      }
    }
  }

  lemma {:induction false} RenderPctsLength(bs: seq<Byte>)
    ensures |Render(Pcts(bs))| == 3 * |bs|
    decreases |bs|
  {
    if bs != [] {
      assert Pcts(bs)[1..] == Pcts(bs[1..]);
      RenderPctsLength(bs[1..]);
    }
  }

  /** A character is written either as its escape or, when it is not `%`,
      as itself. */
  ghost predicate Decodable(f: char -> seq<Piece>) {
    forall c :: f(c) == Escape(c) || (c != '%' && f(c) == [Lit(c)])
  }

  /** Decoding recovers every string whose characters are written as their
      escapes or as themselves. */
  lemma {:induction false} DecodeTokens(s: string, f: char -> seq<Piece>)
    requires Decodable(f)
    ensures DecodeURIComponent(Render(Tokens(s, f))) == Success(s)
    decreases |s|
  {
    if s != [] {
      var head := Render(f(s[0]));
      var tail := Render(Tokens(s[1..], f));
      RenderConcat(f(s[0]), Tokens(s[1..], f));
      assert Render(Tokens(s, f)) == head + tail;
      if f(s[0]) == Escape(s[0]) {
        DecodeEscape(s[0], tail);
      } else {
        assert head == [s[0]];
      }
      assert DecodeUnit(head + tail) == Success((s[0], |head|));
      assert (head + tail)[|head|..] == tail;
      DecodeTokens(s[1..], f);
      assert [s[0]] + s[1..] == s;
    }
  }

  /** `decodeURIComponent` inverts `encodeURIComponent`. */
  lemma EncodeDecodeURIComponent(s: string)
    ensures DecodeURIComponent(EncodeURIComponent(s)) == Success(s)
  {
    DecodeTokens(s, Escape);
  }

  // ---------------------------------------------------------------------
  // Literal replacements on rendered pieces

  /** Turns the escape `%h1h2` into the literal `r`. */
  function SubstHex(h1: char, h2: char, r: char): Piece -> Piece {
    (p: Piece) => if p.Pct? && Hex(p.b) == [h1, h2] then Lit(r) else p
  }

  /** Turns the literal `ch` into the piece `q`. */
  function SwapLit(ch: char, q: Piece): Piece -> Piece {
    (p: Piece) => if p == Lit(ch) then q else p
  }

  lemma HexDigitInjective(d: int, d': int)
    requires 0 <= d < 16 && 0 <= d' < 16
    ensures HexDigit(d) == HexDigit(d') ==> d == d'
  {
    HexDigitValue(d);
    HexDigitValue(d');
  }

  /** Replacing `%h1h2` in rendered text replaces exactly the escapes that
      render as `%h1h2`: a `%` only ever starts an escape, so no match can
      straddle two pieces. */
  lemma {:induction false} ReplacePct(ps: seq<Piece>, h1: char, h2: char, r: char)
    requires Lit('%') !in ps
    ensures ReplaceAll(Render(ps), ['%', h1, h2], [r]) == Render(MapPieces(ps, SubstHex(h1, h2, r)))
    decreases |ps|
  {
    var pat := ['%', h1, h2];
    var g := SubstHex(h1, h2, r);
    if ps != [] {
      var tail := Render(ps[1..]);
      var mapped := MapPieces(ps, g);
      assert mapped == [g(ps[0])] + MapPieces(ps[1..], g);
      assert Render(mapped) == RenderPiece(g(ps[0])) + Render(MapPieces(ps[1..], g));
      assert Lit('%') !in ps[1..] by {
        assert forall i :: 0 <= i < |ps[1..]| ==> ps[1..][i] == ps[i + 1];
      }
      ReplacePct(ps[1..], h1, h2, r);
      match ps[0]
      case Lit(c) => {
        assert c != '%';
        ReplaceSkip(c, tail, pat, [r]);
      }
      case Pct(b) => {
        ReplacePctHead(b, tail, h1, h2, r);
      }
    }
  }

  /** One escape at the head of the text is replaced when it is `%h1h2`
      and kept otherwise. */
  lemma ReplacePctHead(b: Byte, tail: string, h1: char, h2: char, r: char)
    ensures ReplaceAll(RenderPiece(Pct(b)) + tail, ['%', h1, h2], [r])
         == RenderPiece(SubstHex(h1, h2, r)(Pct(b))) + ReplaceAll(tail, ['%', h1, h2], [r])
  {
    var pat := ['%', h1, h2];
    var s := RenderPiece(Pct(b)) + tail;
    var hd0 := HexDigit(b / 16);
    var hd1 := HexDigit(b % 16);
    assert s == ['%', hd0, hd1] + tail;
    if Hex(b) == [h1, h2] {
      assert s[..3] == pat;
      assert s[3..] == tail;
    } else {
      assert s[..3] != pat by {
        assert s[..3][1..] == Hex(b);
      }
      assert s[1..] == [hd0] + ([hd1] + tail);
      ReplaceSkip(hd0, [hd1] + tail, pat, [r]);
      ReplaceSkip(hd1, tail, pat, [r]);
    }
  }

  /** Replacing a character that is neither `%` nor a hexadecimal digit
      only touches literal pieces. */
  lemma {:induction false} ReplaceLit(ps: seq<Piece>, ch: char, q: Piece)
    requires ch != '%' && !IsUpperHex(ch)
    ensures ReplaceAll(Render(ps), [ch], RenderPiece(q)) == Render(MapPieces(ps, SwapLit(ch, q)))
    decreases |ps|
  {
    var g := SwapLit(ch, q);
    var rep := RenderPiece(q);
    if ps != [] {
      var head := RenderPiece(ps[0]);
      ReplaceCharConcat(head, Render(ps[1..]), ch, rep);
      ReplaceLit(ps[1..], ch, q);
      var mapped := MapPieces(ps, g);
      assert mapped == [g(ps[0])] + MapPieces(ps[1..], g);
      assert Render(mapped) == RenderPiece(g(ps[0])) + Render(MapPieces(ps[1..], g));
      match ps[0]
      case Lit(c) => {
        if c == ch {
          assert ReplaceAll(head, [ch], rep) == rep + ReplaceAll([], [ch], rep);
        } else {
          ReplaceCharAbsent(head, ch, rep);
        }
      }
      case Pct(b) => {
        HexDigitValue(b / 16);
        HexDigitValue(b % 16);
        ReplaceCharAbsent(head, ch, rep);
      }
    }
  }

  /** A character other than `%` and the hexadecimal digits occurs in
      rendered text exactly where a literal piece holds it. */
  lemma {:induction false} RenderHas(ps: seq<Piece>, ch: char)
    requires ch != '%' && !IsUpperHex(ch)
    ensures ch in Render(ps) <==> Lit(ch) in ps
    decreases |ps|
  {
    if ps != [] {
      RenderHas(ps[1..], ch);
      assert Render(ps) == RenderPiece(ps[0]) + Render(ps[1..]);
      assert ps == [ps[0]] + ps[1..];
      if ps[0].Pct? {
        HexDigitValue(ps[0].b / 16);
        HexDigitValue(ps[0].b % 16);
      }
    }
  }

  /** A piece occurs in a string's pieces exactly when it occurs in the
      pieces of one of its characters. */
  lemma {:induction false} TokensHas(s: string, f: char -> seq<Piece>, p: Piece)
    ensures p in Tokens(s, f) <==> exists i :: 0 <= i < |s| && p in f(s[i])
    decreases |s|
  {
    if s != [] {
      TokensHas(s[1..], f, p);
      if p in Tokens(s[1..], f) {
        var i :| 0 <= i < |s[1..]| && p in f(s[1..][i]);
        assert p in f(s[i + 1]);
      }
      if exists i :: 0 <= i < |s| && p in f(s[i]) {
        var i :| 0 <= i < |s| && p in f(s[i]);
        if i > 0 {
          assert p in f(s[1..][i - 1]);
        }
      }
    }
  }

  /** The only byte below 0x80 in a UTF-8 encoding is a one-byte
      encoding of the character itself. */
  lemma Utf8Ascii(c: char, i: int)
    requires 0 <= i < |Utf8(c)| && Utf8(c)[i] < 0x80
    ensures c as int == Utf8(c)[i]
  {
  }
}
