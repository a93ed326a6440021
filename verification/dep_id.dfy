/** Dependency ids: a `·`-delimited string whose first segment names the
    specifier type and whose other segments are escaped fields, and the
    tuple it stands for. */
module DepId {
  import opened Wrappers
  import opened Strings
  import opened UriCodec

  /** The field separator, U+00B7 MIDDLE DOT. */
  const Delimiter: char := '\U{00B7}'
  /** Stands for `/` inside a field, U+00A7 SECTION SIGN. */
  const Section: char := '\U{00A7}'

  /** A dependency id taken apart. Registry and git ids have two fields,
      the path-like kinds one; every kind may carry an extra field (peer
      dependency context). */
  datatype DepIdTuple =
    | Registry(registry: string, registrySpec: string, extra: Option<string>)
    | Git(gitRemote: string, gitSelector: string, extra: Option<string>)
    | File(path: string, extra: Option<string>)
    | Remote(url: string, extra: Option<string>)
    | Workspace(workspace: string, extra: Option<string>)

  datatype DepIdError =
    | InvalidId(kind: string, found: string)
    | InvalidType(found: string, validOptions: seq<string>)
    | Malformed(cause: UriError)
    | ExpectedDepId(found: string)

  /** The first segment of the id: the registry kind is the empty string. */
  function TypeName(t: DepIdTuple): string {
    match t
    case Registry(_, _, _) => ""
    case Git(_, _, _) => "git"
    case File(_, _) => "file"
    case Remote(_, _) => "remote"
    case Workspace(_, _) => "workspace"
  }

  // ---------------------------------------------------------------------
  // Field escaping

  /** Escapes one field as the source spells it out: `encodeURIComponent`,
      then `%40` back to `@` and `%2f` / `%2F` to the section sign; the
      empty string is returned as is. `EncodeIsTable` proves this is the
      per-character table `Encode`, which the rest of the model uses. */
  function EncodeAsWritten(s: string): (r: string)
    ensures r == Encode(s)
  {
    EncodeIsTable(s);
    if s == [] then s
    else
      ReplaceAll(ReplaceAll(ReplaceAll(EncodeURIComponent(s), "%40", "@"), "%2f", [Section]), "%2F", [Section])
  }

  /** Escapes one field character by character (see `FieldEscape`). */
  function Encode(s: string): string {
    Render(Tokens(s, FieldEscape))
  }

  /** Unescapes an extra field: `@` back to `%40` and the section sign to
      `%2F`, then `decodeURIComponent`. Absent and empty values pass through. */
  function DecodeExtra(s: Option<string>): Result<Option<string>, UriError> {
    match s
    case None => Success(None)
    case Some(x) =>
      if x == [] then Success(Some(x))
      else
        var d :- DecodeURIComponent(Reescape(x));
        Success(Some(d))
  }

  /** What `SplitDepID` does to the whole id before splitting it. */
  function Unslash(s: string): string {
    ReplaceAll(s, [Section], "/")
  }

  function Uri<T>(r: Result<T, UriError>): Result<T, DepIdError> {
    match r
    case Success(v) => Success(v)
    case Failure(e) => Failure(Malformed(e))
  }

  // ---------------------------------------------------------------------
  // Joining and splitting

  /** The trailing extra segment; an absent or empty extra adds nothing. */
  function ExtraSuffix(extra: Option<string>): string {
    match extra
    case Some(e) => if e != [] then [Delimiter] + Encode(e) else []
    case None => []
  }

  function JoinDepIDTuple(t: DepIdTuple): string {
    match t
    case Registry(first, second, extra) =>
      [Delimiter] + Encode(first) + [Delimiter] + Encode(second) + ExtraSuffix(extra)
    case Git(first, second, extra) =>
      "git" + [Delimiter] + Encode(first) + [Delimiter] + Encode(second) + ExtraSuffix(extra)
    case File(first, second) =>
      "file" + [Delimiter] + Encode(first) + ExtraSuffix(second)
    case Remote(first, second) =>
      "remote" + [Delimiter] + Encode(first) + ExtraSuffix(second)
    case Workspace(first, second) =>
      "workspace" + [Delimiter] + Encode(first) + ExtraSuffix(second)
  }

  const ValidTypes: seq<string> := ["git", "file", "workspace", "remote", ""]

  /** The segments `SplitDepID` dispatches on. */
  function Segments(id: string): seq<string> {
    SplitLimit(Unslash(id), Delimiter, 4)
  }

  /** Splits an id into at most four segments (after turning every
      section sign back into `/`) and unescapes them. The first field is
      unescaped before the type is looked at. */
  function SplitDepID(id: string): (r: Result<DepIdTuple, DepIdError>)
    ensures Segments(id)[0] !in {"", "git", "file", "remote", "workspace"} ==> r.Failure?
    ensures r.Success? ==> TypeName(r.value) == Segments(id)[0]
    ensures r.Success? ==>
              DecodeURIComponent(if |Segments(id)| > 1 then Segments(id)[1] else []) == Success(FirstField(r.value))
  {
    var segs := Segments(id);
    var kind := segs[0];
    var first := if |segs| > 1 then segs[1] else [];
    var second := if |segs| > 2 then Some(segs[2]) else None;
    var extra := if |segs| > 3 then Some(segs[3]) else None;
    var f :- Uri(DecodeURIComponent(first));
    if kind == "git" || kind == "" then
      if second.None? then Failure(InvalidId(kind, id))
      else
        var s :- Uri(DecodeURIComponent(second.value));
        var e :- Uri(DecodeExtra(extra));
        Success(if kind == "git" then Git(f, s, e) else Registry(f, s, e))
    else if kind == "file" || kind == "remote" || kind == "workspace" then
      var e :- Uri(DecodeExtra(second));
      Success(
        if kind == "file" then File(f, e)
        else if kind == "remote" then Remote(f, e)
        else Workspace(f, e))
    else Failure(InvalidType(kind, ValidTypes))
  }

  /** The grammar of ids: `` or `git`, then two or three fields; `file`,
      `remote` or `workspace`, then one or two fields; no field holds the
      delimiter. */
  predicate IsDepID(s: string) {
    var segs := Split(s, Delimiter);
    || (segs[0] in {"", "git"} && 3 <= |segs| <= 4)
    || (segs[0] in {"file", "remote", "workspace"} && 2 <= |segs| <= 3)
  }

  /** Accepts exactly the strings of the id grammar, unchanged. */
  function AsDepID(s: string): (r: Result<string, DepIdError>)
    ensures r.Success? <==> IsDepID(s)
    ensures r.Success? ==> r.value == s
    ensures r.Failure? ==> r.error == ExpectedDepId(s)
  {
    if !IsDepID(s) then Failure(ExpectedDepId(s)) else Success(s)
  }

  /** The id without its extra field: it fails exactly when the id does
      not split, with the same error, and otherwise is a well-formed id
      that splits into the id's tuple with the extra dropped. */
  function BaseDepID(id: string): (r: Result<string, DepIdError>)
    ensures r.Success? <==> SplitDepID(id).Success?
    ensures r.Failure? ==> r.error == SplitDepID(id).error
    ensures r.Success? ==> IsDepID(r.value) && SplitDepID(r.value) == Success(WithoutExtra(SplitDepID(id).value))
  {
    var t :- SplitDepID(id);
    JoinIsDepID(WithoutExtra(t));
    RoundTrip(WithoutExtra(t));
    match t
    case Registry(first, second, _) => Success(JoinDepIDTuple(Registry(first, second, None)))
    case Git(first, second, _) => Success(JoinDepIDTuple(Git(first, second, None)))
    case File(first, _) => Success(JoinDepIDTuple(File(first, None)))
    case Remote(first, _) => Success(JoinDepIDTuple(Remote(first, None)))
    case Workspace(first, _) => Success(JoinDepIDTuple(Workspace(first, None)))
  }

  /** The field that follows the type word. */
  function FirstField(t: DepIdTuple): string {
    match t
    case Registry(a, _, _) => a
    case Git(a, _, _) => a
    case File(a, _) => a
    case Remote(a, _) => a
    case Workspace(a, _) => a
  }

  /** The tuple an id keeps: an empty extra is not written, so it reads
      back as absent. */
  function Canonical(t: DepIdTuple): DepIdTuple {
    if t.extra == Some([]) then t.(extra := None) else t
  }

  function WithoutExtra(t: DepIdTuple): DepIdTuple {
    t.(extra := None)
  }

  // ---------------------------------------------------------------------
  // The escaping table

  /** The escape of one character after the two literal replacements:
      `@` stays, `/` becomes the section sign, the rest as
      `encodeURIComponent` writes it. */
  function FieldEscape(c: char): seq<Piece> {
    if c == '@' then [Lit('@')]
    else if c == '/' then [Lit(Section)]
    else Escape(c)
  }

  /** After `%40` became `@`. */
  function AtEscape(c: char): seq<Piece> {
    if c == '@' then [Lit('@')] else Escape(c)
  }

  /** After the id's section signs became `/` again. */
  function SplitEscape(c: char): seq<Piece> {
    if c == '@' || c == '/' then [Lit(c)] else Escape(c)
  }

  /** After an extra field's `@` became `%40` again. */
  function ExtraEscape(c: char): seq<Piece> {
    if c == '/' then [Lit('/')] else Escape(c)
  }

  lemma EscapeHasNoPercent(c: char)
    ensures Lit('%') !in Escape(c)
    ensures Lit('%') !in AtEscape(c)
  {
  }

  lemma {:induction false} TokensAvoid(s: string, f: char -> seq<Piece>, p: Piece)
    requires forall c :: p !in f(c)
    ensures p !in Tokens(s, f)
  {
    TokensHas(s, f, p);
  }

  /** Byte `b` is escaped as `%h1h2` only when it is the byte named. */
  lemma HexIs(b: Byte, h1: char, h2: char, v: Byte)
    requires IsUpperHex(h1) && IsUpperHex(h2) && HexValue(h1) == Some(v / 16) && HexValue(h2) == Some(v % 16)
    ensures Hex(b) == [h1, h2] <==> b == v
  {
    HexDigitValue(b / 16);
    HexDigitValue(b % 16);
    HexDigitValue(v / 16);
    HexDigitValue(v % 16);
    if Hex(b) == [h1, h2] {
      HexDigitInjective(b / 16, v / 16);
      HexDigitInjective(b % 16, v % 16);
    }
  }

  lemma AtStep(c: char)
    ensures MapPieces(Escape(c), SubstHex('4', '0', '@')) == AtEscape(c)
  {
    var g := SubstHex('4', '0', '@');
    if !Unreserved(c) {
      var bs := Utf8(c);
      forall i | 0 <= i < |bs|
        ensures g(Pct(bs[i])) == (if c == '@' then Lit('@') else Pct(bs[i]))
      {
        HexIs(bs[i], '4', '0', 0x40);
        if bs[i] < 0x80 {
          Utf8Ascii(c, i);
        }
      }
    }
  }

  lemma LowerStep(c: char)
    ensures MapPieces(AtEscape(c), SubstHex('2', 'f', Section)) == AtEscape(c)
  {
    var g := SubstHex('2', 'f', Section);
    forall p | p in AtEscape(c) ensures g(p) == p {
      if p.Pct? {
        HexDigitValue(p.b % 16);
      }
    }
  }

  lemma SlashStep(c: char)
    ensures MapPieces(AtEscape(c), SubstHex('2', 'F', Section)) == FieldEscape(c)
  {
    var g := SubstHex('2', 'F', Section);
    if !Unreserved(c) && c != '@' {
      var bs := Utf8(c);
      forall i | 0 <= i < |bs|
        ensures g(Pct(bs[i])) == (if c == '/' then Lit(Section) else Pct(bs[i]))
      {
        HexIs(bs[i], '2', 'F', 0x2F);
        if bs[i] < 0x80 {
          Utf8Ascii(c, i);
        }
      }
    }
  }

  lemma SectionStep(c: char)
    ensures MapPieces(FieldEscape(c), SwapLit(Section, Lit('/'))) == SplitEscape(c)
  {
  }

  lemma ExtraStep(c: char)
    ensures MapPieces(SplitEscape(c), SwapLit('@', Pct(0x40))) == ExtraEscape(c)
  {
    if c == '@' {
      assert Utf8('@') == [0x40];
    }
  }

  /** The source's escaping is the per-character table `FieldEscape`: the
      three substring replacements only ever rewrite the escapes of `@`
      and `/`. */
  lemma EncodeIsTable(s: string)
    ensures ReplaceAll(ReplaceAll(ReplaceAll(EncodeURIComponent(s), "%40", "@"), "%2f", [Section]), "%2F", [Section])
            == Encode(s)
  {
    if s != [] {
      var t0 := Tokens(s, Escape);
      var t1 := Tokens(s, AtEscape);
      forall c ensures Lit('%') !in Escape(c) && Lit('%') !in AtEscape(c) {
        EscapeHasNoPercent(c);
      }
      TokensAvoid(s, Escape, Lit('%'));
      TokensAvoid(s, AtEscape, Lit('%'));
      ReplacePct(t0, '4', '0', '@');
      forall c ensures MapPieces(Escape(c), SubstHex('4', '0', '@')) == AtEscape(c) {
        AtStep(c);
      }
      TokensMap(s, Escape, SubstHex('4', '0', '@'), AtEscape);
      ReplacePct(t1, '2', 'f', Section);
      forall c ensures MapPieces(AtEscape(c), SubstHex('2', 'f', Section)) == AtEscape(c) {
        LowerStep(c);
      }
      TokensMap(s, AtEscape, SubstHex('2', 'f', Section), AtEscape);
      ReplacePct(t1, '2', 'F', Section);
      forall c ensures MapPieces(AtEscape(c), SubstHex('2', 'F', Section)) == FieldEscape(c) {
        SlashStep(c);
      }
      TokensMap(s, AtEscape, SubstHex('2', 'F', Section), FieldEscape);
    }
  }

  lemma LitInTable(c: char, ch: char)
    ensures Lit(ch) in FieldEscape(c) <==> (Unreserved(c) && ch == c) || (c == '@' && ch == '@') || (c == '/' && ch == Section)
    ensures Lit(ch) in SplitEscape(c) <==> (Unreserved(c) && ch == c) || ((c == '@' || c == '/') && ch == c)
    ensures Lit(ch) in ExtraEscape(c) <==> (Unreserved(c) && ch == c) || (c == '/' && ch == '/')
  {
  }

  /** The characters an escaped field can hold: never the delimiter or
      `/`; `@` exactly when the input has one, and the section sign exactly
      when the input has a `/`. */
  lemma EncodeSafety(s: string)
    ensures Delimiter !in Encode(s)
    ensures '/' !in Encode(s)
    ensures '@' in Encode(s) <==> '@' in s
    ensures Section in Encode(s) <==> '/' in s
  {
    var ps := Tokens(s, FieldEscape);
    forall ch | ch in {Delimiter, '/', '@', Section}
      ensures ch in Encode(s) <==> exists i :: 0 <= i < |s| && Lit(ch) in FieldEscape(s[i])
    {
      RenderHas(ps, ch);
      TokensHas(s, FieldEscape, Lit(ch));
    }
    forall i | 0 <= i < |s|
      ensures Lit(Delimiter) !in FieldEscape(s[i]) && Lit('/') !in FieldEscape(s[i])
      ensures Lit('@') in FieldEscape(s[i]) <==> s[i] == '@'
      ensures Lit(Section) in FieldEscape(s[i]) <==> s[i] == '/'
    {
      LitInTable(s[i], Delimiter);
      LitInTable(s[i], '/');
      LitInTable(s[i], '@');
      LitInTable(s[i], Section);
    }
  }

  lemma EncodeOne(c: char)
    ensures Encode([c]) == Render(FieldEscape(c))
  {
    assert [c][1..] == [];
    assert Tokens([c], FieldEscape) == FieldEscape(c) + Tokens([], FieldEscape);
    assert FieldEscape(c) + [] == FieldEscape(c);
  }

  lemma RenderPcts(a: Byte, b: Byte)
    ensures Render([Pct(a)]) == ['%'] + Hex(a)
    ensures Render([Pct(a), Pct(b)]) == ['%'] + Hex(a) + ['%'] + Hex(b)
  {
    assert [Pct(a), Pct(b)][1..] == [Pct(b)];
    assert [Pct(b)][1..] == [];
    assert [Pct(a)][1..] == [];
  }

  /** Every character other than the unreserved ones, `@` and `/` is
      written as the `%XX` escapes of its UTF-8 bytes. */
  lemma EncodeEscapes(c: char)
    requires !Unreserved(c) && c != '@' && c != '/'
    ensures Encode([c]) == Render(Pcts(Utf8(c)))
    ensures Encode([c])[0] == '%' && |Encode([c])| == 3 * |Utf8(c)|
  {
    EncodeOne(c);
    RenderPctsLength(Utf8(c));
    assert Pcts(Utf8(c)) == [Pct(Utf8(c)[0])] + Pcts(Utf8(c))[1..];
  }

  lemma ReservedBytes()
    ensures Render(Pcts(Utf8('%'))) == "%25"
    ensures Render(Pcts(Utf8(Section))) == "%C2%A7"
    ensures Render(Pcts(Utf8(Delimiter))) == "%C2%B7"
  {
    assert Utf8('%') == [0x25];
    assert Utf8(Section) == [0xC2, 0xA7];
    assert Utf8(Delimiter) == [0xC2, 0xB7];
    RenderPcts(0x25, 0x25);
    RenderPcts(0xC2, 0xA7);
    RenderPcts(0xC2, 0xB7);
    assert Pcts([0x25]) == [Pct(0x25)];
    assert Pcts([0xC2, 0xA7]) == [Pct(0xC2), Pct(0xA7)];
    assert Pcts([0xC2, 0xB7]) == [Pct(0xC2), Pct(0xB7)];
    assert Hex(0x25) == "25" by {
      assert HexDigit(2) == '2' && HexDigit(5) == '5';
    }
    assert Hex(0xC2) == "C2" by {
      assert HexDigit(12) == 'C' && HexDigit(2) == '2';
    }
    assert Hex(0xA7) == "A7" by {
      assert HexDigit(10) == 'A' && HexDigit(7) == '7';
    }
    assert Hex(0xB7) == "B7" by {
      assert HexDigit(11) == 'B' && HexDigit(7) == '7';
    }
  }

  /** `%`, the section sign and the delimiter are percent-escaped. */
  lemma EncodeReservedExamples()
    ensures Encode("%") == "%25"
    ensures Encode([Section]) == "%C2%A7"
    ensures Encode([Delimiter]) == "%C2%B7"
  {
    EncodeEscapes('%');
    EncodeEscapes(Section);
    EncodeEscapes(Delimiter);
    ReservedBytes();
  }

  /** Inside a split id the section signs of a field are `/` again. */
  lemma UnslashTable(x: string)
    ensures Unslash(Encode(x)) == Render(Tokens(x, SplitEscape))
  {
    ReplaceLit(Tokens(x, FieldEscape), Section, Lit('/'));
    forall c ensures MapPieces(FieldEscape(c), SwapLit(Section, Lit('/'))) == SplitEscape(c) {
      SectionStep(c);
    }
    TokensMap(x, FieldEscape, SwapLit(Section, Lit('/')), SplitEscape);
  }

  /** Before an extra field is unescaped its `@` become `%40` again; no
      section sign is left to replace. */
  lemma ReescapeTable(x: string)
    ensures Reescape(Render(Tokens(x, SplitEscape))) == Render(Tokens(x, ExtraEscape))
  {
    ReescapeAt(x);
    var e' := Render(Tokens(x, ExtraEscape));
    ExtraHasNoSection(x);
    ReplaceCharAbsent(e', Section, "%2F");
  }

  lemma ExtraHasNoSection(x: string)
    ensures Section !in Render(Tokens(x, ExtraEscape))
  {
    RenderHas(Tokens(x, ExtraEscape), Section);
    TokensHas(x, ExtraEscape, Lit(Section));
    forall i | 0 <= i < |x| ensures Lit(Section) !in ExtraEscape(x[i]) {
      LitInTable(x[i], Section);
    }
  }

  /** The first replacement of `DecodeExtra`: every `@` back to `%40`. */
  lemma ReescapeAt(x: string)
    ensures ReplaceAll(Render(Tokens(x, SplitEscape)), "@", "%40") == Render(Tokens(x, ExtraEscape))
  {
    assert HexDigit(4) == '4' && HexDigit(0) == '0';
    assert RenderPiece(Pct(0x40)) == "%40";
    ReplaceLit(Tokens(x, SplitEscape), '@', Pct(0x40));
    forall c ensures MapPieces(SplitEscape(c), SwapLit('@', Pct(0x40))) == ExtraEscape(c) {
      ExtraStep(c);
    }
    TokensMap(x, SplitEscape, SwapLit('@', Pct(0x40)), ExtraEscape);
  }

  /** The two replacements `DecodeExtra` makes before unescaping. */
  function Reescape(x: string): string {
    ReplaceAll(ReplaceAll(x, "@", "%40"), [Section], "%2F")
  }

  /** What happens to one escaped field inside an id that is split: the
      field holds no delimiter, and both unescaping routes recover it. */
  lemma FieldRoundTrip(x: string)
    ensures Delimiter !in Unslash(Encode(x))
    ensures DecodeURIComponent(Unslash(Encode(x))) == Success(x)
    ensures DecodeExtra(Some(Unslash(Encode(x)))) == Success(Some(x))
  {
    UnslashTable(x);
    var ps := Tokens(x, SplitEscape);
    RenderHas(ps, Delimiter);
    TokensHas(x, SplitEscape, Lit(Delimiter));
    forall i | 0 <= i < |x| ensures Lit(Delimiter) !in SplitEscape(x[i]) {
      LitInTable(x[i], Delimiter);
    }
    DecodeTokens(x, SplitEscape);
    ReescapeTable(x);
    DecodeTokens(x, ExtraEscape);
  }

  /** The extra field as `SplitDepID` reads it back: absent stays absent,
      empty stays empty, and any other value is recovered from its escape
      once the id's section signs are `/` again. */
  lemma DecodeExtraRoundTrip(e: Option<string>)
    ensures DecodeExtra(if e.Some? then Some(Unslash(Encode(e.value))) else None) == Success(e)
  {
    if e.Some? {
      FieldRoundTrip(e.value);
    }
  }

  // ---------------------------------------------------------------------
  // The layout of an id

  /** Each field preceded by the delimiter. */
  function Fields(fs: seq<string>): string
    decreases |fs|
  {
    if fs == [] then [] else [Delimiter] + fs[0] + Fields(fs[1..])
  }

  /** The fields `JoinDepIDTuple` writes, in order, before escaping. */
  function RawFields(t: DepIdTuple): seq<string> {
    var extra := if t.extra.Some? && t.extra.value != [] then [t.extra.value] else [];
    match t
    case Registry(a, b, _) => [a, b] + extra
    case Git(a, b, _) => [a, b] + extra
    case File(a, _) => [a] + extra
    case Remote(a, _) => [a] + extra
    case Workspace(a, _) => [a] + extra
  }

  function EncodedFields(t: DepIdTuple): (fs: seq<string>)
    ensures |fs| == |RawFields(t)|
  {
    var raw := RawFields(t);
    seq(|raw|, i requires 0 <= i < |raw| => Encode(raw[i]))
  }

  lemma FieldsCons(f: string, fs: seq<string>)
    ensures Fields([f] + fs) == [Delimiter] + f + Fields(fs)
  {
    assert ([f] + fs)[1..] == fs;
  }

  /** The extra segment is the last field, when there is one. */
  lemma ExtraFields(extra: Option<string>)
    ensures ExtraSuffix(extra) == Fields(if extra.Some? && extra.value != [] then [Encode(extra.value)] else [])
  {
    if extra.Some? && extra.value != [] {
      FieldsCons(Encode(extra.value), []);
    }
  }

  lemma TwoFields(k: string, a: string, b: string, x: seq<string>)
    ensures k + [Delimiter] + a + [Delimiter] + b + Fields(x) == k + Fields([a, b] + x)
  {
    FieldsCons(b, x);
    FieldsCons(a, [b] + x);
    assert [a, b] + x == [a] + ([b] + x);
  }

  lemma OneField(k: string, a: string, x: seq<string>)
    ensures k + [Delimiter] + a + Fields(x) == k + Fields([a] + x)
  {
    FieldsCons(a, x);
  }

  function ExtraFieldList(t: DepIdTuple): seq<string> {
    if t.extra.Some? && t.extra.value != [] then [Encode(t.extra.value)] else []
  }

  lemma EncodedFieldsTwo(t: DepIdTuple)
    requires t.Registry? || t.Git?
    ensures EncodedFields(t) == [Encode(RawFields(t)[0]), Encode(RawFields(t)[1])] + ExtraFieldList(t)
  {
  }

  lemma JoinLayoutTwo(t: DepIdTuple)
    requires t.Registry? || t.Git?
    ensures JoinDepIDTuple(t) == TypeName(t) + Fields(EncodedFields(t))
  {
    var x := ExtraFieldList(t);
    ExtraFields(t.extra);
    EncodedFieldsTwo(t);
    var a := Encode(RawFields(t)[0]);
    var b := Encode(RawFields(t)[1]);
    TwoFields(TypeName(t), a, b, x);
    JoinTwo(t);
  }

  lemma JoinTwo(t: DepIdTuple)
    requires t.Registry? || t.Git?
    ensures JoinDepIDTuple(t) == TypeName(t) + [Delimiter] + Encode(RawFields(t)[0]) + [Delimiter]
                                 + Encode(RawFields(t)[1]) + ExtraSuffix(t.extra)
  {
    if t.Registry? {
      assert TypeName(t) + [Delimiter] == [Delimiter];
    }
  }

  lemma JoinLayoutOne(t: DepIdTuple)
    requires !(t.Registry? || t.Git?)
    ensures JoinDepIDTuple(t) == TypeName(t) + Fields(EncodedFields(t))
  {
    var x := ExtraFieldList(t);
    ExtraFields(t.extra);
    var a := RawFields(t)[0];
    assert EncodedFields(t) == [Encode(a)] + x;
    OneField(TypeName(t), Encode(a), x);
  }

  lemma JoinLayout(t: DepIdTuple)
    ensures JoinDepIDTuple(t) == TypeName(t) + Fields(EncodedFields(t))
  {
    if t.Registry? || t.Git? {
      JoinLayoutTwo(t);
    } else {
      JoinLayoutOne(t);
    }
  }

  lemma {:induction false} SplitFields(k: string, fs: seq<string>)
    requires Delimiter !in k
    requires forall i :: 0 <= i < |fs| ==> Delimiter !in fs[i]
    ensures Split(k + Fields(fs), Delimiter) == [k] + fs
    decreases |fs|
  {
    if fs == [] {
      SplitNoSeparator(k, Delimiter);
      assert k + Fields(fs) == k;
    } else {
      assert k + Fields(fs) == k + [Delimiter] + (fs[0] + Fields(fs[1..]));
      Strings.SplitJoin(k, fs[0] + Fields(fs[1..]), Delimiter);
      SplitFields(fs[0], fs[1..]);
      assert [fs[0]] + fs[1..] == fs;
    }
  }

  lemma {:induction false} UnslashFields(fs: seq<string>)
    ensures Unslash(Fields(fs)) == Fields(seq(|fs|, i requires 0 <= i < |fs| => Unslash(fs[i])))
    decreases |fs|
  {
    var gs := seq(|fs|, i requires 0 <= i < |fs| => Unslash(fs[i]));
    if fs != [] {
      ReplaceCharConcat([Delimiter] + fs[0], Fields(fs[1..]), Section, "/");
      ReplaceCharConcat([Delimiter], fs[0], Section, "/");
      ReplaceCharAbsent([Delimiter], Section, "/");
      UnslashFields(fs[1..]);
      assert gs[1..] == seq(|fs[1..]|, i requires 0 <= i < |fs[1..]| => Unslash(fs[1..][i]));
    }
  }

  /** The segments of a joined id, as `SplitDepID` sees them. */
  function SplitFieldsOf(t: DepIdTuple): (gs: seq<string>)
    ensures |gs| == |RawFields(t)|
  {
    var raw := RawFields(t);
    seq(|raw|, i requires 0 <= i < |raw| => Unslash(Encode(raw[i])))
  }

  lemma UnslashJoin(t: DepIdTuple)
    ensures Unslash(JoinDepIDTuple(t)) == TypeName(t) + Fields(SplitFieldsOf(t))
  {
    var k := TypeName(t);
    var fs := EncodedFields(t);
    JoinLayout(t);
    ReplaceCharConcat(k, Fields(fs), Section, "/");
    UnslashTypeName(k);
    UnslashFields(fs);
    assert seq(|fs|, i requires 0 <= i < |fs| => Unslash(fs[i])) == SplitFieldsOf(t);
  }

  lemma SegmentsOfJoin(t: DepIdTuple)
    ensures SplitLimit(Unslash(JoinDepIDTuple(t)), Delimiter, 4) == [TypeName(t)] + SplitFieldsOf(t)
  {
    var gs := SplitFieldsOf(t);
    UnslashJoin(t);
    forall i | 0 <= i < |gs| ensures Delimiter !in gs[i] {
      FieldRoundTrip(RawFields(t)[i]);
    }
    SplitFields(TypeName(t), gs);
  }

  /** Splitting an id returns its tuple, except that an empty extra
      field comes back absent. */
  lemma SplitJoinRoundTrip(t: DepIdTuple)
    ensures SplitDepID(JoinDepIDTuple(t)) == Success(Canonical(t))
  {
    SegmentsOfJoin(t);
    var raw := RawFields(t);
    forall i | 0 <= i < |raw|
      ensures DecodeURIComponent(SplitFieldsOf(t)[i]) == Success(raw[i])
      ensures DecodeExtra(Some(SplitFieldsOf(t)[i])) == Success(Some(raw[i]))
    {
      FieldRoundTrip(raw[i]);
    }
    if t.Registry? || t.Git? {
      SplitTwo(t);
    } else {
      SplitOne(t);
    }
  }

  /** Splitting a registry or git id whose segments decode to the tuple's
      fields. */
  lemma SplitTwo(t: DepIdTuple)
    requires t.Registry? || t.Git?
    requires SplitLimit(Unslash(JoinDepIDTuple(t)), Delimiter, 4) == [TypeName(t)] + SplitFieldsOf(t)
    requires forall i :: 0 <= i < |RawFields(t)| ==>
               && DecodeURIComponent(SplitFieldsOf(t)[i]) == Success(RawFields(t)[i])
               && DecodeExtra(Some(SplitFieldsOf(t)[i])) == Success(Some(RawFields(t)[i]))
    ensures SplitDepID(JoinDepIDTuple(t)) == Success(Canonical(t))
  {
    var id := JoinDepIDTuple(t);
    var raw := RawFields(t);
    var e := if |raw| > 2 then Some(raw[2]) else None;
    assert Segments(id) == [TypeName(t)] + SplitFieldsOf(t);
    assert DecodeURIComponent(Segments(id)[1]) == Success(raw[0]);
    assert DecodeURIComponent(Segments(id)[2]) == Success(raw[1]);
    assert DecodeExtra(if |Segments(id)| > 3 then Some(Segments(id)[3]) else None) == Success(e);
    SplitPair(id, raw[0], raw[1], e);
  }

  /** What `SplitDepID` returns for a registry or git id, given what its
      segments decode to. */
  lemma SplitPair(id: string, f: string, g: string, e: Option<string>)
    requires Segments(id)[0] in {"", "git"}
    requires |Segments(id)| > 2
    requires DecodeURIComponent(Segments(id)[1]) == Success(f)
    requires DecodeURIComponent(Segments(id)[2]) == Success(g)
    requires DecodeExtra(if |Segments(id)| > 3 then Some(Segments(id)[3]) else None) == Success(e)
    ensures SplitDepID(id) == Success(if Segments(id)[0] == "git" then Git(f, g, e) else Registry(f, g, e))
  {
  }

  /** Splitting a file, remote or workspace id whose segments decode to
      the tuple's fields. */
  lemma SplitOne(t: DepIdTuple)
    requires !(t.Registry? || t.Git?)
    requires SplitLimit(Unslash(JoinDepIDTuple(t)), Delimiter, 4) == [TypeName(t)] + SplitFieldsOf(t)
    requires forall i :: 0 <= i < |RawFields(t)| ==>
               && DecodeURIComponent(SplitFieldsOf(t)[i]) == Success(RawFields(t)[i])
               && DecodeExtra(Some(SplitFieldsOf(t)[i])) == Success(Some(RawFields(t)[i]))
    ensures SplitDepID(JoinDepIDTuple(t)) == Success(Canonical(t))
  {
    var id := JoinDepIDTuple(t);
    var raw := RawFields(t);
    var e := if |raw| > 1 then Some(raw[1]) else None;
    assert Segments(id) == [TypeName(t)] + SplitFieldsOf(t);
    assert DecodeURIComponent(Segments(id)[1]) == Success(raw[0]);
    assert DecodeExtra(if |Segments(id)| > 2 then Some(Segments(id)[2]) else None) == Success(e);
    SplitSingle(id, raw[0], e);
  }

  /** What `SplitDepID` returns for an id of one of the one-field types,
      given what its segments decode to. */
  lemma SplitSingle(id: string, f: string, e: Option<string>)
    requires Segments(id)[0] in {"file", "remote", "workspace"}
    requires |Segments(id)| > 1 && DecodeURIComponent(Segments(id)[1]) == Success(f)
    requires DecodeExtra(if |Segments(id)| > 2 then Some(Segments(id)[2]) else None) == Success(e)
    ensures SplitDepID(id) == Success(
              if Segments(id)[0] == "file" then File(f, e)
              else if Segments(id)[0] == "remote" then Remote(f, e)
              else Workspace(f, e))
  {
  }

  /** Every tuple whose extra field is absent or non-empty survives
      joining and splitting unchanged. */
  lemma RoundTrip(t: DepIdTuple)
    requires t.extra != Some([])
    ensures SplitDepID(JoinDepIDTuple(t)) == Success(t)
  {
    SplitJoinRoundTrip(t);
  }

  /** Every joined id is in the grammar `IsDepID` checks. */
  lemma JoinIsDepID(t: DepIdTuple)
    ensures IsDepID(JoinDepIDTuple(t))
  {
    var fs := EncodedFields(t);
    JoinLayout(t);
    forall i | 0 <= i < |fs| ensures Delimiter !in fs[i] {
      EncodeSafety(RawFields(t)[i]);
    }
    SplitFields(TypeName(t), fs);
  }

  /** Every joined id passes the id check unchanged. */
  lemma JoinAsDepID(t: DepIdTuple)
    ensures AsDepID(JoinDepIDTuple(t)) == Success(JoinDepIDTuple(t))
  {
    JoinIsDepID(t);
  }

  lemma UnslashChar(c: char)
    ensures Unslash([c]) == (if c == Section then "/" else [c])
  {
    var s := [c];
    assert s[..1] == [c];
    assert s[1..] == [];
    assert ReplaceAll([], [Section], "/") == [];
    if c == Section {
      assert ReplaceAll(s, [Section], "/") == "/" + ReplaceAll(s[1..], [Section], "/");
    } else {
      assert ReplaceAll(s, [Section], "/") == [c] + ReplaceAll(s[1..], [Section], "/");
    }
  }

  /** Turning section signs into `/` keeps the segments apart. */
  lemma {:induction false} SplitUnslash(s: string)
    ensures |Split(Unslash(s), Delimiter)| == |Split(s, Delimiter)|
    ensures Split(Unslash(s), Delimiter)[0] == Unslash(Split(s, Delimiter)[0])
    decreases |s|
  {
    if s != [] {
      assert s == [s[0]] + s[1..];
      ReplaceCharConcat([s[0]], s[1..], Section, "/");
      UnslashChar(s[0]);
      SplitUnslash(s[1..]);
      var u := Unslash(s);
      assert u[1..] == Unslash(s[1..]);
      if s[0] != Delimiter {
        assert u[0] != Delimiter;
        ReplaceCharConcat([s[0]], Split(s[1..], Delimiter)[0], Section, "/");
      }
    }
  }

  /** Type names hold no section sign. */
  lemma UnslashTypeName(k: string)
    requires k in {"", "git", "file", "remote", "workspace"}
    ensures Unslash(k) == k
  {
    ReplaceCharAbsent(k, Section, "/");
  }

  /** The grammar and the decoder agree on structure: an id in the
      grammar can only fail to split because of a malformed escape. */
  lemma IsDepIDSplits(s: string)
    requires IsDepID(s)
    ensures SplitDepID(s).Success? || SplitDepID(s).error.Malformed?
  {
    SplitUnslash(s);
    UnslashTypeName(Split(s, Delimiter)[0]);
  }

  /** An id always holds the delimiter, and has at most four segments, so
      the limit `SplitDepID` splits with drops none of them. */
  lemma IsDepIDSegments(s: string)
    ensures Delimiter !in s ==> !IsDepID(s)
    ensures IsDepID(s) ==> SplitLimit(s, Delimiter, 4) == Split(s, Delimiter)
  {
    if Delimiter !in s {
      SplitNoSeparator(s, Delimiter);
    }
  }

  /** The two structural errors of `SplitDepID`, each reported once the
      first field has been unescaped: an unknown leading segment, with the
      list of valid ones, and a registry or git id without a third
      segment. */
  lemma SplitDepIDErrors(id: string)
    requires DecodeURIComponent(if |Segments(id)| > 1 then Segments(id)[1] else []).Success?
    ensures (Segments(id)[0] !in {"", "git", "file", "remote", "workspace"}) ==>
              SplitDepID(id) == Failure(InvalidType(Segments(id)[0], ["git", "file", "workspace", "remote", ""]))
    ensures (Segments(id)[0] in {"", "git"} && |Segments(id)| < 3) ==>
              SplitDepID(id) == Failure(InvalidId(Segments(id)[0], id))
  {
  }

  /** The word `registry` is not a type name: the registry kind is
      written as an empty leading segment. */
  lemma RegistryWordRejected(rest: string)
    ensures SplitDepID("registry" + [Delimiter] + rest).Failure?
  {
    var id := "registry" + [Delimiter] + rest;
    ReplaceCharConcat("registry" + [Delimiter], rest, Section, "/");
    ReplaceCharAbsent("registry" + [Delimiter], Section, "/");
    Strings.SplitJoin("registry", Unslash(rest), Delimiter);
    assert Unslash(id) == "registry" + [Delimiter] + Unslash(rest);
    assert Segments(id)[0] == "registry";
  }

  /** `BaseDepID` of a joined id is the id joined without its extra. */
  lemma BaseOfJoin(t: DepIdTuple)
    ensures BaseDepID(JoinDepIDTuple(t)) == Success(JoinDepIDTuple(WithoutExtra(t)))
  {
    SplitJoinRoundTrip(t);
  }

  lemma BaseIsJoin(id: string)
    ensures BaseDepID(id).Success? ==> BaseDepID(id).value == JoinDepIDTuple(WithoutExtra(SplitDepID(id).value))
  {
    if SplitDepID(id).Failure? {
      return;
    }
    var t := SplitDepID(id).value;
    match t
    case Registry(first, second, _) => assert WithoutExtra(t) == Registry(first, second, None);
    case Git(first, second, _) => assert WithoutExtra(t) == Git(first, second, None);
    case File(first, _) => assert WithoutExtra(t) == File(first, None);
    case Remote(first, _) => assert WithoutExtra(t) == Remote(first, None);
    case Workspace(first, _) => assert WithoutExtra(t) == Workspace(first, None);
  }

  /** `BaseDepID` is idempotent. */
  lemma BaseIdempotent(id: string)
    ensures BaseDepID(id).Success? ==> BaseDepID(BaseDepID(id).value) == BaseDepID(id)
  {
    if BaseDepID(id).Failure? {
      return;
    }
    var b := BaseDepID(id).value;
    var w := WithoutExtra(SplitDepID(id).value);
    assert b == JoinDepIDTuple(w) by {
      BaseIsJoin(id);
    }
    assert SplitDepID(b) == Success(w);
    assert WithoutExtra(w) == w;
    assert BaseDepID(b) == Success(JoinDepIDTuple(w)) by {
      BaseIsJoin(b);
    }
  }
}
