/** The `url_encode` / `url_decode` byte codec and the URI pre-check used by
    the URL extraction functions.

    Strings are byte sequences. `urlEscape` is the
    application/x-www-form-urlencoded serializer: alphanumerics and `-_.*`
    stay, space becomes `+`, every other byte becomes `%` and two uppercase
    hex digits (the pct-encoded form of section 2.1 of RFC 3986).
    `urlUnescape` decodes, parsing the two characters after `%` with
    `strtol(buf, &endptr, 16)` on a two-character buffer.
 */
module UrlEscaping {
  import opened Common

  type Byte = b: int | 0 <= b < 256

  const Percent: Byte := 37   // '%'
  const Plus: Byte := 43      // '+'
  const Minus: Byte := 45     // '-'
  const Space: Byte := 32     // ' '

  // ---------------------------------------------------------------------
  // Hex digits
  // ---------------------------------------------------------------------

  /** The value of a hex digit in either case, as the C library reads it. */
  function HexDigitValue(b: Byte): (v: Option<nat>)
    ensures v.Some? ==> v.value < 16
    ensures v.Some? <==> ('0' as int <= b <= '9' as int) || ('a' as int <= b <= 'f' as int) || ('A' as int <= b <= 'F' as int)
  {
    if '0' as int <= b <= '9' as int then Some(b - '0' as int)
    else if 'a' as int <= b <= 'f' as int then Some(b - 'a' as int + 10)
    else if 'A' as int <= b <= 'F' as int then Some(b - 'A' as int + 10)
    else None
  }

  predicate IsHexDigit(b: Byte) {
    HexDigitValue(b).Some?
  }

  /** `toHex`: `c < 10 ? c + '0' : c + 'A' - 10`, stored in an unsigned char. */
  function ToHex(c: Byte): (h: Byte)
    ensures c < 16 ==> HexDigitValue(h) == Some(c)
    ensures c < 16 ==> !('a' as int <= h <= 'z' as int)
  {
    if c < 10 then (c + '0' as int) % 256 else (c + 'A' as int - 10) % 256
  }

  /** `charEscape`: `%`, the high nibble, the low nibble. */
  function CharEscape(c: Byte): (e: seq<Byte>)
    ensures |e| == 3 && e[0] == Percent
    ensures HexDigitValue(e[1]) == Some(c / 16) && HexDigitValue(e[2]) == Some(c % 16)
  {
    [Percent, ToHex(c / 16), ToHex(c % 16)]
  }

  // ---------------------------------------------------------------------
  // urlEscape
  // ---------------------------------------------------------------------

  /** Bytes `urlEscape` copies unchanged: `[a-zA-Z0-9]` and `- _ . *`. */
  predicate IsUnreserved(b: Byte) {
    || ('a' as int <= b <= 'z' as int) || ('A' as int <= b <= 'Z' as int) || ('0' as int <= b <= '9' as int)
    || b == '-' as int || b == '_' as int || b == '.' as int || b == '*' as int
  }

  /** What one input byte becomes. */
  function EscapeByte(b: Byte): (e: seq<Byte>)
    ensures IsUnreserved(b) ==> e == [b]
    ensures !IsUnreserved(b) && b == Space ==> e == [Plus]
    ensures !IsUnreserved(b) && b != Space ==> e == CharEscape(b)
  {
    if IsUnreserved(b) then [b] else if b == Space then [Plus] else CharEscape(b)
  }

  /** The number of input bytes written as a three-byte `%XX`. */
  function CountEscaped(s: seq<Byte>): (n: nat)
    ensures n <= |s|
  {
    if |s| == 0 then 0 else (if IsUnreserved(s[0]) || s[0] == Space then 0 else 1) + CountEscaped(s[1..])
  }

  /** `urlEscape`: the input's bytes, each replaced by its escape, in order. */
  function UrlEscape(s: seq<Byte>): (r: seq<Byte>)
    ensures |r| == |s| + 2 * CountEscaped(s)
    ensures |r| <= 3 * |s|
  {
    if |s| == 0 then [] else EscapeByte(s[0]) + UrlEscape(s[1..])
  }

  /** The escaped form is the concatenation of the escaped bytes: escaping
      distributes over concatenation. */
  lemma {:induction false} UrlEscapeAppend(s: seq<Byte>, t: seq<Byte>)
    ensures UrlEscape(s + t) == UrlEscape(s) + UrlEscape(t)
    decreases |s|
  {
    if |s| == 0 {
      assert s + t == t;
    } else {
      assert (s + t)[1..] == s[1..] + t;
      UrlEscapeAppend(s[1..], t);
    }
  }

  // ---------------------------------------------------------------------
  // The two-character escape parse
  // ---------------------------------------------------------------------

  /** `isspace` in the C locale: tab, newline, vertical tab, form feed,
      carriage return and space. */
  predicate IsCSpace(b: Byte) {
    9 <= b <= 13 || b == Space
  }

  /** How the two characters after `%` are turned into a byte value. */
  datatype EscapeParser =
    | Strtol        // `strtol(buf, &endptr, 16)` with `endptr == buf + 2`, as written
    | TwoHexDigits  // exactly two hex digits, the pct-encoded form

  /** `strtol` in base 16 on the NUL-terminated buffer `[a, b]` consumed both
      characters: it skips one leading blank, accepts one sign, and needs a
      digit after that. Two digits read as a two-digit number. */
  function StrtolHexPair(a: Byte, b: Byte): (v: Option<int>)
    ensures v.Some? <==> IsHexDigit(b) && (IsHexDigit(a) || IsCSpace(a) || a == Plus || a == Minus)
    ensures v.Some? ==> -15 <= v.value <= 255
  {
    match (HexDigitValue(a), HexDigitValue(b))
    case (Some(hi), Some(lo)) => Some(16 * hi + lo)
    case (None, Some(lo)) =>
      if IsCSpace(a) || a == Plus then Some(lo)
      else if a == Minus then Some(-(lo as int))
      else None
    case _ => None
  }

  function ParseEscape(parser: EscapeParser, a: Byte, b: Byte): (v: Option<int>)
    ensures parser.TwoHexDigits? ==> (v.Some? <==> IsHexDigit(a) && IsHexDigit(b))
    ensures v.Some? ==> -15 <= v.value <= 255
  {
    match parser
    case Strtol => StrtolHexPair(a, b)
    case TwoHexDigits =>
      if IsHexDigit(a) && IsHexDigit(b) then Some(16 * HexDigitValue(a).value + HexDigitValue(b).value) else None
  }

  /** On two hex digits both parsers agree, and the strict parser accepts
      nothing the `strtol` check rejects. */
  lemma ParsersAgreeOnHexPairs(a: Byte, b: Byte)
    ensures ParseEscape(TwoHexDigits, a, b).Some? ==> ParseEscape(Strtol, a, b) == ParseEscape(TwoHexDigits, a, b)
    ensures IsHexDigit(a) && IsHexDigit(b) ==>
      ParseEscape(Strtol, a, b) == Some(16 * HexDigitValue(a).value + HexDigitValue(b).value)
  {
  }

  /** `(char)val`: the value's low eight bits. */
  function ByteOf(v: int): (b: Byte)
    ensures 0 <= v < 256 ==> b == v
    ensures -256 < v < 0 ==> b == v + 256
  {
    v % 256
  }

  // ---------------------------------------------------------------------
  // urlUnescape
  // ---------------------------------------------------------------------

  const kIncompleteEscape := "Incomplete trailing escape (%) pattern"
  const kIllegalHex := "Illegal hex characters in escape (%) pattern: "

  function AsChars(s: seq<Byte>): string {
    seq(|s|, i requires 0 <= i < |s| => s[i] as char)
  }

  /** Every escape the decoder's walk reaches parses: `+` and plain bytes
      step one byte, and a `%` needs two more bytes whose pair parses, after
      which the walk steps over all three. */
  predicate EscapesParse(parser: EscapeParser, s: seq<Byte>)
    decreases |s|
  {
    if |s| == 0 then true
    else if s[0] == Percent then
      2 < |s| && ParseEscape(parser, s[1], s[2]).Some? && EscapesParse(parser, s[3..])
    else EscapesParse(parser, s[1..])
  }

  /** Position `k` is the bad escape the decoder stops at: everything before
      it decodes, and it is a `%` with fewer than two bytes after it or with a
      pair that does not parse. */
  predicate BadEscapeAt(parser: EscapeParser, s: seq<Byte>, k: nat) {
    && k < |s| && s[k] == Percent
    && EscapesParse(parser, s[..k])
    && (k + 2 < |s| ==> ParseEscape(parser, s[k + 1], s[k + 2]).None?)
  }

  /** The error raised at a bad escape at `k`: an unparsed pair is reported
      with its two characters, a `%` too near the end as incomplete. */
  function EscapeErrorAt(s: seq<Byte>, k: nat): Error
    requires k < |s|
  {
    if k + 2 < |s| then UserError(kIllegalHex + AsChars(s[k + 1..k + 3]))
    else UserError(kIncompleteEscape)
  }

  /** The decoding loop: `+` is a space, `%` with at least two more bytes is
      parsed (and all three are consumed), `%` near the end is an error, any
      other byte is copied. The first error in scan order is raised. */
  function Unescape(parser: EscapeParser, s: seq<Byte>): (r: Result<seq<Byte>>)
    ensures r.Success? ==> |r.value| <= |s|
    ensures r.Failure? ==> r.error.UserError?
  {
    if |s| == 0 then Success([])
    else if s[0] == Plus then
      var rest :- Unescape(parser, s[1..]);
      Success([Space] + rest)
    else if s[0] == Percent then
      if 2 < |s| then
        match ParseEscape(parser, s[1], s[2])
        case Some(v) =>
          var rest :- Unescape(parser, s[3..]);
          Success([ByteOf(v)] + rest)
        case None => Failure(UserError(kIllegalHex + AsChars(s[1..3])))
      else Failure(UserError(kIncompleteEscape))
    else
      var rest :- Unescape(parser, s[1..]);
      Success([s[0]] + rest)
  }

  /** `urlUnescape` as written. */
  function UrlUnescape(s: seq<Byte>): (r: Result<seq<Byte>>)
    ensures r.Success? ==> |r.value| <= |s|
  {
    Unescape(Strtol, s)
  }

  /** `urlUnescape` with the escape check percent-encoding calls for. */
  function UrlUnescapeStrict(s: seq<Byte>): (r: Result<seq<Byte>>)
    ensures r.Success? ==> |r.value| <= |s|
  {
    Unescape(TwoHexDigits, s)
  }

  /** Decoding succeeds exactly when every escape the walk reaches parses. */
  lemma {:induction false} UnescapeSucceedsIffEscapesParse(parser: EscapeParser, s: seq<Byte>)
    ensures Unescape(parser, s).Success? <==> EscapesParse(parser, s)
    decreases |s|
  {
    if |s| > 0 {
      if s[0] == Percent {
        if 2 < |s| {
          UnescapeSucceedsIffEscapesParse(parser, s[3..]);
        }
      } else {
        UnescapeSucceedsIffEscapesParse(parser, s[1..]);
      }
    }
  }

  /** Decoding `p + t` is decoding `t` with `p`'s decoding in front, and
      fails as `t` does. */
  predicate AppendLaw(parser: EscapeParser, p: seq<Byte>, t: seq<Byte>) {
    && Unescape(parser, p).Success?
    && (Unescape(parser, t).Failure? ==>
          Unescape(parser, p + t).Failure? && Unescape(parser, p + t).error == Unescape(parser, t).error)
    && (Unescape(parser, t).Success? ==>
          Unescape(parser, p + t).Success?
          && Unescape(parser, p + t).value == Unescape(parser, p).value + Unescape(parser, t).value)
  }

  /** One step of the walk over a leading byte other than `%`. */
  lemma AppendAfterByte(parser: EscapeParser, p: seq<Byte>, t: seq<Byte>)
    requires |p| > 0 && p[0] != Percent && AppendLaw(parser, p[1..], t)
    ensures AppendLaw(parser, p, t)
  {
    var u := p + t;
    assert u[0] == p[0] && u[1..] == p[1..] + t;
    if Unescape(parser, t).Success? {
      var head := if p[0] == Plus then Space else p[0];
      var a, b := Unescape(parser, p[1..]).value, Unescape(parser, t).value;
      assert Unescape(parser, p).value == [head] + a;
      assert Unescape(parser, u).value == [head] + (a + b);
      assert [head] + (a + b) == ([head] + a) + b;
    }
  }

  /** How the decoder proceeds past a leading escape that parses. */
  lemma UnescapeAtEscape(parser: EscapeParser, s: seq<Byte>)
    requires |s| > 2 && s[0] == Percent && ParseEscape(parser, s[1], s[2]).Some?
    ensures Unescape(parser, s).Failure? <==> Unescape(parser, s[3..]).Failure?
    ensures Unescape(parser, s).Failure? ==> Unescape(parser, s).error == Unescape(parser, s[3..]).error
    ensures Unescape(parser, s).Success? ==>
      Unescape(parser, s).value == [ByteOf(ParseEscape(parser, s[1], s[2]).value)] + Unescape(parser, s[3..]).value
  {
  }

  /** One step of the walk over a leading escape that parses, when the rest
      decodes. */
  lemma AppendAfterEscape(parser: EscapeParser, p: seq<Byte>, t: seq<Byte>)
    requires |p| > 2 && p[0] == Percent && ParseEscape(parser, p[1], p[2]).Some?
    requires AppendLaw(parser, p[3..], t) && Unescape(parser, t).Success?
    ensures Unescape(parser, p).Success? && Unescape(parser, p + t).Success?
    ensures Unescape(parser, p + t).value == Unescape(parser, p).value + Unescape(parser, t).value
  {
    var u := p + t;
    assert u[0] == Percent && u[1] == p[1] && u[2] == p[2];
    assert u[3..] == p[3..] + t;
    UnescapeAtEscape(parser, p);
    UnescapeAtEscape(parser, u);
    var head := ByteOf(ParseEscape(parser, p[1], p[2]).value);
    var a, b := Unescape(parser, p[3..]).value, Unescape(parser, t).value;
    assert Unescape(parser, u[3..]) == Success(a + b);
    var x, y := Unescape(parser, u), Unescape(parser, p);
    assert x.Success? && x.value == [head] + (a + b);
    assert y.Success? && y.value == [head] + a;
    assert [head] + (a + b) == ([head] + a) + b;
    assert x.value == y.value + b;
  }

  /** One step of the walk over a leading escape that parses, when the rest
      fails. */
  lemma AppendAfterEscapeFails(parser: EscapeParser, p: seq<Byte>, t: seq<Byte>)
    requires |p| > 2 && p[0] == Percent && ParseEscape(parser, p[1], p[2]).Some?
    requires AppendLaw(parser, p[3..], t) && Unescape(parser, t).Failure?
    ensures Unescape(parser, p).Success?
    ensures Unescape(parser, p + t).Failure? && Unescape(parser, p + t).error == Unescape(parser, t).error
  {
    var u := p + t;
    assert u[0] == Percent && u[1] == p[1] && u[2] == p[2];
    assert u[3..] == p[3..] + t;
    UnescapeAtEscape(parser, p);
    UnescapeAtEscape(parser, u);
  }

  /** A prefix whose escapes all parse decodes on its own, and decoding it
      followed by anything is decided by the rest. */
  lemma {:induction false} UnescapeAppend(parser: EscapeParser, p: seq<Byte>, t: seq<Byte>)
    requires EscapesParse(parser, p)
    ensures AppendLaw(parser, p, t)
    decreases |p|
  {
    if |p| == 0 {
      assert p + t == t;
      assert Unescape(parser, p) == Success([]);
      if Unescape(parser, t).Success? {
        assert [] + Unescape(parser, t).value == Unescape(parser, t).value;
      }
    } else if p[0] == Percent {
      UnescapeAppend(parser, p[3..], t);
      if Unescape(parser, t).Success? {
        AppendAfterEscape(parser, p, t);
      } else {
        AppendAfterEscapeFails(parser, p, t);
      }
    } else {
      UnescapeAppend(parser, p[1..], t);
      AppendAfterByte(parser, p, t);
    }
  }

  /** A failing decode stops at a bad escape. */
  lemma {:induction false} FailureHasBadEscape(parser: EscapeParser, s: seq<Byte>) returns (k: nat)
    requires Unescape(parser, s).Failure?
    ensures BadEscapeAt(parser, s, k)
    decreases |s|
  {
    if s[0] == Percent && 2 < |s| && ParseEscape(parser, s[1], s[2]).Some? {
      var k' := FailureHasBadEscape(parser, s[3..]);
      k := k' + 3;
      assert s[..k][3..] == s[3..][..k'];
    } else if s[0] == Percent {
      k := 0;
      assert s[..k] == [];
    } else {
      var k' := FailureHasBadEscape(parser, s[1..]);
      k := k' + 1;
      assert s[..k][1..] == s[1..][..k'];
    }
  }

  /** The two error conditions of `urlUnescape`: decoding fails exactly when
      the walk reaches a bad escape, and the error names it: a `%` with fewer
      than two bytes after it is an incomplete trailing escape, a pair that
      does not parse is reported as illegal hex characters with that pair. */
  lemma {:induction false} UnescapeFailsAtBadEscape(parser: EscapeParser, s: seq<Byte>)
    ensures Unescape(parser, s).Failure? <==> exists k :: BadEscapeAt(parser, s, k)
    ensures forall k :: BadEscapeAt(parser, s, k) ==> Unescape(parser, s) == Failure(EscapeErrorAt(s, k))
  {
    forall k: nat | BadEscapeAt(parser, s, k)
      ensures Unescape(parser, s) == Failure(EscapeErrorAt(s, k))
    {
      var p, t := s[..k], s[k..];
      assert s == p + t;
      UnescapeAppend(parser, p, t);
      if k + 2 < |s| {
        assert t[1..3] == s[k + 1..k + 3];
      }
    }
    if Unescape(parser, s).Failure? {
      var k := FailureHasBadEscape(parser, s);
    }
  }

  /** The error cases on concrete inputs: a lone `%`, a `%` with one byte
      after it, and `%zz`. */
  lemma UnescapeErrorExamples()
    ensures UrlUnescape([Percent]) == Failure(UserError(kIncompleteEscape))
    ensures UrlUnescape(['a' as int, Percent, '4' as int]) == Failure(UserError(kIncompleteEscape))
    ensures UrlUnescape([Percent, 'z' as int, 'z' as int]) == Failure(UserError(kIllegalHex + "zz"))
  {
    var zz: seq<Byte> := [Percent, 'z' as int, 'z' as int];
    assert AsChars(zz[1..3]) == "zz";
    var tail: seq<Byte> := ['a' as int, Percent, '4' as int];
    assert tail[1..] == [Percent, '4' as int];
    assert Unescape(Strtol, tail[1..]) == Failure(UserError(kIncompleteEscape));
  }

  /** Decoding one escaped byte and then the rest. */
  lemma UnescapeEscapedByte(parser: EscapeParser, b: Byte, t: seq<Byte>)
    ensures Unescape(parser, EscapeByte(b) + t) ==
      match Unescape(parser, t)
      case Success(rest) => Success([b] + rest)
      case Failure(e) => Failure(e)
  {
    var s := EscapeByte(b) + t;
    if IsUnreserved(b) {
      assert s[1..] == t;
    } else if b == Space {
      assert s[1..] == t;
    } else {
      assert s[1..3] == CharEscape(b)[1..3];
      assert s[3..] == t;
      ParsersAgreeOnHexPairs(s[1], s[2]);
    }
  }

  /** Round trip: decoding the escaped form gives back the input, whichever
      escape parser is used. */
  lemma {:induction false} UnescapeOfEscape(parser: EscapeParser, s: seq<Byte>)
    ensures Unescape(parser, UrlEscape(s)) == Success(s)
    decreases |s|
  {
    if |s| > 0 {
      UnescapeOfEscape(parser, s[1..]);
      UnescapeEscapedByte(parser, s[0], UrlEscape(s[1..]));
      assert [s[0]] + s[1..] == s;
    }
  }

  lemma {:induction false} UrlRoundTrip(s: seq<Byte>)
    ensures UrlUnescape(UrlEscape(s)) == Success(s)
    ensures UrlUnescapeStrict(UrlEscape(s)) == Success(s)
  {
    UnescapeOfEscape(Strtol, s);
    UnescapeOfEscape(TwoHexDigits, s);
  }

  /** Whatever the strict decoder accepts, the decoder as written accepts with
      the same output. */
  lemma {:induction false} StrictRefinesAsWritten(s: seq<Byte>)
    requires UrlUnescapeStrict(s).Success?
    ensures UrlUnescape(s) == UrlUnescapeStrict(s)
    decreases |s|
  {
    if |s| > 0 {
      if s[0] == Percent {
        ParsersAgreeOnHexPairs(s[1], s[2]);
        StrictRefinesAsWritten(s[3..]);
      } else {
        StrictRefinesAsWritten(s[1..]);
      }
    }
  }

  /** `%-1` passes the `strtol` check (a sign and one digit consume both
      characters) and decodes to the byte 0xFF; `% 5` decodes to 0x05. The
      strict decoder rejects both. */
  lemma SignedEscapeAccepted()
    ensures UrlUnescape([Percent, Minus, '1' as int]) == Success([255])
    ensures UrlUnescape([Percent, Space, '5' as int]) == Success([5])
    ensures UrlUnescapeStrict([Percent, Minus, '1' as int]).Failure?
    ensures UrlUnescapeStrict([Percent, Space, '5' as int]).Failure?
  {
    assert [Percent, Minus, '1' as int][3..] == [];
    assert [Percent, Space, '5' as int][3..] == [];
    assert StrtolHexPair(Minus, '1' as int) == Some(-1);
    assert StrtolHexPair(Space, '5' as int) == Some(5);
    assert ByteOf(-1) == 255;
    assert Unescape(Strtol, []) == Success([]);
    assert [ByteOf(-1)] + [] == [255];
    assert [ByteOf(5)] + [] == [5];
  }

  // ---------------------------------------------------------------------
  // isValidURI
  // ---------------------------------------------------------------------

  /** `stringImpl::isAsciiWhiteSpace`, taken to be the C-locale blank set. */
  predicate IsAsciiWhiteSpace(b: Byte) {
    IsCSpace(b)
  }

  /** `isValidURI`: no whitespace outside escapes, and every `%` is followed
      by two characters the `strtol` check accepts (which are then skipped). */
  predicate IsValidUri(s: seq<Byte>) {
    if |s| == 0 then true
    else if IsAsciiWhiteSpace(s[0]) then false
    else if s[0] == Percent then
      2 < |s| && StrtolHexPair(s[1], s[2]).Some? && IsValidUri(s[3..])
    else IsValidUri(s[1..])
  }

  /** A URI that passes the pre-check decodes without error: both walk the
      input the same way and apply the same escape check. */
  lemma {:induction false} ValidUriDecodes(s: seq<Byte>)
    requires IsValidUri(s)
    ensures UrlUnescape(s).Success?
    decreases |s|
  {
    if |s| > 0 {
      if s[0] == Percent {
        ValidUriDecodes(s[3..]);
      } else {
        ValidUriDecodes(s[1..]);
      }
    }
  }

  /** Without whitespace bytes the pre-check and the decoder agree exactly:
      the pre-check passes if and only if decoding succeeds. */
  lemma {:induction false} ValidUriIffDecodes(s: seq<Byte>)
    requires forall i :: 0 <= i < |s| ==> !IsAsciiWhiteSpace(s[i])
    ensures IsValidUri(s) <==> UrlUnescape(s).Success?
    decreases |s|
  {
    if |s| > 0 {
      if s[0] == Percent {
        if 2 < |s| {
          assert forall i :: 0 <= i < |s[3..]| ==> s[3..][i] == s[i + 3];
          ValidUriIffDecodes(s[3..]);
        }
      } else {
        assert forall i :: 0 <= i < |s[1..]| ==> s[1..][i] == s[i + 1];
        ValidUriIffDecodes(s[1..]);
      }
    }
  }

  /** Whitespace makes the pre-check fail although the decoder copies it. */
  lemma WhitespaceDecodesButIsNotValid()
    ensures UrlUnescape([Space]) == Success([Space])
    ensures !IsValidUri([Space])
  {
    var s: seq<Byte> := [Space];
    assert s[1..] == [];
    assert Unescape(Strtol, s[1..]) == Success([]);
    assert s[0] != Plus && s[0] != Percent;
    assert [s[0]] + [] == [Space];
  }

  /** Every escaped string passes the pre-check. */
  lemma {:induction false} EscapedIsValidUri(s: seq<Byte>)
    ensures IsValidUri(UrlEscape(s))
    decreases |s|
  {
    if |s| > 0 {
      EscapedIsValidUri(s[1..]);
      var e := EscapeByte(s[0]);
      var t := e + UrlEscape(s[1..]);
      if IsUnreserved(s[0]) || s[0] == Space {
        assert t[1..] == UrlEscape(s[1..]);
      } else {
        assert t[3..] == UrlEscape(s[1..]);
        ParsersAgreeOnHexPairs(t[1], t[2]);
      }
    }
  }
}
