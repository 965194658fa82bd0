/** cld_encode_base and cld_decode: web (entity) and URL (percent, RFC 3986 section 2.1) encoding. */
module Codec {
  import opened CStrings
  import opened CharMaps

  datatype Mode = Web | Url

  const WEB_TABLE: Table :=
    map['&' := "&amp;", '"' := "&quot;", '\'' := "&apos;", '<' := "&lt;", '>' := "&gt;"]

  const URL_TABLE: Table :=
    map['%' := "%25", ' ' := "%20", '@' := "%40", '=' := "%3D", ':' := "%3A", ';' := "%3B", '#' := "%23",
        '$' := "%24", '<' := "%3C", '?' := "%3F", '&' := "%26", ',' := "%2C", '>' := "%3E", '/' := "%2F",
        '"' := "%22", '+' := "%2B", '\'' := "%27"]

  function TableOf(mode: Mode): Table {
    if mode == Web then WEB_TABLE else URL_TABLE
  }

  function Encoded(mode: Mode, s: string): string {
    MapChars(s, TableOf(mode))
  }

  function MAX_ENC_BLOWUP(n: nat): nat { n * 6 + 1 }

  lemma {:induction false} EncodedSize(mode: Mode, s: string)
    ensures |Encoded(mode, s)| < MAX_ENC_BLOWUP(|s|)
    ensures NUL !in s ==> NUL !in Encoded(mode, s)
  {
    if s != "" {
      EncodedSize(mode, s[1..]);
    }
  }

  /** The entities in the order in which cld_decode tries them after `&` or `%`; the result is the decoded
      character and how many characters to skip, or no match. */
  datatype Hit = Hit(c: char, skip: nat)

  function WebHit(s: string, i: nat): (h: Hit)
    requires i < |s|
    ensures h.skip >= 1 && i + h.skip <= |s|
  {
    if At(s, i, "&amp;") then Hit('&', 5)
    else if At(s, i, "&quot;") then Hit('"', 6)
    else if At(s, i, "&apos;") then Hit('\'', 6)
    else if At(s, i, "&lt;") then Hit('<', 4)
    else if At(s, i, "&gt;") then Hit('>', 4)
    else Hit(s[i], 1)
  }

  function UrlHit(s: string, i: nat): (h: Hit)
    requires i < |s|
    ensures h.skip >= 1 && i + h.skip <= |s|
  {
    if At(s, i, "%25") then Hit('%', 3)
    else if At(s, i, "%20") then Hit(' ', 3)
    else if At(s, i, "%40") then Hit('@', 3)
    else if At(s, i, "%3D") then Hit('=', 3)
    else if At(s, i, "%3A") then Hit(':', 3)
    else if At(s, i, "%3B") then Hit(';', 3)
    else if At(s, i, "%23") then Hit('#', 3)
    else if At(s, i, "%24") then Hit('$', 3)
    else if At(s, i, "%3C") then Hit('<', 3)
    else if At(s, i, "%3F") then Hit('?', 3)
    else if At(s, i, "%26") then Hit('&', 3)
    else if At(s, i, "%2C") then Hit(',', 3)
    else if At(s, i, "%3E") then Hit('>', 3)
    else if At(s, i, "%2F") then Hit('/', 3)
    else if At(s, i, "%22") then Hit('"', 3)
    else if At(s, i, "%2B") then Hit('+', 3)
    else if At(s, i, "%27") then Hit('\'', 3)
    else Hit(s[i], 1)
  }

  function HitAt(mode: Mode, s: string, i: nat): (h: Hit)
    requires i < |s|
    ensures h.skip >= 1 && i + h.skip <= |s|
  {
    if mode == Web then WebHit(s, i) else UrlHit(s, i)
  }

  function Decoded(mode: Mode, s: string, i: nat): string
    requires i <= |s|
    decreases |s| - i
  {
    if i == |s| then "" else
      var h := HitAt(mode, s, i);
      [h.c] + Decoded(mode, s, i + h.skip)
  }

  lemma WebHitExact(c: char, s: string, i: nat)
    requires At(s, i, Image(WEB_TABLE, c))
    ensures HitAt(Web, s, i) == Hit(c, |Image(WEB_TABLE, c)|)
  {
    var e := Image(WEB_TABLE, c);
    assert forall k :: 0 <= k < |e| ==> s[i + k] == e[k] by {
      forall k | 0 <= k < |e| ensures s[i + k] == e[k] { assert s[i..i + |e|][k] == e[k]; }
    }
    assert At(s, i, "&amp;") ==> s[i + 1] == s[i..i + 5][1] == 'a' && s[i + 2] == s[i..i + 5][2] == 'm';
    assert At(s, i, "&quot;") ==> s[i + 1] == s[i..i + 6][1] == 'q';
    assert At(s, i, "&apos;") ==> s[i + 1] == s[i..i + 6][1] == 'a' && s[i + 2] == s[i..i + 6][2] == 'p';
    assert At(s, i, "&lt;") ==> s[i + 1] == s[i..i + 4][1] == 'l';
    assert At(s, i, "&gt;") ==> s[i + 1] == s[i..i + 4][1] == 'g';
    assert forall p: string :: p != "" && At(s, i, p) ==> s[i] == p[0] by {
      forall p: string | p != "" && At(s, i, p) ensures s[i] == p[0] { assert s[i..i + |p|][0] == p[0]; }
    }
  }

  lemma At3(s: string, i: nat, a: char, b: char, c: char)
    ensures At(s, i, [a, b, c]) <==> i + 3 <= |s| && s[i] == a && s[i + 1] == b && s[i + 2] == c
  {
    if i + 3 <= |s| {
      assert s[i..i + 3] == [s[i], s[i + 1], s[i + 2]];
    }
  }

  lemma UrlHitExact(c: char, s: string, i: nat)
    requires At(s, i, Image(URL_TABLE, c))
    ensures HitAt(Url, s, i) == Hit(c, |Image(URL_TABLE, c)|)
  {
    hide At;
    AtFirst(s, i, Image(URL_TABLE, c));
    if c in URL_TABLE {
      AtHex(s, i);
    } else {
      AtHex(s, i);
    }
  }

  lemma AtFirst(s: string, i: nat, p: string)
    requires p != "" && At(s, i, p)
    ensures i < |s| && s[i] == p[0]
  {
    assert s[i..i + |p|][0] == p[0];
  }

  /** A percent entity matches exactly by its three characters. */
  lemma AtHex(s: string, i: nat)
    ensures forall b, c :: At(s, i, ['%', b, c]) <==> i + 3 <= |s| && s[i] == '%' && s[i + 1] == b && s[i + 2] == c
  {
    forall b, c
      ensures At(s, i, ['%', b, c]) <==> i + 3 <= |s| && s[i] == '%' && s[i + 1] == b && s[i + 2] == c
    {
      At3(s, i, '%', b, c);
    }
  }

  lemma HitExact(mode: Mode, c: char, s: string, i: nat)
    requires At(s, i, Image(TableOf(mode), c))
    ensures HitAt(mode, s, i) == Hit(c, |Image(TableOf(mode), c)|)
  {
    hide HitAt;
    if mode == Web { WebHitExact(c, s, i); } else { UrlHitExact(c, s, i); }
  }

  lemma {:induction false} DecodeFrom(mode: Mode, s: string, k: nat)
    requires k <= |s|
    ensures |Encoded(mode, s[..k])| <= |Encoded(mode, s)|
    ensures Decoded(mode, Encoded(mode, s), |Encoded(mode, s[..k])|) == s[k..]
    decreases |s| - k
  {
    hide HitAt, TableOf;
    var e, m := Encoded(mode, s), TableOf(mode);
    EncodedSplit(s, k, m);
    if k == |s| {
      assert s[..k] == s;
    } else {
      DecodeFrom(mode, s, k + 1);
      HitExact(mode, s[k], e, |MapChars(s[..k], m)|);
      assert s[k..] == [s[k]] + s[k + 1..];
    }
  }

  lemma EncodedSplit(s: string, k: nat, m: Table)
    requires k <= |s|
    ensures |MapChars(s[..k], m)| <= |MapChars(s, m)|
    ensures k < |s| ==> At(MapChars(s, m), |MapChars(s[..k], m)|, Image(m, s[k]))
    ensures k < |s| ==> |MapChars(s[..k + 1], m)| == |MapChars(s[..k], m)| + |Image(m, s[k])|
  {
    assert s == s[..k] + s[k..];
    MapConcat(s[..k], s[k..], m);
    var a, b := MapChars(s[..k], m), MapChars(s[k..], m);
    if k < |s| {
      assert s[..k + 1] == s[..k] + [s[k]];
      MapConcat(s[..k], [s[k]], m);
      assert [s[k]][1..] == "" && MapChars("", m) == "";
      AtRight(a, b, 0, Image(m, s[k]));
      assert At(b, 0, Image(m, s[k]));
    }
  }

  /** Decoding inverts encoding, in both modes, for every string. */
  lemma DecodeInvertsEncode(mode: Mode, s: string)
    ensures Decoded(mode, Encoded(mode, s), 0) == s
  {
    assert s[..0] == "" && s[0..] == s;
    DecodeFrom(mode, s, 0);
  }

  /** Consequently no two strings have the same encoding. */
  lemma EncodeInjective(mode: Mode, s: string, t: string)
    requires Encoded(mode, s) == Encoded(mode, t)
    ensures s == t
  {
    DecodeInvertsEncode(mode, s);
    DecodeInvertsEncode(mode, t);
  }

  // ----- What an encoding can hold

  const HEX := "0123456789ABCDEF"

  predicate Reserved(c: char) {
    || c == '%' || c == ' ' || c == '@' || c == '=' || c == ':' || c == ';' || c == '#' || c == '$' || c == '<'
    || c == '?' || c == '&' || c == ',' || c == '>' || c == '/' || c == '"' || c == '+' || c == '\''
  }

  /** The percent escape of a character of one byte. */
  function Percent(c: char): string
    requires c < '\U{100}'
  {
    ['%', HEX[c as int / 16], HEX[c as int % 16]]
  }

  /** Exactly the reserved characters are escaped, as a percent sign and the two digits of their code. */
  lemma UrlImage(c: char)
    ensures Reserved(c) ==> c < '\U{100}'
    ensures Image(URL_TABLE, c) == if Reserved(c) then Percent(c) else [c]
  {
  }

  predicate IsEscape(e: string, k: int) {
    exists c :: Reserved(c) && c < '\U{100}' && At(e, k, Percent(c))
  }

  predicate IsEntity(e: string, k: int) {
    At(e, k, "&amp;") || At(e, k, "&quot;") || At(e, k, "&apos;") || At(e, k, "&lt;") || At(e, k, "&gt;")
  }

  /** A URL encoding holds no reserved character but percent signs, and each of these begins the escape of a reserved
      character. */
  lemma {:induction false} UrlSafe(s: string)
    ensures forall k :: 0 <= k < |Encoded(Url, s)| && Reserved(Encoded(Url, s)[k]) ==>
              Encoded(Url, s)[k] == '%' && IsEscape(Encoded(Url, s), k)
  {
    hide At, Reserved, Image, IsEscape;
    if s != "" {
      var x, y, e := Image(URL_TABLE, s[0]), Encoded(Url, s[1..]), Encoded(Url, s);
      UrlSafe(s[1..]);
      assert e == x + y;
      forall k | 0 <= k < |e| && Reserved(e[k]) ensures e[k] == '%' && IsEscape(e, k) {
        if k >= |x| {
          EscapeBehind(x, y, k - |x|);
        } else {
          ImageSafe(s[0], k);
          EscapeFirst(s[0], y);
        }
      }
    }
  }

  lemma EscapeBehind(x: string, y: string, k: nat)
    requires IsEscape(y, k)
    ensures IsEscape(x + y, |x| + k)
  {
    hide At, Percent, Reserved;
    var c :| Reserved(c) && c < '\U{100}' && At(y, k, Percent(c));
    AtRight(x, y, k, Percent(c));
  }

  lemma EscapeFirst(c: char, y: string)
    requires Reserved(c)
    ensures IsEscape(Image(URL_TABLE, c) + y, 0)
  {
    hide At, Percent, Reserved, Image;
    UrlImage(c);
    AtStart(Percent(c), y);
  }

  /** Of what is written for a character, only the percent sign is reserved. */
  lemma ImageSafe(c: char, k: nat)
    requires k < |Image(URL_TABLE, c)| && Reserved(Image(URL_TABLE, c)[k])
    ensures Reserved(c) && k == 0 && Image(URL_TABLE, c)[0] == '%'
  {
    hide Reserved, Image;
    UrlImage(c);
    if Reserved(c) {
      DigitFree(c as int / 16);
      DigitFree(c as int % 16);
    }
  }

  lemma DigitFree(v: nat)
    requires v < 16
    ensures !Reserved(HEX[v])
  {
  }

  /** A web encoding holds none of the four markup characters, and each ampersand in it begins an entity. */
  lemma {:induction false} WebSafe(s: string)
    ensures forall k :: 0 <= k < |Encoded(Web, s)| && Encoded(Web, s)[k] in "&<>\"'" ==>
              Encoded(Web, s)[k] == '&' && IsEntity(Encoded(Web, s), k)
  {
    hide At;
    if s != "" {
      var x, y, e := Image(WEB_TABLE, s[0]), Encoded(Web, s[1..]), Encoded(Web, s);
      WebSafe(s[1..]);
      assert e == x + y;
      forall k | 0 <= k < |e| && e[k] in "&<>\"'" ensures e[k] == '&' && IsEntity(e, k) {
        if k >= |x| {
          EntityBehind(x, y, k - |x|);
        } else {
          AtStart(x, y);
        }
      }
    }
  }

  lemma EntityBehind(x: string, y: string, k: nat)
    ensures IsEntity(x + y, |x| + k) <==> IsEntity(y, k)
  {
    hide At;
    AtRight(x, y, k, "&amp;");
    AtRight(x, y, k, "&quot;");
    AtRight(x, y, k, "&apos;");
    AtRight(x, y, k, "&lt;");
    AtRight(x, y, k, "&gt;");
  }

  /** How a character is written. */
  function Written(mode: Mode, c: char): string {
    if mode == Url then (if Reserved(c) && c < '\U{100}' then Percent(c) else [c])
    else
      match c
      case '&' => "&amp;"
      case '"' => "&quot;"
      case '\'' => "&apos;"
      case '<' => "&lt;"
      case '>' => "&gt;"
      case _ => [c]
  }

  /** Behind what is written for the characters before it stands what is written for each character. */
  lemma WrittenInPlace(mode: Mode, s: string, k: nat)
    requires k < |s|
    ensures At(Encoded(mode, s), |Encoded(mode, s[..k])|, Written(mode, s[k]))
    ensures |Encoded(mode, s[..k + 1])| == |Encoded(mode, s[..k])| + |Written(mode, s[k])|
  {
    hide At, MapChars;
    EncodedSplit(s, k, TableOf(mode));
    WrittenImage(mode, s[k]);
  }

  lemma WrittenImage(mode: Mode, c: char)
    ensures Image(TableOf(mode), c) == Written(mode, c)
  {
    hide Percent;
    UrlImage(c);
  }

  /** Decoding takes exactly the escapes of reserved characters for what they stand for, and all else as it is. */
  lemma UrlHitIs(s: string, i: nat)
    requires i < |s|
    ensures var h := HitAt(Url, s, i);
            if IsEscape(s, i) then h.skip == 3 && Reserved(h.c) && h.c < '\U{100}' && At(s, i, Percent(h.c))
            else h == Hit(s[i], 1)
  {
    hide At, UrlHit;
    UrlHitEscapes(s, i);
    if IsEscape(s, i) {
      var c :| Reserved(c) && c < '\U{100}' && At(s, i, Percent(c));
      UrlImage(c);
      UrlHitExact(c, s, i);
    }
  }

  lemma UrlHitEscapes(s: string, i: nat)
    requires i < |s|
    ensures UrlHit(s, i) == Hit(s[i], 1) || IsEscape(s, i)
  {
    hide At, Percent;
    PercentCodes();
    if !IsEscape(s, i) {
      assert forall c :: Reserved(c) && c < '\U{100}' ==> !At(s, i, Percent(c));
    }
  }

  lemma PercentCodes()
    ensures Percent('%') == "%25" && Percent(' ') == "%20" && Percent('@') == "%40" && Percent('=') == "%3D"
    ensures Percent(':') == "%3A" && Percent(';') == "%3B" && Percent('#') == "%23" && Percent('$') == "%24"
    ensures Percent('<') == "%3C" && Percent('?') == "%3F" && Percent('&') == "%26" && Percent(',') == "%2C"
    ensures Percent('>') == "%3E" && Percent('/') == "%2F" && Percent('"') == "%22" && Percent('+') == "%2B"
    ensures Percent('\'') == "%27"
  {
  }

  lemma WebHitIs(s: string, i: nat)
    requires i < |s|
    ensures var h := HitAt(Web, s, i);
            if IsEntity(s, i) then At(s, i, Written(Web, h.c)) && h.skip == |Written(Web, h.c)| > 1 else h == Hit(s[i], 1)
  {
    hide At;
  }

  /** cld_encode_base into memory the caller provides, from position `off` on. */
  method EncodeBase(mode: Mode, v: string, res: array<char>, off: nat) returns (j: nat)
    requires off + MAX_ENC_BLOWUP(|v|) <= res.Length
    modifies res
    ensures j == |Encoded(mode, v)| < MAX_ENC_BLOWUP(|v|)
    ensures res[..] == Copied(old(res[..]), off, Encoded(mode, v) + [NUL])
  {
    hide TableOf, Image, Copied;
    ghost var b, m := res[..], TableOf(mode);
    EncodedSize(mode, v);
    j := 0;
    var i := 0;
    assert v[..0] == "";
    while i < |v|
      invariant 0 <= i <= |v|
      invariant j == |MapChars(v[..i], m)| <= |Encoded(mode, v)|
      invariant res[..] == Copied(b, off, MapChars(v[..i], m))
    {
      EncodedSplit(v, i, m);
      EncodedSplit(v, i + 1, m);
      EncodedNext(v, i, m);
      var e := Image(TableOf(mode), v[i]);
      CopiedMore(b, off, MapChars(v[..i], m), e);
      Memcpy(res, off + j, e);
      j := j + |e|;
      i := i + 1;
    }
    assert v[..|v|] == v;
    CopiedMore(b, off, Encoded(mode, v), [NUL]);
    Memcpy(res, off + j, [NUL]);
  }

  lemma EncodedNext(s: string, k: nat, m: Table)
    requires k < |s|
    ensures MapChars(s[..k + 1], m) == MapChars(s[..k], m) + Image(m, s[k])
  {
    assert s[..k + 1] == s[..k] + [s[k]];
    MapConcat(s[..k], [s[k]], m);
    assert [s[k]][1..] == "" && MapChars("", m) == "";
  }

  lemma CopiedMore(b: seq<char>, off: nat, x: string, e: string)
    requires off + |x| + |e| <= |b|
    ensures Copied(Copied(b, off, x), off + |x|, e) == Copied(b, off, x + e)
  {
  }

  lemma {:induction false} DecodedClean(mode: Mode, s: string, i: nat)
    requires i <= |s| && NUL !in s
    ensures NUL !in Decoded(mode, s, i)
    decreases |s| - i
  {
    hide At;
    if i < |s| {
      DecodedClean(mode, s, i + HitAt(mode, s, i).skip);
    }
  }

  lemma AtInBuffer(b: seq<char>, i: nat, p: string)
    requires IsCStr(b) && i <= |Text(b)| && NUL !in p && p != ""
    ensures At(b[i..], 0, p) <==> At(Text(b), i, p)
  {
    hide IsCStr;
    var s := Text(b);
    if At(b[i..], 0, p) {
      assert forall k :: 0 <= k < |p| ==> b[i + k] == p[k] && p[k] in p by {
        forall k | 0 <= k < |p| ensures b[i + k] == p[k] { assert b[i..][0..|p|][k] == p[k]; }
      }
      assert i + |p| <= |s| by { assert i + (|s| - i) == |s|; }
      assert s[i..i + |p|] == p;
    }
    if At(s, i, p) {
      assert forall k :: 0 <= k < |p| ==> b[i + k] == p[k] by {
        forall k | 0 <= k < |p| ensures b[i + k] == p[k] { assert s[i..i + |p|][k] == p[k]; }
      }
      assert b[i..][0..|p|] == p;
    }
  }

  /** Matching entities in the buffer (strncmp) is matching them in its text: none reaches past the NUL. */
  lemma HitInBuffer(mode: Mode, b: seq<char>, v: seq<char>, i: nat)
    requires IsCStr(b) && i < |Text(b)| && |v| == |b|
    requires forall k :: i <= k < |b| ==> v[k] == b[k]
    ensures HitAt(mode, v[i..], 0) == HitAt(mode, Text(b), i)
  {
    hide IsCStr, At;
    assert v[i..] == b[i..];
    assert forall p: string :: p != "" && NUL !in p ==> (At(b[i..], 0, p) <==> At(Text(b), i, p)) by {
      forall p: string | p != "" && NUL !in p ensures At(b[i..], 0, p) <==> At(Text(b), i, p) {
        AtInBuffer(b, i, p);
      }
    }
  }

  lemma AtNul(b: seq<char>, i: nat)
    requires IsCStr(b) && i <= |Text(b)| && b[i] == NUL
    ensures i == |Text(b)|
  {
    hide IsCStr;
  }

  lemma DecodeStep(x: string, c: char, y: string)
    ensures x + ([c] + y) == x + [c] + y
  {
  }

  /** cld_decode: in place, the write position never ahead of the read position. */
  method Decode(mode: Mode, v: array<char>) returns (j: nat)
    requires IsCStr(v[..])
    modifies v
    ensures IsCStr(v[..]) && Text(v[..]) == Decoded(mode, old(Text(v[..])), 0)
    ensures j == |Text(v[..])| <= old(|Text(v[..])|)
  {
    hide IsCStr, HitAt;
    ghost var b := v[..];
    ghost var s := Text(b);
    j := 0;
    var i := 0;
    DecodedClean(mode, s, 0);
    while v[i] != NUL
      invariant 0 <= j <= i <= |s|
      invariant forall k :: i <= k < |b| ==> v[k] == b[k]
      invariant v[..j] + Decoded(mode, s, i) == Decoded(mode, s, 0)
      decreases |s| - i
    {
      assert i < |s|;
      HitInBuffer(mode, b, v[..], i);
      var h := HitAt(mode, v[i..], 0);
      DecodeStep(v[..j], h.c, Decoded(mode, s, i + h.skip));
      ghost var before := v[..j];
      v[j] := h.c;
      assert v[..j + 1] == before + [h.c];
      j := j + 1;
      i := i + h.skip;
    }
    AtNul(b, i);
    v[j] := NUL;
    TextIs(v[..], Decoded(mode, s, 0));
  }
}
