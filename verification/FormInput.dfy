/** Form input (application/x-www-form-urlencoded, section 17.13.4.1 of HTML 4.01): the builder that turns
    multipart fields into a URL, the in-place flattening of a URL into zero-delimited chunks, and the
    splitting of the chunks into named, trimmed values. */
module FormInput {
  import opened CStrings
  import opened CharMaps
  import Codec

  const MAX_SIZE_OF_URL := 32000

  datatype Param = Param(name: string, value: string)

  datatype Error = AmpersandWithoutValue | InvalidName | Duplicate | OutOfInput | TooLarge

  datatype Result<T> = Ok(value: T) | Err(error: Error)

  // ----- Names

  predicate IsAlpha(c: char) { 'a' <= c <= 'z' || 'A' <= c <= 'Z' }

  predicate IsNameChar(c: char) { IsAlpha(c) || '0' <= c <= '9' || c == '_' }

  /** By their codes: digits, capital letters, the underscore and small letters. */
  lemma NameCodes(c: char)
    ensures IsNameChar(c) <==> 48 <= c as int <= 57 || 65 <= c as int <= 90 || c as int == 95 || 97 <= c as int <= 122
    ensures IsAlpha(c) <==> IsNameChar(c) && c as int > 57 && c as int != 95
  {
  }

  predicate ValidName(s: string) {
    s != "" && IsAlpha(s[0]) && forall k :: 0 <= k < |s| ==> IsNameChar(s[k])
  }

  /** cld_is_valid_param_name */
  method IsValidParamName(name: string) returns (ok: bool)
    ensures ok == ValidName(name)
  {
    if name == "" || !IsAlpha(name[0]) { return false; }
    var i := 0;
    while i < |name|
      invariant 0 <= i <= |name|
      invariant forall k :: 0 <= k < i ==> IsNameChar(name[k])
    {
      if !IsNameChar(name[i]) { return false; }
      i := i + 1;
    }
    ok := true;
  }

  // ----- Flattening

  predicate IsHex(c: char) { '0' <= c <= '9' || 'a' <= c <= 'f' || 'A' <= c <= 'F' }

  function FromHex(c: char): (v: int)
    ensures IsHex(c) ==> 0 <= v < 16
  {
    if c > '9' then (if c >= 'a' then c as int - 'a' as int + 10 else c as int - 'A' as int + 10)
    else c as int - '0' as int
  }

  function FromHexPair(a: char, b: char): char
    requires IsHex(a) && IsHex(b)
  {
    (FromHex(a) * 16 + FromHex(b)) as char
  }

  /** Every percent sign is followed by two hex digits. */
  predicate WellEscaped(s: string) {
    forall k :: 0 <= k < |s| && s[k] == '%' ==> k + 2 < |s| && IsHex(s[k + 1]) && IsHex(s[k + 2])
  }

  datatype Flattened = Bad | Flat(out: seq<char>, count: nat)

  function Prepend(c: char, n: nat, f: Flattened): Flattened {
    if f.Bad? then Bad else Flat([c] + f.out, n + f.count)
  }

  /** The chunks of `s`, each but the last one followed by a NUL, and the number of `=` signs. */
  function Flatten(s: string, hadEqual: bool): Flattened
    requires WellEscaped(s)
  {
    if s == "" then Flat([], 0)
    else if s[0] == '%' then
      Prepend(FromHexPair(s[1], s[2]), 0, Flatten(Dropped(s, 3), hadEqual))
    else if s[0] == '&' then
      if hadEqual then Prepend(NUL, 0, Flatten(Dropped(s, 1), false)) else Bad
    else if s[0] == '=' then
      Prepend(NUL, 1, Flatten(Dropped(s, 1), true))
    else
      Prepend(if s[0] == '+' then ' ' else s[0], 0, Flatten(Dropped(s, 1), hadEqual))
  }

  function Dropped(s: string, n: nat): (r: string)
    requires n <= |s| && WellEscaped(s)
    ensures WellEscaped(r) && r == s[n..] && |r| == |s| - n
  {
    assert forall k :: 0 <= k < |s[n..]| ==> s[n..][k] == s[n + k];
    s[n..]
  }

  // ----- Splitting

  /** The chunk that starts at `j` in the flattened buffer. */
  function Chunk(z: seq<char>, j: nat): string
    requires j <= |z|
  {
    z[j..NulIndex(z, j)]
  }

  predicate Terminated(z: seq<char>) {
    |z| >= 2 && z[|z| - 2] == NUL && z[|z| - 1] == NUL
  }

  predicate Named(seen: seq<Param>, name: string) {
    exists i :: 0 <= i < |seen| && seen[i].name == name
  }

  /** The next `n` name and value chunks from `j` on.  Running out of chunks is an error of its own here. */
  function Split(z: seq<char>, j: nat, n: nat, seen: seq<Param>, noDuplicates: bool): Result<seq<Param>>
    requires Terminated(z)
    decreases n
  {
    if n == 0 then Ok(seen)
    else if j >= |z| then Err(OutOfInput)
    else
      var name := Chunk(z, j);
      if !ValidName(name) then Err(InvalidName)
      else
        var k: nat := j + |name| + 1;
        var value := Chunk(z, k);
        if noDuplicates && Named(seen, name) then Err(Duplicate)
        else Split(z, k + |value| + 1, n - 1, seen + [Param(name, Trim(value))], noDuplicates)
  }

  /** What cld_get_input makes of a URL. */
  function Parse(url: string, noDuplicates: bool): Result<seq<Param>>
    requires WellEscaped(url)
  {
    var f := Flatten(url, false);
    if f.Bad? then Err(AmpersandWithoutValue) else Split(f.out + [NUL, NUL], 0, f.count, [], noDuplicates)
  }

  // ----- The in-place parser

  /** First phase: `content` is flattened in place; the write index never passes the read index. */
  method FlattenInPlace(content: array<char>) returns (ok: bool, count: nat, n: nat)
    requires IsCStr(content[..]) && |Text(content[..])| + 2 <= content.Length
    requires WellEscaped(Text(content[..]))
    modifies content
    ensures var f := Flatten(old(Text(content[..])), false);
            && ok == f.Flat?
            && (ok ==> n == |f.out| + 2 <= content.Length && content[..n] == f.out + [NUL, NUL] && count == f.count)
  {
    hide IsCStr, Flatten, Sofar, WellEscaped, FromHexPair, FromHex, IsHex;
    ghost var b := content[..];
    ghost var s := Text(b);
    ghost var whole := Flatten(s, false);
    var hadEqual := false;
    var i, j := 0, 0;
    count := 0;
    n := 0;
    FlattenStart(s);
    while content[i] != NUL
      invariant 0 <= j <= i <= |s|
      invariant WellEscaped(s[i..])
      invariant forall k :: i <= k < |b| ==> content[k] == b[k]
      invariant whole == Sofar(content[..j], count, Flatten(s[i..], hadEqual))
      decreases |s| - i
    {
      ghost var out := content[..j];
      FlattenStep(s, i, hadEqual, out, count);
      content[i] := if content[i] == '+' then ' ' else content[i];
      var c := content[i];
      if c == '%' {
        c := FromHexPair(content[i + 1], content[i + 2]);
        i := i + 2;
      } else if c == '&' {
        if !hadEqual {
          return false, count, n;
        }
        c := NUL;
        hadEqual := false;
      } else if c == '=' {
        hadEqual := true;
        count := count + 1;
        c := NUL;
      }
      content[j] := c;
      assert content[..j + 1] == out + [c];
      j := j + 1;
      i := i + 1;
    }
    Codec.AtNul(b, i);
    FlattenEnd(s, hadEqual, content[..j], count);
    content[j] := NUL;
    j := j + 1;
    content[j] := NUL;
    return true, count, j + 1;
  }

  /** The result when `out` and `n` are already there. */
  function Sofar(out: seq<char>, n: nat, f: Flattened): Flattened {
    if f.Bad? then Bad else Flat(out + f.out, n + f.count)
  }

  lemma FlattenStart(s: string)
    requires WellEscaped(s)
    ensures WellEscaped(s[0..]) && Flatten(s, false) == Sofar([], 0, Flatten(s[0..], false))
  {
    assert s[0..] == s;
  }

  lemma FlattenEnd(s: string, had: bool, out: seq<char>, n: nat)
    ensures WellEscaped(s[|s|..]) && Sofar(out, n, Flatten(s[|s|..], had)) == Flat(out, n)
  {
  }

  lemma FlattenStep(s: string, i: nat, had: bool, out: seq<char>, n: nat)
    requires i < |s| && WellEscaped(s[i..])
    ensures s[i] == '%' ==>
      && i + 2 < |s| && IsHex(s[i + 1]) && IsHex(s[i + 2]) && WellEscaped(s[i + 3..])
      && Sofar(out, n, Flatten(s[i..], had)) ==
         Sofar(out + [FromHexPair(s[i + 1], s[i + 2])], n, Flatten(s[i + 3..], had))
    ensures s[i] != '%' ==>
      && WellEscaped(s[i + 1..])
      && Sofar(out, n, Flatten(s[i..], had)) ==
         if s[i] == '&' then
           if had then Sofar(out + [NUL], n, Flatten(s[i + 1..], false)) else Bad
         else if s[i] == '=' then Sofar(out + [NUL], n + 1, Flatten(s[i + 1..], true))
         else Sofar(out + [if s[i] == '+' then ' ' else s[i]], n, Flatten(s[i + 1..], had))
  {
    var t := s[i..];
    assert t[0] == s[i];
    SofarPrepend(out, n);
    if s[i] == '%' {
      assert t[1] == s[i + 1] && t[2] == s[i + 2] && Dropped(t, 3) == s[i + 3..];
    } else {
      assert Dropped(t, 1) == s[i + 1..];
    }
  }

  lemma SofarPrepend(out: seq<char>, n: nat)
    ensures forall c: char, f: Flattened, m: nat :: Sofar(out, n, Prepend(c, m, f)) == Sofar(out + [c], n + m, f)
  {
    forall c: char, f: Flattened, m: nat ensures Sofar(out, n, Prepend(c, m, f)) == Sofar(out + [c], n + m, f) {
      if f.Flat? { assert out + ([c] + f.out) == out + [c] + f.out; }
    }
  }

  /** Second phase: the chunks become names and trimmed values. */
  method SplitParams(content: array<char>, n: nat, count: nat, noDuplicates: bool)
    returns (r: Result<seq<Param>>)
    requires n <= content.Length && Terminated(content[..n])
    ensures r == Split(content[..n], 0, count, [], noDuplicates)
  {
    hide Split, Trim, Chunk;
    var z := content[..n];
    var seen: seq<Param> := [];
    var j: nat, i: nat := 0, 0;
    while i < count
      invariant 0 <= i <= count
      invariant Split(z, j, count - i, seen, noDuplicates) == Split(z, 0, count, [], noDuplicates)
    {
      SplitStep(z, j, count - i, seen, noDuplicates);
      if j >= n { return Err(OutOfInput); }
      var name := Chunk(z, j);
      var valid := IsValidParamName(name);
      if !valid { return Err(InvalidName); }
      j := j + |name| + 1;
      var value := Chunk(z, j);
      ChunkClean(z, j);
      var copy := NewCString(value, |value| + 1);
      var trimmedLen := TrimBuffer(copy, |value|);
      if noDuplicates {
        var k := 0;
        while k < |seen|
          invariant 0 <= k <= |seen|
          invariant forall m :: 0 <= m < k ==> seen[m].name != name
        {
          if seen[k].name == name { return Err(Duplicate); }
          k := k + 1;
        }
      }
      seen := seen + [Param(name, Text(copy[..]))];
      j := j + |value| + 1;
      i := i + 1;
    }
    SplitDone(z, j, seen, noDuplicates);
    r := Ok(seen);
  }

  lemma SplitDone(z: seq<char>, j: nat, seen: seq<Param>, noDuplicates: bool)
    requires Terminated(z)
    ensures Split(z, j, 0, seen, noDuplicates) == Ok(seen)
  {
  }

  lemma ChunkClean(z: seq<char>, j: nat)
    requires j <= |z|
    ensures NUL !in Chunk(z, j)
  {
  }

  lemma SplitStep(z: seq<char>, j: nat, n: nat, seen: seq<Param>, noDuplicates: bool)
    requires Terminated(z) && n > 0
    ensures Split(z, j, n, seen, noDuplicates) ==
            if j >= |z| then Err(OutOfInput)
            else if !ValidName(Chunk(z, j)) then Err(InvalidName)
            else
              var k: nat := j + |Chunk(z, j)| + 1;
              if noDuplicates && Named(seen, Chunk(z, j)) then Err(Duplicate)
              else
                Split(z, k + |Chunk(z, k)| + 1, n - 1, seen + [Param(Chunk(z, j), Trim(Chunk(z, k)))], noDuplicates)
    ensures j < |z| && ValidName(Chunk(z, j)) ==> j + |Chunk(z, j)| + 1 < |z|
  {
  }

  /** cld_get_input from the point where the URL is in memory. */
  method GetInput(content: array<char>, noDuplicates: bool) returns (r: Result<seq<Param>>)
    requires IsCStr(content[..]) && |Text(content[..])| + 2 <= content.Length
    requires WellEscaped(Text(content[..]))
    modifies content
    ensures r == Parse(old(Text(content[..])), noDuplicates)
  {
    hide IsCStr, Flatten, Split;
    var ok, count, n := FlattenInPlace(content);
    if !ok { return Err(AmpersandWithoutValue); }
    r := SplitParams(content, n, count, noDuplicates);
  }

  // ----- The builder

  function Piece(p: Param): string {
    p.name + "=" + Codec.Encoded(Codec.Url, p.value) + "&"
  }

  /** Every field as `name=value&`. */
  function Pieces(ps: seq<Param>): string {
    if ps == [] then "" else Pieces(ps[..|ps| - 1]) + Piece(ps[|ps| - 1])
  }

  /** The URL: the pieces without the last ampersand. */
  function Built(ps: seq<Param>): string
    requires ps != []
  {
    Pieces(ps)[..|Pieces(ps)| - 1]
  }

  ghost predicate Printable(ps: seq<Param>) {
    forall k :: 0 <= k < |ps| ==> NUL !in ps[k].name && NUL !in ps[k].value
  }

  /** The multipart builder: the fields are printed behind each other into a buffer of fixed size. */
  method BuildUrl(ps: seq<Param>) returns (r: Result<string>)
    requires ps != [] && Printable(ps)
    ensures r == if |Pieces(ps)| + 2 < MAX_SIZE_OF_URL then Ok(Built(ps)) else Err(TooLarge)
  {
    hide Piece, Pieces, Copied, Codec.Encoded, IsCStr, Text;
    var newCont := new char[MAX_SIZE_OF_URL + 1](_ => NUL);
    var ptr, k := 0, 0;
    ghost var b := newCont[..];
    PiecesStart(ps, b);
    while k < |ps|
      invariant 0 <= k <= |ps|
      invariant ptr == |Pieces(ps[..k])| && (k > 0 ==> 0 < ptr && ptr + 2 < MAX_SIZE_OF_URL)
      invariant newCont[..] == Copied(b, 0, Pieces(ps[..k]))
    {
      PiecesNext(ps, k);
      var enc := new char[Codec.MAX_ENC_BLOWUP(|ps[k].value|)](_ => NUL);
      Codec.EncodedSize(Codec.Url, ps[k].value);
      CopiedText(enc[..], Codec.Encoded(Codec.Url, ps[k].value));
      var _ := Codec.EncodeBase(Codec.Url, ps[k].value, enc, 0);
      var piece := ps[k].name + "=" + Text(enc[..]) + "&";
      PieceIs(ps[k]);
      if |piece| >= MAX_SIZE_OF_URL - ptr - 2 {
        return Err(TooLarge);
      }
      Codec.CopiedMore(b, 0, Pieces(ps[..k]), piece);
      Memcpy(newCont, ptr, piece);
      ptr := ptr + |piece|;
      k := k + 1;
    }
    assert ps[..|ps|] == ps;
    PiecesClean(ps);
    LastCut(b, newCont[..], Pieces(ps));
    newCont[ptr - 1] := NUL;
    r := Ok(Text(newCont[..]));
  }

  lemma PieceIs(p: Param)
    ensures p.name + "=" + Codec.Encoded(Codec.Url, p.value) + "&" == Piece(p)
  {
  }

  lemma PiecesStart(ps: seq<Param>, b: seq<char>)
    ensures Pieces(ps[..0]) == "" && b == Copied(b, 0, "")
  {
  }

  lemma PiecesNext(ps: seq<Param>, k: nat)
    requires k < |ps|
    ensures Pieces(ps[..k + 1]) == Pieces(ps[..k]) + Piece(ps[k])
    ensures |Pieces(ps[..k])| + |Piece(ps[k])| <= |Pieces(ps)|
    ensures |Piece(ps[k])| >= 2
    decreases |ps| - k
  {
    assert ps[..k + 1][..k] == ps[..k];
    if k + 1 == |ps| {
      assert ps[..k + 1] == ps;
    } else {
      PiecesNext(ps, k + 1);
    }
  }

  lemma {:induction false} PiecesClean(ps: seq<Param>)
    requires Printable(ps)
    ensures NUL !in Pieces(ps)
  {
    if ps != [] {
      PiecesClean(ps[..|ps| - 1]);
      Codec.EncodedSize(Codec.Url, ps[|ps| - 1].value);
    }
  }

  lemma LastCut(b: seq<char>, d: seq<char>, s: string)
    requires 0 < |s| < |b| && NUL !in s && d == Copied(b, 0, s)
    ensures IsCStr(d[|s| - 1 := NUL]) && Text(d[|s| - 1 := NUL]) == s[..|s| - 1]
  {
    hide IsCStr, Text;
    TextIs(d[|s| - 1 := NUL], s[..|s| - 1]);
  }

  // ----- The round trip

  function Trimmed(ps: seq<Param>): seq<Param> {
    if ps == [] then [] else [Param(ps[0].name, Trim(ps[0].value))] + Trimmed(ps[1..])
  }

  /** The chunks the URL of `ps` flattens to. */
  function Chunks(ps: seq<Param>): seq<char>
    requires ps != []
  {
    ps[0].name + [NUL] + ps[0].value + (if |ps| == 1 then [] else [NUL] + Chunks(ps[1..]))
  }

  /** The URL from its front. */
  function Url(ps: seq<Param>): string
    requires ps != []
  {
    ps[0].name + ("=" + (Codec.Encoded(Codec.Url, ps[0].value) + (if |ps| == 1 then "" else "&" + Url(ps[1..]))))
  }

  lemma {:induction false} UrlIsBuilt(ps: seq<Param>)
    requires ps != []
    ensures Built(ps) == Url(ps)
  {
    hide Codec.Encoded;
    PiecesFront(ps);
    if |ps| > 1 {
      UrlIsBuilt(ps[1..]);
      assert Pieces(ps) == Piece(ps[0]) + Pieces(ps[1..]);
    } else {
      assert ps[1..] == [];
    }
  }

  lemma {:induction false} PiecesFront(ps: seq<Param>)
    requires ps != []
    ensures Pieces(ps) == Piece(ps[0]) + Pieces(ps[1..])
    ensures |ps| > 1 ==> Pieces(ps[1..]) != ""
  {
    hide Piece;
    var n := |ps| - 1;
    if n > 0 {
      PiecesFront(ps[..n]);
      assert ps[..n][1..] == ps[1..][..n - 1];
      PiecesEnd(ps[1..]);
      Assoc(Piece(ps[0]), Pieces(ps[..n][1..]), Piece(ps[n]));
    } else {
      assert ps[..0] == ps[1..] == [];
    }
  }

  lemma PiecesEnd(ps: seq<Param>)
    requires ps != []
    ensures Pieces(ps) == Pieces(ps[..|ps| - 1]) + Piece(ps[|ps| - 1]) && Pieces(ps) != ""
  {
    hide Codec.Encoded;
  }

  lemma EscapedCons(c: char, u: string)
    requires WellEscaped(u) && c != '%'
    ensures WellEscaped([c] + u)
    ensures c == '&' ==> Flatten([c] + u, true) == Prepend(NUL, 0, Flatten(u, false))
    ensures c == '=' ==> forall had :: Flatten([c] + u, had) == Prepend(NUL, 1, Flatten(u, true))
    ensures c != '&' && c != '=' && c != '+' ==>
              forall had :: Flatten([c] + u, had) == Prepend(c, 0, Flatten(u, had))
  {
    var t := [c] + u;
    assert forall k :: 1 <= k < |t| ==> t[k] == u[k - 1];
    assert t[1..] == u;
    assert WellEscaped(t);
    assert Dropped(t, 1) == u;
  }

  lemma EscapedHex(a: char, b: char, u: string)
    requires WellEscaped(u) && IsHex(a) && IsHex(b)
    ensures WellEscaped(['%', a, b] + u)
    ensures forall had :: Flatten(['%', a, b] + u, had) == Prepend(FromHexPair(a, b), 0, Flatten(u, had))
  {
    var t := ['%', a, b] + u;
    assert forall k :: 3 <= k < |t| ==> t[k] == u[k - 3];
    assert t[3..] == u;
    assert t[0] == '%' && t[1] == a && t[2] == b && a != '%' && b != '%';
    assert WellEscaped(t);
    assert Dropped(t, 3) == u;
  }

  /** One encoded character flattens to that character. */
  lemma FlattenImage(c: char, u: string, had: bool)
    requires WellEscaped(u)
    ensures WellEscaped(Image(Codec.URL_TABLE, c) + u)
    ensures Flatten(Image(Codec.URL_TABLE, c) + u, had) == Prepend(c, 0, Flatten(u, had))
  {
    hide Flatten, WellEscaped;
    var e := Image(Codec.URL_TABLE, c);
    if c in Codec.URL_TABLE {
      assert e == ['%', e[1], e[2]] && IsHex(e[1]) && IsHex(e[2]) && FromHexPair(e[1], e[2]) == c;
      EscapedHex(e[1], e[2], u);
    } else {
      EscapedCons(c, u);
    }
  }

  lemma {:induction false} FlattenEncoded(v: string, u: string, had: bool)
    requires WellEscaped(u)
    ensures WellEscaped(Codec.Encoded(Codec.Url, v) + u)
    ensures Flatten(Codec.Encoded(Codec.Url, v) + u, had) == Sofar(v, 0, Flatten(u, had))
  {
    hide Flatten, WellEscaped;
    var e := Codec.Encoded(Codec.Url, v);
    if v == "" {
      assert e + u == u;
    } else {
      FlattenEncoded(v[1..], u, had);
      var w := Codec.Encoded(Codec.Url, v[1..]) + u;
      FlattenImage(v[0], w, had);
      assert e + u == Image(Codec.URL_TABLE, v[0]) + w;
      SofarSplit(v, Flatten(u, had));
    }
  }

  lemma SofarSplit(v: string, f: Flattened)
    requires v != ""
    ensures Prepend(v[0], 0, Sofar(v[1..], 0, f)) == Sofar(v, 0, f)
  {
    if f.Flat? { assert [v[0]] + (v[1..] + f.out) == v + f.out; }
  }

  lemma {:induction false} FlattenName(v: string, u: string, had: bool)
    requires WellEscaped(u) && forall k :: 0 <= k < |v| ==> IsNameChar(v[k])
    ensures WellEscaped(v + u) && Flatten(v + u, had) == Sofar(v, 0, Flatten(u, had))
  {
    hide Flatten, WellEscaped;
    if v == "" {
      assert v + u == u;
    } else {
      FlattenName(v[1..], u, had);
      EscapedCons(v[0], v[1..] + u);
      assert v + u == [v[0]] + (v[1..] + u);
      SofarSplit(v, Flatten(u, had));
    }
  }

  ghost predicate ValidParams(ps: seq<Param>) {
    forall k :: 0 <= k < |ps| ==> ValidName(ps[k].name) && NUL !in ps[k].value
  }

  /** One field in front of what flattens to `more`. */
  lemma FlattenField(name: string, value: string, rest: string, more: seq<char>, n: nat)
    requires ValidName(name) && WellEscaped(rest) && Flatten(rest, true) == Flat(more, n)
    ensures var u := name + ("=" + (Codec.Encoded(Codec.Url, value) + rest));
            WellEscaped(u) && Flatten(u, false) == Flat(name + [NUL] + value + more, n + 1)
  {
    hide Codec.Encoded, Flatten, WellEscaped, Sofar;
    var e := Codec.Encoded(Codec.Url, value) + rest;
    FlattenEncoded(value, rest, true);
    EscapedCons('=', e);
    FlattenName(name, "=" + e, false);
    FieldChunks(name, value, more, n);
  }

  /** What comes behind the first field, in the URL and in the chunks. */
  function UrlRest(ps: seq<Param>): string
    requires ps != []
  {
    if |ps| == 1 then "" else "&" + Url(ps[1..])
  }

  function ChunksRest(ps: seq<Param>): seq<char>
    requires ps != []
  {
    if |ps| == 1 then [] else [NUL] + Chunks(ps[1..])
  }

  lemma {:induction false} FlattenUrl(ps: seq<Param>)
    requires ps != [] && ValidParams(ps)
    ensures WellEscaped(Url(ps)) && Flatten(Url(ps), false) == Flat(Chunks(ps), |ps|)
    decreases |ps|, 1
  {
    hide Codec.Encoded, Flatten, WellEscaped, UrlRest, ChunksRest, ValidName;
    FlattenRest(ps);
    FlattenField(ps[0].name, ps[0].value, UrlRest(ps), ChunksRest(ps), |ps| - 1);
    FirstField(ps);
  }

  lemma {:induction false} FlattenRest(ps: seq<Param>)
    requires ps != [] && ValidParams(ps)
    ensures WellEscaped(UrlRest(ps)) && Flatten(UrlRest(ps), true) == Flat(ChunksRest(ps), |ps| - 1)
    decreases |ps|, 0
  {
    hide Codec.Encoded, Flatten, WellEscaped, Url, Chunks, ValidName;
    FlattenEmpty();
    if |ps| > 1 {
      FlattenUrl(ps[1..]);
      EscapedCons('&', Url(ps[1..]));
    }
  }

  lemma FirstField(ps: seq<Param>)
    requires ps != []
    ensures Url(ps) == ps[0].name + ("=" + (Codec.Encoded(Codec.Url, ps[0].value) + UrlRest(ps)))
    ensures Chunks(ps) == ps[0].name + [NUL] + ps[0].value + ChunksRest(ps)
  {
    hide Codec.Encoded;
  }

  lemma FlattenEmpty()
    ensures WellEscaped("") && forall had :: Flatten("", had) == Flat([], 0)
  {
  }

  lemma FieldChunks(name: string, value: string, more: seq<char>, n: nat)
    ensures Sofar(name, 0, Prepend(NUL, 1, Sofar(value, 0, Flat(more, n)))) == Flat(name + [NUL] + value + more, n + 1)
  {
    assert name + ([NUL] + (value + more)) == name + [NUL] + value + more;
  }

  lemma ChunkIs(z: seq<char>, j: nat, x: string)
    requires j + |x| < |z| && z[j..j + |x|] == x && z[j + |x|] == NUL && NUL !in x
    ensures Chunk(z, j) == x
  {
    var r := NulIndex(z, j);
    forall k | j <= k < j + |x| ensures z[k] != NUL {
      assert z[k] == z[j..j + |x|][k - j] == x[k - j];
    }
  }

  ghost predicate Distinct(seen: seq<Param>, ps: seq<Param>) {
    && (forall i, k :: 0 <= i < |seen| && 0 <= k < |ps| ==> seen[i].name != ps[k].name)
    && (forall i, k :: 0 <= i < k < |ps| ==> ps[i].name != ps[k].name)
  }

  lemma DistinctNext(seen: seq<Param>, ps: seq<Param>, v: string)
    requires ps != [] && Distinct(seen, ps)
    ensures !Named(seen, ps[0].name) && Distinct(seen + [Param(ps[0].name, v)], ps[1..])
  {
  }

  lemma TrimmedStep(seen: seq<Param>, ps: seq<Param>)
    requires ps != []
    ensures seen + [Param(ps[0].name, Trim(ps[0].value))] + Trimmed(ps[1..]) == seen + Trimmed(ps)
  {
    hide Trim;
  }

  /** One round of the splitting loop consumes one field. */
  lemma SplitOne(z: seq<char>, j: nat, ps: seq<Param>, seen: seq<Param>, noDuplicates: bool)
    requires Terminated(z) && j <= |z| && ps != [] && ValidParams(ps)
    requires z[j..] == Chunks(ps) + [NUL, NUL]
    requires noDuplicates ==> Distinct(seen, ps)
    ensures var l := j + |ps[0].name| + |ps[0].value| + 2;
            var seen' := seen + [Param(ps[0].name, Trim(ps[0].value))];
            && l <= |z|
            && Split(z, j, |ps|, seen, noDuplicates) == Split(z, l, |ps| - 1, seen', noDuplicates)
            && (|ps| > 1 ==> z[l..] == Chunks(ps[1..]) + [NUL, NUL])
            && (noDuplicates ==> Distinct(seen', ps[1..]))
  {
    hide Trim, Chunk, Chunks, Split, ValidName, Named, Distinct;
    ChunkPair(z, j, ps);
    SplitStep(z, j, |ps|, seen, noDuplicates);
    if noDuplicates { DistinctNext(seen, ps, Trim(ps[0].value)); }
  }

  lemma {:induction false} SplitChunks(z: seq<char>, j: nat, ps: seq<Param>, seen: seq<Param>, noDuplicates: bool)
    requires Terminated(z) && j <= |z| && ValidParams(ps)
    requires ps != [] ==> z[j..] == Chunks(ps) + [NUL, NUL]
    requires noDuplicates ==> Distinct(seen, ps)
    ensures Split(z, j, |ps|, seen, noDuplicates) == Ok(seen + Trimmed(ps))
    decreases |ps|
  {
    hide Trim, Chunk, Chunks, Split, ValidName, Distinct;
    if ps == [] {
      SplitDone(z, j, seen, noDuplicates);
      assert seen + Trimmed(ps) == seen;
    } else {
      SplitOne(z, j, ps, seen, noDuplicates);
      var seen' := seen + [Param(ps[0].name, Trim(ps[0].value))];
      SplitChunks(z, j + |ps[0].name| + |ps[0].value| + 2, ps[1..], seen', noDuplicates);
      TrimmedStep(seen, ps);
    }
  }

  lemma ChunkFirst(z: seq<char>, j: nat, x: string, rest: seq<char>)
    requires j <= |z| && z[j..] == x + [NUL] + rest && NUL !in x
    ensures j + |x| + 1 <= |z| && Chunk(z, j) == x && z[j + |x| + 1..] == rest
  {
    hide Chunk;
    var y := z[j..];
    assert z[j..j + |x|] == y[..|x|] == x;
    assert z[j + |x|] == y[|x|] == NUL;
    assert z[j + |x| + 1..] == y[|x| + 1..] == rest;
    ChunkIs(z, j, x);
  }

  lemma ChunksFront(ps: seq<Param>)
    requires ps != []
    ensures var rest := if |ps| == 1 then [NUL] else Chunks(ps[1..]) + [NUL, NUL];
            Chunks(ps) + [NUL, NUL] == ps[0].name + [NUL] + (ps[0].value + [NUL] + rest)
  {
  }

  lemma ChunkPair(z: seq<char>, j: nat, ps: seq<Param>)
    requires j <= |z| && ps != [] && ValidParams(ps) && z[j..] == Chunks(ps) + [NUL, NUL]
    ensures var k := j + |ps[0].name| + 1;
            var l := k + |ps[0].value| + 1;
            && l <= |z| && Chunk(z, j) == ps[0].name && Chunk(z, k) == ps[0].value
            && (|ps| > 1 ==> z[l..] == Chunks(ps[1..]) + [NUL, NUL])
  {
    hide Chunk, ValidName, IsNameChar;
    var name, value := ps[0].name, ps[0].value;
    NameClean(name);
    var rest := if |ps| == 1 then [NUL] else Chunks(ps[1..]) + [NUL, NUL];
    var y := value + [NUL] + rest;
    ChunksFront(ps);
    ChunkFirst(z, j, name, y);
    ChunkFirst(z, j + |name| + 1, value, rest);
  }

  lemma NameClean(name: string)
    requires ValidName(name)
    ensures NUL !in name
  {
  }

  /** Building a URL from fields and parsing it gives the same names in order, and the trimmed values. */
  lemma FormRoundTrip(ps: seq<Param>, noDuplicates: bool)
    requires ps != [] && ValidParams(ps)
    requires noDuplicates ==> Distinct([], ps)
    ensures WellEscaped(Built(ps)) && Parse(Built(ps), noDuplicates) == Ok(Trimmed(ps))
  {
    UrlIsBuilt(ps);
    FlattenUrl(ps);
    var z := Chunks(ps) + [NUL, NUL];
    assert z[0..] == z;
    SplitChunks(z, 0, ps, [], noDuplicates);
    assert [] + Trimmed(ps) == Trimmed(ps);
  }
}
