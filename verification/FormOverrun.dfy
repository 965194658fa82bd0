/** When cld_get_input runs out of chunks: the flattened URL has fewer of them than its `=` signs call for, and
    the code goes on behind the terminators.  The exact condition, on the text of the URL. */
module FormOverrun {
  import opened CStrings
  import opened FormInput

  // ----- Chunks, all at once

  /** The chunks from `j` on; each ends in one NUL. */
  function Fields(z: seq<char>, j: nat): seq<string>
    requires Terminated(z) && j <= |z|
    decreases |z| - j
  {
    if j == |z| then [] else [Chunk(z, j)] + Fields(z, j + |Chunk(z, j)| + 1)
  }

  /** The chunks that are taken for names. */
  function Names(fields: seq<string>): (names: seq<string>)
    ensures |names| == (|fields| + 1) / 2
  {
    if fields == [] then [] else [fields[0]] + (if |fields| == 1 then [] else Names(fields[2..]))
  }

  /** Names that are accepted, in this order, after those of `seen`: valid ones, without repetition when that is
      checked. */
  predicate Usable(seen: seq<Param>, names: seq<string>, noDuplicates: bool) {
    forall k :: 0 <= k < |names| ==> UsableAt(seen, names, k, noDuplicates)
  }

  predicate UsableAt(seen: seq<Param>, names: seq<string>, k: nat, noDuplicates: bool)
    requires k < |names|
  {
    ValidName(names[k]) && (noDuplicates ==> !Named(seen, names[k]) && names[k] !in names[..k])
  }

  lemma UsableFrom(seen: seq<Param>, name: string, value: string, rest: seq<string>, k: nat, noDuplicates: bool)
    requires k < |rest|
    ensures UsableAt(seen + [Param(name, value)], rest, k, noDuplicates) <==>
            UsableAt(seen, [name] + rest, k + 1, noDuplicates)
  {
    hide ValidName;
    var more, names := seen + [Param(name, value)], [name] + rest;
    assert names[k + 1] == rest[k] && names[..k + 1] == [name] + rest[..k];
    NamedNext(seen, name, value, rest[k]);
  }

  lemma NamedNext(seen: seq<Param>, name: string, value: string, x: string)
    ensures Named(seen + [Param(name, value)], x) <==> Named(seen, x) || x == name
  {
    var more := seen + [Param(name, value)];
    assert more[|seen|].name == name;
    if Named(seen, x) {
      var i :| 0 <= i < |seen| && seen[i].name == x;
      assert more[i].name == x;
    }
  }

  lemma UsableStep(seen: seq<Param>, name: string, value: string, rest: seq<string>, noDuplicates: bool)
    ensures Usable(seen, [name] + rest, noDuplicates) <==>
            && ValidName(name) && (noDuplicates ==> !Named(seen, name))
            && Usable(seen + [Param(name, value)], rest, noDuplicates)
  {
    hide UsableAt, ValidName, Named;
    var more, names := seen + [Param(name, value)], [name] + rest;
    assert UsableAt(seen, names, 0, noDuplicates) <==> ValidName(name) && (noDuplicates ==> !Named(seen, name)) by {
      UsableFirst(seen, name, rest, noDuplicates);
    }
    forall k | 0 <= k < |rest|
      ensures UsableAt(more, rest, k, noDuplicates) <==> UsableAt(seen, names, k + 1, noDuplicates)
    {
      UsableFrom(seen, name, value, rest, k, noDuplicates);
    }
    if Usable(more, rest, noDuplicates) && UsableAt(seen, names, 0, noDuplicates) {
      forall k | 0 <= k < |names| ensures UsableAt(seen, names, k, noDuplicates) {
        assert k > 0 ==> UsableAt(more, rest, k - 1, noDuplicates);
      }
    }
  }

  lemma UsableFirst(seen: seq<Param>, name: string, rest: seq<string>, noDuplicates: bool)
    ensures UsableAt(seen, [name] + rest, 0, noDuplicates) <==> ValidName(name) && (noDuplicates ==> !Named(seen, name))
  {
  }

  // ----- Running out, on chunks

  lemma FieldsEnd(z: seq<char>, j: nat)
    requires Terminated(z) && j < |z|
    ensures j + |Chunk(z, j)| + 1 <= |z|
    ensures Fields(z, j) == [Chunk(z, j)] + Fields(z, j + |Chunk(z, j)| + 1)
    ensures ValidName(Chunk(z, j)) ==> j + |Chunk(z, j)| + 1 < |z|
  {
  }

  /** The chunks run out exactly when their number is even, half of it is less than the number of parameters, and
      none of the names among them is rejected before. */
  lemma {:induction false} RunsOut(z: seq<char>, j: nat, n: nat, seen: seq<Param>, noDuplicates: bool)
    requires Terminated(z) && j <= |z|
    ensures var fs := Fields(z, j);
            Split(z, j, n, seen, noDuplicates) == Err(OutOfInput) <==>
            |fs| % 2 == 0 && |fs| / 2 < n && Usable(seen, Names(fs), noDuplicates)
    decreases n
  {
    hide Chunk, Trim, ValidName, Named, Usable, Split, Fields;
    var fs := Fields(z, j);
    if n == 0 {
      SplitDone(z, j, seen, noDuplicates);
    } else {
      SplitStep(z, j, n, seen, noDuplicates);
      if j == |z| {
        NoFields(z, seen, noDuplicates);
      } else {
        FieldsEnd(z, j);
        var name := Chunk(z, j);
        var k: nat := j + |name| + 1;
        if k == |z| {
          assert Fields(z, k) == [] by { NoFields(z, seen, noDuplicates); }
        } else {
          FieldsEnd(z, k);
          var value := Chunk(z, k);
          var l := k + |value| + 1;
          assert fs == [name] + ([value] + Fields(z, l));
          assert fs[2..] == Fields(z, l);
          assert Names(fs) == [name] + Names(Fields(z, l));
          UsableStep(seen, name, Trim(value), Names(Fields(z, l)), noDuplicates);
          if ValidName(name) && !(noDuplicates && Named(seen, name)) {
            RunsOut(z, l, n - 1, seen + [Param(name, Trim(value))], noDuplicates);
          }
        }
      }
    }
  }

  lemma NoFields(z: seq<char>, seen: seq<Param>, noDuplicates: bool)
    requires Terminated(z)
    ensures Fields(z, |z|) == [] && Usable(seen, Names([]), noDuplicates)
  {
  }

  // ----- Counting on the text of the URL

  function Tally(s: seq<char>, c: char): nat {
    if s == [] then 0 else (if s[0] == c then 1 else 0) + Tally(s[1..], c)
  }

  /** How often a NUL is written as a percent escape. */
  function NulEscapes(s: string): nat {
    if |s| < 3 then 0 else (if s[..3] == "%00" then 1 else 0) + NulEscapes(s[1..])
  }

  lemma {:induction false} TallySplit(a: seq<char>, b: seq<char>, c: char)
    ensures Tally(a + b, c) == Tally(a, c) + Tally(b, c)
  {
    if a == [] {
      assert a + b == b;
    } else {
      assert (a + b)[1..] == a[1..] + b;
      TallySplit(a[1..], b, c);
    }
  }

  lemma {:induction false} TallyNone(s: seq<char>, c: char)
    requires c !in s
    ensures Tally(s, c) == 0
  {
    if s != [] { TallyNone(s[1..], c); }
  }

  /** There are as many chunks as NULs. */
  lemma {:induction false} FieldsAreNuls(z: seq<char>, j: nat)
    requires Terminated(z) && j <= |z|
    ensures |Fields(z, j)| == Tally(z[j..], NUL)
    decreases |z| - j
  {
    hide Chunk;
    if j < |z| {
      FieldsEnd(z, j);
      var x := Chunk(z, j);
      var k := j + |x| + 1;
      FieldsAreNuls(z, k);
      ChunkText(z, j);
      TallySplit(x, [NUL] + z[k..], NUL);
      TallyNone(x, NUL);
    }
  }

  lemma ChunkText(z: seq<char>, j: nat)
    requires Terminated(z) && j < |z|
    ensures var x := Chunk(z, j);
            NUL !in x && j + |x| + 1 <= |z| && z[j..] == x + ([NUL] + z[j + |x| + 1..])
  {
  }

  /** What the in-place pass counts, and how many NULs it leaves. */
  lemma {:induction false} FlattenCounts(s: string, had: bool)
    requires WellEscaped(s) && NUL !in s && Flatten(s, had).Flat?
    ensures var f := Flatten(s, had);
            && f.count == Tally(s, '=')
            && Tally(f.out, NUL) == Tally(s, '=') + Tally(s, '&') + NulEscapes(s)
    decreases |s|
  {
    hide WellEscaped, FromHexPair;
    if s == "" {
    } else if s[0] == '%' {
      PercentCounts(s);
      FlattenCounts(Dropped(s, 3), had);
    } else if s[0] == '&' {
      NoEscape(s);
      FlattenCounts(Dropped(s, 1), false);
    } else if s[0] == '=' {
      NoEscape(s);
      FlattenCounts(Dropped(s, 1), true);
    } else {
      NoEscape(s);
      FlattenCounts(Dropped(s, 1), had);
    }
  }

  lemma PercentCounts(s: string)
    requires WellEscaped(s) && s != "" && s[0] == '%'
    ensures |s| >= 3 && IsHex(s[1]) && IsHex(s[2])
    ensures NulEscapes(s) == (if FromHexPair(s[1], s[2]) == NUL then 1 else 0) + NulEscapes(s[3..])
    ensures Tally(s, '=') == Tally(s[3..], '=') && Tally(s, '&') == Tally(s[3..], '&')
  {
    hide FromHexPair, Tally, NulEscapes;
    var a, b, u := s[1], s[2], s[3..];
    assert s == ['%', a, b] + u;
    TallySplit(['%', a, b], u, '=');
    TallySplit(['%', a, b], u, '&');
    TallyNone(['%', a, b], '=');
    TallyNone(['%', a, b], '&');
    HexIsNul(a, b);
    EscapeFirst(s);
    NoEscape(s[1..]);
    NoEscape(s[2..]);
    assert s[1..][1..] == s[2..] && s[2..][1..] == s[3..];
    assert s[..3] == ['%', a, b];
  }

  lemma HexIsNul(a: char, b: char)
    requires IsHex(a) && IsHex(b)
    ensures FromHexPair(a, b) == NUL <==> a == '0' && b == '0'
  {
  }

  lemma EscapeFirst(s: string)
    requires |s| >= 3
    ensures NulEscapes(s) == (if s[..3] == "%00" then 1 else 0) + NulEscapes(s[1..])
  {
  }

  lemma NoEscape(s: string)
    requires s != "" && s[0] != '%'
    ensures NulEscapes(s) == NulEscapes(s[1..])
  {
  }

  // ----- The exact condition, on URLs

  /** How many chunks a URL is cut into. */
  function Chunks(url: string): nat {
    Tally(url, '&') + Tally(url, '=') + NulEscapes(url) + 2
  }

  /** cld_get_input goes on behind the terminators exactly when every ampersand has an `=` before it, the chunks
      are even in number and make fewer pairs than there are `=` signs, and their names pass the checks. */
  lemma RunsOutIff(url: string, noDuplicates: bool)
    requires WellEscaped(url) && NUL !in url
    ensures Parse(url, noDuplicates) == Err(OutOfInput) <==>
            && Flatten(url, false).Flat?
            && Chunks(url) % 2 == 0 && Chunks(url) / 2 < Tally(url, '=')
            && Usable([], Names(Fields(Flatten(url, false).out + [NUL, NUL], 0)), noDuplicates)
  {
    hide Flatten, WellEscaped, Usable, Fields, Split, Names, Tally, NulEscapes;
    var f := Flatten(url, false);
    if f.Flat? {
      RunsOut(f.out + [NUL, NUL], 0, f.count, [], noDuplicates);
      FlattenCounts(url, false);
      FlatFields(f.out);
    }
  }

  lemma FlatFields(out: seq<char>)
    ensures |Fields(out + [NUL, NUL], 0)| == Tally(out, NUL) + 2
  {
    hide Fields;
    var z := out + [NUL, NUL];
    FieldsAreNuls(z, 0);
    assert z[0..] == z && z == out + [NUL] + [NUL];
    TallyLast(out, NUL, NUL);
    TallyLast(out + [NUL], NUL, NUL);
  }

  /** No part between ampersands holds two `=` signs. */
  predicate OneEach(url: string) {
    forall i, j :: 0 <= i < j < |url| && url[i] == '=' && url[j] == '=' ==> '&' in url[i..j]
  }

  lemma {:induction false} OneEachCounts(s: string)
    requires OneEach(s)
    ensures Tally(s, '=') <= Tally(s, '&') + 1
    ensures Tally(s, '=') == Tally(s, '&') + 1 ==> exists i :: 0 <= i < |s| && s[i] == '=' && '&' !in s[i..]
  {
    if s != "" {
      var n := |s| - 1;
      var u := s[..n];
      assert s == u + [s[n]];
      OneEachFront(s, n);
      OneEachCounts(u);
      TallyLast(u, s[n], '=');
      TallyLast(u, s[n], '&');
      if s[n] == '=' {
        assert s[n..] == "=";
        AmpersandBetween(u);
      } else if s[n] != '&' && Tally(u, '=') == Tally(u, '&') + 1 {
        var i :| 0 <= i < |u| && u[i] == '=' && '&' !in u[i..];
        assert s[i..] == u[i..] + [s[n]];
      }
    }
  }

  lemma AmpersandBetween(u: string)
    requires OneEach(u + ['='])
    ensures forall i :: 0 <= i < |u| && u[i] == '=' ==> '&' in u[i..]
  {
    var s := u + ['='];
    forall i | 0 <= i < |u| && u[i] == '=' ensures '&' in u[i..] {
      assert s[i] == '=' && s[|u|] == '=';
      assert s[i..|u|] == u[i..];
    }
  }

  lemma OneEachFront(s: string, n: nat)
    requires OneEach(s) && n <= |s|
    ensures OneEach(s[..n])
  {
    forall i, j | 0 <= i < j < n && s[i] == '=' && s[j] == '=' ensures '&' in s[..n][i..j] {
      assert s[..n][i..j] == s[i..j];
    }
  }

  lemma TallyLast(u: string, x: char, c: char)
    ensures Tally(u + [x], c) == Tally(u, c) + (if x == c then 1 else 0)
  {
    TallySplit(u, [x], c);
    assert [x][1..] == [];
  }

  /** A caller whose parts between ampersands each hold at most one `=` is safe, whatever else the URL is. */
  lemma OneEachIsSafe(url: string, noDuplicates: bool)
    requires WellEscaped(url) && NUL !in url && OneEach(url)
    ensures Parse(url, noDuplicates) != Err(OutOfInput)
  {
    hide Parse, WellEscaped, OneEach, Usable;
    RunsOutIff(url, noDuplicates);
    OneEachCounts(url);
  }

  /** A URL that is not: five names run into each other. */
  lemma RunsOutExample(noDuplicates: bool)
    ensures WellEscaped("a=b=c=d=e") && Parse("a=b=c=d=e", noDuplicates) == Err(OutOfInput)
  {
    hide Flatten, WellEscaped, Split;
    var z := ['a', NUL, 'b', NUL, 'c', NUL, 'd', NUL, 'e', NUL, NUL];
    FlattenExample();
    assert ['a', NUL, 'b', NUL, 'c', NUL, 'd', NUL, 'e'] + [NUL, NUL] == z;
    SplitExample(z, noDuplicates);
  }

  lemma SplitExample(z: seq<char>, noDuplicates: bool)
    requires z == ['a', NUL, 'b', NUL, 'c', NUL, 'd', NUL, 'e', NUL, NUL]
    ensures Split(z, 0, 4, [], noDuplicates) == Err(OutOfInput)
  {
    hide Split, Trim;
    var one := [Param("a", Trim("b"))];
    var two := one + [Param("c", Trim("d"))];
    ExampleStep(z, 0, 4, "a", "b", [], noDuplicates);
    assert [] + [Param("a", Trim("b"))] == one;
    ExampleStep(z, 4, 3, "c", "d", one, noDuplicates);
    ExampleStep(z, 8, 2, "e", "", two, noDuplicates);
    SplitStep(z, 11, 1, two + [Param("e", Trim(""))], noDuplicates);
  }

  lemma ExampleStep(z: seq<char>, j: nat, n: nat, name: string, value: string, seen: seq<Param>, noDuplicates: bool)
    requires Terminated(z) && n > 0 && ValidName(name) && !Named(seen, name)
    requires j + |name| < |z| && z[j..j + |name|] == name && z[j + |name|] == NUL
    requires var k := j + |name| + 1;
             k + |value| < |z| && z[k..k + |value|] == value && z[k + |value|] == NUL && NUL !in value
    ensures Split(z, j, n, seen, noDuplicates) ==
            Split(z, j + |name| + |value| + 2, n - 1, seen + [Param(name, Trim(value))], noDuplicates)
  {
    hide Split, Chunk, Trim, ValidName;
    NameClean(name);
    ChunkIs(z, j, name);
    ChunkIs(z, j + |name| + 1, value);
    SplitStep(z, j, n, seen, noDuplicates);
  }

  lemma FlattenExample()
    ensures WellEscaped("a=b=c=d=e")
    ensures Flatten("a=b=c=d=e", false) == Flat(['a', NUL, 'b', NUL, 'c', NUL, 'd', NUL, 'e'], 4)
  {
    hide Flatten, WellEscaped;
    FlattenEmpty();
    NameAhead('e', "");
    assert ['e'] + "" == "e" && ['d', '='] + "e" == "d=e" && ['c', '='] + "d=e" == "c=d=e";
    assert ['b', '='] + "c=d=e" == "b=c=d=e" && ['a', '='] + "b=c=d=e" == "a=b=c=d=e";
    EqualAhead('d', "e");
    EqualAhead('c', "d=e");
    EqualAhead('b', "c=d=e");
    EqualAhead('a', "b=c=d=e");
  }

  lemma NameAhead(c: char, u: string)
    requires IsNameChar(c) && WellEscaped(u)
    ensures WellEscaped([c] + u) && forall had :: Flatten([c] + u, had) == Prepend(c, 0, Flatten(u, had))
  {
    EscapedCons(c, u);
  }

  lemma EqualAhead(c: char, u: string)
    requires IsNameChar(c) && WellEscaped(u)
    ensures WellEscaped([c, '='] + u)
    ensures forall had :: Flatten([c, '='] + u, had) == Prepend(c, 0, Prepend(NUL, 1, Flatten(u, true)))
  {
    hide Flatten, WellEscaped;
    EscapedCons('=', u);
    EscapedCons(c, ['='] + u);
    assert [c, '='] + u == [c] + (['='] + u);
  }
}
