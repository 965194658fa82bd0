/** What cld_get_input makes of a URL, told without its parser: every way of writing fields down is read back as the
    fields, and the first thing that is wrong with any other URL is reported. */
module FormReading {
  import opened CStrings
  import opened FormInput
  import opened FormOverrun

  // ----- Ways of writing a character

  const LOWER := "0123456789abcdef"
  const UPPER := "0123456789ABCDEF"

  predicate Digit(c: char, v: int) {
    0 <= v < 16 && (c == LOWER[v] || c == UPPER[v])
  }

  lemma DigitValue(c: char, v: int)
    requires Digit(c, v)
    ensures IsHex(c) && FromHex(c) == v
  {
  }

  /** A character stands for itself unless it has a meaning in URLs, a plus sign for a space, and a percent sign with
      two hex digits, in upper or lower case, for the character of that code. */
  ghost predicate Spells(e: string, c: char) {
    || (e == [c] && c !in "%&=+")
    || (e == "+" && c == ' ')
    || (|e| == 3 && e[0] == '%' && exists v, w :: Digit(e[1], v) && Digit(e[2], w) && c as int == 16 * v + w)
  }

  ghost predicate SpellsAll(es: seq<string>, t: string) {
    |es| == |t| && forall k :: 0 <= k < |t| ==> Spells(es[k], t[k])
  }

  function Joined(es: seq<string>): string {
    if es == [] then "" else es[0] + Joined(es[1..])
  }

  lemma PlusIsSpace(u: string)
    requires WellEscaped(u)
    ensures WellEscaped("+" + u) && forall had :: Flatten("+" + u, had) == Prepend(' ', 0, Flatten(u, had))
  {
    var t := "+" + u;
    assert forall k :: 1 <= k < |t| ==> t[k] == u[k - 1];
    assert WellEscaped(t) && t[1..] == u;
    assert Dropped(t, 1) == u;
  }

  lemma FlattenOne(e: string, c: char, u: string, had: bool)
    requires Spells(e, c) && WellEscaped(u)
    ensures WellEscaped(e + u) && Flatten(e + u, had) == Prepend(c, 0, Flatten(u, had))
  {
    hide WellEscaped, Flatten, IsHex, FromHex, Digit;
    if e == [c] && c !in "%&=+" {
      EscapedCons(c, u);
    } else if e == "+" && c == ' ' {
      PlusIsSpace(u);
    } else {
      var v, w :| Digit(e[1], v) && Digit(e[2], w) && c as int == 16 * v + w;
      DigitValue(e[1], v);
      DigitValue(e[2], w);
      EscapedHex(e[1], e[2], u);
      assert e == ['%', e[1], e[2]];
    }
  }

  /** However a text is written, it flattens to the text. */
  lemma {:induction false} FlattenSpelled(es: seq<string>, t: string, u: string, had: bool)
    requires SpellsAll(es, t) && WellEscaped(u)
    ensures WellEscaped(Joined(es) + u) && Flatten(Joined(es) + u, had) == Sofar(t, 0, Flatten(u, had))
  {
    hide Flatten, WellEscaped, Spells;
    if t == "" {
      assert Joined(es) + u == u;
    } else {
      FlattenSpelled(es[1..], t[1..], u, had);
      FlattenOne(es[0], t[0], Joined(es[1..]) + u, had);
      assert Joined(es) + u == es[0] + (Joined(es[1..]) + u);
      SofarSplit(t, Flatten(u, had));
    }
  }

  // ----- Whole URLs

  /** A field as it is written. */
  datatype Field = Field(name: seq<string>, value: seq<string>)

  ghost predicate SpellsFields(fs: seq<Field>, ps: seq<Param>) {
    |fs| == |ps| && forall k :: 0 <= k < |ps| ==> SpellsAll(fs[k].name, ps[k].name) && SpellsAll(fs[k].value, ps[k].value)
  }

  /** name=value&name=value... */
  function Query(fs: seq<Field>): string
    requires fs != []
  {
    Joined(fs[0].name) + ("=" + (Joined(fs[0].value) + (if |fs| == 1 then "" else "&" + Query(fs[1..]))))
  }

  lemma {:induction false} FlattenQuery(fs: seq<Field>, ps: seq<Param>)
    requires ps != [] && SpellsFields(fs, ps)
    ensures WellEscaped(Query(fs)) && Flatten(Query(fs), false) == Flat(FormInput.Chunks(ps), |ps|)
  {
    hide Flatten, WellEscaped, SpellsAll, Sofar, FormInput.Chunks, ChunksRest;
    var rest := if |fs| == 1 then "" else "&" + Query(fs[1..]);
    FlattenEmpty();
    if |fs| > 1 {
      FlattenQuery(fs[1..], ps[1..]);
      EscapedCons('&', Query(fs[1..]));
    }
    RestChunks(ps);
    var v := Joined(fs[0].value) + rest;
    FlattenSpelled(fs[0].value, ps[0].value, rest, true);
    EscapedCons('=', v);
    FlattenSpelled(fs[0].name, ps[0].name, "=" + v, false);
    FieldChunks(ps[0].name, ps[0].value, ChunksRest(ps), |ps| - 1);
  }

  lemma RestChunks(ps: seq<Param>)
    requires ps != []
    ensures ChunksRest(ps) == if |ps| == 1 then [] else [NUL] + FormInput.Chunks(ps[1..])
    ensures FormInput.Chunks(ps) == ps[0].name + [NUL] + ps[0].value + ChunksRest(ps)
  {
  }

  /** Valid fields, written down in any way, are read back: the names in order, with the trimmed values. */
  lemma EverySpellingIsRead(fs: seq<Field>, ps: seq<Param>, noDuplicates: bool)
    requires ps != [] && SpellsFields(fs, ps) && ValidParams(ps)
    requires noDuplicates ==> Distinct([], ps)
    ensures WellEscaped(Query(fs)) && Parse(Query(fs), noDuplicates) == Ok(Trimmed(ps))
  {
    hide Flatten, WellEscaped, Split, SpellsFields, ValidParams, Distinct;
    FlattenQuery(fs, ps);
    var z := FormInput.Chunks(ps) + [NUL, NUL];
    assert z[0..] == z;
    SplitChunks(z, 0, ps, [], noDuplicates);
    assert [] + Trimmed(ps) == Trimmed(ps);
  }

  // ----- An ampersand without a value

  /** The ampersand at `k` has no `=` before it, back to the one before; `had`: one came before the text. */
  predicate Lone(s: string, k: nat, had: bool) {
    && k < |s| && s[k] == '&'
    && (forall j :: 0 <= j < k && s[j] == '=' ==> '&' in s[j..k])
    && (had ==> '&' in s[..k])
  }

  /** A URL is refused because of an ampersand without a value exactly when it has one. */
  lemma {:induction false} LoneIff(s: string, had: bool)
    requires WellEscaped(s)
    ensures Flatten(s, had).Bad? <==> exists k :: Lone(s, k, had)
    decreases |s|
  {
    hide WellEscaped, FromHexPair, Lone;
    if s == "" {
      NoneLone(s, had);
    } else if s[0] == '%' {
      PercentCounts(s);
      var a, b := s[1..], s[2..];
      assert a[0] == s[1] && b[0] == s[2] && a[1..] == b && b[1..] == s[3..];
      LoneIff(Dropped(s, 3), had);
      LoneNext(s, had, had);
      LoneNext(a, had, had);
      LoneNext(b, had, had);
    } else if s[0] == '&' {
      LoneNext(s, had, false);
      LoneIff(Dropped(s, 1), false);
    } else if s[0] == '=' {
      LoneNext(s, had, true);
      LoneIff(Dropped(s, 1), true);
    } else {
      LoneNext(s, had, had);
      LoneIff(Dropped(s, 1), had);
    }
  }

  lemma NoneLone(s: string, had: bool)
    requires s == ""
    ensures !exists k :: Lone(s, k, had)
  {
  }

  lemma LoneFirst(s: string, had: bool)
    requires s != ""
    ensures Lone(s, 0, had) <==> s[0] == '&' && !had
  {
  }

  /** Whether an ampersand behind the first character is alone can be told from what is behind it. */
  lemma LoneNext(s: string, had: bool, now: bool)
    requires s != "" && (now <==> s[0] == '=' || (had && s[0] != '&'))
    ensures (exists k: nat :: Lone(s, k, had)) <==> (s[0] == '&' && !had) || exists k: nat :: Lone(s[1..], k, now)
  {
    hide Lone;
    LoneFirst(s, had);
    forall k: nat ensures Lone(s[1..], k, now) <==> Lone(s, k + 1, had) {
      LoneShift(s, k, had, now);
    }
    if exists k: nat :: Lone(s, k, had) {
      var k: nat :| Lone(s, k, had);
      if k > 0 { assert Lone(s[1..], k - 1, now); }
    }
    if exists k: nat :: Lone(s[1..], k, now) {
      var k: nat :| Lone(s[1..], k, now);
      assert Lone(s, k + 1, had);
    }
  }

  lemma LoneShift(s: string, k: nat, had: bool, now: bool)
    requires s != "" && (now <==> s[0] == '=' || (had && s[0] != '&'))
    ensures Lone(s[1..], k, now) <==> Lone(s, k + 1, had)
  {
    var t := s[1..];
    if k < |t| {
      assert t[k] == s[k + 1];
      assert s[0..k + 1] == [s[0]] + t[..k] == s[..k + 1];
      forall j | 0 <= j < k ensures t[j] == s[j + 1] && t[j..k] == s[j + 1..k + 1] {}
      assert forall j :: 1 <= j < k + 1 ==> s[j] == t[j - 1] && s[j..k + 1] == t[j - 1..k];
    }
  }

  // ----- The first error

  /** The parameters of the first `n` pairs of chunks. */
  function Pairs(fields: seq<string>, n: nat): (ps: seq<Param>)
    requires 2 * n <= |fields|
    ensures |ps| == n
  {
    seq(n, i requires 0 <= i < n => Param(fields[2 * i], Trim(fields[2 * i + 1])))
  }

  /** When the first `n` names are valid, and different where that is checked, the parameters are the pairs of chunks;
      and otherwise the first name that is not decides the error. */
  lemma {:induction false} SplitIs(z: seq<char>, j: nat, n: nat, seen: seq<Param>, noDuplicates: bool)
    requires Terminated(z) && j <= |z|
    ensures var fs, r := Fields(z, j), Split(z, j, n, seen, noDuplicates);
            && (2 * n <= |fs| && (forall i :: 0 <= i < n ==> UsableAt(seen, Names(fs), i, noDuplicates)) ==>
                  r == Ok(seen + Pairs(fs, n)))
            && (forall m :: 0 <= m < n && m < |Names(fs)| && !UsableAt(seen, Names(fs), m, noDuplicates)
                            && (forall i :: 0 <= i < m ==> UsableAt(seen, Names(fs), i, noDuplicates)) ==>
                  r == Err(if ValidName(Names(fs)[m]) then Duplicate else InvalidName))
    decreases n
  {
    hide Chunk, Trim, ValidName, Named, Split, Fields, UsableAt;
    var fs := Fields(z, j);
    if n == 0 {
      SplitDone(z, j, seen, noDuplicates);
      assert seen + Pairs(fs, 0) == seen;
    } else if j == |z| {
      NoFields(z, seen, noDuplicates);
    } else {
      SplitStep(z, j, n, seen, noDuplicates);
      FieldsEnd(z, j);
      var name := Chunk(z, j);
      var k: nat := j + |name| + 1;
      assert Names(fs)[0] == name;
      NameFirst(seen, Names(fs), noDuplicates);
      if UsableAt(seen, Names(fs), 0, noDuplicates) {
        FieldsEnd(z, k);
        var value := Chunk(z, k);
        var l := k + |value| + 1;
        var rest := Fields(z, l);
        assert fs == [name] + ([value] + rest) && fs[2..] == rest;
        assert Names(fs) == [name] + Names(rest);
        SplitIs(z, l, n - 1, seen + [Param(name, Trim(value))], noDuplicates);
        NamesBehind(seen, name, Trim(value), Names(rest), n, noDuplicates);
        if 2 * n <= |fs| { PairsFirst(fs, n); }
        if 2 * (n - 1) <= |rest| { Grouped(seen, [Param(name, Trim(value))], Pairs(rest, n - 1)); }
      }
    }
  }

  lemma NameFirst(seen: seq<Param>, names: seq<string>, noDuplicates: bool)
    requires names != []
    ensures UsableAt(seen, names, 0, noDuplicates) <==> ValidName(names[0]) && (noDuplicates ==> !Named(seen, names[0]))
  {
  }

  lemma NamesBehind(seen: seq<Param>, name: string, value: string, rest: seq<string>, n: nat, noDuplicates: bool)
    ensures forall i :: 0 <= i < |rest| ==>
              (UsableAt(seen + [Param(name, value)], rest, i, noDuplicates) <==> UsableAt(seen, [name] + rest, i + 1, noDuplicates))
  {
    hide UsableAt;
    forall i | 0 <= i < |rest|
      ensures UsableAt(seen + [Param(name, value)], rest, i, noDuplicates) <==> UsableAt(seen, [name] + rest, i + 1, noDuplicates)
    {
      UsableFrom(seen, name, value, rest, i, noDuplicates);
    }
  }

  lemma PairsFirst(fs: seq<string>, n: nat)
    requires 0 < 2 * n <= |fs|
    ensures Pairs(fs, n) == [Param(fs[0], Trim(fs[1]))] + Pairs(fs[2..], n - 1)
  {
    hide Trim;
  }

  lemma Grouped(a: seq<Param>, b: seq<Param>, c: seq<Param>)
    ensures a + b + c == a + (b + c)
  {
  }
}
