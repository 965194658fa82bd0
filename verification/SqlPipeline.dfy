/** From a query template to the statement the database gets: new_query at compile time and cld_make_SQL at
    run time together. */
module SqlPipeline {
  import opened CStrings
  import opened QueryTree
  import opened QueryExpand
  import opened QueryMeaning
  import SqlFill
  import SqlLexer

  /** The expanded template with the quoted bodies in the places of its parameters. */
  function Rendered(ls: seq<Node>, bodies: seq<string>): string {
    if ls == [] then ""
    else if ls[0].Plain? then ls[0].t + Rendered(ls[1..], bodies)
    else if ls[0].Param? && bodies != [] then "'" + (bodies[0] + ("'" + Rendered(ls[1..], bodies[1..])))
    else Rendered(ls[1..], bodies)
  }

  lemma {:induction false} FillLeaves(lead: string, ls: seq<Node>, bodies: seq<string>)
    requires Flat(ls) && Count(lead + Sql(ls), "%s") == |Params(ls)| == |bodies|
    ensures SqlFill.Fill(lead + Sql(ls), bodies) == lead + Rendered(ls, bodies)
    decreases |ls|
  {
    hide IndexOf, Count, Sql, Params, Print;
    LeafFirst(ls);
    if ls != [] && ls[0].Plain? {
      Assoc(lead, ls[0].t, Sql(ls[1..]));
      Assoc(lead, ls[0].t, Rendered(ls[1..], bodies));
      FillLeaves(lead + ls[0].t, ls[1..], bodies);
    } else if ls != [] {
      var u, rest := Sql(ls[1..]), ls[1..];
      HoleCount(lead, u);
      CountAtLeast("", rest);
      assert "" + u == u && "" + Rendered(rest, bodies[1..]) == Rendered(rest, bodies[1..]);
      FillLeaves("", rest, bodies[1..]);
      FillHole(lead, u, bodies);
    }
  }

  lemma FillHole(lead: string, u: string, bodies: seq<string>)
    requires Count(lead, "%s") == 0 && bodies != []
    ensures SqlFill.Fill(lead + (HOLE + u), bodies) ==
            lead + ("'" + (bodies[0] + ("'" + SqlFill.Fill(u, bodies[1..]))))
  {
    hide IndexOf, Count;
    var s := lead + (HOLE + u);
    FirstPercent(lead, u);
    SqlFill.FillSkip(u, bodies[1..]);
    assert s[..|lead| + 1] == lead + "'" && s[|lead| + 3..] == "'" + u;
    var tail := SqlFill.Fill(u, bodies[1..]);
    assert (lead + "'") + bodies[0] + ("'" + tail) == lead + ("'" + (bodies[0] + ("'" + tail)));
  }

  lemma FirstPercent(lead: string, u: string)
    requires Count(lead, "%s") == 0
    ensures IndexOf(lead + (HOLE + u), "%s") == |lead| + 1
  {
    hide IndexOf, Count;
    var s := lead + (HOLE + u);
    SqlFill.IndexPercent(s);
    SqlFill.IndexPercent(lead);
    CountOnce(lead, "%s");
    assert SqlFill.Percent(s, |lead| + 1);
    assert forall k :: 0 <= k < |lead| ==> (SqlFill.Percent(s, k) <==> SqlFill.Percent(lead, k));
  }

  /** The whole pipeline.  The statement built at run time from a compiled template is the template with
      fragments put in, shard tags dropped, and the i-th parameter's place taken by the quoted, escaped i-th
      argument; and when the placeholders are whole literals, the database reads the i-th argument there. */
  lemma PipelineMeaning(tree: seq<Node>, ss: seq<ShardDef>, fs: seq<FragmentDef>, destSize: int,
                        vals: seq<string>, trim: bool)
    requires IndexOf(Print(tree), OPEN) >= 0 && Compiled(tree, ss, fs).Some?
    requires SqlFill.Accepted(Compiled(tree, ss, fs).value.sql, destSize, vals, trim)
    ensures var sql := Compiled(tree, ss, fs).value.sql;
            var segs := SqlFill.Segments(sql);
            var statement := SqlLexer.Weave(segs, SqlFill.Bodies(vals, trim));
            && |vals| == |Compiled(tree, ss, fs).value.inputs|
            && statement == Rendered(Leaves(tree), SqlFill.Bodies(vals, trim))
            && (SqlLexer.Whole(segs) ==>
                  SqlLexer.Lex(statement) == SqlLexer.TokenWeave(segs, SqlFill.Meant(vals, trim)))
  {
    hide IndexOf, Count, Print, Sql, Params, Leaves, Compiled, SqlLexer.Lex, SqlLexer.Whole, SqlFill.Bodies,
         SqlFill.Segments, SqlLexer.Weave, SqlFill.Fill, Rendered;
    CompiledMeaning(tree, ss, fs);
    InputCount(Params(tree));
    LeavesMeaning(tree);
    var bodies, ls := SqlFill.Bodies(vals, trim), Leaves(tree);
    assert "" + Sql(ls) == Sql(ls) && "" + Rendered(ls, bodies) == Rendered(ls, bodies);
    FillLeaves("", ls, bodies);
    SqlFill.FillIsWeave(Sql(tree), bodies);
    if SqlLexer.Whole(SqlFill.Segments(Sql(tree))) {
      SqlFill.FilledMeaning(Sql(tree), destSize, vals, trim);
    }
  }

  lemma {:induction false} InputCount(ps: seq<string>)
    ensures |DeEscaped(ps)| == |ps|
  {
    hide ReplaceAll;
    if ps != [] { InputCount(ps[..|ps| - 1]); }
  }
}
