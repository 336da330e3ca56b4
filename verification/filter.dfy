/** The filter expressions of catalogue records: a small evaluator that fails closed. */
module Filters {
  import opened Options
  import opened Text

  datatype FilterEnv = FilterEnv(channel: string, os: string)

  // ----- String operations

  /** Splitting at two adjacent occurrences of `c`, leftmost first. */
  function SplitPairs(c: char, text: string): (parts: seq<string>)
    ensures |parts| > 0
  {
    if |text| == 0 then [""]
    else if |text| >= 2 && text[0] == c && text[1] == c then [""] + SplitPairs(c, text[2..])
    else
      var rest := SplitPairs(c, text[1..]);
      [[text[0]] + rest[0]] + rest[1..]
  }

  predicate AllSpaces(s: string) {
    forall i :: 0 <= i < |s| ==> IsSpace(s[i])
  }

  function TrimStart(s: string): (r: string)
    ensures |r| <= |s|
  {
    if |s| > 0 && IsSpace(s[0]) then TrimStart(s[1..]) else s
  }

  function TrimEnd(s: string): (r: string)
    ensures |r| <= |s|
  {
    if |s| > 0 && IsSpace(s[|s| - 1]) then TrimEnd(s[..|s| - 1]) else s
  }

  function Trim(s: string): string {
    TrimEnd(TrimStart(s))
  }

  function StripPrefix(s: string, prefix: string): Option<string> {
    if prefix <= s then Some(s[|prefix|..]) else None
  }

  // ----- Evaluation

  function FieldOf(term: string, env: FilterEnv): Option<(string, string)> {
    if StripPrefix(term, "env.channel").Some? then Some((env.channel, StripPrefix(term, "env.channel").value))
    else if StripPrefix(term, "env.appinfo.OS").Some? then Some((env.os, StripPrefix(term, "env.appinfo.OS").value))
    else None
  }

  /** The text between single quotes. */
  function Literal(s: string): Option<string> {
    if |s| >= 2 && s[0] == '\'' && s[|s| - 1] == '\'' && '\'' !in s[1..|s| - 1] then Some(s[1..|s| - 1]) else None
  }

  function Compare(field: string, rest: string): Option<bool> {
    if StripPrefix(rest, "==").Some? then
      match Literal(Trim(rest[2..]))
      case Some(literal) => Some(field == literal)
      case None => None
    else if StripPrefix(rest, "!=").Some? then
      match Literal(Trim(rest[2..]))
      case Some(literal) => Some(field != literal)
      case None => None
    else
      None
  }

  function EvalTerm(term: string, env: FilterEnv): Option<bool> {
    match FieldOf(term, env)
    case None => None
    case Some((field, rest)) => Compare(field, TrimStart(rest))
  }

  function ReadTerms(terms: seq<string>, env: FilterEnv): (r: seq<Option<bool>>)
    ensures |r| == |terms|
  {
    if |terms| == 0 then []
    else
      var last := |terms| - 1;
      ReadTerms(terms[..last], env) + [EvalTerm(Trim(terms[last]), env)]
  }

  /** The values of the terms of a clause, None where a term is not understood. */
  function TermValues(clause: string, env: FilterEnv): (r: seq<Option<bool>>)
    ensures |r| == |SplitPairs('&', clause)|
  {
    ReadTerms(SplitPairs('&', clause), env)
  }

  lemma {:induction false} TermAt(terms: seq<string>, env: FilterEnv, i: nat)
    requires i < |terms|
    ensures ReadTerms(terms, env)[i] == EvalTerm(Trim(terms[i]), env)
  {
    if i < |terms| - 1 {
      TermAt(terms[..|terms| - 1], env, i);
    }
  }

  function ReadClauses(clauses: seq<string>, env: FilterEnv): (r: seq<seq<Option<bool>>>)
    ensures |r| == |clauses|
  {
    if |clauses| == 0 then []
    else
      var last := |clauses| - 1;
      ReadClauses(clauses[..last], env) + [TermValues(clauses[last], env)]
  }

  /** The same for every clause of the expression. */
  function ValueTable(text: string, env: FilterEnv): (r: seq<seq<Option<bool>>>)
    ensures |r| == |SplitPairs('|', text)|
  {
    ReadClauses(SplitPairs('|', text), env)
  }

  lemma {:induction false} ClauseAt(clauses: seq<string>, env: FilterEnv, i: nat)
    requires i < |clauses|
    ensures ReadClauses(clauses, env)[i] == TermValues(clauses[i], env)
  {
    if i < |clauses| - 1 {
      ClauseAt(clauses[..|clauses| - 1], env, i);
    }
  }

  /** Terms joined by and: once a term is false the rest is not looked at. */
  function And(values: seq<Option<bool>>): Option<bool> {
    if |values| == 0 then Some(true)
    else
      var before := And(values[..|values| - 1]);
      if before == Some(true) then values[|values| - 1] else before
  }

  /** Clauses joined by or: every clause is looked at. */
  function Or(table: seq<seq<Option<bool>>>): Option<bool> {
    if |table| == 0 then Some(false)
    else
      var before, last := Or(table[..|table| - 1]), And(table[|table| - 1]);
      if before.None? || last.None? then None else Some(before.value || last.value)
  }

  function Matches(expression: string, env: FilterEnv): Option<bool> {
    if |Trim(expression)| == 0 then Some(true) else Or(ValueTable(Trim(expression), env))
  }

  lemma AndSnoc(values: seq<Option<bool>>, value: Option<bool>)
    ensures And(values + [value]) == if And(values) == Some(true) then value else And(values)
  {
    assert (values + [value])[..|values|] == values;
  }

  lemma AndNext(values: seq<Option<bool>>, j: nat)
    requires j < |values|
    ensures And(values[..j + 1]) == if And(values[..j]) == Some(true) then values[j] else And(values[..j])
  {
    AndSnoc(values[..j], values[j]);
    assert values[..j + 1] == values[..j] + [values[j]];
  }

  lemma OrSnoc(table: seq<seq<Option<bool>>>, row: seq<Option<bool>>)
    ensures Or(table + [row]) ==
      if Or(table).None? || And(row).None? then None else Some(Or(table).value || And(row).value)
  {
    assert (table + [row])[..|table|] == table;
  }

  lemma OrNext(table: seq<seq<Option<bool>>>, i: nat)
    requires i < |table|
    ensures Or(table[..i + 1]) ==
      if Or(table[..i]).None? || And(table[i]).None? then None else Some(Or(table[..i]).value || And(table[i]).value)
  {
    OrSnoc(table[..i], table[i]);
    assert table[..i + 1] == table[..i] + [table[i]];
  }

  /** A term or clause that is not understood is not made up for later. */
  lemma {:induction false} AndStaysNone(values: seq<Option<bool>>, n: nat)
    requires n <= |values| && And(values[..n]).None?
    ensures And(values).None?
    decreases |values|
  {
    if n < |values| {
      assert values[..|values| - 1][..n] == values[..n];
      AndStaysNone(values[..|values| - 1], n);
    } else {
      assert values[..n] == values;
    }
  }

  lemma {:induction false} OrStaysNone(table: seq<seq<Option<bool>>>, n: nat)
    requires n <= |table| && Or(table[..n]).None?
    ensures Or(table).None?
    decreases |table|
  {
    if n < |table| {
      assert table[..|table| - 1][..n] == table[..n];
      OrStaysNone(table[..|table| - 1], n);
    } else {
      assert table[..n] == table;
    }
  }

  /** One clause: the inner loop, which gives up at the first term it looks at and does not understand. */
  method ClauseMatches(clause: string, env: FilterEnv) returns (result: Option<bool>)
    ensures result == And(TermValues(clause, env))
  {
    var terms := SplitPairs('&', clause);
    ghost var values := TermValues(clause, env);
    var allTerms := true;
    for j := 0 to |terms|
      invariant And(values[..j]) == Some(allTerms)
    {
      AndNext(values, j);
      if allTerms {
        TermAt(terms, env, j);
        var value := EvalTerm(Trim(terms[j]), env);
        assert value == values[j];
        if value.None? {
          AndStaysNone(values, j + 1);
          return None;
        }
        allTerms := value.value;
      }
    }
    assert values[..|terms|] == values;
    return Some(allTerms);
  }

  /** The outer loop over the clauses. */
  method ClausesMatch(text: string, env: FilterEnv) returns (result: Option<bool>)
    ensures result == Or(ValueTable(text, env))
  {
    var anyClause := false;
    var clauses := SplitPairs('|', text);
    ghost var table := ValueTable(text, env);
    for i := 0 to |clauses|
      invariant Or(table[..i]) == Some(anyClause)
    {
      OrNext(table, i);
      ClauseAt(clauses, env, i);
      var allTerms := ClauseMatches(clauses[i], env);
      if allTerms.None? {
        OrStaysNone(table, i + 1);
        return None;
      }
      anyClause := anyClause || allTerms.value;
    }
    assert table[..|clauses|] == table;
    return Some(anyClause);
  }

  /** `filter_matches`; None means the record is to be skipped. */
  method FilterMatches(expression: Option<string>, env: FilterEnv) returns (result: Option<bool>)
    ensures result == Matches(if expression.Some? then expression.value else "", env)
  {
    var text := if expression.Some? then expression.value else "";
    if |Trim(text)| == 0 {
      return Some(true);
    }
    result := ClausesMatch(Trim(text), env);
  }

  // ----- Failing closed

  /** A reading gives every term a value, and those that are understood their own. */
  predicate Reads(values: seq<Option<bool>>, reading: seq<bool>) {
    |reading| == |values| && forall i :: 0 <= i < |values| ==> values[i].Some? ==> reading[i] == values[i].value
  }

  predicate ReadsTable(table: seq<seq<Option<bool>>>, reading: seq<seq<bool>>) {
    |reading| == |table| && forall i :: 0 <= i < |table| ==> Reads(table[i], reading[i])
  }

  predicate AllTrue(values: seq<bool>) {
    forall i :: 0 <= i < |values| ==> values[i]
  }

  /** What the expression comes to in a reading: some clause has only true terms. */
  predicate Holds(reading: seq<seq<bool>>) {
    exists i :: 0 <= i < |reading| && AllTrue(reading[i])
  }

  lemma {:induction false} AndSound(values: seq<Option<bool>>, reading: seq<bool>)
    requires And(values).Some? && Reads(values, reading)
    ensures And(values).value == AllTrue(reading)
  {
    if |values| > 0 {
      var last := |values| - 1;
      AndSound(values[..last], reading[..last]);
      assert reading == reading[..last] + [reading[last]];
    }
  }

  lemma {:induction false} OrSound(table: seq<seq<Option<bool>>>, reading: seq<seq<bool>>)
    requires Or(table).Some? && ReadsTable(table, reading)
    ensures Or(table).value == Holds(reading)
  {
    if |table| > 0 {
      var last := |table| - 1;
      OrSound(table[..last], reading[..last]);
      AndSound(table[last], reading[last]);
      assert reading == reading[..last] + [reading[last]];
    }
  }

  /** An answer is right however the terms that were not understood are meant. */
  lemma AnswerIsSafe(expression: string, env: FilterEnv, table: seq<seq<Option<bool>>>,
                     reading: seq<seq<bool>>)
    requires |Trim(expression)| > 0 && table == ValueTable(Trim(expression), env)
    requires Matches(expression, env).Some? && ReadsTable(table, reading)
    ensures Matches(expression, env).value == Holds(reading)
  {
    OrSound(table, reading);
  }

  /** The term at `k` is looked at and not understood. */
  predicate StopsAt(values: seq<Option<bool>>, k: nat) {
    k < |values| && values[k].None? && forall i :: 0 <= i < k ==> values[i] == Some(true)
  }

  lemma {:induction false} AndNoneIff(values: seq<Option<bool>>)
    ensures And(values).None? <==> exists k: nat :: StopsAt(values, k)
    ensures And(values) == Some(true) <==> forall i :: 0 <= i < |values| ==> values[i] == Some(true)
  {
    if |values| > 0 {
      var last := |values| - 1;
      var before := values[..last];
      AndNoneIff(before);
      assert forall i :: 0 <= i < last ==> before[i] == values[i];
      if k: nat :| StopsAt(before, k) {
        assert StopsAt(values, k);
      } else if And(before) == Some(true) && values[last].None? {
        assert StopsAt(values, last);
      }
      assert forall k: nat :: StopsAt(values, k) ==> k == last || StopsAt(before, k);
    }
  }

  lemma {:induction false} OrNoneIff(table: seq<seq<Option<bool>>>)
    ensures Or(table).None? <==> exists i :: 0 <= i < |table| && And(table[i]).None?
  {
    if |table| > 0 {
      var before := table[..|table| - 1];
      OrNoneIff(before);
      assert forall i :: 0 <= i < |before| ==> before[i] == table[i];
    }
  }

  /**
    An expression is refused exactly when some clause has a term that is not understood and
    that comes after true terms only; a false term hides what follows it in its clause.
   */
  lemma RefusedIff(expression: string, env: FilterEnv)
    requires |Trim(expression)| > 0
    ensures Matches(expression, env).None? <==>
      exists i: nat, k: nat :: i < |ValueTable(Trim(expression), env)| && StopsAt(ValueTable(Trim(expression), env)[i], k)
  {
    var table := ValueTable(Trim(expression), env);
    OrNoneIff(table);
    forall i | 0 <= i < |table|
      ensures And(table[i]).None? <==> exists k: nat :: StopsAt(table[i], k)
    {
      AndNoneIff(table[i]);
    }
  }

  // ----- Failing closed is not complete

  /** The value of the expression does not depend on how the terms that were not understood are meant. */
  ghost predicate Settled(table: seq<seq<Option<bool>>>) {
    forall r, r' :: ReadsTable(table, r) && ReadsTable(table, r') ==> Holds(r) == Holds(r')
  }

  predicate TrueRow(values: seq<Option<bool>>) {
    forall i :: 0 <= i < |values| ==> values[i] == Some(true)
  }

  predicate FalseRow(values: seq<Option<bool>>) {
    Some(false) in values
  }

  /** The reading that gives all terms that were not understood the same value. */
  function Uniform(values: seq<Option<bool>>, unknown: bool): (r: seq<bool>)
    ensures Reads(values, r)
  {
    seq(|values|, i requires 0 <= i < |values| => if values[i].Some? then values[i].value else unknown)
  }

  function UniformTable(table: seq<seq<Option<bool>>>, unknown: bool): (r: seq<seq<bool>>)
    ensures ReadsTable(table, r)
    ensures forall i :: 0 <= i < |table| ==> r[i] == Uniform(table[i], unknown)
  {
    seq(|table|, i requires 0 <= i < |table| => Uniform(table[i], unknown))
  }

  lemma UniformHolds(table: seq<seq<Option<bool>>>)
    ensures Holds(UniformTable(table, false)) <==> exists i :: 0 <= i < |table| && TrueRow(table[i])
    ensures Holds(UniformTable(table, true)) <==> exists i :: 0 <= i < |table| && !FalseRow(table[i])
  {
    forall i | 0 <= i < |table|
      ensures AllTrue(Uniform(table[i], false)) <==> TrueRow(table[i])
      ensures AllTrue(Uniform(table[i], true)) <==> !FalseRow(table[i])
    {
      var low, high := Uniform(table[i], false), Uniform(table[i], true);
      assert forall j :: 0 <= j < |table[i]| ==> (low[j] <==> table[i][j] == Some(true));
      assert forall j :: 0 <= j < |table[i]| ==> (high[j] <==> table[i][j] != Some(false));
    }
    var low, high := UniformTable(table, false), UniformTable(table, true);
    assert forall i :: 0 <= i < |table| ==> (AllTrue(low[i]) <==> TrueRow(table[i]));
    assert forall i :: 0 <= i < |table| ==> (AllTrue(high[i]) <==> !FalseRow(table[i]));
  }

  /** A clause that holds, or a false term in every clause, is what settles an expression; nothing else does. */
  lemma SettledIff(table: seq<seq<Option<bool>>>)
    ensures Settled(table) <==>
      (exists i :: 0 <= i < |table| && TrueRow(table[i])) || (forall i :: 0 <= i < |table| ==> FalseRow(table[i]))
  {
    UniformHolds(table);
    if i :| 0 <= i < |table| && TrueRow(table[i]) {
      forall r | ReadsTable(table, r)
        ensures Holds(r)
      {
        assert AllTrue(r[i]);
      }
    } else if forall i :: 0 <= i < |table| ==> FalseRow(table[i]) {
      forall r | ReadsTable(table, r)
        ensures !Holds(r)
      {
        forall i | 0 <= i < |r|
          ensures !AllTrue(r[i])
        {
          assert FalseRow(table[i]);
          var j :| 0 <= j < |table[i]| && table[i][j] == Some(false);
          assert !r[i][j];
        }
      }
    } else {
      assert Holds(UniformTable(table, true)) && !Holds(UniformTable(table, false));
    }
  }

  /** Some clause has a term that is looked at and not understood, and yet the terms understood settle the value. */
  ghost predicate StopsThoughSettled(table: seq<seq<Option<bool>>>) {
    && (exists i: nat, k: nat :: i < |table| && StopsAt(table[i], k))
    && ((exists i :: 0 <= i < |table| && TrueRow(table[i])) || (forall i :: 0 <= i < |table| ==> FalseRow(table[i])))
  }

  lemma NoneThoughSettledIff(table: seq<seq<Option<bool>>>)
    ensures Or(table).None? && Settled(table) <==> StopsThoughSettled(table)
  {
    OrNoneIff(table);
    forall i | 0 <= i < |table|
      ensures And(table[i]).None? <==> exists k: nat :: StopsAt(table[i], k)
    {
      AndNoneIff(table[i]);
    }
    SettledIff(table);
  }

  /** The expressions that are refused although every reading gives them the same value, exactly. */
  lemma RefusedThoughSettledIff(expression: string, env: FilterEnv, table: seq<seq<Option<bool>>>)
    requires |Trim(expression)| > 0 && table == ValueTable(Trim(expression), env)
    ensures Matches(expression, env).None? && Settled(table) <==> StopsThoughSettled(table)
  {
    NoneThoughSettledIff(table);
  }

  // ----- Printed expressions

  datatype Field = Channel | Os

  datatype Comparison = Comparison(field: Field, negate: bool, literal: string)

  /** An or of ands of comparisons, none of them empty. */
  type Tree = seq<seq<Comparison>>

  function FieldName(f: Field): string {
    match f
    case Channel => "env.channel"
    case Os => "env.appinfo.OS"
  }

  function PrintTerm(c: Comparison): string {
    FieldName(c.field) + (if c.negate then " != '" else " == '") + c.literal + "'"
  }

  function TermValue(c: Comparison, env: FilterEnv): bool {
    ((if c.field.Channel? then env.channel else env.os) == c.literal) != c.negate
  }

  predicate NoPair(c: char, s: string) {
    forall i :: 0 <= i < |s| - 1 ==> !(s[i] == c && s[i + 1] == c)
  }

  /** A literal that can be written between quotes without being taken apart. */
  predicate Plain(literal: string) {
    '\'' !in literal && NoPair('|', literal) && NoPair('&', literal)
  }

  /** Parts put together with " cc " between them. */
  function Glue(c: char, parts: seq<string>): string {
    if |parts| == 0 then ""
    else if |parts| == 1 then parts[0]
    else parts[0] + [' ', c, c, ' '] + Glue(c, parts[1..])
  }

  function PrintTerms(clause: seq<Comparison>): (r: seq<string>)
    ensures |r| == |clause|
    ensures forall i :: 0 <= i < |r| ==> r[i] == PrintTerm(clause[i])
  {
    seq(|clause|, i requires 0 <= i < |clause| => PrintTerm(clause[i]))
  }

  function PrintClauses(tree: Tree): (r: seq<string>)
    ensures |r| == |tree|
    ensures forall i :: 0 <= i < |r| ==> r[i] == Glue('&', PrintTerms(tree[i]))
  {
    seq(|tree|, i requires 0 <= i < |tree| => Glue('&', PrintTerms(tree[i])))
  }

  function Print(tree: Tree): string {
    Glue('|', PrintClauses(tree))
  }

  predicate ClauseValue(clause: seq<Comparison>, env: FilterEnv) {
    forall j :: 0 <= j < |clause| ==> TermValue(clause[j], env)
  }

  predicate TreeHolds(tree: Tree, env: FilterEnv) {
    exists i :: 0 <= i < |tree| && ClauseValue(tree[i], env)
  }

  // ----- Reading printed expressions back

  lemma {:induction false} SplitPairsPrefix(c: char, part: string, text: string)
    requires NoPair(c, part)
    ensures SplitPairs(c, part) == [part]
    ensures (|part| > 0 ==> part[|part| - 1] != c) ==>
      SplitPairs(c, part + [c, c] + text) == [part] + SplitPairs(c, text)
  {
    var whole := part + [c, c] + text;
    if |part| == 0 {
      assert whole[2..] == text;
    } else {
      SplitPairsPrefix(c, part[1..], text);
      assert [part[0]] + part[1..] == part;
      if part[|part| - 1] != c {
        assert whole[1..] == part[1..] + [c, c] + text;
        assert ([part[1..]] + SplitPairs(c, text))[1..] == SplitPairs(c, text);
        assert !(whole[0] == c && whole[1] == c);
      }
    }
  }

  /** `p` is `core` between spaces. */
  ghost predicate Padded(p: string, core: string) {
    exists n: nat :: PaddedAt(p, core, n)
  }

  predicate PaddedAt(p: string, core: string, n: nat) {
    && n + |core| <= |p|
    && AllSpaces(p[..n]) && p[n..n + |core|] == core && AllSpaces(p[n + |core|..])
  }

  /** Starts and ends with something other than a space. */
  predicate Tight(s: string) {
    |s| > 0 && !IsSpace(s[0]) && !IsSpace(s[|s| - 1])
  }

  lemma {:induction false} TrimStartOf(pad: string, s: string)
    requires AllSpaces(pad) && |s| > 0 && !IsSpace(s[0])
    ensures TrimStart(pad + s) == s
  {
    if |pad| == 0 {
      assert pad + s == s;
    } else {
      var whole := pad + s;
      assert whole[0] == pad[0] && IsSpace(whole[0]);
      assert whole[1..] == pad[1..] + s;
      assert forall i :: 0 <= i < |pad| - 1 ==> pad[1..][i] == pad[i + 1];
      TrimStartOf(pad[1..], s);
    }
  }

  lemma {:induction false} TrimEndOf(s: string, pad: string)
    requires AllSpaces(pad) && |s| > 0 && !IsSpace(s[|s| - 1])
    ensures TrimEnd(s + pad) == s
  {
    if |pad| == 0 {
      assert s + pad == s;
    } else {
      var last := |pad| - 1;
      TrimEndOf(s, pad[..last]);
      assert (s + pad)[..|s + pad| - 1] == s + pad[..last];
    }
  }

  lemma TrimPadded(p: string, core: string)
    requires Padded(p, core) && Tight(core)
    ensures Trim(p) == core
  {
    var n: nat :| PaddedAt(p, core, n);
    var before, after := p[..n], p[n + |core|..];
    assert p == before + (core + after);
    TrimStartOf(before, core + after);
    TrimEndOf(core, after);
  }

  lemma PieceIsPadded(lead: string, part: string, trail: string)
    requires AllSpaces(lead) && AllSpaces(trail)
    ensures Padded(lead + part + trail, part)
  {
    assert PaddedAt(lead + part + trail, part, |lead|);
  }

  lemma OneGlued(c: char, piece: string, lead: string, first: string, trail: string)
    requires !IsSpace(c) && AllSpaces(lead) && AllSpaces(trail) && NoPair(c, first) && piece == lead + first + trail
    ensures SplitPairs(c, piece) == [piece] && Padded(piece, first)
  {
    NoPairPadded(c, lead, first, trail);
    SplitPairsPrefix(c, piece, "");
    PieceIsPadded(lead, first, trail);
  }

  /** The first of several glued parts is split off. */
  lemma FirstGlued(c: char, whole: string, lead: string, first: string, rest: string) returns (piece: string)
    requires !IsSpace(c) && AllSpaces(lead) && NoPair(c, first)
    requires whole == lead + (first + [' ', c, c]) + rest
    ensures SplitPairs(c, whole) == [piece] + SplitPairs(c, rest) && Padded(piece, first)
  {
    piece := lead + first + [' '];
    NoPairPadded(c, lead, first, [' ']);
    SplitPairsPrefix(c, piece, rest);
    assert whole == piece + [c, c] + rest;
    PieceIsPadded(lead, first, [' ']);
  }

  /** Nothing is left of spaces alone; any other text is padded around a tight core. */
  lemma {:induction false} TrimSpaces(s: string)
    requires AllSpaces(s)
    ensures |Trim(s)| == 0
  {
    if |s| > 0 {
      assert AllSpaces(s[1..]) by {
        assert forall i :: 0 <= i < |s| - 1 ==> s[1..][i] == s[i + 1];
      }
      assert IsSpace(s[0]);
      TrimSpaces(s[1..]);
    }
  }

  /** Splitting glued parts, with spaces around the whole, gives the parts with spaces around each. */
  lemma {:induction false} SplitGlued(c: char, lead: string, parts: seq<string>, trail: string)
    requires |parts| > 0 && !IsSpace(c) && AllSpaces(lead) && AllSpaces(trail)
    requires forall i :: 0 <= i < |parts| ==> NoPair(c, parts[i])
    ensures var r := SplitPairs(c, lead + Glue(c, parts) + trail);
      |r| == |parts| && forall i :: 0 <= i < |parts| ==> Padded(r[i], parts[i])
    decreases |parts|
  {
    var first, later := parts[0], parts[1..];
    if |parts| == 1 {
      OneGlued(c, lead + first + trail, lead, first, trail);
    } else {
      var rest := [' '] + Glue(c, later) + trail;
      var whole := lead + Glue(c, parts) + trail;
      assert whole == lead + (first + [' ', c, c]) + rest;
      var piece := FirstGlued(c, whole, lead, first, rest);
      SplitGlued(c, [' '], later, trail);
      forall i | 0 <= i < |parts|
        ensures Padded(SplitPairs(c, whole)[i], parts[i])
      {
        if i > 0 {
          assert SplitPairs(c, whole)[i] == SplitPairs(c, rest)[i - 1] && parts[i] == later[i - 1];
        }
      }
    }
  }

  lemma NoPairPadded(c: char, lead: string, part: string, trail: string)
    requires !IsSpace(c) && AllSpaces(lead) && AllSpaces(trail) && NoPair(c, part)
    ensures NoPair(c, lead + part + trail)
  {
  }

  lemma {:induction false} GlueNoPair(c: char, d: char, parts: seq<string>)
    requires c != d && d != ' ' && forall i :: 0 <= i < |parts| ==> NoPair(d, parts[i])
    ensures NoPair(d, Glue(c, parts))
  {
    if |parts| > 1 {
      GlueNoPair(c, d, parts[1..]);
    }
  }

  lemma {:induction false} GlueTight(c: char, parts: seq<string>)
    requires |parts| > 0 && forall i :: 0 <= i < |parts| ==> Tight(parts[i])
    ensures Tight(Glue(c, parts))
  {
    if |parts| > 1 {
      GlueTight(c, parts[1..]);
    }
  }

  lemma PrintTermTight(c: Comparison)
    ensures Tight(PrintTerm(c))
  {
  }

  lemma PrintTermNoPair(c: Comparison, d: char)
    requires Plain(c.literal) && (d == '|' || d == '&')
    ensures NoPair(d, PrintTerm(c))
  {
    var op := if c.negate then " != '" else " == '";
    NoPairConcat(d, FieldName(c.field), op);
    NoPairConcat(d, FieldName(c.field) + op, c.literal);
    NoPairConcat(d, FieldName(c.field) + op + c.literal, "'");
  }

  lemma NoPairConcat(d: char, a: string, b: string)
    requires NoPair(d, a) && NoPair(d, b) && ((|a| > 0 ==> a[|a| - 1] != d) || (|b| > 0 ==> b[0] != d))
    ensures NoPair(d, a + b)
  {
  }

  lemma LiteralOfQuoted(literal: string)
    requires '\'' !in literal
    ensures Literal(['\''] + literal + ['\'']) == Some(literal)
  {
    var quoted := ['\''] + literal + ['\''];
    assert quoted[1..|quoted| - 1] == literal;
  }

  lemma TrimOneSpace(s: string)
    requires Tight(s)
    ensures Trim([' '] + s) == s
  {
    assert PaddedAt([' '] + s, s, 1);
    TrimPadded([' '] + s, s);
  }

  /** The two operators are told apart. */
  lemma CompareParts(field: string, negate: bool, tail: string)
    ensures var rest := (if negate then "!=" else "==") + tail;
      Compare(field, rest) ==
        match Literal(Trim(tail))
        case Some(literal) => Some((field == literal) != negate)
        case None => None
  {
    var op := if negate then "!=" else "==";
    var rest := op + tail;
    assert rest[2..] == tail && op <= rest;
    assert rest[0] == op[0];
  }

  /** The operator and the quoted literal are read back. */
  lemma ComparePrinted(field: string, negate: bool, literal: string)
    requires '\'' !in literal
    ensures var op := (if negate then "!=" else "==");
      Compare(field, op + ([' '] + (['\''] + literal + ['\'']))) == Some((field == literal) != negate)
  {
    var quoted := ['\''] + literal + ['\''];
    LiteralOfQuoted(literal);
    TrimOneSpace(quoted);
    CompareParts(field, negate, [' '] + quoted);
  }

  /** The two field names are told apart. */
  lemma FieldOfPrinted(f: Field, rest: string, env: FilterEnv)
    ensures FieldOf(FieldName(f) + rest, env) == Some((if f.Channel? then env.channel else env.os, rest))
  {
    var term := FieldName(f) + rest;
    assert FieldName(f) <= term && term[|FieldName(f)|..] == rest;
    assert f.Os? ==> term[4] == 'a' && "env.channel"[4] == 'c';
  }

  /** A printed comparison is read back with its value. */
  lemma EvalPrintedTerm(c: Comparison, env: FilterEnv)
    requires '\'' !in c.literal
    ensures EvalTerm(PrintTerm(c), env) == Some(TermValue(c, env))
  {
    var op := if c.negate then "!=" else "==";
    var rest := op + ([' '] + (['\''] + c.literal + ['\'']));
    assert PrintTerm(c) == FieldName(c.field) + ([' '] + rest);
    FieldOfPrinted(c.field, [' '] + rest, env);
    TrimStartOf([' '], rest);
    ComparePrinted(if c.field.Channel? then env.channel else env.os, c.negate, c.literal);
  }

  /** The terms of a printed clause, with spaces around some of them. */
  lemma ClausePieces(clause: seq<Comparison>, p: string)
    requires |clause| > 0 && forall j :: 0 <= j < |clause| ==> Plain(clause[j].literal)
    requires Padded(p, Glue('&', PrintTerms(clause)))
    ensures |SplitPairs('&', p)| == |clause|
    ensures forall j :: 0 <= j < |clause| ==> Padded(SplitPairs('&', p)[j], PrintTerms(clause)[j])
  {
    var terms := PrintTerms(clause);
    forall j | 0 <= j < |terms|
      ensures NoPair('&', terms[j])
    {
      PrintTermNoPair(clause[j], '&');
    }
    SplitPadded('&', p, terms);
  }

  lemma SplitPadded(c: char, p: string, parts: seq<string>)
    requires |parts| > 0 && !IsSpace(c) && Padded(p, Glue(c, parts))
    requires forall i :: 0 <= i < |parts| ==> NoPair(c, parts[i])
    ensures |SplitPairs(c, p)| == |parts|
    ensures forall i :: 0 <= i < |parts| ==> Padded(SplitPairs(c, p)[i], parts[i])
  {
    var core := Glue(c, parts);
    var n: nat :| PaddedAt(p, core, n);
    var lead, trail := p[..n], p[n + |core|..];
    assert p == lead + core + trail;
    SplitGlued(c, lead, parts, trail);
  }

  /** The values of a printed clause are those of its comparisons, also with spaces around it. */
  lemma PrintedClause(clause: seq<Comparison>, p: string, env: FilterEnv)
    requires |clause| > 0 && forall j :: 0 <= j < |clause| ==> Plain(clause[j].literal)
    requires Padded(p, Glue('&', PrintTerms(clause)))
    ensures |TermValues(p, env)| == |clause|
    ensures forall j :: 0 <= j < |clause| ==> TermValues(p, env)[j] == Some(TermValue(clause[j], env))
  {
    ClausePieces(clause, p);
    forall j | 0 <= j < |clause|
      ensures TermValues(p, env)[j] == Some(TermValue(clause[j], env))
    {
      TermAt(SplitPairs('&', p), env, j);
      PrintedPiece(clause[j], SplitPairs('&', p)[j], env);
    }
  }

  lemma PrintedPiece(c: Comparison, piece: string, env: FilterEnv)
    requires Plain(c.literal) && Padded(piece, PrintTerm(c))
    ensures EvalTerm(Trim(piece), env) == Some(TermValue(c, env))
  {
    PrintTermTight(c);
    TrimPadded(piece, PrintTerm(c));
    EvalPrintedTerm(c, env);
  }

  lemma ClauseShape(clause: seq<Comparison>)
    requires |clause| > 0 && forall j :: 0 <= j < |clause| ==> Plain(clause[j].literal)
    ensures Tight(Glue('&', PrintTerms(clause))) && NoPair('|', Glue('&', PrintTerms(clause)))
  {
    var terms := PrintTerms(clause);
    forall j | 0 <= j < |terms|
      ensures NoPair('|', terms[j]) && Tight(terms[j])
    {
      PrintTermNoPair(clause[j], '|');
      PrintTermTight(clause[j]);
    }
    GlueNoPair('&', '|', terms);
    GlueTight('&', terms);
  }

  predicate PlainTree(tree: Tree) {
    && |tree| > 0
    && forall i :: 0 <= i < |tree| ==>
         |tree[i]| > 0 && forall j :: 0 <= j < |tree[i]| ==> Plain(tree[i][j].literal)
  }

  /** `values` are the values of the comparisons of `clause`. */
  predicate ValuesOf(values: seq<Option<bool>>, clause: seq<Comparison>, env: FilterEnv) {
    |values| == |clause| && forall j :: 0 <= j < |clause| ==> values[j] == Some(TermValue(clause[j], env))
  }

  /** Every clause of a printed tree is tight and free of `||`. */
  lemma ClausesShape(tree: Tree, clauses: seq<string>)
    requires PlainTree(tree) && clauses == PrintClauses(tree)
    ensures forall i :: 0 <= i < |clauses| ==> Tight(clauses[i]) && NoPair('|', clauses[i])
  {
    forall i | 0 <= i < |clauses|
      ensures Tight(clauses[i]) && NoPair('|', clauses[i])
    {
      ClauseShape(tree[i]);
    }
  }

  lemma PrintedShape(tree: Tree)
    requires PlainTree(tree)
    ensures Trim(Print(tree)) == Print(tree) && |Print(tree)| > 0
  {
    var text, clauses := Print(tree), PrintClauses(tree);
    ClausesShape(tree, clauses);
    GlueTight('|', clauses);
    assert PaddedAt(text, text, 0);
    TrimPadded(text, text);
  }

  lemma SplitAlone(c: char, parts: seq<string>, text: string)
    requires |parts| > 0 && !IsSpace(c) && text == Glue(c, parts)
    requires forall i :: 0 <= i < |parts| ==> NoPair(c, parts[i])
    ensures |SplitPairs(c, text)| == |parts|
    ensures forall i :: 0 <= i < |parts| ==> Padded(SplitPairs(c, text)[i], parts[i])
  {
    var none: string := [];
    assert none + text + none == text;
    SplitGlued(c, none, parts, none);
  }

  /** The clauses of a printed tree, with spaces around some of them. */
  lemma PrintedClauses(tree: Tree) returns (pieces: seq<string>)
    requires PlainTree(tree)
    ensures pieces == SplitPairs('|', Print(tree)) && |pieces| == |tree|
    ensures forall i :: 0 <= i < |tree| ==> Padded(pieces[i], PrintClauses(tree)[i])
  {
    var clauses := PrintClauses(tree);
    ClausesShape(tree, clauses);
    SplitAlone('|', clauses, Print(tree));
    pieces := SplitPairs('|', Print(tree));
  }

  lemma PrintedTable(tree: Tree, env: FilterEnv)
    requires PlainTree(tree)
    ensures var table := ValueTable(Print(tree), env);
      |table| == |tree| && forall i :: 0 <= i < |tree| ==> ValuesOf(table[i], tree[i], env)
  {
    var text := Print(tree);
    var pieces := PrintedClauses(tree);
    var table := ValueTable(text, env);
    forall i | 0 <= i < |tree|
      ensures ValuesOf(table[i], tree[i], env)
    {
      ClauseAt(pieces, env, i);
      PrintedClause(tree[i], pieces[i], env);
    }
  }

  /** A table in which every term is understood comes to the value of its tree. */
  lemma {:induction false} TableValue(table: seq<seq<Option<bool>>>, tree: Tree, env: FilterEnv)
    requires |table| == |tree| && forall i :: 0 <= i < |tree| ==> ValuesOf(table[i], tree[i], env)
    ensures Or(table) == Some(TreeHolds(tree, env))
  {
    if |tree| > 0 {
      var last := |tree| - 1;
      TableValue(table[..last], tree[..last], env);
      AndNoneIff(table[last]);
      assert tree == tree[..last] + [tree[last]];
      assert forall k: nat :: !StopsAt(table[last], k);
      assert ClauseValue(tree[last], env) <==> forall j :: 0 <= j < |table[last]| ==> table[last][j] == Some(true);
      assert TreeHolds(tree, env) <==> TreeHolds(tree[..last], env) || ClauseValue(tree[last], env);
    }
  }

  lemma MatchesTrimmed(text: string, env: FilterEnv)
    requires Trim(text) == text && |text| > 0
    ensures Matches(text, env) == Or(ValueTable(text, env))
  {
  }

  /** The table of values the evaluator sees in a printed tree. */
  lemma SeenTable(tree: Tree, env: FilterEnv) returns (table: seq<seq<Option<bool>>>)
    requires PlainTree(tree)
    ensures |table| == |tree| && forall i :: 0 <= i < |tree| ==> ValuesOf(table[i], tree[i], env)
    ensures Matches(Print(tree), env) == Or(table)
  {
    PrintedShape(tree);
    PrintedTable(tree, env);
    MatchesTrimmed(Print(tree), env);
    table := ValueTable(Print(tree), env);
  }

  /** The printed form of an or of ands of plain comparisons has the value of the tree. */
  lemma PrintedTree(tree: Tree, env: FilterEnv)
    requires PlainTree(tree)
    ensures Matches(Print(tree), env) == Some(TreeHolds(tree, env))
  {
    var table := SeenTable(tree, env);
    TableValue(table, tree, env);
  }

  // ----- Expressions refused although settled

  /** A single term of its own, not understood. */
  predicate Unknown(u: string, env: FilterEnv) {
    Tight(u) && NoPair('|', u) && NoPair('&', u) && EvalTerm(u, env).None?
  }

  /** A clause of one term. */
  lemma OneTerm(p: string, term: string, env: FilterEnv)
    requires Padded(p, term) && Tight(term) && NoPair('&', term)
    ensures TermValues(p, env) == [EvalTerm(term, env)]
  {
    var n: nat :| PaddedAt(p, term, n);
    assert p == p[..n] + term + p[n + |term|..];
    OneGlued('&', p, p[..n], term, p[n + |term|..]);
    TrimPadded(p, term);
    TermAt([p], env, 0);
  }

  lemma TwoGlued(c: char, a: string, b: string)
    requires !IsSpace(c) && Tight(a) && Tight(b) && NoPair(c, a) && NoPair(c, b)
    ensures var e := Glue(c, [a, b]); var pieces := SplitPairs(c, e);
      Trim(e) == e && |e| > 0 && |pieces| == 2 && Padded(pieces[0], a) && Padded(pieces[1], b)
  {
    var parts := [a, b];
    TightGlue(c, parts);
    SplitAlone(c, parts, Glue(c, parts));
    assert parts[0] == a && parts[1] == b;
  }

  lemma TightGlue(c: char, parts: seq<string>)
    requires |parts| > 0 && forall i :: 0 <= i < |parts| ==> Tight(parts[i])
    ensures Trim(Glue(c, parts)) == Glue(c, parts) && |Glue(c, parts)| > 0
  {
    var e := Glue(c, parts);
    GlueTight(c, parts);
    assert PaddedAt(e, e, 0);
    TrimPadded(e, e);
  }

  /** What the evaluator sees of `a || b`, for single terms. */
  lemma SeenOr(a: string, b: string, env: FilterEnv)
    requires Tight(a) && Tight(b) && NoPair('|', a) && NoPair('|', b) && NoPair('&', a) && NoPair('&', b)
    ensures var e := Glue('|', [a, b]);
      |Trim(e)| > 0 && ValueTable(Trim(e), env) == [[EvalTerm(a, env)], [EvalTerm(b, env)]]
  {
    var e := Glue('|', [a, b]);
    TwoGlued('|', a, b);
    var pieces := SplitPairs('|', e);
    OneTerm(pieces[0], a, env);
    OneTerm(pieces[1], b, env);
    ClauseAt(pieces, env, 0);
    ClauseAt(pieces, env, 1);
    var table := ValueTable(e, env);
    assert table[0] == [EvalTerm(a, env)] && table[1] == [EvalTerm(b, env)];
  }

  /** What the evaluator sees of `a && b`. */
  lemma SeenAnd(a: string, b: string, env: FilterEnv)
    requires Tight(a) && Tight(b) && NoPair('|', a) && NoPair('|', b) && NoPair('&', a) && NoPair('&', b)
    ensures var e := Glue('&', [a, b]);
      |Trim(e)| > 0 && ValueTable(Trim(e), env) == [[EvalTerm(a, env), EvalTerm(b, env)]]
  {
    var e := Glue('&', [a, b]);
    TwoGlued('&', a, b);
    UnsplitByOr(a, b, e);
    TwoTerms(SplitPairs('&', e), a, b, e, env);
    OneClause(e, env);
  }

  lemma TwoTerms(pieces: seq<string>, a: string, b: string, e: string, env: FilterEnv)
    requires pieces == SplitPairs('&', e) && |pieces| == 2
    requires Padded(pieces[0], a) && Padded(pieces[1], b) && Tight(a) && Tight(b)
    ensures TermValues(e, env) == [EvalTerm(a, env), EvalTerm(b, env)]
  {
    TrimPadded(pieces[0], a);
    TrimPadded(pieces[1], b);
    TermAt(pieces, env, 0);
    TermAt(pieces, env, 1);
    var values := TermValues(e, env);
    assert |values| == 2 && values[0] == EvalTerm(a, env) && values[1] == EvalTerm(b, env);
  }

  lemma OneClause(e: string, env: FilterEnv)
    requires SplitPairs('|', e) == [e]
    ensures ValueTable(e, env) == [TermValues(e, env)]
  {
    var table := ValueTable(e, env);
    ClauseAt([e], env, 0);
    assert |table| == 1 && table[0] == TermValues(e, env);
  }

  lemma UnsplitByOr(a: string, b: string, e: string)
    requires NoPair('|', a) && NoPair('|', b) && e == Glue('&', [a, b])
    ensures SplitPairs('|', e) == [e]
  {
    GlueNoPair('&', '|', [a, b]);
    SplitPairsPrefix('|', e, "");
  }

  lemma PrintTermShape(c: Comparison)
    requires Plain(c.literal)
    ensures Tight(PrintTerm(c)) && NoPair('|', PrintTerm(c)) && NoPair('&', PrintTerm(c))
  {
    PrintTermTight(c);
    PrintTermNoPair(c, '|');
    PrintTermNoPair(c, '&');
  }

  lemma TrueThenUnknown(table: seq<seq<Option<bool>>>)
    requires table == [[Some(true)], [None]]
    ensures StopsAt(table[1], 0) && forall r :: ReadsTable(table, r) ==> Holds(r)
  {
    forall r | ReadsTable(table, r)
      ensures Holds(r)
    {
      assert AllTrue(r[0]);
    }
  }

  lemma UnknownThenFalse(table: seq<seq<Option<bool>>>)
    requires table == [[None, Some(false)]]
    ensures StopsAt(table[0], 0) && forall r :: ReadsTable(table, r) ==> !Holds(r)
  {
    forall r | ReadsTable(table, r)
      ensures !Holds(r)
    {
      assert !r[0][1];
    }
  }

  /** `<true comparison> || <unknown>` is true in every reading, and refused. */
  lemma RefusedThoughTrue(c: Comparison, u: string, env: FilterEnv)
    requires Plain(c.literal) && TermValue(c, env) && Unknown(u, env)
    ensures var e := Glue('|', [PrintTerm(c), u]);
      Matches(e, env).None? && forall r :: ReadsTable(ValueTable(Trim(e), env), r) ==> Holds(r)
  {
    var term, e := PrintTerm(c), Glue('|', [PrintTerm(c), u]);
    PrintTermShape(c);
    EvalPrintedTerm(c, env);
    SeenOr(term, u, env);
    var table := ValueTable(Trim(e), env);
    TrueThenUnknown(table);
    RefusedIff(e, env);
    assert StopsAt(table[1], 0);
  }

  /** `<unknown> && <false comparison>` is false in every reading, and refused. */
  lemma RefusedThoughFalse(c: Comparison, u: string, env: FilterEnv)
    requires Plain(c.literal) && !TermValue(c, env) && Unknown(u, env)
    ensures var e := Glue('&', [u, PrintTerm(c)]);
      Matches(e, env).None? && forall r :: ReadsTable(ValueTable(Trim(e), env), r) ==> !Holds(r)
  {
    var term, e := PrintTerm(c), Glue('&', [u, PrintTerm(c)]);
    PrintTermShape(c);
    EvalPrintedTerm(c, env);
    SeenAnd(u, term, env);
    var table := ValueTable(Trim(e), env);
    UnknownThenFalse(table);
    RefusedIff(e, env);
    assert StopsAt(table[0], 0);
  }

  lemma GlueTwo(c: char, a: string, b: string)
    ensures Glue(c, [a, b]) == a + [' ', c, c, ' '] + b
  {
  }

  lemma LetterIsUnknown(env: FilterEnv)
    ensures Unknown("x", env)
  {
    assert |"x"| < |"env.channel"| && |"x"| < |"env.appinfo.OS"|;
  }

  lemma HoldsText(holds: string, yes: Comparison, u: string)
    requires holds == "env.channel == 'release' || x" && u == "x" && yes == Comparison(Channel, false, "release")
    ensures holds == Glue('|', [PrintTerm(yes), u])
  {
    GlueTwo('|', PrintTerm(yes), u);
    assert holds == PrintTerm(yes) + [' ', '|', '|', ' '] + u;
  }

  lemma FailsText(fails: string, no: Comparison, u: string)
    requires fails == "x && env.channel == 'nightly'" && u == "x" && no == Comparison(Channel, false, "nightly")
    ensures fails == Glue('&', [u, PrintTerm(no)])
  {
    GlueTwo('&', u, PrintTerm(no));
    assert fails == u + [' ', '&', '&', ' '] + PrintTerm(no);
  }

  lemma ReleaseValues(yes: Comparison, no: Comparison, env: FilterEnv)
    requires env.channel == "release"
    requires yes == Comparison(Channel, false, "release") && no == Comparison(Channel, false, "nightly")
    ensures Plain(yes.literal) && Plain(no.literal) && TermValue(yes, env) && !TermValue(no, env)
  {
    assert env.channel[0] == 'r' && no.literal[0] == 'n';
  }

  lemma RefusedPair(yes: Comparison, no: Comparison, u: string, env: FilterEnv)
    requires Plain(yes.literal) && Plain(no.literal) && TermValue(yes, env) && !TermValue(no, env) && Unknown(u, env)
    ensures var holds := Glue('|', [PrintTerm(yes), u]);
      Matches(holds, env).None? && Settled(ValueTable(Trim(holds), env))
    ensures var fails := Glue('&', [u, PrintTerm(no)]);
      Matches(fails, env).None? && Settled(ValueTable(Trim(fails), env))
  {
    RefusedThoughTrue(yes, u, env);
    RefusedThoughFalse(no, u, env);
  }

  /** Two such expressions on the release channel. */
  lemma RefusedOnRelease(holds: string, fails: string, env: FilterEnv)
    requires env.channel == "release"
    requires holds == "env.channel == 'release' || x" && fails == "x && env.channel == 'nightly'"
    ensures Matches(holds, env).None? && Settled(ValueTable(Trim(holds), env))
    ensures Matches(fails, env).None? && Settled(ValueTable(Trim(fails), env))
  {
    var u, yes, no := "x", Comparison(Channel, false, "release"), Comparison(Channel, false, "nightly");
    LetterIsUnknown(env);
    HoldsText(holds, yes, u);
    FailsText(fails, no, u);
    ReleaseValues(yes, no, env);
    RefusedPair(yes, no, u, env);
  }
}
