/**
  The language of filter expressions, told by texts: which terms are understood, where an
  expression is taken apart, and what trimming takes off.
 */
module FilterTerms {
  import opened Filters
  import opened Options
  import opened Text

  // ----- Terms

  /** A comparison with all its spaces: around it, after the field name, and before the quoted literal. */
  datatype Spelling = Spelling(before: string, field: Field, lead: string, negate: bool, gap: string, literal: string,
                               after: string)

  predicate Proper(s: Spelling) {
    AllSpaces(s.before) && AllSpaces(s.lead) && AllSpaces(s.gap) && AllSpaces(s.after) && '\'' !in s.literal
  }

  function Quoted(literal: string): string {
    ['\''] + literal + ['\'']
  }

  function Name(f: Field): string {
    if f.Channel? then "env.channel" else "env.appinfo.OS"
  }

  function Operator(negate: bool): string {
    if negate then "!=" else "=="
  }

  function Bare(s: Spelling): string {
    Name(s.field) + (s.lead + (Operator(s.negate) + (s.gap + Quoted(s.literal))))
  }

  function Spell(s: Spelling): string {
    s.before + (Bare(s) + s.after)
  }

  predicate Says(s: Spelling, env: FilterEnv, value: bool) {
    value == (((if s.field.Channel? then env.channel else env.os) == s.literal) != s.negate)
  }

  lemma BareIsRead(s: Spelling, env: FilterEnv, value: bool)
    requires Proper(s) && Says(s, env, value)
    ensures EvalTerm(Bare(s), env) == Some(value)
  {
    var quoted := Quoted(s.literal);
    var rest := Operator(s.negate) + (s.gap + quoted);
    assert Name(s.field) == FieldName(s.field);
    FieldOfPrinted(s.field, s.lead + rest, env);
    TrimStartOf(s.lead, rest);
    LiteralOfQuoted(s.literal);
    TrimStartOf(s.gap, quoted);
    TrimEndOf(quoted, "");
    assert quoted + "" == quoted;
    CompareParts(if s.field.Channel? then env.channel else env.os, s.negate, s.gap + quoted);
  }

  /** A spelled comparison is understood, and has the value it says. */
  lemma SpelledIsRead(s: Spelling, env: FilterEnv, value: bool)
    requires Proper(s) && Says(s, env, value)
    ensures EvalTerm(Trim(Spell(s)), env) == Some(value)
  {
    TrimStartOf(s.before, Bare(s) + s.after);
    TrimEndOf(Bare(s), s.after);
    BareIsRead(s, env, value);
  }

  // ----- Trimming

  /** What trimming takes off are spaces, and what it leaves has none at its ends. */
  lemma {:induction false} TrimStartTakes(s: string) returns (lead: string)
    ensures s == lead + TrimStart(s) && AllSpaces(lead)
    ensures |TrimStart(s)| > 0 ==> !IsSpace(TrimStart(s)[0])
  {
    lead := "";
    if |s| > 0 && IsSpace(s[0]) {
      var rest := s[1..];
      var more := TrimStartTakes(rest);
      lead := [s[0]] + more;
      assert TrimStart(s) == TrimStart(rest);
      assert s == [s[0]] + rest;
    }
  }

  lemma {:induction false} TrimEndTakes(s: string) returns (trail: string)
    ensures s == TrimEnd(s) + trail && AllSpaces(trail)
    ensures |TrimEnd(s)| > 0 ==> !IsSpace(TrimEnd(s)[|TrimEnd(s)| - 1])
  {
    trail := "";
    if |s| > 0 && IsSpace(s[|s| - 1]) {
      var more := TrimEndTakes(s[..|s| - 1]);
      trail := more + [s[|s| - 1]];
      assert s == s[..|s| - 1] + [s[|s| - 1]];
    }
  }

  /** Trimming is taking the spaces off at both ends, and only those. */
  lemma TrimTakes(s: string) returns (lead: string, trail: string)
    ensures s == lead + (Trim(s) + trail) && AllSpaces(lead) && AllSpaces(trail)
    ensures |Trim(s)| > 0 ==> Tight(Trim(s))
  {
    lead := TrimStartTakes(s);
    trail := TrimEndTakes(TrimStart(s));
    assert |Trim(s)| > 0 ==> Trim(s)[0] == TrimStart(s)[0];
  }

  // ----- No other term is understood

  /** What is read as a literal stands between two quotes. */
  lemma LiteralIsQuoted(s: string)
    requires Literal(s).Some?
    ensures s == Quoted(Literal(s).value) && '\'' !in Literal(s).value
  {
  }

  lemma OperatorIsSpelled(field: string, rest: string) returns (negate: bool, gap: string, literal: string, trail: string)
    requires Compare(field, rest).Some?
    ensures rest == Operator(negate) + (gap + (Quoted(literal) + trail))
    ensures AllSpaces(gap) && AllSpaces(trail) && '\'' !in literal
    ensures Compare(field, rest).value == ((field == literal) != negate)
  {
    negate := StripPrefix(rest, "==").None?;
    assert rest == Operator(negate) + rest[2..];
    LiteralIsQuoted(Trim(rest[2..]));
    literal := Literal(Trim(rest[2..])).value;
    gap, trail := TrimTakes(rest[2..]);
  }

  lemma FieldIsSpelled(term: string, env: FilterEnv) returns (field: Field, rest: string)
    requires FieldOf(term, env).Some?
    ensures term == Name(field) + rest
    ensures FieldOf(term, env) == Some((if field.Channel? then env.channel else env.os, rest))
  {
    field := if StripPrefix(term, "env.channel").Some? then Channel else Os;
    rest := FieldOf(term, env).value.1;
  }

  lemma TermIsSpelled(term: string, env: FilterEnv) returns (s: Spelling)
    requires EvalTerm(term, env).Some?
    ensures Proper(s) && |s.before| == 0 && term == Bare(s) + s.after && Says(s, env, EvalTerm(term, env).value)
  {
    var field, rest := FieldIsSpelled(term, env);
    var lead := TrimStartTakes(rest);
    var negate, gap, literal, trail :=
      OperatorIsSpelled(if field.Channel? then env.channel else env.os, TrimStart(rest));
    s := Spelling("", field, lead, negate, gap, literal, trail);
    BareThen(s, rest);
  }

  lemma BareThen(s: Spelling, rest: string)
    requires rest == s.lead + (Operator(s.negate) + (s.gap + (Quoted(s.literal) + s.after)))
    ensures Name(s.field) + rest == Bare(s) + s.after
  {
  }

  lemma ReadIsSpelled(piece: string, env: FilterEnv) returns (s: Spelling)
    requires EvalTerm(Trim(piece), env).Some?
    ensures Proper(s) && piece == Spell(s) && Says(s, env, EvalTerm(Trim(piece), env).value)
  {
    var before, after := TrimTakes(piece);
    var core := TermIsSpelled(Trim(piece), env);
    s := core.(before := before, after := core.after + after);
    assert Bare(s) == Bare(core);
    Shift(before, Bare(core), core.after, after);
  }

  lemma Shift(a: string, b: string, c: string, d: string)
    ensures a + ((b + c) + d) == a + (b + (c + d))
  {
  }

  /** A piece is understood and says `value`. */
  ghost predicate SpellsOut(piece: string, env: FilterEnv, value: bool) {
    exists s :: Proper(s) && piece == Spell(s) && Says(s, env, value)
  }

  /** A term is understood, with this value, if and only if it spells out a comparison that has it. */
  lemma TermIff(piece: string, env: FilterEnv, value: bool)
    ensures EvalTerm(Trim(piece), env) == Some(value) <==> SpellsOut(piece, env, value)
  {
    if EvalTerm(Trim(piece), env) == Some(value) {
      var s := ReadIsSpelled(piece, env);
    }
    forall s | Proper(s) && piece == Spell(s) && Says(s, env, value)
      ensures EvalTerm(Trim(piece), env) == Some(value)
    {
      SpelledIsRead(s, env, value);
    }
  }

  // ----- Taking an expression apart

  /** The parts with the doubled character between them. */
  function Joined(c: char, parts: seq<string>): string {
    if |parts| == 0 then ""
    else if |parts| == 1 then parts[0]
    else parts[0] + [c, c] + Joined(c, parts[1..])
  }

  /** Cut at the leftmost pair each time: none starts in a part or at its last character. */
  predicate IsCut(c: char, parts: seq<string>) {
    && |parts| > 0
    && (forall i :: 0 <= i < |parts| ==> NoPair(c, parts[i]))
    && (forall i :: 0 <= i < |parts| - 1 && |parts[i]| > 0 ==> parts[i][|parts[i]| - 1] != c)
  }

  lemma {:induction false} CutIsSplit(c: char, parts: seq<string>)
    requires IsCut(c, parts)
    ensures SplitPairs(c, Joined(c, parts)) == parts
  {
    if |parts| == 1 {
      SplitPairsPrefix(c, parts[0], "");
    } else {
      SplitPairsPrefix(c, parts[0], Joined(c, parts[1..]));
      CutIsSplit(c, parts[1..]);
    }
  }

  lemma JoinedStarts(c: char, parts: seq<string>)
    requires |parts| > 0
    ensures |parts[0]| > 0 ==> |Joined(c, parts)| > 0 && Joined(c, parts)[0] == parts[0][0]
    ensures |parts[0]| == 0 && |parts| > 1 ==> |Joined(c, parts)| > 0 && Joined(c, parts)[0] == c
  {
  }

  lemma JoinedPrefixed(c: char, x: char, first: string, rest: seq<string>)
    ensures Joined(c, [[x] + first] + rest) == [x] + Joined(c, [first] + rest)
  {
    assert ([[x] + first] + rest)[1..] == rest && ([first] + rest)[1..] == rest;
    if |rest| > 0 {
      assert [x] + first + [c, c] + Joined(c, rest) == [x] + (first + [c, c] + Joined(c, rest));
    }
  }

  lemma FirstPrefixed(c: char, x: char, parts: seq<string>)
    requires IsCut(c, parts)
    requires |parts[0]| > 0 && x == c ==> parts[0][0] != c
    requires |parts[0]| == 0 && |parts| > 1 ==> x != c
    ensures IsCut(c, [[x] + parts[0]] + parts[1..])
  {
    var first, longer := [x] + parts[0], [[x] + parts[0]] + parts[1..];
    NoPairConcat(c, [x], parts[0]);
    assert first[|first| - 1] == if |parts[0]| > 0 then parts[0][|parts[0]| - 1] else x;
    assert longer[0] == first && forall i :: 1 <= i < |longer| ==> longer[i] == parts[i];
  }

  lemma PrefixedCut(c: char, x: char, parts: seq<string>)
    requires IsCut(c, parts) && !(x == c && |Joined(c, parts)| > 0 && Joined(c, parts)[0] == c)
    ensures IsCut(c, [[x] + parts[0]] + parts[1..])
    ensures Joined(c, [[x] + parts[0]] + parts[1..]) == [x] + Joined(c, parts)
  {
    JoinedStarts(c, parts);
    FirstPrefixed(c, x, parts);
    JoinedPrefixed(c, x, parts[0], parts[1..]);
    assert [parts[0]] + parts[1..] == parts;
  }

  lemma EmptyFirst(c: char, parts: seq<string>)
    requires IsCut(c, parts)
    ensures IsCut(c, [""] + parts) && Joined(c, [""] + parts) == [c, c] + Joined(c, parts)
  {
    assert ([""] + parts)[1..] == parts;
    assert forall i :: 1 <= i <= |parts| ==> ([""] + parts)[i] == parts[i - 1];
  }

  lemma {:induction false} SplitIsCut(c: char, text: string)
    ensures IsCut(c, SplitPairs(c, text)) && Joined(c, SplitPairs(c, text)) == text
  {
    if |text| == 0 {
    } else if |text| >= 2 && text[0] == c && text[1] == c {
      SplitIsCut(c, text[2..]);
      EmptyFirst(c, SplitPairs(c, text[2..]));
      assert text == [c, c] + text[2..];
    } else {
      SplitIsCut(c, text[1..]);
      PrefixedCut(c, text[0], SplitPairs(c, text[1..]));
      assert text == [text[0]] + text[1..];
    }
  }

  /** The parts are the only way to cut the text at its leftmost pairs; put together they give it back. */
  lemma SplitIff(c: char, text: string, parts: seq<string>)
    ensures SplitPairs(c, text) == parts <==> IsCut(c, parts) && Joined(c, parts) == text
  {
    SplitIsCut(c, text);
    if IsCut(c, parts) {
      CutIsSplit(c, parts);
    }
  }

  // ----- Expressions

  /** An expression taken apart: spaces around it, clauses between `||`, terms between `&&`. */
  datatype Parts = Parts(before: string, clauses: seq<string>, terms: seq<seq<string>>, after: string)

  predicate TakenApart(expression: string, p: Parts) {
    && expression == p.before + (Joined('|', p.clauses) + p.after)
    && AllSpaces(p.before) && AllSpaces(p.after) && Tight(Joined('|', p.clauses))
    && IsCut('|', p.clauses) && |p.terms| == |p.clauses|
    && forall i :: 0 <= i < |p.terms| ==> IsCut('&', p.terms[i]) && Joined('&', p.terms[i]) == p.clauses[i]
  }

  /** Every expression that is not blank can be taken apart. */
  lemma CanBeTakenApart(expression: string) returns (p: Parts)
    requires |Trim(expression)| > 0
    ensures TakenApart(expression, p)
  {
    var before, after := TrimTakes(expression);
    var clauses := SplitPairs('|', Trim(expression));
    SplitIsCut('|', Trim(expression));
    var terms := seq(|clauses|, i requires 0 <= i < |clauses| => SplitPairs('&', clauses[i]));
    forall i | 0 <= i < |clauses|
      ensures IsCut('&', terms[i]) && Joined('&', terms[i]) == clauses[i]
    {
      SplitIsCut('&', clauses[i]);
    }
    p := Parts(before, clauses, terms, after);
  }

  lemma PartsAreRead(expression: string, env: FilterEnv, p: Parts)
    requires TakenApart(expression, p)
    ensures |Trim(expression)| > 0
    ensures |ValueTable(Trim(expression), env)| == |p.terms|
    ensures forall i :: 0 <= i < |p.terms| ==> IsRow(p.terms[i], env, ValueTable(Trim(expression), env)[i])
  {
    var text := Joined('|', p.clauses);
    TrimStartOf(p.before, text + p.after);
    TrimEndOf(text, p.after);
    CutIsSplit('|', p.clauses);
    forall i | 0 <= i < |p.clauses|
      ensures IsRow(p.terms[i], env, ValueTable(text, env)[i])
    {
      ClauseAt(p.clauses, env, i);
      CutIsSplit('&', p.terms[i]);
      ClauseIsRow(p.clauses[i], env, p.terms[i]);
    }
  }

  /** The values of the terms of one clause. */
  predicate IsRow(terms: seq<string>, env: FilterEnv, values: seq<Option<bool>>) {
    |values| == |terms| && forall j :: 0 <= j < |terms| ==> values[j] == EvalTerm(Trim(terms[j]), env)
  }

  lemma ClauseIsRow(clause: string, env: FilterEnv, terms: seq<string>)
    requires terms == SplitPairs('&', clause)
    ensures IsRow(terms, env, TermValues(clause, env))
  {
    forall j | 0 <= j < |terms|
      ensures TermValues(clause, env)[j] == EvalTerm(Trim(terms[j]), env)
    {
      TermAt(terms, env, j);
    }
  }

  /** The term at `k` is not understood, and all terms before it are true. */
  ghost predicate Stuck(terms: seq<string>, env: FilterEnv, k: nat) {
    && k < |terms| && !SpellsOut(terms[k], env, true) && !SpellsOut(terms[k], env, false)
    && forall j :: 0 <= j < k ==> SpellsOut(terms[j], env, true)
  }

  ghost predicate AllSay(terms: seq<string>, env: FilterEnv) {
    forall j :: 0 <= j < |terms| ==> SpellsOut(terms[j], env, true)
  }

  /**
    What the text of an expression means. It is refused exactly if a term that is not a comparison
    is reached, with true comparisons before it in its clause; else it is true exactly if all
    terms of some clause are true comparisons.
   */
  lemma ExpressionIff(expression: string, env: FilterEnv, p: Parts)
    requires TakenApart(expression, p)
    ensures Matches(expression, env) == None <==> exists i, k :: 0 <= i < |p.terms| && Stuck(p.terms[i], env, k)
    ensures Matches(expression, env) == Some(true) <==>
      && (forall i, k :: 0 <= i < |p.terms| ==> !Stuck(p.terms[i], env, k))
      && (exists i :: 0 <= i < |p.terms| && AllSay(p.terms[i], env))
  {
    PartsAreRead(expression, env, p);
    TableIff(p.terms, env, ValueTable(Trim(expression), env));
  }

  lemma TableIff(terms: seq<seq<string>>, env: FilterEnv, table: seq<seq<Option<bool>>>)
    requires |table| == |terms| && forall i :: 0 <= i < |terms| ==> IsRow(terms[i], env, table[i])
    ensures Or(table) == None <==> exists i, k :: 0 <= i < |terms| && Stuck(terms[i], env, k)
    ensures Or(table) == Some(true) <==>
      && (forall i, k :: 0 <= i < |terms| ==> !Stuck(terms[i], env, k))
      && (exists i :: 0 <= i < |terms| && AllSay(terms[i], env))
  {
    OrNoneIff(table);
    forall i | 0 <= i < |terms|
      ensures And(table[i]) == None <==> exists k :: Stuck(terms[i], env, k)
      ensures And(table[i]) == Some(true) <==> AllSay(terms[i], env)
    {
      ClauseIff(terms[i], env, table[i]);
    }
    if Or(table).Some? {
      OrTrueIff(table);
    }
  }

  lemma ClauseIff(terms: seq<string>, env: FilterEnv, values: seq<Option<bool>>)
    requires IsRow(terms, env, values)
    ensures And(values) == None <==> exists k :: Stuck(terms, env, k)
    ensures And(values) == Some(true) <==> AllSay(terms, env)
  {
    AndNoneIff(values);
    RowSays(terms, env, values);
    if k :| Stuck(terms, env, k) {
      assert StopsAt(values, k);
    }
    if k: nat :| StopsAt(values, k) {
      assert Stuck(terms, env, k);
    }
  }

  lemma RowSays(terms: seq<string>, env: FilterEnv, values: seq<Option<bool>>)
    requires IsRow(terms, env, values)
    ensures forall j :: 0 <= j < |terms| ==> (values[j] == Some(true) <==> SpellsOut(terms[j], env, true))
    ensures forall j :: 0 <= j < |terms| ==> (values[j] == Some(false) <==> SpellsOut(terms[j], env, false))
  {
    forall j | 0 <= j < |terms|
      ensures values[j] == Some(true) <==> SpellsOut(terms[j], env, true)
      ensures values[j] == Some(false) <==> SpellsOut(terms[j], env, false)
    {
      TermIff(terms[j], env, true);
      TermIff(terms[j], env, false);
    }
  }

  lemma {:induction false} OrTrueIff(table: seq<seq<Option<bool>>>)
    requires Or(table).Some?
    ensures Or(table).value <==> exists i :: 0 <= i < |table| && And(table[i]) == Some(true)
  {
    if |table| > 0 {
      var before := table[..|table| - 1];
      OrTrueIff(before);
      assert forall i :: 0 <= i < |before| ==> before[i] == table[i];
    }
  }

  /** A blank expression, or none, is true. */
  lemma BlankIsTrue(expression: string, env: FilterEnv)
    requires AllSpaces(expression)
    ensures Matches(expression, env) == Some(true)
  {
    TrimSpaces(expression);
  }
}
